/** What the round trip leaves unchanged: the tree apart from added declarations, and the
    output of printing the tree that was read. */
module Reprinting {
  import opened Xml
  import opened Namespaces
  import opened Escaping
  import opened Printing
  import opened Parsing
  import opened RoundTrip
  import opened Lexing
  import opened Documents
  import opened Misreading

  // ---- the same tree up to declarations ------------------------------------------------

  /** Character data is not empty and not cut in two, as in every tree a parser builds. */
  ghost predicate Joined(n: Node) {
    n.Element? ==>
      && JoinedList(n.children)
      && forall i :: 0 <= i < |n.children| ==> Joined(n.children[i])
  }

  ghost predicate JoinedList(ns: seq<Node>) {
    && (forall i :: 0 <= i < |ns| && ns[i].Text? ==> ns[i].text != "")
    && (forall i :: 0 < i < |ns| ==> !(ns[i - 1].Text? && ns[i].Text?))
  }

  /** `m` is `n` with further namespace declarations on some of its tags. */
  ghost predicate SameButDeclarations(n: Node, m: Node) {
    match n
    case Text(_) => m == n
    case Element(name, attrs, children) =>
      && m.Element? && m.name == name && attrs <= m.attrs
      && (forall i :: |attrs| <= i < |m.attrs| ==> m.attrs[i].name.ns == NS_XMLNS)
      && |m.children| == |children|
      && forall i :: 0 <= i < |children| ==> SameButDeclarations(children[i], m.children[i])
  }

  function DecorateEach(ns: seq<Node>, b: Bindings): (r: seq<Node>)
    ensures |r| == |ns| && forall i :: 0 <= i < |ns| ==> r[i] == Decorate(ns[i], b)
  {
    if ns == [] then [] else [Decorate(ns[0], b)] + DecorateEach(ns[1..], b)
  }

  lemma {:induction false} DecorateIntoJoined(done: seq<Node>, ns: seq<Node>, b: Bindings)
    requires JoinedList(ns)
    requires done == [] || ns == [] || !(done[|done| - 1].Text? && ns[0].Text?)
    ensures DecorateInto(done, ns, b) == done + DecorateEach(ns, b)
    decreases ns
  {
    if ns != [] {
      var m := Decorate(ns[0], b);
      assert AddChild(done, m) == done + [m];
      assert JoinedList(ns[1..]);
      DecorateIntoJoined(done + [m], ns[1..], b);
      ConcatAssoc(done, [m], DecorateEach(ns[1..], b));
    }
  }

  /** The tree that comes back is the tree that was printed, up to added declarations. */
  lemma {:induction false} DecorateKeepsTree(n: Node, b: Bindings)
    requires Joined(n)
    ensures SameButDeclarations(n, Decorate(n, b))
    decreases n
  {
    if n.Element? {
      var c := Frame(b, n.name, n.attrs);
      DecorateIntoJoined([], n.children, c);
      assert [] + DecorateEach(n.children, c) == DecorateEach(n.children, c);
      forall i | 0 <= i < |n.children| ensures SameButDeclarations(n.children[i], Decorate(n.children[i], c)) {
        DecorateKeepsTree(n.children[i], c);
      }
    }
  }

  // ---- printing what was read ----------------------------------------------------------

  lemma {:induction false} AddForAttrsNothing(c: Bindings, attrs: seq<Attr>)
    requires forall i :: 0 <= i < |attrs| ==> PrefixFor(c, attrs[i].name.ns, true).Some?
    ensures AddForAttrs(c, attrs) == c
    decreases attrs
  {
    if attrs != [] {
      AddForAttrsNothing(c, attrs[1..]);
    }
  }

  /** A tag that carries all its declarations is printed in the same scope, and needs none. */
  lemma FrameAgain(b: Bindings, name: QName, attrs: seq<Attr>)
    requires ColonFree(b) && DistinctNames(attrs)
    requires forall i :: 0 <= i < |attrs| ==> IsLocal(attrs[i].name.local)
    ensures var full := FullAttrs(b, name, attrs);
            Frame(b, name, full) == Frame(b, name, attrs) && Generated(b, name, full) == []
            && FullAttrs(b, name, full) == full
  {
    var c, full := Frame(b, name, attrs), FullAttrs(b, name, attrs);
    FullAttrsDeclare(b, name, attrs);
    DeclaredPrefixes(attrs);
    FrameSpec(b, name, attrs);
    FullAttrsSpec(b, name, attrs);
    AddForAttrsNothing(c, full);
  }

  lemma ColonFreeConcat(b: Bindings, c: Bindings)
    requires ColonFree(b) && ColonFree(c)
    ensures ColonFree(b + c)
  {
  }

  lemma {:induction false} CharTokensConcat(s: string, t: string)
    ensures CharTokens(s + t) == CharTokens(s) + CharTokens(t)
  {
    if s == "" {
      assert s + t == t;
    } else {
      assert (s + t)[1..] == s[1..] + t;
      CharTokensConcat(s[1..], t);
    }
  }

  lemma {:induction false} TokensOfConcat(ns: seq<Node>, ms: seq<Node>, b: Bindings)
    ensures TokensOf(ns + ms, b) == TokensOf(ns, b) + TokensOf(ms, b)
  {
    if ns == [] {
      assert ns + ms == ms;
    } else {
      assert (ns + ms)[1..] == ns[1..] + ms;
      TokensOfConcat(ns[1..], ms, b);
      ConcatAssoc(Tokens(ns[0], b), TokensOf(ns[1..], b), TokensOf(ms, b));
    }
  }

  lemma TokensOfOne(n: Node, b: Bindings)
    ensures TokensOf([n], b) == Tokens(n, b)
  {
    assert [n][1..] == [];
  }

  lemma TokensOfAddChild(done: seq<Node>, n: Node, b: Bindings)
    ensures TokensOf(AddChild(done, n), b) == TokensOf(done, b) + Tokens(n, b)
  {
    TokensOfOne(n, b);
    TokensOfConcat(done, [n], b);
    if n.Text? && n.text != "" && done != [] && done[|done| - 1].Text? {
      var init, last := done[..|done| - 1], done[|done| - 1];
      var joined := Text(last.text + n.text);
      assert done == init + [last];
      TokensOfConcat(init, [last], b);
      TokensOfConcat(init, [joined], b);
      TokensOfOne(last, b);
      TokensOfOne(joined, b);
      CharTokensConcat(last.text, n.text);
      ConcatAssoc(TokensOf(init, b), CharTokens(last.text), CharTokens(n.text));
    }
  }

  /** Printing the tree that was read gives the tokens it was read from. */
  lemma {:induction false} TokensAgain(n: Node, b: Bindings)
    requires WellNamed(n) && ColonFree(b)
    ensures Tokens(Decorate(n, b), b) == Tokens(n, b)
    decreases n, 1
  {
    hide Frame, Generated, FullAttrs, FormatAttrs, Format, PrefixFor, Declared;
    if n.Element? {
      var c := Frame(b, n.name, n.attrs);
      DeclaredPrefixes(n.attrs);
      ColonFreeConcat(b, Declared(n.attrs));
      FrameSpec(b, n.name, n.attrs);
      FrameAgain(b, n.name, n.attrs);
      TokensAgainAll([], n.children, c);
      assert TokensOf([], c) + TokensOf(n.children, c) == TokensOf(n.children, c);
    }
  }

  lemma {:induction false} TokensAgainAll(done: seq<Node>, ns: seq<Node>, b: Bindings)
    requires (forall i :: 0 <= i < |ns| ==> WellNamed(ns[i])) && ColonFree(b)
    ensures TokensOf(DecorateInto(done, ns, b), b) == TokensOf(done, b) + TokensOf(ns, b)
    decreases ns, 0
  {
    if ns != [] {
      var m := Decorate(ns[0], b);
      TokensAgain(ns[0], b);
      TokensAgainAll(AddChild(done, m), ns[1..], b);
      TokensOfAddChild(done, m, b);
      ConcatAssoc(TokensOf(done, b), Tokens(ns[0], b), TokensOf(ns[1..], b));
    }
  }

  // ---- and the same text ---------------------------------------------------------------

  /** Neither string continues the other. */
  ghost predicate Differ(s: string, t: string) {
    exists i :: 0 <= i < |s| && i < |t| && s[i] != t[i]
  }

  lemma DifferInside(before: string, s: string, t: string, after: string, later: string)
    requires Differ(s, t)
    ensures Differ(before + s + after, before + t + later)
  {
    var i :| 0 <= i < |s| && i < |t| && s[i] != t[i];
    assert (before + s + after)[|before| + i] == s[i] && (before + t + later)[|before| + i] == t[i];
  }

  /** Escaping does not change the namespace name. */
  predicate IsSafe(s: string) {
    forall i :: 0 <= i < |s| ==> !IsUnsafe(s[i], true)
  }

  lemma {:induction false} EscapeGrows(s: string)
    ensures |Escape(s, true)| >= |s| && (|Escape(s, true)| == |s| <==> IsSafe(s))
  {
    if s != "" {
      EscapeGrows(s[1..]);
      assert s == [s[0]] + s[1..];
      assert forall i :: 0 < i < |s| ==> s[i] == s[1..][i - 1];
      assert IsSafe(s) <==> IsSafe(s[1..]) && !IsUnsafe(s[0], true) by {
        if IsSafe(s) {
          assert forall i :: 0 <= i < |s[1..]| ==> s[1..][i] == s[i + 1];
        }
      }
    }
  }

  /** A quoted value written raw and written escaped come apart no later than where the raw
      one has its first quote. */
  lemma ValueDiffers(s: string)
    requires !IsSafe(s)
    ensures Differ(Escape(s, true) + "\"", s + "\"")
  {
    EscapeGrows(s);
    EscapeIsClean(s, true);
    var k, e := Find(s, '"'), Escape(s, true);
    assert (s + "\"")[k] == '"';
    assert (e + "\"")[k] == e[k] && CleanAt(e, k, true);
  }

  ghost predicate SafeDecls(g: Bindings) {
    forall i :: 0 <= i < |g| ==> IsSafe(g[i].ns)
  }

  /** No namespace name that is written unescaped needs escaping, and no element has children
      that are all empty text. */
  ghost predicate Reprintable(n: Node, b: Bindings)
    decreases n, 1
  {
    n.Element? ==>
      && SafeDecls(Generated(b, n.name, n.attrs))
      && !Hollow(n.children)
      && ReprintableAll(n.children, Frame(b, n.name, n.attrs))
  }

  ghost predicate ReprintableAll(ns: seq<Node>, b: Bindings)
    decreases ns, 0
  {
    ns == [] || (Reprintable(ns[0], b) && ReprintableAll(ns[1..], b))
  }

  predicate Hollow(ns: seq<Node>) {
    ns != [] && forall i :: 0 <= i < |ns| ==> ns[i] == Text("")
  }

  lemma {:induction false} AttsTextConcat(a: seq<RawAtt>, d: seq<RawAtt>)
    ensures AttsText(a + d) == AttsText(a) + AttsText(d)
  {
    if a == [] {
      assert a + d == d;
    } else {
      assert (a + d)[1..] == a[1..] + d;
      AttsTextConcat(a[1..], d);
      ConcatAssoc(AttText(a[0]), AttsText(a[1..]), AttsText(d));
    }
  }

  /** A declaration as an attribute, which is escaped, and as the printer adds it. */
  lemma DeclAsAtt(d: Binding)
    requires d.prefix != ""
    ensures var a := RawAtt("xmlns:" + d.prefix, d.ns);
            if IsSafe(d.ns) then AttText(a) == DeclText(d) else Differ(AttText(a), DeclText(d))
  {
    var a := RawAtt("xmlns:" + d.prefix, d.ns);
    var start := " xmlns:" + d.prefix + "=\"";
    assert " " + a.name == " xmlns:" + d.prefix;
    if IsSafe(d.ns) {
      EscapeSafe(d.ns, true);
    } else {
      ValueDiffers(d.ns);
      DifferInside(start, Escape(d.ns, true) + "\"", d.ns + "\"", "", "");
      ConcatAssoc(start, Escape(d.ns, true), "\"");
      ConcatAssoc(start, d.ns, "\"");
      assert AttText(a) + "" == AttText(a) && DeclText(d) + "" == DeclText(d);
    }
  }

  lemma {:induction false} DeclsAsAtts(g: Bindings)
    requires forall i :: 0 <= i < |g| ==> g[i].prefix != ""
    ensures if SafeDecls(g) then AttsText(RawDecls(g)) == DeclsText(g) else Differ(AttsText(RawDecls(g)), DeclsText(g))
  {
    if g != [] {
      hide Differ, IsSafe, AttText, DeclText;
      DeclsAsAtts(g[1..]);
      DeclAsAtt(g[0]);
      var a, rest := RawDecls(g)[0], RawDecls(g[1..]);
      assert RawDecls(g)[1..] == rest;
      assert g == [g[0]] + g[1..];
      assert SafeDecls(g) <==> IsSafe(g[0].ns) && SafeDecls(g[1..]) by {
        assert forall i :: 0 <= i < |g| - 1 ==> g[1..][i] == g[i + 1];
      }
      if !IsSafe(g[0].ns) {
        DifferInside("", AttText(a), DeclText(g[0]), AttsText(rest), DeclsText(g[1..]));
        assert "" + AttText(a) == AttText(a) && "" + DeclText(g[0]) == DeclText(g[0]);
      } else if !SafeDecls(g[1..]) {
        DifferInside(AttText(a), AttsText(rest), DeclsText(g[1..]), "", "");
        assert AttText(a) + AttsText(rest) + "" == AttText(a) + AttsText(rest);
        assert AttText(a) + DeclsText(g[1..]) + "" == AttText(a) + DeclsText(g[1..]);
      }
    }
  }

  lemma TagTextAgain(b: Bindings, name: QName, attrs: seq<Attr>)
    requires ColonFree(b) && DistinctNames(attrs)
    requires forall i :: 0 <= i < |attrs| ==> IsLocal(attrs[i].name.local)
    ensures var tag, again := TagText(b, name, attrs), TagText(b, name, FullAttrs(b, name, attrs));
            if SafeDecls(Generated(b, name, attrs)) then again == tag else Differ(again, tag)
  {
    hide Frame, FormatAttrs, Format, PrefixFor, Declared, AttsText, DeclsText, Generated, FullAttrs, SafeDecls, Differ;
    var c, g := Frame(b, name, attrs), Generated(b, name, attrs);
    FrameAgain(b, name, attrs);
    TagSpells(b, name, attrs);
    DeclsAsAtts(g);
    var start := "<" + Format(c, name, false) + AttsText(FormatAttrs(c, attrs));
    if !SafeDecls(g) {
      DifferInside(start, AttsText(RawDecls(g)), DeclsText(g), "", "");
      assert start + AttsText(RawDecls(g)) + "" == start + AttsText(RawDecls(g));
      assert start + DeclsText(g) + "" == start + DeclsText(g);
    }
  }

  /** The tag that carries its declarations writes them after its own attributes. */
  lemma TagSpells(b: Bindings, name: QName, attrs: seq<Attr>)
    requires ColonFree(b) && DistinctNames(attrs)
    requires forall i :: 0 <= i < |attrs| ==> IsLocal(attrs[i].name.local)
    ensures var c, g := Frame(b, name, attrs), Generated(b, name, attrs);
            && (forall i :: 0 <= i < |g| ==> g[i].prefix != "")
            && TagText(b, name, FullAttrs(b, name, attrs)) ==
               "<" + Format(c, name, false) + AttsText(FormatAttrs(c, attrs)) + AttsText(RawDecls(g))
  {
    hide Frame, FormatAttrs, Format, PrefixFor, Declared, AttsText;
    var c, g := Frame(b, name, attrs), Generated(b, name, attrs);
    FrameAgain(b, name, attrs);
    DeclaredPrefixes(attrs);
    ColonFreeConcat(b, Declared(attrs));
    FrameSpec(b, name, attrs);
    assert forall i :: 0 <= i < |g| ==> g[i] == c[|b| + |Declared(attrs)| + i];
    FormatDecls(c, attrs, g);
    AttsTextConcat(FormatAttrs(c, attrs), RawDecls(g));
    var f := "<" + Format(c, name, false);
    ConcatAssoc(f, AttsText(FormatAttrs(c, attrs)), AttsText(RawDecls(g)));
    assert (f + (AttsText(FormatAttrs(c, attrs)) + AttsText(RawDecls(g)))) + "" ==
           f + (AttsText(FormatAttrs(c, attrs)) + AttsText(RawDecls(g)));
  }

  /** The text of the children that are read, which may be joined, one by one. */
  ghost function AgainText(ns: seq<Node>, b: Bindings): string {
    if ns == [] then "" else NodeText(Decorate(ns[0], b), b) + AgainText(ns[1..], b)
  }

  lemma {:induction false} NodesTextConcat(ns: seq<Node>, ms: seq<Node>, b: Bindings)
    ensures NodesText(ns + ms, b) == NodesText(ns, b) + NodesText(ms, b)
  {
    if ns == [] {
      assert ns + ms == ms;
    } else {
      assert (ns + ms)[1..] == ns[1..] + ms;
      NodesTextConcat(ns[1..], ms, b);
      ConcatAssoc(NodeText(ns[0], b), NodesText(ns[1..], b), NodesText(ms, b));
    }
  }

  lemma NodesTextOne(n: Node, b: Bindings)
    ensures NodesText([n], b) == NodeText(n, b)
  {
    assert [n][1..] == [];
  }

  lemma NodesTextAddChild(done: seq<Node>, n: Node, b: Bindings)
    ensures NodesText(AddChild(done, n), b) == NodesText(done, b) + NodeText(n, b)
  {
    NodesTextOne(n, b);
    NodesTextConcat(done, [n], b);
    if n.Text? && n.text != "" && done != [] && done[|done| - 1].Text? {
      var init, last := done[..|done| - 1], done[|done| - 1];
      var joined := Text(last.text + n.text);
      assert done == init + [last];
      NodesTextConcat(init, [last], b);
      NodesTextConcat(init, [joined], b);
      NodesTextOne(last, b);
      NodesTextOne(joined, b);
      EscapeConcat(last.text, n.text, false);
      ConcatAssoc(NodesText(init, b), Escape(last.text, false), Escape(n.text, false));
    }
  }

  lemma {:induction false} DecorateIntoText(done: seq<Node>, ns: seq<Node>, b: Bindings)
    ensures NodesText(DecorateInto(done, ns, b), b) == NodesText(done, b) + AgainText(ns, b)
    decreases ns
  {
    if ns != [] {
      var m := Decorate(ns[0], b);
      DecorateIntoText(AddChild(done, m), ns[1..], b);
      NodesTextAddChild(done, m, b);
      ConcatAssoc(NodesText(done, b), NodeText(m, b), AgainText(ns[1..], b));
    }
  }

  /** All children vanish when they are read exactly if they are all empty text. */
  lemma {:induction false} DecorateIntoEmpty(done: seq<Node>, ns: seq<Node>, b: Bindings)
    ensures DecorateInto(done, ns, b) == [] <==> done == [] && (ns == [] || Hollow(ns))
    decreases ns
  {
    if ns != [] {
      var m := Decorate(ns[0], b);
      DecorateIntoEmpty(AddChild(done, m), ns[1..], b);
      assert AddChild(done, m) == [] <==> done == [] && ns[0] == Text("");
      assert Hollow(ns) <==> ns[0] == Text("") && (ns[1..] == [] || Hollow(ns[1..])) by {
        assert ns == [ns[0]] + ns[1..];
      }
    }
  }

  lemma {:induction false} NodesTextAgain(ns: seq<Node>, b: Bindings)
    requires (forall i :: 0 <= i < |ns| ==> WellNamed(ns[i])) && ColonFree(b)
    ensures var text, again := NodesText(ns, b), AgainText(ns, b);
            if ReprintableAll(ns, b) then again == text else Differ(again, text)
    decreases ns, 0
  {
    if ns != [] {
      hide Differ, Reprintable;
      TextAgainCases(ns[0], b);
      NodesTextAgain(ns[1..], b);
      var x, y := NodeText(Decorate(ns[0], b), b), NodeText(ns[0], b);
      var r, s := AgainText(ns[1..], b), NodesText(ns[1..], b);
      if !Reprintable(ns[0], b) {
        DifferInside("", x, y, r, s);
        assert "" + x == x && "" + y == y;
      } else if !ReprintableAll(ns[1..], b) {
        DifferInside(x, r, s, "", "");
        assert x + r + "" == x + r && x + s + "" == x + s;
      }
    }
  }

  lemma BodyTextAgain(c: Bindings, name: QName, ns: seq<Node>)
    requires (forall i :: 0 <= i < |ns| ==> WellNamed(ns[i])) && ColonFree(c)
    ensures var body, again := BodyText(c, name, ns), BodyText(c, name, DecorateInto([], ns, c));
            if !Hollow(ns) && ReprintableAll(ns, c) then again == body else Differ(again, body)
    decreases ns, 1
  {
    assert !Hollow([]);
    hide Differ, Hollow, Format, DecorateInto, AgainText, ReprintableAll;
    NodesTextAgain(ns, c);
    DecorateIntoText([], ns, c);
    DecorateIntoEmpty([], ns, c);
    assert "" + AgainText(ns, c) == AgainText(ns, c);
    var body, again := BodyText(c, name, ns), BodyText(c, name, DecorateInto([], ns, c));
    var end := "</" + Format(c, name, false) + ">";
    if ns != [] && Hollow(ns) {
      assert Differ(again, body) by { FirstDiffers(again, body); }
    } else if ns != [] && !ReprintableAll(ns, c) {
      DifferInside(">", AgainText(ns, c), NodesText(ns, c), end, end);
      EndPieces(AgainText(ns, c), Format(c, name, false));
      EndPieces(NodesText(ns, c), Format(c, name, false));
    }
  }

  lemma EndPieces(kids: string, name: string)
    ensures ">" + kids + "</" + name + ">" == ">" + kids + ("</" + name + ">")
  {
  }

  lemma FirstDiffers(s: string, t: string)
    requires s != "" && t != "" && s[0] != t[0]
    ensures Differ(s, t)
  {
  }

  lemma {:induction false} TextAgainCases(n: Node, b: Bindings)
    requires WellNamed(n) && ColonFree(b)
    ensures var text, again := NodeText(n, b), NodeText(Decorate(n, b), b);
            if Reprintable(n, b) then again == text else Differ(again, text)
    decreases n, 1
  {
    if n.Element? {
      hide Differ, Hollow, Frame, Generated, FullAttrs, TagText, BodyText, SafeDecls, Declared;
      var c, full := Frame(b, n.name, n.attrs), FullAttrs(b, n.name, n.attrs);
      DeclaredPrefixes(n.attrs);
      ColonFreeConcat(b, Declared(n.attrs));
      FrameSpec(b, n.name, n.attrs);
      FrameAgain(b, n.name, n.attrs);
      TagTextAgain(b, n.name, n.attrs);
      BodyTextAgain(c, n.name, n.children);
      var tag, body := TagText(b, n.name, n.attrs), BodyText(c, n.name, n.children);
      var tag2, body2 := TagText(b, n.name, full), BodyText(c, n.name, DecorateInto([], n.children, c));
      if !SafeDecls(Generated(b, n.name, n.attrs)) {
        DifferInside("", tag2, tag, body2, body);
        assert "" + tag2 == tag2 && "" + tag == tag;
      } else if !(!Hollow(n.children) && ReprintableAll(n.children, c)) {
        DifferInside(tag, body2, body, "", "");
        assert tag + body2 + "" == tag + body2 && tag + body + "" == tag + body;
      }
    }
  }

  /** Printing the tree that was read gives the text it was read from, if and only if no
      unescaped namespace name needs escaping and no element has only empty text. */
  lemma TextAgain(n: Node, b: Bindings)
    requires WellNamed(n) && ColonFree(b)
    ensures NodeText(Decorate(n, b), b) == NodeText(n, b) <==> Reprintable(n, b)
  {
    TextAgainCases(n, b);
  }

  /** A namespace name with a '>' is written as it is the first time, and escaped when the tree
      that was read is printed. */
  lemma EscapedTheSecondTime()
    ensures var e := Element(QName("a>b", "x"), [], []);
            WellNamed(e) && PlainTree(e, []) && Namable(e, []) && NodeText(Decorate(e, []), []) != NodeText(e, [])
  {
    var e := Element(QName("a>b", "x"), [], []);
    hide Generated, Frame, FreshPrefix, NodeText, Decorate, Declared;
    GeneratedForName("a>b", "x");
    var g := Generated([], e.name, []);
    assert g[0].ns[1] == '>';
    assert !IsSafe(g[0].ns);
    TextAgain(e, []);
  }

  /** At the top of a document a namespace gets a prefix. */
  lemma GeneratedForName(ns: string, local: string)
    requires ns != "" && ns != NS_XML && ns != NS_XMLNS
    ensures Generated([], QName(ns, local), []) == [Binding(FreshPrefix([], ns), ns)]
  {
    hide FreshPrefix;
    assert [] + Declared([]) == [];
    assert PrefixFor([], ns, false).None?;
    assert AddNew([], ns, false) == [Binding(FreshPrefix([], ns), ns)];
  }

  /** An element whose only child is empty text is read as an element without children. */
  lemma EmptyTextVanishes()
    ensures var e := Element(QName("", "a"), [], [Text("")]);
            WellNamed(e) && NodeText(Decorate(e, []), []) != NodeText(e, [])
  {
    var e := Element(QName("", "a"), [], [Text("")]);
    assert Hollow(e.children);
    TextAgain(e, []);
  }

  // ---- where the round trip fails ------------------------------------------------------

  /** An unqualified element under a default namespace is printed with a prefix bound to the
      empty name, which the parser rejects. */
  lemma UnqualifiedUnderDefault()
    ensures var child := Element(QName("", "b"), [], []);
            var e := Element(QName("u", "a"), [Attr(QN_XMLNS, "u")], [child]);
            WellNamed(e) && Run(FreshParser, Tokens(e, [])).raised == ERROR_SYNTAX
  {
    hide Run, Tokens, Decorate, Frame, ScanPrefix, FreshPrefix;
    var child := Element(QName("", "b"), [], []);
    var e := Element(QName("u", "a"), [Attr(QN_XMLNS, "u")], [child]);
    DefaultFrame();
    var b1 := [Binding("", "u")];
    assert Declared([]) == [] && b1 + [] == b1;
    assert Lookup(b1, "") == Some("u");
    assert !NamableTag(b1, child.name, []);
    assert !Namable(child, b1) && !NamableAll([child], b1);
    PrintThenParse(e);
  }

  lemma DefaultFrame()
    ensures Frame([], QName("u", "a"), [Attr(QN_XMLNS, "u")]) == [Binding("", "u")]
  {
    var attrs, b1 := [Attr(QN_XMLNS, "u")], [Binding("", "u")];
    assert attrs[1..] == [];
    assert Declared(attrs) == b1 && [] + b1 == b1;
    assert Lookup(b1, "") == Some("u");
    assert AddForAttrs(b1, attrs) == AddForAttrs(AddNew(b1, "", true), attrs[1..]) == b1;
  }

  /** A tab in an attribute value is written as it is and read as a blank. */
  lemma TabBecomesBlank()
    ensures var e := Element(QName("", "a"), [Attr(QName("", "k"), "\t")], []);
            Spellable(e) && Namable(e, []) && ForStr(NodeText(e, [])) != Some(Decorate(e, []))
  {
    var e := Element(QName("", "a"), [Attr(QName("", "k"), "\t")], []);
    TabNamable(e);
    assert !IsValueChar(e.attrs[0].value[0]);
    assert !IsValue(e.attrs[0].value);
    hide NodeText, Decorate, ForStr, Frame, Generated, PlainDecls, Namable, Spellable, IsValue;
    DocumentRoundTrip(e);
  }

  lemma TabNamable(e: Node)
    requires e == Element(QName("", "a"), [Attr(QName("", "k"), "\t")], [])
    ensures Spellable(e) && Namable(e, [])
  {
    hide Frame;
    assert Declared(e.attrs) == [] + [] by { assert e.attrs[1..] == []; }
    assert [] + Declared(e.attrs) == [];
  }

  /** A namespace name with an ampersand is written unescaped and is not read back. */
  lemma UnescapedNamespace()
    ensures var e := Element(QName("a&b", "x"), [], []);
            && Spellable(e) && Namable(e, [])
            && Lex(NodeText(e, []), []) != Some(Tokens(e, [])) && ForStr(NodeText(e, [])) != Some(Decorate(e, []))
  {
    var e := Element(QName("a&b", "x"), [], []);
    hide Generated, Frame, FreshPrefix, NodeText, Declared, Lex, Decorate, ForStr;
    GeneratedForName("a&b", "x");
    var g := Generated([], e.name, []);
    assert g[0].ns[1] == '&';
    assert !IsPlain(g[0].ns);
    TextSpellsTokens(e);
    DocumentRoundTrip(e);
  }
}
