/** Reading a document, printing its tree and reading that. The tree that is read is well
    named and its text is joined, so it is read back as it is exactly when it declares what
    it uses; the tree of a conforming document does. */
module Rereading {
  import opened Xml
  import opened Namespaces
  import opened Printing
  import opened Parsing
  import opened RoundTrip
  import opened Lexing
  import opened Reprinting
  import opened Exactness

  // ---- which documents are meant -------------------------------------------------------

  /** A name with at most one colon, and something on both sides of it, as section 4 of
      Namespaces in XML 1.0 requires. */
  predicate IsSpelled(s: string) {
    var i := Find(s, ':');
    s != "" && (i == |s| || (i > 0 && IsLocal(s[i + 1..])))
  }

  /** A tag with such names, none twice. */
  predicate Spelled(t: Token) {
    t.Start? ==>
      IsSpelled(t.tag) && UniqueAtts(t.atts) && forall i :: 0 <= i < |t.atts| ==> IsSpelled(t.atts[i].name)
  }

  /** No prefix is bound to the namespace of the declarations themselves, as section 3 of
      Namespaces in XML 1.0 requires. */
  predicate Conforms(t: Token) {
    t.Start? ==> forall i :: 0 <= i < |t.atts| && "xmlns:" <= t.atts[i].name ==> t.atts[i].value != NS_XMLNS
  }

  // ---- names and declarations of one tag -----------------------------------------------

  /** A stack without a prefix for the namespace of the declarations. */
  ghost predicate Sound(c: Bindings) {
    forall i :: 0 <= i < |c| && c[i].prefix != "" ==> c[i].ns != NS_XMLNS
  }

  /** What a spelled name is resolved to. */
  lemma ResolveSpelled(c: Bindings, s: string, isAttr: bool)
    requires GoodStack(c) && IsSpelled(s) && !Resolve(c, s, isAttr).IsEmpty()
    ensures var q := Resolve(c, s, isAttr);
            && IsLocal(q.local)
            && PrefixFor(c, q.ns, isAttr).Some?
            && (q.ns == "" ==> q == QName("", s) && ':' !in s && (isAttr || NsFor(c, "") == Some("")))
            && (q.ns == NS_XMLNS && isAttr && Sound(c) ==> s == "xmlns:" + q.local)
  {
    hide ScanPrefix, Lookup, Find, PrefixFor;
    var i, q := Find(s, ':'), Resolve(c, s, isAttr);
    if i < |s| {
      var p := s[..i];
      LookupMember(c, p);
      assert s == p + ":" + s[i + 1..];
      PrefixForInverse(c, q.ns, isAttr);
      assert Meaning(c, p, isAttr) == Some(q.ns);
      assert "xmlns" + ":" + q.local == "xmlns:" + q.local;
    } else {
      assert s[..|s|] == s;
      PrefixForInverse(c, q.ns, isAttr);
      assert Meaning(c, "", isAttr) == Some(q.ns);
    }
  }

  /** An attribute declares to the printer what it declared to the parser. */
  lemma DeclarationAgain(c: Bindings, a: RawAtt)
    requires GoodStack(c) && Sound(c) && IsSpelled(a.name)
    requires !Resolve(c, a.name, true).IsEmpty() && DeclOf(a) != Illegal
    ensures var d := Declaration(Attr(Resolve(c, a.name, true), a.value));
            d == match DeclOf(a) case Declares(x) => [x] case _ => []
  {
    ResolveSpelled(c, a.name, true);
    hide Lookup, NsFor, PrefixFor;
    var q := Resolve(c, a.name, true);
    if "xmlns:" <= a.name {
      XmlnsResolves(c, a.name);
    } else if "xmlns" <= a.name && |a.name| == 5 {
      assert a.name == "xmlns";
      XmlnsAlone(c);
    } else {
      assert "xmlns" <= a.name && |a.name| > 5 && a.name[5] == ':' ==> "xmlns:" <= a.name;
    }
  }

  lemma XmlnsResolves(c: Bindings, s: string)
    requires "xmlns:" <= s
    ensures Resolve(c, s, true) == QName(NS_XMLNS, s[6..]) && "xmlns" <= s && s[5] == ':'
  {
    assert s[..5] == "xmlns";
    FindIs(s, ':', 5);
  }

  lemma XmlnsAlone(c: Bindings)
    ensures Resolve(c, "xmlns", true) == QN_XMLNS
  {
    assert "xmlns"[..5] == "xmlns";
    FindIs("xmlns", ':', 5);
  }

  /** `attrs` are the attributes that are built from `atts`. */
  ghost predicate Built(c: Bindings, atts: seq<RawAtt>, attrs: seq<Attr>) {
    && |attrs| == |atts|
    && (forall i :: 0 <= i < |atts| ==>
         attrs[i] == Attr(Resolve(c, atts[i].name, true), atts[i].value) && !attrs[i].name.IsEmpty())
    && (forall i, j :: 0 <= i < j < |atts| && attrs[i].name.ns != "" ==> attrs[i].name != attrs[j].name)
  }

  /** The attributes that are built: resolved one by one, no qualified name twice. */
  lemma {:induction false} BuildSpec(c: Bindings, atts: seq<RawAtt>, seen: set<QName>)
    ensures var r := BuildAttrs(c, atts, seen);
            r.Some? ==>
              && Built(c, atts, r.value)
              && forall i :: 0 <= i < |atts| && r.value[i].name.ns != "" ==> r.value[i].name !in seen
    decreases atts
  {
    hide Resolve;
    if atts != [] {
      var q := Resolve(c, atts[0].name, true);
      BuildSpec(c, atts[1..], if q.ns != "" then seen + {q} else seen);
    }
  }

  ghost predicate AllSpelled(atts: seq<RawAtt>) {
    forall i :: 0 <= i < |atts| ==> IsSpelled(atts[i].name)
  }

  /** Declarations with spelled names keep the stack good. */
  lemma {:induction false} DeclsGood(atts: seq<RawAtt>)
    requires AllSpelled(atts)
    ensures GoodStack(StartDecls(atts).0)
    ensures Conforms(Start("", atts)) ==> Sound(StartDecls(atts).0)
    decreases atts
  {
    if atts != [] {
      assert forall i :: 0 <= i < |atts| - 1 ==> atts[1..][i] == atts[i + 1];
      DeclsGood(atts[1..]);
      var a := atts[0];
      if "xmlns" <= a.name && |a.name| > 5 && a.name[5] == ':' {
        assert "xmlns:" <= a.name;
        assert a.name[..5] == "xmlns";
        FindIs(a.name, ':', 5);
      }
    }
  }

  lemma SoundConcat(b: Bindings, c: Bindings)
    requires Sound(b) && Sound(c)
    ensures Sound(b + c)
  {
  }

  /** Every built attribute is well named and has a prefix, and no two have the same name. */
  lemma BuiltNames(c: Bindings, atts: seq<RawAtt>, attrs: seq<Attr>)
    requires GoodStack(c) && UniqueAtts(atts) && AllSpelled(atts) && Built(c, atts, attrs)
    ensures forall i :: 0 <= i < |attrs| ==> IsLocal(attrs[i].name.local) && PrefixFor(c, attrs[i].name.ns, true).Some?
    ensures DistinctNames(attrs)
  {
    hide Resolve, GoodStack, IsSpelled, PrefixFor;
    forall i | 0 <= i < |attrs|
      ensures IsLocal(attrs[i].name.local) && PrefixFor(c, attrs[i].name.ns, true).Some?
      ensures attrs[i].name.ns == "" ==> attrs[i].name.local == atts[i].name
    {
      ResolveSpelled(c, atts[i].name, true);
    }
    forall i, j | 0 <= i < j < |attrs| ensures attrs[i].name != attrs[j].name {
      assert atts[i].name != atts[j].name;
    }
  }

  // ---- every run: well-named trees with joined text ------------------------------------

  ghost predicate ShapedNode(n: Node) { n.Element? && WellNamed(n) && Joined(n) }

  /** What every run over spelled tags keeps. */
  ghost predicate Shaped(p: Parser) {
    p.raised == ERROR_NONE ==>
      && GoodStack(p.ns)
      && (forall i :: 0 <= i < |p.open| ==> ShapedNode(p.open[i].Closed()))
      && (p.root.Some? ==> ShapedNode(p.root.value))
  }

  lemma BuildShaped(c: Bindings, tag: string, atts: seq<RawAtt>)
    requires GoodStack(c) && Spelled(Start(tag, atts))
    ensures var el := Build(c, tag, atts);
            el.Some? ==> el.value.children == [] && ShapedNode(el.value.Closed()) && Built(c, atts, el.value.attrs)
  {
    hide Resolve, GoodStack, IsSpelled, Built;
    var el := Build(c, tag, atts);
    if el.Some? {
      BuildSpec(c, atts, {});
      ResolveSpelled(c, tag, false);
      BuiltNames(c, atts, el.value.attrs);
    }
  }

  lemma StartShaped(p: Parser, t: Token)
    requires p.raised == ERROR_NONE && Shaped(p) && t.Start? && Spelled(t)
    ensures Shaped(Step(p, t))
  {
    hide StartDecls, Build, ShapedNode, GoodStack, IsSpelled;
    var (decls, ok) := StartDecls(t.atts);
    DeclsGood(t.atts);
    GoodConcat(p.ns, decls);
    BuildShaped(p.ns + decls, t.tag, t.atts);
  }

  lemma AddChildShaped(el: OpenElement, n: Node)
    requires ShapedNode(el.Closed()) && (n.Element? ==> ShapedNode(n))
    ensures ShapedNode(el.(children := AddChild(el.children, n)).Closed())
  {
    var kids, now := el.children, AddChild(el.children, n);
    if n.Text? && n.text != "" && kids != [] && kids[|kids| - 1].Text? {
      assert kids[|kids| - 1].text + n.text != "";
    }
    forall i | 0 <= i < |now| ensures WellNamed(now[i]) && Joined(now[i]) {
      if i < |kids| - 1 { assert now[i] == kids[i]; }
    }
    assert JoinedList(now);
  }

  lemma AttachShaped(p: Parser, n: Node)
    requires p.raised == ERROR_NONE && Shaped(p) && (n.Element? ==> ShapedNode(n))
    ensures Shaped(Attach(p, n))
  {
    hide ShapedNode, AddChild, GoodStack;
    if p.open != [] {
      AddChildShaped(p.open[|p.open| - 1], n);
    }
  }

  lemma StepShaped(p: Parser, t: Token)
    requires Shaped(p) && Spelled(t)
    ensures Shaped(Step(p, t))
  {
    if p.raised == ERROR_NONE {
      hide Spelled, ShapedNode;
      match t
      case Start(_, _) => StartShaped(p, t);
      case Chars(c) => AttachShaped(p, Text(c));
      case End(_) => EndShaped(p);
    }
  }

  lemma EndShaped(p: Parser)
    requires p.raised == ERROR_NONE && Shaped(p)
    ensures Shaped(OnEnd(p))
  {
    hide ShapedNode, Attach;
    if p.depths != [] && p.open != [] {
      var n, d := |p.open| - 1, |p.depths| - 1;
      var q := p.(ns := PopBindings(p.ns, p.depths[d]), depths := p.depths[..d], open := p.open[..n]);
      AttachShaped(q, p.open[n].Closed());
    }
  }

  lemma {:induction false} RunShaped(p: Parser, ts: seq<Token>)
    requires Shaped(p) && forall i :: 0 <= i < |ts| ==> Spelled(ts[i])
    ensures Shaped(Run(p, ts))
    decreases ts
  {
    if ts != [] {
      hide Shaped, Spelled;
      StepShaped(p, ts[0]);
      RunShaped(Step(p, ts[0]), ts[1..]);
    }
  }

  lemma FreshShaped()
    ensures Shaped(FreshParser)
  {
  }

  /** Whatever document is read, its tree is printed and read back as it is, if and only if
      the tree declares what it uses: no declaration of it is empty, and each namespace has a
      prefix by the declarations around it. */
  lemma ReadThenPrintIff(ts: seq<Token>)
    requires forall i :: 0 <= i < |ts| ==> Spelled(ts[i])
    requires var p := Run(FreshParser, ts); p.raised == ERROR_NONE && p.root.Some?
    ensures var t := Run(FreshParser, ts).root.value;
            && ShapedNode(t)
            && (Run(FreshParser, Tokens(t, [])) == FreshParser.(root := Some(t)) <==> Scoped(t, []))
  {
    FreshShaped();
    hide Run, Scoped, Tokens, Spelled, WellNamed, Joined;
    RunShaped(FreshParser, ts);
    SameTokensIff(Run(FreshParser, ts).root.value);
  }

  // ---- conforming runs: scoped trees ---------------------------------------------------

  lemma {:induction false} DeclaredAgain(c: Bindings, atts: seq<RawAtt>, attrs: seq<Attr>)
    requires GoodStack(c) && Sound(c) && AllSpelled(atts) && |attrs| == |atts| && StartDecls(atts).1
    requires forall i :: 0 <= i < |atts| ==>
               attrs[i] == Attr(Resolve(c, atts[i].name, true), atts[i].value) && !attrs[i].name.IsEmpty()
    ensures Declared(attrs) == StartDecls(atts).0
    decreases atts
  {
    hide Resolve, IsSpelled, Declaration;
    if atts != [] {
      DeclarationAgain(c, atts[0]);
      assert forall i :: 0 <= i < |atts| - 1 ==> atts[1..][i] == atts[i + 1] && attrs[1..][i] == attrs[i + 1];
      DeclaredAgain(c, atts[1..], attrs[1..]);
    }
  }

  /** No prefix is declared to be empty. */
  lemma BuiltValues(c: Bindings, atts: seq<RawAtt>, attrs: seq<Attr>)
    requires GoodStack(c) && Sound(c) && AllSpelled(atts) && Built(c, atts, attrs) && StartDecls(atts).1
    ensures forall i :: 0 <= i < |attrs| && attrs[i].name.ns == NS_XMLNS ==> attrs[i].value != ""
  {
    hide Resolve, GoodStack, Sound, IsSpelled, PrefixFor, StartDecls;
    forall i | 0 <= i < |attrs| && attrs[i].name.ns == NS_XMLNS ensures attrs[i].value != "" {
      ResolveSpelled(c, atts[i].name, true);
      NoIllegal(atts, i);
      var s := atts[i].name;
      assert s == "xmlns:" + attrs[i].name.local;
      assert s[..5] == "xmlns" && s[5] == ':';
    }
  }

  lemma {:induction false} NoIllegal(atts: seq<RawAtt>, i: nat)
    requires StartDecls(atts).1 && i < |atts|
    ensures DeclOf(atts[i]) != Illegal
    decreases atts
  {
    if i > 0 {
      NoIllegal(atts[1..], i - 1);
    }
  }

  /** The tag that is built from conforming tokens is scoped, and declares what they do. */
  lemma BuildScoped(b: Bindings, tag: string, atts: seq<RawAtt>)
    requires GoodStack(b) && Sound(b) && Spelled(Start(tag, atts)) && Conforms(Start(tag, atts)) && StartDecls(atts).1
    ensures var c := b + StartDecls(atts).0; var el := Build(c, tag, atts);
            el.Some? ==>
              Sound(c) && el.value.children == [] && b + Declared(el.value.attrs) == c
              && ScopedTag(b, el.value.name, el.value.attrs)
  {
    hide StartDecls, Resolve, Sound, GoodStack, IsSpelled, Declared, PrefixFor, Built;
    var c := b + StartDecls(atts).0;
    var el := Build(c, tag, atts);
    assert Conforms(Start("", atts));
    DeclsGood(atts);
    GoodConcat(b, StartDecls(atts).0);
    SoundConcat(b, StartDecls(atts).0);
    if el.Some? {
      BuildShaped(c, tag, atts);
      BuiltDeclares(c, atts, el.value.attrs);
      ResolveSpelled(c, tag, false);
      BuiltNames(c, atts, el.value.attrs);
      BuiltValues(c, atts, el.value.attrs);
    }
  }

  lemma BuiltDeclares(c: Bindings, atts: seq<RawAtt>, attrs: seq<Attr>)
    requires GoodStack(c) && Sound(c) && AllSpelled(atts) && Built(c, atts, attrs) && StartDecls(atts).1
    ensures Declared(attrs) == StartDecls(atts).0
  {
    hide GoodStack, Sound, AllSpelled, Resolve, StartDecls, Declared;
    DeclaredAgain(c, atts, attrs);
  }

  /** The declarations of the open elements, outermost first. */
  ghost function Scope(open: seq<OpenElement>): Bindings {
    if open == [] then [] else Scope(open[..|open| - 1]) + Declared(open[|open| - 1].attrs)
  }

  ghost function Depths(open: seq<OpenElement>): (r: seq<nat>)
    ensures |r| == |open|
  {
    if open == [] then [] else Depths(open[..|open| - 1]) + [|Scope(open[..|open| - 1])|]
  }

  /** Each open element is scoped as far as it has been read. */
  ghost predicate ScopedOpen(open: seq<OpenElement>) {
    open == [] ||
    (ScopedOpen(open[..|open| - 1]) && Scoped(open[|open| - 1].Closed(), Scope(open[..|open| - 1])))
  }

  /** What every conforming run keeps: the parser's stack is what the tree declares. */
  ghost predicate InScope(p: Parser) {
    p.raised == ERROR_NONE ==>
      && Sound(p.ns) && p.ns == Scope(p.open) && p.depths == Depths(p.open) && ScopedOpen(p.open)
      && (p.root.Some? ==> Scoped(p.root.value, []))
  }

  lemma Snoc(open: seq<OpenElement>, el: OpenElement)
    ensures Scope(open + [el]) == Scope(open) + Declared(el.attrs)
    ensures Depths(open + [el]) == Depths(open) + [|Scope(open)|]
    ensures ScopedOpen(open + [el]) <==> ScopedOpen(open) && Scoped(el.Closed(), Scope(open))
  {
    assert (open + [el])[..|open|] == open;
  }

  lemma AttachInScope(p: Parser, n: Node)
    requires p.raised == ERROR_NONE && InScope(p) && Scoped(n, p.ns)
    ensures InScope(Attach(p, n))
  {
    hide Scoped, Sound, Scope, Depths, ScopedOpen, AddChild;
    if p.open != [] {
      var init, top := p.open[..|p.open| - 1], p.open[|p.open| - 1];
      var now := top.(children := AddChild(top.children, n));
      assert init + [top] == p.open;
      Snoc(init, top);
      Snoc(init, now);
      GrownScoped(top, n, Scope(init));
    } else if n.Element? {
      NoScope();
    }
  }

  lemma NoScope()
    ensures Scope([]) == []
  {
  }

  lemma GrownScoped(top: OpenElement, n: Node, b: Bindings)
    requires Scoped(top.Closed(), b) && Scoped(n, b + Declared(top.attrs))
    ensures Scoped(top.(children := AddChild(top.children, n)).Closed(), b)
  {
    hide ScopedTag, Declared;
    var kids, now := top.children, AddChild(top.children, n);
    forall i | 0 <= i < |now| ensures Scoped(now[i], b + Declared(top.attrs)) {
      if i < |kids| - 1 { assert now[i] == kids[i]; }
    }
  }

  lemma StartInScope(p: Parser, t: Token)
    requires p.raised == ERROR_NONE && InScope(p) && GoodStack(p.ns) && t.Start? && Spelled(t) && Conforms(t)
    ensures InScope(Step(p, t))
  {
    hide Spelled, Conforms, Sound, GoodStack, ScopedTag, StartDecls, Build, Scoped, Scope, Depths, ScopedOpen;
    var (decls, ok) := StartDecls(t.atts);
    var el := Build(p.ns + decls, t.tag, t.atts);
    if ok && el.Some? {
      BuildScoped(p.ns, t.tag, t.atts);
      NothingInside(el.value, p.ns);
      Snoc(p.open, el.value);
    }
  }

  lemma NothingInside(el: OpenElement, b: Bindings)
    requires ScopedTag(b, el.name, el.attrs) && el.children == []
    ensures Scoped(el.Closed(), b)
  {
  }

  lemma CutBack(b: Bindings, more: Bindings, depths: seq<nat>)
    ensures PopBindings(b + more, |b|) == b && (b + more)[..|b|] == b
    ensures var ds := depths + [|b|]; ds[..|depths|] == depths && ds[|depths|] == |b|
  {
    assert more == [] ==> b + more == b;
  }

  lemma SoundPrefix(b: Bindings, n: nat)
    requires Sound(b) && n <= |b|
    ensures Sound(b[..n])
  {
  }

  lemma EndInScope(p: Parser)
    requires p.raised == ERROR_NONE && InScope(p)
    ensures InScope(OnEnd(p))
  {
    if p.depths != [] && p.open != [] {
      hide Scoped, Scope, Depths, ScopedOpen, Attach, Sound, Declared;
      var n := |p.open| - 1;
      var init, top := p.open[..n], p.open[n];
      Snoc(init, top);
      assert init + [top] == p.open;
      CutBack(Scope(init), Declared(top.attrs), Depths(init));
      SoundPrefix(p.ns, |Scope(init)|);
      var q := p.(ns := Scope(init), depths := Depths(init), open := init);
      assert OnEnd(p) == Attach(q, top.Closed());
      AttachInScope(q, top.Closed());
    }
  }

  lemma StepInScope(p: Parser, t: Token)
    requires InScope(p) && Shaped(p) && Spelled(t) && Conforms(t)
    ensures InScope(Step(p, t))
  {
    if p.raised == ERROR_NONE {
      hide Spelled, Conforms, ShapedNode, InScope;
      match t
      case Start(_, _) => StartInScope(p, t);
      case Chars(c) => AttachInScope(p, Text(c));
      case End(_) => EndInScope(p);
    }
  }

  lemma {:induction false} RunInScope(p: Parser, ts: seq<Token>)
    requires InScope(p) && Shaped(p) && forall i :: 0 <= i < |ts| ==> Spelled(ts[i]) && Conforms(ts[i])
    ensures InScope(Run(p, ts))
    decreases ts
  {
    if ts != [] {
      hide InScope, Shaped, Spelled, Conforms;
      StepShaped(p, ts[0]);
      StepInScope(p, ts[0]);
      RunInScope(Step(p, ts[0]), ts[1..]);
    }
  }

  lemma FreshInScope()
    ensures InScope(FreshParser)
  {
  }

  /** Whatever conforming document is read, its tree declares what it uses, so it is read back
      as it is. */
  lemma ReadThenPrint(ts: seq<Token>)
    requires forall i :: 0 <= i < |ts| ==> Spelled(ts[i]) && Conforms(ts[i])
    requires var p := Run(FreshParser, ts); p.raised == ERROR_NONE && p.root.Some?
    ensures var t := Run(FreshParser, ts).root.value;
            && Scoped(t, []) && Namable(t, []) && Decorate(t, []) == t
            && Run(FreshParser, Tokens(t, [])) == FreshParser.(root := Some(t))
  {
    FreshShaped();
    FreshInScope();
    hide Run, Scoped, Decorate, Namable, Tokens, Spelled, Conforms, Joined, WellNamed;
    RunInScope(FreshParser, ts);
    ReadThenPrintIff(ts);
    FixedIff(Run(FreshParser, ts).root.value, []);
  }

  // ---- documents that are not read back ------------------------------------------------

  lemma ResolvePrefixed(c: Bindings, p: string, local: string, ns: string)
    requires ':' !in p && NsFor(c, p) == Some(ns)
    ensures Resolve(c, p + ":" + local, true) == QName(ns, local)
  {
    var s := p + ":" + local;
    assert s[..|p|] == p && s[|p| + 1..] == local;
    FindIs(s, ':', |p|);
  }

  lemma ResolveUnqualified(c: Bindings, s: string)
    requires ':' !in s && NsFor(c, "") == Some("")
    ensures Resolve(c, s, false) == QName("", s)
  {
    assert s[..|s|] == s;
    FindIs(s, ':', |s|);
  }

  /** Reading a tag with two attributes. */
  lemma StartTwo(p: Parser, tag: string, a: RawAtt, d: RawAtt, decls: Bindings, x: QName, y: QName)
    requires p.raised == ERROR_NONE && StartDecls([a, d]).0 == decls && StartDecls([a, d]).1
    requires var c := p.ns + decls;
             && Resolve(c, tag, false) == QName("", tag) && tag != ""
             && Resolve(c, a.name, true) == x && Resolve(c, d.name, true) == y
    requires x != y && !x.IsEmpty() && !y.IsEmpty()
    ensures Step(p, Start(tag, [a, d])) ==
            p.(ns := p.ns + decls, depths := p.depths + [|p.ns|],
               open := p.open + [OpenElement(QName("", tag), [Attr(x, a.value), Attr(y, d.value)], [])],
               root := if p.open == [] then None else p.root)
  {
    hide Resolve, StartDecls;
    var c := p.ns + decls;
    var seen: set<QName> := if x.ns != "" then {} + {x} else {};
    assert [a, d][1..] == [d] && [d][1..] == [];
    assert BuildAttrs(c, [d], seen) == Some([Attr(y, d.value)] + []);
    assert BuildAttrs(c, [a, d], {}) == Some([Attr(x, a.value)] + ([Attr(y, d.value)] + []));
    assert [Attr(x, a.value)] + ([Attr(y, d.value)] + []) == [Attr(x, a.value), Attr(y, d.value)];
  }

  lemma DeclsTwo(a: RawAtt, d: RawAtt)
    requires DeclOf(a) != Illegal && DeclOf(d) != Illegal
    ensures var first := match DeclOf(a) case Declares(x) => [x] case _ => [];
            var second := match DeclOf(d) case Declares(x) => [x] case _ => [];
            StartDecls([a, d]).0 == first + second && StartDecls([a, d]).1
  {
    assert [a, d][1..] == [d] && [d][1..] == [];
    assert StartDecls([]) == ([], true);
  }

  lemma DeclarationOf(p: string, value: string)
    requires value != ""
    ensures DeclOf(RawAtt("xmlns:" + p, value)) == Declares(Binding(p, value))
  {
    var s := "xmlns:" + p;
    assert s[..5] == "xmlns" && s[5] == ':' && s[6..] == p;
  }

  lemma NoDeclaration(a: RawAtt)
    requires a.name != "" && a.name[0] != 'x'
    ensures DeclOf(a) == NotDeclaration
  {
  }

  /** What is in scope inside `xmlns:q="..."` and, if `two`, `xmlns:f="u"`. */
  function QScope(two: bool): Bindings {
    if two then [Binding("q", NS_XMLNS), Binding("f", "u")] else [Binding("q", NS_XMLNS)]
  }

  lemma QScopeMeans(two: bool)
    ensures var c := QScope(two);
            && NsFor(c, "") == Some("") && NsFor(c, "q") == Some(NS_XMLNS) && NsFor(c, "xmlns") == Some(NS_XMLNS)
            && (two ==> NsFor(c, "f") == Some("u"))
  {
    var one := QScope(false);
    assert one[..0] == [] && QScope(true)[..1] == one;
    assert Lookup(one, "q") == Some(NS_XMLNS) && Lookup(one, "") == None;
    assert Lookup(QScope(true), "f") == Some("u");
    assert Lookup(QScope(true), "q") == Lookup(one, "q") && Lookup(QScope(true), "") == Lookup(one, "");
  }

  const Q := RawAtt("xmlns:q", NS_XMLNS)
  const QAttr := Attr(QName(NS_XMLNS, "q"), NS_XMLNS)

  lemma QNames(two: bool)
    ensures var c := QScope(two);
            && Resolve(c, "xmlns:q", true) == QName(NS_XMLNS, "q")
            && Resolve(c, "q:f", true) == QName(NS_XMLNS, "f")
            && (two ==>
                 Resolve(c, "xmlns:f", true) == QName(NS_XMLNS, "f") && Resolve(c, "f:g", true) == QName("u", "g"))
            && (forall s :: ':' !in s ==> Resolve(c, s, false) == QName("", s))
  {
    var c := QScope(two);
    hide NsFor, Resolve, QScope;
    QScopeMeans(two);
    ResolvePrefixed(c, "xmlns", "q", NS_XMLNS);
    ResolvePrefixed(c, "q", "f", NS_XMLNS);
    assert "xmlns" + ":" + "q" == "xmlns:q" && "q" + ":" + "f" == "q:f";
    if two {
      ResolvePrefixed(c, "xmlns", "f", NS_XMLNS);
      ResolvePrefixed(c, "f", "g", "u");
      assert "xmlns" + ":" + "f" == "xmlns:f" && "f" + ":" + "g" == "f:g";
    }
    forall s | ':' !in s ensures Resolve(c, s, false) == QName("", s) {
      ResolveUnqualified(c, s);
    }
  }

  /** A prefix bound to the namespace of the declarations: the document is accepted, and the
      printed form of its tree is rejected. */
  lemma DeclarationInDisguise()
    ensures var ts := [Start("a", [Q, RawAtt("q:f", "")]), End("a")];
            var p := Run(FreshParser, ts);
            && p.raised == ERROR_NONE && p.root.Some?
            && Run(FreshParser, Tokens(p.root.value, [])).raised == ERROR_SYNTAX
  {
    hide Run, Tokens, Namable;
    var e := Element(QName("", "a"), [QAttr, Attr(QName(NS_XMLNS, "f"), "")], []);
    DisguiseRun();
    DisguiseNotNamable();
    PrintThenParse(e);
  }

  lemma DisguiseNotNamable()
    ensures var e := Element(QName("", "a"), [QAttr, Attr(QName(NS_XMLNS, "f"), "")], []);
            WellNamed(e) && !Namable(e, [])
  {
    var attrs := [QAttr, Attr(QName(NS_XMLNS, "f"), "")];
    assert attrs[1].name.ns == NS_XMLNS && attrs[1].value == "";
    assert !NamableTag([], QName("", "a"), attrs);
  }

  lemma DisguiseRun()
    ensures Run(FreshParser, [Start("a", [Q, RawAtt("q:f", "")]), End("a")]) ==
            FreshParser.(root := Some(Element(QName("", "a"), [QAttr, Attr(QName(NS_XMLNS, "f"), "")], [])))
  {
    hide Resolve, StartDecls, OnStart, Build;
    var f := RawAtt("q:f", "");
    DeclarationOf("q", NS_XMLNS);
    assert "xmlns:" + "q" == "xmlns:q";
    NoDeclaration(f);
    DeclsTwo(Q, f);
    QNames(false);
    assert FreshParser.ns + QScope(false) == QScope(false);
    StartTwo(FreshParser, "a", Q, f, QScope(false), QName(NS_XMLNS, "q"), QName(NS_XMLNS, "f"));
    EndRun(FreshParser, Start("a", [Q, f]), "a");
  }

  /** Starting and ending an element without children. */
  lemma EndRun(p: Parser, start: Token, tag: string)
    requires p.raised == ERROR_NONE
    requires var s := Step(p, start);
             && s.raised == ERROR_NONE && s.depths == p.depths + [|p.ns|] && p.ns <= s.ns
             && |s.open| == |p.open| + 1 && s.open[..|p.open|] == p.open
    ensures var s := Step(p, start);
            Run(p, [start, End(tag)]) ==
            Attach(s.(ns := p.ns, depths := p.depths, open := p.open), s.open[|p.open|].Closed())
  {
    hide OnStart, Attach;
    var s, ts := Step(p, start), [start, End(tag)];
    assert ts[1..] == [End(tag)] && [End(tag)][1..] == [];
    assert Run(p, ts) == Run(s, [End(tag)]) == Run(Step(s, End(tag)), []);
    assert s.depths[..|p.depths|] == p.depths && PopBindings(s.ns, |p.ns|) == p.ns;
  }

  // ---- a declaration that hides another one --------------------------------------------

  const Inner := Element(QName("", "i"), [Attr(QName(NS_XMLNS, "f"), "v"), Attr(QName("u", "g"), "1")], [])
  const Outer := Element(QName("", "o"), [QAttr, Attr(QName(NS_XMLNS, "f"), "u")], [Inner])

  function HidingTokens(): seq<Token> {
    [Start("o", [Q, RawAtt("xmlns:f", "u")]), Start("i", [RawAtt("q:f", "v"), RawAtt("f:g", "1")]), End("i"), End("o")]
  }

  /** The parser inside the outer element, after the given children. */
  function Inside(children: seq<Node>): Parser {
    Parser(QScope(true), [0], ERROR_NONE, [OpenElement(QName("", "o"), Outer.attrs, children)], None)
  }

  lemma HidingStart()
    ensures Step(FreshParser, HidingTokens()[0]) == Inside([])
  {
    hide Resolve, StartDecls, Step, NsFor;
    var c, f := QScope(true), RawAtt("xmlns:f", "u");
    HidingDecls();
    QNames(true);
    assert [] + c == c;
    StartTwo(FreshParser, "o", Q, f, c, QName(NS_XMLNS, "q"), QName(NS_XMLNS, "f"));
  }

  lemma HidingInner()
    ensures Run(Inside([]), [HidingTokens()[1], End("i")]) == Inside([Inner])
  {
    hide Resolve, StartDecls, OnStart, NsFor, QScope, Run;
    var s, c := Inside([]), QScope(true);
    var qf, fg := RawAtt("q:f", "v"), RawAtt("f:g", "1");
    HidingDecls();
    QNames(true);
    assert c + [] == c;
    StartTwo(s, "i", qf, fg, [], QName(NS_XMLNS, "f"), QName("u", "g"));
    EndRun(s, HidingTokens()[1], "i");
    assert [] + [Inner] == [Inner];
  }

  lemma HidingEnd()
    ensures Run(Inside([Inner]), [End("o")]) == FreshParser.(root := Some(Outer))
  {
    var q := Inside([Inner]);
    assert [End("o")][1..] == [] && Run(q, [End("o")]) == Run(Step(q, End("o")), []);
    assert PopBindings(q.ns, 0) == [] && q.depths[..0] == [] && q.open[..0] == [];
  }

  lemma HidingRun()
    ensures Run(FreshParser, HidingTokens()) == FreshParser.(root := Some(Outer))
  {
    hide Step, Inside;
    var ts := HidingTokens();
    HidingStart();
    HidingInner();
    HidingEnd();
    RunConcat(Inside([]), [ts[1], ts[2]], [ts[3]]);
    assert ts[1..] == [ts[1], ts[2]] + [ts[3]];
  }

  lemma InnerNotScoped()
    ensures !ScopedTag(QScope(true), Inner.name, Inner.attrs)
    ensures NamableTag(QScope(true), Inner.name, Inner.attrs)
  {
    var attrs, b := Inner.attrs, QScope(true);
    var own := [Binding("f", "v")];
    DeclaredOfDeclAttrs(own);
    DeclaredConcat(DeclAttrs(own), [attrs[1]]);
    assert attrs == DeclAttrs(own) + [attrs[1]];
    assert |NS_XMLNS| > 1 && [attrs[1]][1..] == [] && Declared([attrs[1]]) == [] + [];
    assert Declared(attrs) == own + [];
    var c := b + Declared(attrs);
    assert c == [Binding("q", NS_XMLNS), Binding("f", "u"), Binding("f", "v")];
    HiddenMeans(c);
    assert attrs[1].name.ns == "u";
  }

  lemma HiddenMeans(c: Bindings)
    requires c == [Binding("q", NS_XMLNS), Binding("f", "u"), Binding("f", "v")]
    ensures NsFor(c, "") == Some("") && PrefixFor(c, "u", true) == None
  {
    assert c[..2] == QScope(true);
    QScopeMeans(true);
    assert Lookup(c, "f") == Some("v") && Lookup(c, "") == Lookup(c[..2], "") && Lookup(c, "q") == Lookup(c[..2], "q");
    ScanSound(c, 3, "u", true);
    assert forall i :: 0 <= i < 3 ==> NsFor(c, c[i].prefix) != Some("u");
    assert |NS_XMLNS| > 1 && |NS_XML| > 1;
  }

  lemma OuterTag()
    ensures ScopedTag([], Outer.name, Outer.attrs) && [] + Declared(Outer.attrs) == QScope(true)
  {
    var attrs := Outer.attrs;
    DeclaredOfDeclAttrs(QScope(true));
    assert attrs == DeclAttrs(QScope(true));
    assert [] + Declared(attrs) == QScope(true);
    QScopeMeans(true);
  }

  lemma OuterNamable()
    ensures WellNamed(Outer) && Namable(Outer, []) && !Scoped(Outer, [])
  {
    hide NamableTag, ScopedTag, Declared, Frame, PrefixFor, QScope;
    OuterTag();
    InnerNotScoped();
    assert Outer.children[0] == Inner && !Scoped(Inner, QScope(true));
    assert NamableTag([], Outer.name, Outer.attrs) && Frame([], Outer.name, Outer.attrs) == QScope(true) by {
      ScopedFrame([], Outer.name, Outer.attrs);
    }
    assert Namable(Inner, QScope(true));
    assert Outer.children[1..] == [] && NamableAll(Outer.children, QScope(true));
  }

  lemma ScopedFrame(b: Bindings, name: QName, attrs: seq<Attr>)
    requires ScopedTag(b, name, attrs)
    ensures NamableTag(b, name, attrs) && Frame(b, name, attrs) == b + Declared(attrs)
  {
    FrameIsScope(b, name, attrs);
  }

  /** An attribute that the printer takes for a declaration hides a real one: the document is
      accepted and the printed form of its tree is read as another tree. */
  lemma DeclarationHidesAnother()
    ensures var p := Run(FreshParser, HidingTokens());
            && p.raised == ERROR_NONE && p.root.Some?
            && var q := Run(FreshParser, Tokens(p.root.value, []));
               q.raised == ERROR_NONE && q.root.Some? && q.root != p.root
  {
    hide Run, Tokens, Namable, Scoped, WellNamed, HidingTokens;
    HidingRun();
    OuterNamable();
    PrintThenParse(Outer);
    FixedIff(Outer, []);
  }

  lemma HidingDecls()
    ensures StartDecls([Q, RawAtt("xmlns:f", "u")]).0 == QScope(true) && StartDecls([Q, RawAtt("xmlns:f", "u")]).1
    ensures var atts := [RawAtt("q:f", "v"), RawAtt("f:g", "1")]; StartDecls(atts).0 == [] && StartDecls(atts).1
  {
    DeclarationOf("q", NS_XMLNS);
    DeclarationOf("f", "u");
    assert "xmlns:" + "q" == "xmlns:q" && "xmlns:" + "f" == "xmlns:f";
    DeclsTwo(Q, RawAtt("xmlns:f", "u"));
    NoDeclaration(RawAtt("q:f", "v"));
    NoDeclaration(RawAtt("f:g", "1"));
    DeclsTwo(RawAtt("q:f", "v"), RawAtt("f:g", "1"));
    assert [Binding("q", NS_XMLNS)] + [Binding("f", "u")] == QScope(true);
  }
}
