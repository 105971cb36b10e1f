/** When a tree is read back as the very tree that was printed: on tokens and on text. */
module Exactness {
  import opened Xml
  import opened Namespaces
  import opened Escaping
  import opened Printing
  import opened Parsing
  import opened RoundTrip
  import opened Lexing
  import opened Documents
  import opened Misreading
  import opened Reprinting

  // ---- trees that declare what they use ------------------------------------------------

  /** The tag can be spelled, and every namespace of it has a prefix by the declarations of
      its ancestors and its own. */
  predicate ScopedTag(b: Bindings, name: QName, attrs: seq<Attr>) {
    var c := b + Declared(attrs);
    && NamableTag(b, name, attrs)
    && PrefixFor(c, name.ns, false).Some?
    && forall i :: 0 <= i < |attrs| ==> PrefixFor(c, attrs[i].name.ns, true).Some?
  }

  predicate Scoped(n: Node, b: Bindings)
    decreases n, 1
  {
    n.Element? ==> ScopedTag(b, n.name, n.attrs) && ScopedAll(n.children, b + Declared(n.attrs))
  }

  predicate ScopedAll(ns: seq<Node>, b: Bindings)
    decreases ns, 0
  {
    forall i :: 0 <= i < |ns| ==> Scoped(ns[i], b)
  }

  lemma {:induction false} AddForAttrsQuiet(c: Bindings, attrs: seq<Attr>)
    ensures AddForAttrs(c, attrs) == c <==> forall i :: 0 <= i < |attrs| ==> PrefixFor(c, attrs[i].name.ns, true).Some?
    decreases attrs
  {
    hide PrefixFor, FreshPrefix;
    if attrs != [] {
      AddForAttrsQuiet(c, attrs[1..]);
      assert attrs == [attrs[0]] + attrs[1..];
      assert forall i :: 0 < i < |attrs| ==> attrs[i] == attrs[1..][i - 1];
      assert |AddForAttrs(c, attrs)| >= |AddNew(c, attrs[0].name.ns, true)|;
    }
  }

  /** The printer adds nothing to a tag exactly when every namespace has a prefix. */
  lemma FrameIsScope(b: Bindings, name: QName, attrs: seq<Attr>)
    ensures var c := b + Declared(attrs);
            Generated(b, name, attrs) == [] <==>
            && PrefixFor(c, name.ns, false).Some?
            && forall i :: 0 <= i < |attrs| ==> PrefixFor(c, attrs[i].name.ns, true).Some?
    ensures Generated(b, name, attrs) == [] ==> Frame(b, name, attrs) == b + Declared(attrs)
  {
    hide PrefixFor, Declared, FreshPrefix, AddForAttrs;
    var b1 := b + Declared(attrs);
    var c := Frame(b, name, attrs);
    AddForAttrsQuiet(b1, attrs);
    assert Generated(b, name, attrs) == [] <==> |c| == |b1|;
    assert |c| == |b1| ==> c == c[..|b1|] == b1;
    assert |AddNew(b1, name.ns, false)| <= |c|;
  }

  // ---- fixed points of printing and reading --------------------------------------------

  /** Reading can only join or drop text; if the number of children stays the same, each of
      them is read by itself. */
  lemma {:induction false} DecorateIntoLength(done: seq<Node>, ns: seq<Node>, b: Bindings)
    ensures |DecorateInto(done, ns, b)| <= |done| + |ns|
    ensures |DecorateInto(done, ns, b)| == |done| + |ns| ==>
              && JoinedList(ns) && DecorateInto(done, ns, b) == done + DecorateEach(ns, b)
              && (done != [] && ns != [] ==> !(done[|done| - 1].Text? && ns[0].Text?))
    decreases ns
  {
    if ns != [] {
      var m := Decorate(ns[0], b);
      DecoratedKind(ns[0], b);
      hide Decorate, AddChild, JoinedList;
      AddChildLength(done, m);
      DecorateIntoLength(AddChild(done, m), ns[1..], b);
      if |DecorateInto(done, ns, b)| == |done| + |ns| {
        ConcatAssoc(done, [m], DecorateEach(ns[1..], b));
        JoinedCons(ns);
      }
    }
  }

  lemma DecoratedKind(n: Node, b: Bindings)
    ensures n.Text? ==> Decorate(n, b) == n
    ensures n.Element? ==> Decorate(n, b).Element?
  {
  }

  lemma AddChildLength(done: seq<Node>, m: Node)
    ensures |AddChild(done, m)| <= |done| + 1
    ensures |AddChild(done, m)| == |done| + 1 ==>
              && AddChild(done, m) == done + [m] && (m.Text? ==> m.text != "")
              && (done != [] ==> !(done[|done| - 1].Text? && m.Text?))
  {
  }

  lemma JoinedCons(ns: seq<Node>)
    requires ns != []
    requires JoinedList(ns[1..]) && (ns[0].Text? ==> ns[0].text != "")
    requires |ns| > 1 ==> !(ns[0].Text? && ns[1].Text?)
    ensures JoinedList(ns)
  {
    assert forall i :: 0 < i < |ns| ==> ns[i] == ns[1..][i - 1];
  }

  /** A tree is namable and read back as it is, exactly when its text is joined and it
      declares what it uses. */
  lemma {:induction false} FixedIff(n: Node, b: Bindings)
    ensures Namable(n, b) && Decorate(n, b) == n <==> Joined(n) && Scoped(n, b)
    decreases n, 1
  {
    if n.Element? {
      hide Frame, NamableTag, Declared, Generated, PrefixFor, Decorate, DecorateInto, JoinedList, NamableAll, ScopedAll;
      FrameIsScope(b, n.name, n.attrs);
      DecoratedParts(n, b);
      FixedChildrenIff(n.children, Frame(b, n.name, n.attrs));
    }
  }

  lemma {:induction false} FixedChildrenIff(ns: seq<Node>, c: Bindings)
    ensures NamableAll(ns, c) && DecorateInto([], ns, c) == ns <==>
            JoinedList(ns) && (forall i :: 0 <= i < |ns| ==> Joined(ns[i])) && ScopedAll(ns, c)
    decreases ns, 1
  {
    hide Joined, JoinedList, NamableAll, ScopedAll, DecorateInto;
    FixedAllIff(ns, c);
    DecorateIntoLength([], ns, c);
    assert [] + DecorateEach(ns, c) == DecorateEach(ns, c);
    if JoinedList(ns) {
      DecorateIntoJoined([], ns, c);
    }
  }

  lemma DecoratedParts(n: Node, b: Bindings)
    requires n.Element?
    ensures Decorate(n, b) == n <==>
            Generated(b, n.name, n.attrs) == [] && DecorateInto([], n.children, Frame(b, n.name, n.attrs)) == n.children
  {
    hide Frame, Generated, DecorateInto;
    var g := Generated(b, n.name, n.attrs);
    assert |n.attrs + DeclAttrs(g)| == |n.attrs| + |g|;
    assert g == [] ==> n.attrs + DeclAttrs(g) == n.attrs;
  }

  lemma {:induction false} FixedAllIff(ns: seq<Node>, b: Bindings)
    ensures NamableAll(ns, b) && DecorateEach(ns, b) == ns <==>
            (forall i :: 0 <= i < |ns| ==> Joined(ns[i])) && ScopedAll(ns, b)
    decreases ns, 0
  {
    if ns != [] {
      hide Joined, Scoped, Namable, Decorate;
      FixedIff(ns[0], b);
      FixedAllIff(ns[1..], b);
      assert ns == [ns[0]] + ns[1..];
      assert forall i :: 0 < i < |ns| ==> ns[i] == ns[1..][i - 1];
      assert DecorateEach(ns, b) == [Decorate(ns[0], b)] + DecorateEach(ns[1..], b);
      assert DecorateEach(ns, b) == ns <==> Decorate(ns[0], b) == ns[0] && DecorateEach(ns[1..], b) == ns[1..] by {
        assert DecorateEach(ns, b)[1..] == DecorateEach(ns[1..], b);
      }
    }
  }

  /** The tokens of a tree are read as that very tree, exactly when its text is joined and it
      declares what it uses. */
  lemma SameTokensIff(e: Node)
    requires e.Element? && WellNamed(e)
    ensures Run(FreshParser, Tokens(e, [])) == FreshParser.(root := Some(e)) <==> Joined(e) && Scoped(e, [])
  {
    hide Run, Tokens, WellNamed, Joined, Scoped, Namable, Decorate;
    PrintThenParse(e);
    FixedIff(e, []);
  }

  // ---- on text -------------------------------------------------------------------------

  /** The characters of all values and texts survive tokenizing. */
  ghost predicate Carried(n: Node) {
    match n
    case Text(t) => IsTextual(t)
    case Element(_, attrs, children) =>
      PlainAttrs(attrs) && forall i :: 0 <= i < |children| ==> Carried(children[i])
  }

  /** The printer adds no declaration anywhere in the tree. */
  predicate Quiet(n: Node, b: Bindings)
    decreases n, 1
  {
    n.Element? ==> Generated(b, n.name, n.attrs) == [] && QuietAll(n.children, Frame(b, n.name, n.attrs))
  }

  predicate QuietAll(ns: seq<Node>, b: Bindings)
    decreases ns, 0
  {
    ns == [] || (Quiet(ns[0], b) && QuietAll(ns[1..], b))
  }

  /** A tree that declares what it uses is quiet, and plain if its characters are. */
  lemma {:induction false} ScopedIsQuiet(n: Node, b: Bindings)
    requires Scoped(n, b)
    ensures Quiet(n, b) && (Carried(n) ==> PlainTree(n, b))
    decreases n, 1
  {
    if n.Element? {
      hide Frame, NamableTag, Declared, Generated, PrefixFor;
      FrameIsScope(b, n.name, n.attrs);
      ScopedAreQuiet(n.children, b + Declared(n.attrs));
    }
  }

  lemma {:induction false} ScopedAreQuiet(ns: seq<Node>, b: Bindings)
    requires ScopedAll(ns, b)
    ensures QuietAll(ns, b) && ((forall i :: 0 <= i < |ns| ==> Carried(ns[i])) ==> PlainTrees(ns, b))
    decreases ns, 0
  {
    if ns != [] {
      ScopedIsQuiet(ns[0], b);
      ScopedAreQuiet(ns[1..], b);
    }
  }

  lemma {:induction false} PlainIsCarried(n: Node, b: Bindings)
    requires PlainTree(n, b)
    ensures Carried(n)
    decreases n, 1
  {
    if n.Element? {
      PlainAreCarried(n.children, Frame(b, n.name, n.attrs));
    }
  }

  lemma {:induction false} PlainAreCarried(ns: seq<Node>, b: Bindings)
    requires PlainTrees(ns, b)
    ensures forall i :: 0 <= i < |ns| ==> Carried(ns[i])
    decreases ns, 0
  {
    if ns != [] {
      PlainIsCarried(ns[0], b);
      PlainAreCarried(ns[1..], b);
      assert forall i :: 0 < i < |ns| ==> ns[i] == ns[1..][i - 1];
    }
  }

  /** Reading a quiet tree changes at most how its text is cut. */
  lemma {:induction false} QuietListed(n: Node, b: Bindings)
    requires Quiet(n, b)
    ensures Listed(Decorate(n, b)) == Listed(n)
    decreases n, 1
  {
    if n.Element? {
      hide Frame, Generated, Decorate, Listed;
      QuietListedAll(n.children, Frame(b, n.name, n.attrs));
      DecoratedListed(n, b);
      assert n.attrs + DeclAttrs([]) == n.attrs;
    }
  }

  lemma {:induction false} QuietListedAll(ns: seq<Node>, b: Bindings)
    requires QuietAll(ns, b)
    ensures ListedAgain(ns, b) == ListedAll(ns)
    decreases ns, 0
  {
    if ns != [] {
      hide Listed, Decorate, Quiet;
      QuietListed(ns[0], b);
      QuietListedAll(ns[1..], b);
    }
  }

  /** A node whose text holds a declaration the tree does not have, or a character that does
      not survive, is not read as itself: some tag has more attributes, another value or
      another letter. */
  lemma {:induction false} LoudNode(n: Node, b: Bindings, rest: string, open: seq<string>, p: Parser)
    requires Spellable(n) && Ready(p, b, open) && Guarded(rest) && (n.Text? ==> open != [])
    requires !(Quiet(n, b) && PlainTree(n, b)) && Lex(NodeText(n, b) + rest, open).Some?
    ensures Departs(p, Lex(NodeText(n, b) + rest, open).value, Listed(n))
    decreases n, 2
  {
    if n.Text? {
      MisreadText(n.text, rest, open, p);
    } else {
      hide Departs, Lex, Frame, Generated, FullAttrs, TagText, BodyText, StartToken, PlainTag;
      var c, start := Frame(b, n.name, n.attrs), StartToken(b, n.name, n.attrs);
      var tail := BodyText(c, n.name, n.children) + rest;
      ConcatAssoc(TagText(b, n.name, n.attrs), BodyText(c, n.name, n.children), rest);
      BodyEndsAtts(c, n.name, n.children, rest);
      LexTag(b, n.name, n.attrs, tail, open);
      if PlainTag(b, n.name, n.attrs) && Generated(b, n.name, n.attrs) == [] {
        LoudBody(n.name, n.attrs, n.children, b, rest, open, p);
      } else {
        var ts := Lex(NodeText(n, b) + rest, open).value;
        if PlainTag(b, n.name, n.attrs) {
          LexCloseBegins(start, tail, open);
        }
        LoudTag(b, n.name, n.attrs, ts);
        TagOpens(TagText(b, n.name, n.attrs) + tail, open);
        MisreadTag(p, ts, n.attrs);
        DepartsLater(p, ts, [Tag(n.attrs)], ListedAll(n.children));
      }
    }
  }

  /** The tag that is read has not the attributes of the tag of the tree. */
  lemma LoudTag(b: Bindings, name: QName, attrs: seq<Attr>, ts: seq<Token>)
    requires ts != [] && ts[0].Start?
    requires var start := StartToken(b, name, attrs);
             || (ts[0] == start && Generated(b, name, attrs) != [])
             || Misses(ts[0].atts, start.atts, FormatAttrs(Frame(b, name, attrs), attrs))
    ensures Unlike(ts[0].atts, attrs)
  {
    hide Frame, Generated;
    var c, start := Frame(b, name, attrs), StartToken(b, name, attrs);
    var own := FormatAttrs(c, attrs);
    if |ts[0].atts| != |own| || Mismatch(ts[0].atts, own) {
      MismatchUnlike(ts[0].atts, own, attrs);
    }
  }

  lemma {:induction false} LoudBody(name: QName, attrs: seq<Attr>, children: seq<Node>, b: Bindings, rest: string,
                                    open: seq<string>, p: Parser)
    requires Spellable(Element(name, attrs, children)) && Ready(p, b, open) && Generated(b, name, attrs) == []
    requires var c := Frame(b, name, attrs); !(QuietAll(children, c) && PlainTrees(children, c))
    requires LexClose(StartToken(b, name, attrs), BodyText(Frame(b, name, attrs), name, children) + rest, open).Some?
    ensures var c := Frame(b, name, attrs);
            var ts := LexClose(StartToken(b, name, attrs), BodyText(c, name, children) + rest, open).value;
            Departs(p, ts, [Tag(attrs)] + ListedAll(children))
    decreases children, 1
  {
    hide Departs, Lex, LexClose, Frame, Generated, BodyText, Shown, Step;
    var c, start := Frame(b, name, attrs), StartToken(b, name, attrs);
    EnterBody(name, attrs, children, b, rest, open, p);
    assert FullAttrs(b, name, attrs) == attrs by { assert attrs + DeclAttrs([]) == attrs; }
    var inner, s := "</" + start.tag + ">" + rest, Step(p, start);
    var us := Lex(NodesText(children, c) + inner, open + [start.tag]).value;
    if NamableTag(b, name, attrs) {
      LoudNodes(children, c, inner, open + [start.tag], s);
    }
    DepartsInside(p, start, us, Tag(attrs), ListedAll(children));
  }

  lemma {:induction false} LoudNodes(ns: seq<Node>, b: Bindings, rest: string, open: seq<string>, p: Parser)
    requires (forall i :: 0 <= i < |ns| ==> Spellable(ns[i])) && Ready(p, b, open) && Guarded(rest) && open != []
    requires !(QuietAll(ns, b) && PlainTrees(ns, b)) && Lex(NodesText(ns, b) + rest, open).Some?
    ensures Departs(p, Lex(NodesText(ns, b) + rest, open).value, ListedAll(ns))
    decreases ns, 0
  {
    hide Departs, Lex, Shown, Guarded, Ready;
    var more := NodesText(ns[1..], b) + rest;
    ConcatAssoc(NodeText(ns[0], b), NodesText(ns[1..], b), rest);
    GuardedNodes(ns[1..], b, rest);
    var ts := Lex(NodesText(ns, b) + rest, open).value;
    if Quiet(ns[0], b) && PlainTree(ns[0], b) {
      QuietListed(ns[0], b);
      PassNode(ns[0], b, more, open, p, ListedAll(ns[1..]));
      if Namable(ns[0], b) {
        LoudNodes(ns[1..], b, rest, open, Attach(p, Decorate(ns[0], b)));
      }
    } else {
      LoudNode(ns[0], b, more, open, p);
      DepartsLater(p, ts, Listed(ns[0]), ListedAll(ns[1..]));
    }
  }

  /** The printed text of a tree is read as that very tree, if and only if its text is joined,
      it declares what it uses and its characters survive. */
  lemma SameTextIff(e: Node)
    requires e.Element? && Spellable(e)
    ensures ForStr(NodeText(e, [])) == Some(e) <==> Joined(e) && Scoped(e, []) && Carried(e)
  {
    hide Lex, NodeText, Quiet, PlainTree, Spellable, Decorate, Listed, Departs, Namable;
    hide Joined, Scoped, Carried, ForStr;
    FixedIff(e, []);
    if Scoped(e, []) {
      ScopedIsQuiet(e, []);
    }
    if Quiet(e, []) && PlainTree(e, []) {
      DocumentRoundTrip(e);
      PlainIsCarried(e, []);
    } else {
      assert NodeText(e, []) + "" == NodeText(e, []);
      if Lex(NodeText(e, []), []).Some? {
        LoudNode(e, [], "", [], FreshParser);
      }
      DepartsFromTree(NodeText(e, []), e);
    }
  }
}
