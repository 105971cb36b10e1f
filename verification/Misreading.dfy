/** What is read when a printed document is not tokenized to its own tokens: the tree has
    another value or another letter somewhere than the one that was printed. Elements are
    attached in the order of their start tags, so the tags and letters of a tree, listed in
    document order, only grow while it is read. */
module Misreading {
  import opened Xml
  import opened Namespaces
  import opened Escaping
  import opened Printing
  import opened Parsing
  import opened RoundTrip
  import opened Lexing
  import opened Documents

  // ---- tags and letters in document order ----------------------------------------------

  /** What is met on the way through a tree: a tag with its attributes, or a character. */
  datatype Item = Tag(attrs: seq<Attr>) | Letter(c: char)

  function Letters(t: string): (r: seq<Item>)
    ensures |r| == |t| && forall i :: 0 <= i < |t| ==> r[i] == Letter(t[i])
  {
    seq(|t|, i requires 0 <= i < |t| => Letter(t[i]))
  }

  /** The tags and letters of a tree in document order. */
  ghost function Listed(n: Node): seq<Item>
    decreases n, 1
  {
    match n
    case Text(t) => Letters(t)
    case Element(_, attrs, children) => [Tag(attrs)] + ListedAll(children)
  }

  ghost function ListedAll(ns: seq<Node>): seq<Item>
    decreases ns, 0
  {
    if ns == [] then [] else Listed(ns[0]) + ListedAll(ns[1..])
  }

  lemma {:induction false} ListedConcat(ns: seq<Node>, ms: seq<Node>)
    ensures ListedAll(ns + ms) == ListedAll(ns) + ListedAll(ms)
  {
    if ns == [] {
      assert ns + ms == ms;
    } else {
      assert (ns + ms)[1..] == ns[1..] + ms;
      ListedConcat(ns[1..], ms);
      ConcatAssoc(Listed(ns[0]), ListedAll(ns[1..]), ListedAll(ms));
    }
  }

  lemma ListedOne(n: Node)
    ensures ListedAll([n]) == Listed(n)
  {
    assert [n][1..] == [];
  }

  lemma ListedAddChild(done: seq<Node>, n: Node)
    ensures ListedAll(AddChild(done, n)) == ListedAll(done) + Listed(n)
  {
    hide ListedAll, Letters;
    if n.Text? && n.text == "" {
      assert Letters("") == [];
    } else if n.Text? && done != [] && done[|done| - 1].Text? {
      ListedJoin(done[..|done| - 1], done[|done| - 1].text, n.text);
      assert done == done[..|done| - 1] + [done[|done| - 1]];
    } else {
      ListedOne(n);
      ListedConcat(done, [n]);
    }
  }

  lemma ListedJoin(init: seq<Node>, s: string, t: string)
    ensures ListedAll(init + [Text(s + t)]) == ListedAll(init + [Text(s)]) + Letters(t)
  {
    hide ListedAll, Letters;
    ListedConcat(init, [Text(s)]);
    ListedConcat(init, [Text(s + t)]);
    ListedOne(Text(s));
    ListedOne(Text(s + t));
    assert Letters(s + t) == Letters(s) + Letters(t);
    ConcatAssoc(ListedAll(init), Letters(s), Letters(t));
  }

  /** The tags and letters of nodes that are printed under `b` and read. */
  ghost function ListedAgain(ns: seq<Node>, b: Bindings): seq<Item> {
    if ns == [] then [] else Listed(Decorate(ns[0], b)) + ListedAgain(ns[1..], b)
  }

  lemma {:induction false} ListedInto(done: seq<Node>, ns: seq<Node>, b: Bindings)
    ensures ListedAll(DecorateInto(done, ns, b)) == ListedAll(done) + ListedAgain(ns, b)
    decreases ns
  {
    if ns != [] {
      var m := Decorate(ns[0], b);
      ListedInto(AddChild(done, m), ns[1..], b);
      ListedAddChild(done, m);
      ConcatAssoc(ListedAll(done), Listed(m), ListedAgain(ns[1..], b));
    }
  }

  lemma DecoratedListed(n: Node, b: Bindings)
    requires n.Element?
    ensures Listed(n) == [Tag(n.attrs)] + ListedAll(n.children)
    ensures Listed(Decorate(n, b)) ==
            [Tag(FullAttrs(b, n.name, n.attrs))] + ListedAgain(n.children, Frame(b, n.name, n.attrs))
  {
    hide Frame, FullAttrs, DecorateInto, ListedAgain;
    var c := Frame(b, n.name, n.attrs);
    ListedInto([], n.children, c);
    assert [] + ListedAgain(n.children, c) == ListedAgain(n.children, c);
  }

  // ---- the tree being read -------------------------------------------------------------

  /** The tags and letters of the open elements and their children so far. */
  ghost function ListedOpen(open: seq<OpenElement>): seq<Item> {
    if open == [] then []
    else ListedOpen(open[..|open| - 1]) + Listed(open[|open| - 1].Closed())
  }

  ghost function Shown(p: Parser): seq<Item> {
    if p.open != [] then ListedOpen(p.open) else if p.root.Some? then Listed(p.root.value) else []
  }

  /** No error, and a root only when no element is open. */
  ghost predicate Tidy(p: Parser) {
    p.raised == ERROR_NONE && |p.open| == |p.depths| && (p.open != [] ==> p.root == None)
  }

  lemma OpenSnoc(open: seq<OpenElement>, el: OpenElement)
    ensures ListedOpen(open + [el]) == ListedOpen(open) + Listed(el.Closed())
  {
    assert (open + [el])[..|open|] == open;
  }

  lemma AttachShown(p: Parser, n: Node)
    requires p.open == [] ==> n.Element? && p.root == None
    ensures Shown(Attach(p, n)) == Shown(p) + Listed(n)
  {
    if p.open != [] {
      var init, top := p.open[..|p.open| - 1], p.open[|p.open| - 1];
      var now := top.(children := AddChild(top.children, n));
      ListedAddChild(top.children, n);
      OpenSnoc(init, top);
      OpenSnoc(init, now);
      assert init + [top] == p.open;
      ConcatAssoc([Tag(top.attrs)], ListedAll(top.children), Listed(n));
      ConcatAssoc(ListedOpen(init), Listed(top.Closed()), Listed(n));
    }
  }

  /** Resolving names leaves the values in place. */
  lemma {:induction false} BuildKeepsValues(b: Bindings, atts: seq<RawAtt>, seen: set<QName>)
    ensures var r := BuildAttrs(b, atts, seen);
            r.Some? ==> |r.value| == |atts| && forall i :: 0 <= i < |atts| ==> r.value[i].value == atts[i].value
    decreases atts
  {
    if atts != [] {
      var q := Resolve(b, atts[0].name, true);
      BuildKeepsValues(b, atts[1..], if q.ns != "" then seen + {q} else seen);
    }
  }

  /** A start tag adds its attributes to those shown. */
  lemma StartShown(p: Parser, t: Token)
    requires Tidy(p) && t.Start? && (p.open == [] ==> p.root == None)
    ensures var q := Step(p, t);
            q.raised == ERROR_NONE ==>
              && Tidy(q) && |q.open| == |p.open| + 1
              && var attrs := q.open[|p.open|].attrs;
                 && Shown(q) == Shown(p) + [Tag(attrs)]
                 && |attrs| == |t.atts| && forall i :: 0 <= i < |attrs| ==> attrs[i].value == t.atts[i].value
  {
    var (decls, ok) := StartDecls(t.atts);
    var el := Build(p.ns + decls, t.tag, t.atts);
    BuildKeepsValues(p.ns + decls, t.atts, {});
    if ok && el.Some? {
      OpenSnoc(p.open, el.value);
      assert [Tag(el.value.attrs)] + [] == [Tag(el.value.attrs)];
    }
  }

  lemma StepShown(p: Parser, t: Token)
    requires Tidy(p) && p.open != []
    ensures var q := Step(p, t);
            q.raised == ERROR_NONE ==>
              && Tidy(q) && Shown(p) <= Shown(q)
              && |q.open| == |p.open| + (if t.Start? then 1 else if t.End? then -1 else 0)
  {
    hide OnStart, Shown, AddChild;
    match t
    case Start(_, _) => StartShown(p, t);
    case Chars(c) => AttachShown(p, Text(c));
    case End(_) => EndShown(p);
  }

  lemma EndShown(p: Parser)
    requires Tidy(p) && p.open != []
    ensures var q := OnEnd(p); Tidy(q) && Shown(q) == Shown(p) && |q.open| == |p.open| - 1
  {
    hide AddChild, Listed;
    var n := |p.open| - 1;
    var q := p.(ns := PopBindings(p.ns, p.depths[n]), depths := p.depths[..n], open := p.open[..n]);
    AttachShown(q, p.open[n].Closed());
    OpenSnoc(p.open[..n], p.open[n]);
    assert p.open[..n] + [p.open[n]] == p.open;
  }

  /** The tokens end `d` open elements and whatever they start, and nothing follows. */
  ghost predicate Closes(ts: seq<Token>, d: nat)
    decreases ts
  {
    if d == 0 then ts == []
    else ts != [] && Closes(ts[1..], d + (if ts[0].Start? then 1 else if ts[0].End? then -1 else 0))
  }

  /** What is shown only grows until the tree is complete. */
  lemma {:induction false} RunShown(p: Parser, ts: seq<Token>)
    requires Tidy(p) && Closes(ts, |p.open|)
    ensures var q := Run(p, ts); q.raised == ERROR_NONE ==> Shown(p) <= Shown(q) && q.open == []
    decreases ts
  {
    if p.open != [] {
      var s := Step(p, ts[0]);
      StepShown(p, ts[0]);
      if s.raised == ERROR_NONE {
        RunShown(s, ts[1..]);
      } else {
        RunAfterError(s, ts[1..]);
      }
    }
  }

  // ---- tokenized text is one element ---------------------------------------------------

  /** Tokens read inside `d` open elements, or of a whole document. */
  ghost predicate Nests(r: Option<seq<Token>>, d: nat) {
    r.Some? ==> if d > 0 then Closes(r.value, d) else Opens(r.value, 0)
  }

  ghost predicate Opens(ts: seq<Token>, d: nat) {
    ts != [] && ts[0].Start? && Closes(ts[1..], d + 1)
  }

  lemma PrependCloses(t: Token, r: Option<seq<Token>>, d: nat)
    requires !t.Start? && d > 0 && (r.Some? ==> Closes(r.value, if t.End? then d - 1 else d))
    ensures var s := Prepend([t], r); s.Some? ==> Closes(s.value, d)
  {
    if r.Some? {
      assert ([t] + r.value)[1..] == r.value;
    }
  }

  lemma {:induction false} LexNests(s: string, open: seq<string>)
    ensures Nests(Lex(s, open), |open|)
    decreases |s|, 1
  {
    if s != "" {
      if s[0] == '<' {
        if |s| > 1 && s[1] == '/' {
          EndNests(s[2..], open);
        } else {
          StartNests(s[1..], open);
        }
      } else if open != [] {
        if s[0] == '&' {
          if Entity(s).Some? {
            LexNests(s[Entity(s).value.1..], open);
            PrependCloses(Chars([Entity(s).value.0]), Lex(s[Entity(s).value.1..], open), |open|);
          }
        } else if s[0] == '\r' {
          var rest := if "\r\n" <= s then s[2..] else s[1..];
          LexNests(rest, open);
          PrependCloses(Chars("\n"), Lex(rest, open), |open|);
        } else {
          LexNests(s[1..], open);
          PrependCloses(Chars([s[0]]), Lex(s[1..], open), |open|);
        }
      }
    }
  }

  lemma {:induction false} AfterNests(s: string, open: seq<string>)
    ensures var r := After(s, open); r.Some? ==> Closes(r.value, |open|)
    decreases |s|, 2
  {
    if open != [] {
      LexNests(s, open);
    }
  }

  lemma {:induction false} StartNests(s: string, open: seq<string>)
    ensures var r := LexStart(s, open); r.Some? ==> Opens(r.value, |open|)
    ensures Nests(LexStart(s, open), |open|)
    decreases |s|, 2
  {
    var n := NameLength(s);
    var r := ReadAtts(s[n..]);
    if IsName(s[..n]) && r.Some? {
      CloseNests(Start(s[..n], r.value.0), r.value.1, open);
    }
  }

  lemma {:induction false} CloseNests(start: Token, rest: string, open: seq<string>)
    requires start.Start?
    ensures var r := LexClose(start, rest, open); r.Some? ==> Opens(r.value, |open|)
    decreases |rest|, 1
  {
    if "/>" <= rest {
      AfterNests(rest[2..], open);
      var r := After(rest[2..], open);
      PrependCloses(End(start.tag), r, |open| + 1);
      if r.Some? {
        assert ([start, End(start.tag)] + r.value)[1..] == [End(start.tag)] + r.value;
      }
    } else if ">" <= rest {
      AfterNests(rest[1..], open + [start.tag]);
      var r := After(rest[1..], open + [start.tag]);
      if r.Some? {
        assert ([start] + r.value)[1..] == r.value;
      }
    }
  }

  lemma {:induction false} EndNests(s: string, open: seq<string>)
    ensures Nests(LexEnd(s, open), |open|)
    decreases |s|, 0
  {
    var n := NameLength(s);
    if open != [] && ">" <= s[n..] {
      AfterNests(s[n + 1..], open[..|open| - 1]);
      PrependCloses(End(s[..n]), After(s[n + 1..], open[..|open| - 1]), |open|);
    }
  }

  // ---- a value that is misread is in the tree ------------------------------------------

  /** The run fails, or what it shows does not continue with `more`. */
  ghost predicate Departs(p: Parser, ts: seq<Token>, more: seq<Item>) {
    var q := Run(p, ts);
    q.raised == ERROR_NONE ==> !(Shown(p) + more <= Shown(q))
  }

  lemma DepartsAfter(p: Parser, q: Parser, ts: seq<Token>, us: seq<Token>, first: seq<Item>, more: seq<Item>)
    requires Run(p, ts) == Run(q, us) && Shown(q) == Shown(p) + first && Departs(q, us, more)
    ensures Departs(p, ts, first + more)
  {
    ConcatAssoc(Shown(p), first, more);
  }

  lemma DepartsLater(p: Parser, ts: seq<Token>, first: seq<Item>, more: seq<Item>)
    requires Departs(p, ts, first)
    ensures Departs(p, ts, first + more)
  {
    var q := Run(p, ts);
    if Shown(p) + (first + more) <= Shown(q) {
      assert (Shown(p) + (first + more))[..|Shown(p) + first|] == Shown(p) + first;
      assert Shown(q)[..|Shown(p) + first|] == Shown(p) + first;
    }
  }

  /** The attributes built from `atts` cannot be `attrs`. */
  ghost predicate Unlike(atts: seq<RawAtt>, attrs: seq<Attr>) {
    |atts| != |attrs| || exists i :: 0 <= i < |atts| && atts[i].value != attrs[i].value
  }

  /** A start tag with another value than expected, or more of them. */
  lemma MisreadTag(p: Parser, ts: seq<Token>, expected: seq<Attr>)
    requires Tidy(p) && (p.open == [] ==> p.root == None)
    requires Opens(ts, |p.open|) && Unlike(ts[0].atts, expected)
    ensures Departs(p, ts, [Tag(expected)])
  {
    hide Shown, Step;
    var s := Step(p, ts[0]);
    if s.raised != ERROR_NONE {
      RunAfterError(s, ts[1..]);
    } else {
      StartShown(p, ts[0]);
      RunShown(s, ts[1..]);
      var attrs, q, n := s.open[|p.open|].attrs, Run(s, ts[1..]), |Shown(p)|;
      assert attrs != expected;
      if q.raised == ERROR_NONE {
        assert Shown(q)[n] == Shown(s)[n] == Tag(attrs) && (Shown(p) + [Tag(expected)])[n] == Tag(expected);
      }
    }
  }

  lemma MismatchUnlike(atts: seq<RawAtt>, full: seq<RawAtt>, attrs: seq<Attr>)
    requires |full| == |attrs| && forall i :: 0 <= i < |full| ==> full[i].value == attrs[i].value
    requires |atts| != |full| || Mismatch(atts, full)
    ensures Unlike(atts, attrs)
  {
    if |atts| == |full| {
      var i :| 0 <= i < |atts| && i < |full| && atts[i].value != full[i].value;
      assert atts[i].value != attrs[i].value;
    }
  }

  /** A parser and the tokenizer at the same place, about to read what is printed under `b`. */
  ghost predicate Ready(p: Parser, b: Bindings, open: seq<string>) {
    && Tidy(p) && p.ns == b && GoodStack(b) && SpellableStack(b)
    && |p.open| == |open| && (p.open == [] ==> p.root == None)
  }

  /** A character that text cannot carry. */
  lemma {:induction false} MisreadText(t: string, rest: string, open: seq<string>, p: Parser)
    requires open != [] && Guarded(rest) && Tidy(p) && |p.open| == |open| && !IsTextual(t)
    requires Lex(Escape(t, false) + rest, open).Some?
    ensures Departs(p, Lex(Escape(t, false) + rest, open).value, Letters(t))
    decreases t
  {
    hide Departs, Lex, Shown, Guarded, IsTextChar;
    var ts, more := Lex(Escape(t, false) + rest, open).value, Escape(t[1..], false) + rest;
    LexChar(t, rest, open);
    IsTextualCons(t);
    LexNests(Escape(t, false) + rest, open);
    assert Letters(t) == [Letter(t[0])] + Letters(t[1..]);
    if IsTextChar(t[0]) {
      var us, q := Lex(more, open).value, Attach(p, Text([t[0]]));
      assert ts[0] == Chars([t[0]]) && ts[1..] == us;
      AttachShown(p, Text([t[0]]));
      assert Letters([t[0]]) == [Letter(t[0])];
      MisreadText(t[1..], rest, open, q);
      DepartsAfter(p, q, ts, us, [Letter(t[0])], Letters(t[1..]));
    } else {
      MisreadLetter(p, ts, t[0]);
      DepartsLater(p, ts, [Letter(t[0])], Letters(t[1..]));
    }
  }

  lemma MisreadLetter(p: Parser, ts: seq<Token>, c: char)
    requires Tidy(p) && p.open != [] && Closes(ts, |p.open|) && ts[0] == Chars("\n") && c != '\n'
    ensures Departs(p, ts, [Letter(c)])
  {
    hide Shown, AddChild;
    var s := Attach(p, Text("\n"));
    AttachShown(p, Text("\n"));
    RunShown(s, ts[1..]);
    var q, n := Run(s, ts[1..]), |Shown(p)|;
    assert Shown(s)[n] == Letter('\n');
    if q.raised == ERROR_NONE {
      assert Shown(q)[n] == Shown(s)[n] && (Shown(p) + [Letter(c)])[n] == Letter(c);
    }
  }

  /** Reading the start tag of an element with children, which is read as it was printed. */
  lemma EnterBody(name: QName, attrs: seq<Attr>, children: seq<Node>, b: Bindings, rest: string,
                  open: seq<string>, p: Parser)
    requires Spellable(Element(name, attrs, children)) && children != [] && Ready(p, b, open)
    ensures var c, start, s := Frame(b, name, attrs), StartToken(b, name, attrs), Step(p, StartToken(b, name, attrs));
            var inner := "</" + start.tag + ">" + rest;
            && LexClose(start, BodyText(c, name, children) + rest, open) ==
               Prepend([start], Lex(NodesText(children, c) + inner, open + [start.tag]))
            && (if NamableTag(b, name, attrs)
                then Ready(s, c, open + [start.tag]) && Shown(s) == Shown(p) + [Tag(FullAttrs(b, name, attrs))]
                else s.raised != ERROR_NONE)
            && Guarded(inner)
  {
    hide Frame, FullAttrs, Lex, Shown, LexClose, NodesText;
    var c, start := Frame(b, name, attrs), StartToken(b, name, attrs);
    var f, inner := start.tag, "</" + start.tag + ">" + rest;
    BodySplit(NodesText(children, c), f, rest);
    StartTokenIsUnique(b, name, attrs);
    LexCloseCases(start, NodesText(children, c) + inner, open);
    FrameSpellable(b, name, attrs);
    StartStep(p, name, attrs);
    if NamableTag(b, name, attrs) {
      StartShown(p, start);
    }
  }

  /** What departs after a start tag departs with it. */
  lemma DepartsInside(p: Parser, start: Token, us: seq<Token>, tag: Item, more: seq<Item>)
    requires var s := Step(p, start);
             s.raised != ERROR_NONE || (Shown(s) == Shown(p) + [tag] && Departs(s, us, more))
    ensures Departs(p, [start] + us, [tag] + more)
  {
    hide Shown, Step;
    var s, ts := Step(p, start), [start] + us;
    assert ts[1..] == us && Run(p, ts) == Run(s, us);
    if s.raised != ERROR_NONE {
      RunAfterError(s, us);
    } else {
      DepartsAfter(p, s, ts, us, [tag], more);
    }
  }

  /** Reading past a node that is read as it was printed. */
  lemma PassNode(n: Node, b: Bindings, rest: string, open: seq<string>, p: Parser, more: seq<Item>)
    requires Spellable(n) && PlainTree(n, b) && Ready(p, b, open) && open != [] && Guarded(rest)
    requires Lex(NodeText(n, b) + rest, open).Some?
    ensures Lex(rest, open).Some?
    ensures var q := Attach(p, Decorate(n, b));
            Namable(n, b) ==> Ready(q, b, open) && Shown(q) == Shown(p) + Listed(Decorate(n, b))
    ensures (Namable(n, b) ==> Departs(Attach(p, Decorate(n, b)), Lex(rest, open).value, more)) ==>
            Departs(p, Lex(NodeText(n, b) + rest, open).value, Listed(Decorate(n, b)) + more)
  {
    hide Lex, Shown, Departs, AddChild, Listed;
    LexNode(n, b, rest, open);
    SpellableIsWellNamed(n);
    ParseNode(n, p);
    var m, ts, us := Decorate(n, b), Lex(NodeText(n, b) + rest, open).value, Lex(rest, open).value;
    RunConcat(p, Tokens(n, b), us);
    var q := Run(p, Tokens(n, b));
    if Namable(n, b) {
      AttachShown(p, m);
      if Departs(q, us, more) {
        DepartsAfter(p, q, ts, us, Listed(m), more);
      }
    } else {
      RunAfterError(q, us);
      FailureDeparts(p, ts, Listed(m) + more);
    }
  }

  lemma FailureDeparts(p: Parser, ts: seq<Token>, more: seq<Item>)
    requires Run(p, ts).raised != ERROR_NONE
    ensures Departs(p, ts, more)
  {
  }

  lemma {:induction false} MisreadNode(n: Node, b: Bindings, rest: string, open: seq<string>, p: Parser)
    requires Spellable(n) && Ready(p, b, open) && Guarded(rest) && (n.Text? ==> open != []) && !PlainTree(n, b)
    requires Lex(NodeText(n, b) + rest, open).Some?
    ensures Departs(p, Lex(NodeText(n, b) + rest, open).value, Listed(Decorate(n, b)))
    decreases n, 2
  {
    if n.Text? {
      MisreadText(n.text, rest, open, p);
    } else {
      hide Departs, Lex, Frame, Generated, FullAttrs, TagText, BodyText, StartToken, Decorate, PlainTag, Listed;
      var c, full := Frame(b, n.name, n.attrs), FullAttrs(b, n.name, n.attrs);
      var start, tail := StartToken(b, n.name, n.attrs), BodyText(c, n.name, n.children) + rest;
      ConcatAssoc(TagText(b, n.name, n.attrs), BodyText(c, n.name, n.children), rest);
      BodyEndsAtts(c, n.name, n.children, rest);
      LexTag(b, n.name, n.attrs, tail, open);
      DecoratedListed(n, b);
      var ts := Lex(NodeText(n, b) + rest, open).value;
      if PlainTag(b, n.name, n.attrs) {
        EnterBody(n.name, n.attrs, n.children, b, rest, open, p);
        var inner, s := "</" + start.tag + ">" + rest, Step(p, start);
        var us := Lex(NodesText(n.children, c) + inner, open + [start.tag]).value;
        if NamableTag(b, n.name, n.attrs) {
          MisreadNodes(n.children, c, inner, open + [start.tag], s);
        }
        DepartsInside(p, start, us, Tag(full), ListedAgain(n.children, c));
      } else {
        TagOpens(TagText(b, n.name, n.attrs) + tail, open);
        ValuesOfStart(b, n.name, n.attrs);
        MismatchUnlike(ts[0].atts, start.atts, full);
        MisreadTag(p, ts, full);
        DepartsLater(p, ts, [Tag(full)], ListedAgain(n.children, c));
      }
    }
  }

  lemma BodyEndsAtts(c: Bindings, name: QName, children: seq<Node>, rest: string)
    ensures EndsAtts(BodyText(c, name, children) + rest)
  {
  }

  lemma ValuesOfStart(b: Bindings, name: QName, attrs: seq<Attr>)
    ensures var full := FullAttrs(b, name, attrs); var atts := StartToken(b, name, attrs).atts;
            |atts| == |full| && forall i :: 0 <= i < |full| ==> atts[i].value == full[i].value
  {
    hide Frame, FullAttrs;
  }

  /** Tokens that begin with a start tag. */
  lemma TagOpens(s: string, open: seq<string>)
    ensures var r := Lex(s, open); r.Some? && r.value != [] && r.value[0].Start? ==> Opens(r.value, |open|)
  {
    LexNests(s, open);
  }

  lemma {:induction false} MisreadNodes(ns: seq<Node>, b: Bindings, rest: string, open: seq<string>, p: Parser)
    requires (forall i :: 0 <= i < |ns| ==> Spellable(ns[i])) && Ready(p, b, open) && Guarded(rest) && open != []
    requires !PlainTrees(ns, b) && Lex(NodesText(ns, b) + rest, open).Some?
    ensures Departs(p, Lex(NodesText(ns, b) + rest, open).value, ListedAgain(ns, b))
    decreases ns, 0
  {
    hide Departs, Lex, Shown, Guarded, Ready;
    var more := NodesText(ns[1..], b) + rest;
    ConcatAssoc(NodeText(ns[0], b), NodesText(ns[1..], b), rest);
    GuardedNodes(ns[1..], b, rest);
    var m, ts := Decorate(ns[0], b), Lex(NodesText(ns, b) + rest, open).value;
    if PlainTree(ns[0], b) {
      PassNode(ns[0], b, more, open, p, ListedAgain(ns[1..], b));
      if Namable(ns[0], b) {
        MisreadNodes(ns[1..], b, rest, open, Attach(p, m));
      }
    } else {
      MisreadNode(ns[0], b, more, open, p);
      DepartsLater(p, ts, Listed(m), ListedAgain(ns[1..], b));
    }
  }

  // ---- the document theorem ------------------------------------------------------------

  /** A text whose tokens depart from what a tree lists is not read as that tree. */
  lemma DepartsFromTree(text: string, t: Node)
    requires Lex(text, []).Some? ==> Departs(FreshParser, Lex(text, []).value, Listed(t))
    ensures ForStr(text) != Some(t)
  {
    hide Lex, Step, Listed;
    var r := Lex(text, []);
    if r.Some? {
      LexNests(text, []);
      var ts := r.value;
      StartShown(FreshParser, ts[0]);
      var s := Step(FreshParser, ts[0]);
      if s.raised == ERROR_NONE {
        RunShown(s, ts[1..]);
      } else {
        RunAfterError(s, ts[1..]);
      }
      assert Shown(FreshParser) + Listed(t) == Listed(t);
    }
  }

  /** A document that is not plain is not read back. */
  lemma NotReadBack(e: Node)
    requires e.Element? && Spellable(e) && !PlainTree(e, [])
    ensures ForStr(NodeText(e, [])) != Some(Decorate(e, []))
  {
    hide Lex, NodeText, PlainTree, Spellable, Decorate, Listed, Departs;
    assert NodeText(e, []) + "" == NodeText(e, []);
    if Lex(NodeText(e, []), []).Some? {
      MisreadNode(e, [], "", [], FreshParser);
    }
    DepartsFromTree(NodeText(e, []), Decorate(e, []));
  }

  /** Printing a document and reading the text gives back the decorated tree, if and only if
      the tree is plain and every tag is namable; a plain tree that is not namable is
      rejected. */
  lemma DocumentRoundTrip(e: Node)
    requires e.Element? && Spellable(e)
    ensures ForStr(NodeText(e, [])) == Some(Decorate(e, [])) <==> PlainTree(e, []) && Namable(e, [])
    ensures PlainTree(e, []) && !Namable(e, []) ==> ForStr(NodeText(e, [])) == None
  {
    hide Lex, Run, NodeText, Tokens, Namable, PlainTree, Spellable, Decorate;
    if PlainTree(e, []) {
      TextSpellsTokens(e);
      SpellableIsWellNamed(e);
      PrintThenParse(e);
    } else {
      NotReadBack(e);
    }
  }
}
