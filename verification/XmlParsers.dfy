/** The parser and builder objects, and the error latch of `XmlParser::Parse`. */
module XmlParsers {
  import opened Xml
  import opened Namespaces
  import opened Printing
  import opened Parsing
  import opened RoundTrip
  import opened Misreading
  import XmlnsStacks

  /** What the handler behind the parser gets to see. */
  datatype HandlerEvent =
    | StartEvent(tag: string, atts: seq<RawAtt>)
    | EndEvent(tag: string)
    | TextEvent(chunk: string)
    | ErrorEvent(code: nat)

  // ---- sessions as values --------------------------------------------------------------

  /** A parser together with its latch and everything its handler has been told. */
  datatype Session = Session(parser: Parser, sentError: bool, log: seq<HandlerEvent>)

  const FreshSession := Session(FreshParser, false, [])

  /** The handler event that a callback passes on. */
  function Passes(p: Parser, t: Token): seq<HandlerEvent> {
    if p.raised != ERROR_NONE then [] else
      match t
      case Start(tag, atts) => if StartDecls(atts).1 then [StartEvent(tag, atts)] else []
      case Chars(c) => [TextEvent(c)]
      case End(tag) => [EndEvent(tag)]
  }

  function Deliver(s: Session, ts: seq<Token>): Session
    decreases ts
  {
    if ts == [] then s
    else Deliver(s.(parser := Step(s.parser, ts[0]), log := s.log + Passes(s.parser, ts[0])), ts[1..])
  }

  /** The first error that is raised stays. */
  function Raise(p: Parser, code: nat): Parser {
    if p.raised == ERROR_NONE then p.(raised := code) else p
  }

  /** One call of `Parse`: the tokenizer makes its callbacks and returns a status. */
  function ParseCall(s: Session, ts: seq<Token>, status: nat): Session {
    if s.sentError then s else
      var d := Deliver(s, ts);
      var p := Raise(d.parser, status);
      if p.raised == ERROR_NONE then d
      else Session(p.(open := [], root := None), true, d.log + [ErrorEvent(p.raised)])
  }

  datatype Call = Call(tokens: seq<Token>, status: nat)

  function ParseCalls(s: Session, calls: seq<Call>): Session
    decreases calls
  {
    if calls == [] then s else ParseCalls(ParseCall(s, calls[0].tokens, calls[0].status), calls[1..])
  }

  ghost predicate ErrorFree(log: seq<HandlerEvent>) {
    forall i :: 0 <= i < |log| ==> !log[i].ErrorEvent?
  }

  /** Either no error has been raised or reported, or exactly one was reported, last, with
      the code that was raised first, and the handler is empty. */
  ghost predicate Latched(s: Session) {
    if s.sentError then
      && s.parser.raised != ERROR_NONE && s.parser.open == [] && s.parser.root == None
      && s.log != [] && ErrorFree(s.log[..|s.log| - 1]) && s.log[|s.log| - 1] == ErrorEvent(s.parser.raised)
    else s.parser.raised == ERROR_NONE && ErrorFree(s.log)
  }

  lemma {:induction false} DeliverSpec(s: Session, ts: seq<Token>)
    requires ErrorFree(s.log)
    ensures var d := Deliver(s, ts);
            && d.parser == Run(s.parser, ts) && d.sentError == s.sentError
            && s.log <= d.log && ErrorFree(d.log)
            && (s.parser.raised != ERROR_NONE ==> d == s)
    decreases ts
  {
    if ts != [] {
      var next := s.(parser := Step(s.parser, ts[0]), log := s.log + Passes(s.parser, ts[0]));
      DeliverSpec(next, ts[1..]);
    }
  }

  function EventOf(t: Token): HandlerEvent {
    match t
    case Start(tag, atts) => StartEvent(tag, atts)
    case Chars(chunk) => TextEvent(chunk)
    case End(tag) => EndEvent(tag)
  }

  function EventsOf(ts: seq<Token>): (r: seq<HandlerEvent>)
    ensures |r| == |ts| && forall i :: 0 <= i < |ts| ==> r[i] == EventOf(ts[i])
  {
    seq(|ts|, i requires 0 <= i < |ts| => EventOf(ts[i]))
  }

  /** As long as no error is raised, the handler is told of every token, in order. */
  lemma {:induction false} HandlerHears(s: Session, ts: seq<Token>)
    requires s.parser.raised == ERROR_NONE && Run(s.parser, ts).raised == ERROR_NONE
    ensures Deliver(s, ts).log == s.log + EventsOf(ts)
    decreases ts
  {
    if ts != [] {
      var next := s.(parser := Step(s.parser, ts[0]), log := s.log + Passes(s.parser, ts[0]));
      if next.parser.raised != ERROR_NONE {
        RunAfterError(next.parser, ts[1..]);
      }
      NoErrorPasses(s.parser, ts[0]);
      HandlerHears(next, ts[1..]);
      assert EventsOf(ts) == [EventOf(ts[0])] + EventsOf(ts[1..]);
    }
  }

  lemma NoErrorPasses(p: Parser, t: Token)
    requires p.raised == ERROR_NONE && Step(p, t).raised == ERROR_NONE
    ensures Passes(p, t) == [EventOf(t)]
  {
    hide StartDecls, Build;
  }

  /** A prefix is declared to be empty. */
  predicate DeclaresEmpty(atts: seq<RawAtt>) {
    exists i :: 0 <= i < |atts| && "xmlns:" <= atts[i].name && atts[i].value == ""
  }

  /** Only a start tag raises an error. The handler is told of it unless it declares a prefix
      to be empty; otherwise it is the handler itself that raised the error. */
  lemma ErrorToken(s: Session, t: Token)
    requires s.parser.raised == ERROR_NONE && Step(s.parser, t).raised != ERROR_NONE
    ensures t.Start? && Step(s.parser, t).raised == 2
    ensures Deliver(s, [t]).log == s.log + if DeclaresEmpty(t.atts) then [] else [EventOf(t)]
  {
    hide Build;
    assert [t][1..] == [];
    var next := s.(parser := Step(s.parser, t), log := s.log + Passes(s.parser, t));
    assert Deliver(s, [t]) == Deliver(next, []);
    if t.Start? {
      LegalDecls(t.atts);
    }
  }

  lemma {:induction false} LegalDecls(atts: seq<RawAtt>)
    ensures StartDecls(atts).1 <==> !DeclaresEmpty(atts)
  {
    if atts != [] {
      LegalDecls(atts[1..]);
      var a := atts[0];
      assert DeclOf(a) == Illegal <==> "xmlns:" <= a.name && a.value == "" by {
        assert "xmlns:" <= a.name <==> "xmlns" <= a.name && |a.name| > 5 && a.name[5] == ':';
      }
      assert DeclaresEmpty(atts) <==> DeclOf(a) == Illegal || DeclaresEmpty(atts[1..]) by {
        assert forall i :: 0 < i < |atts| ==> atts[i] == atts[1..][i - 1];
        if DeclaresEmpty(atts[1..]) {
          var i :| 0 <= i < |atts[1..]| && "xmlns:" <= atts[1..][i].name && atts[1..][i].value == "";
          assert atts[i + 1] == atts[1..][i];
        }
      }
    }
  }

  lemma ParseCallKeepsLatch(s: Session, ts: seq<Token>, status: nat)
    requires Latched(s)
    ensures Latched(ParseCall(s, ts, status))
  {
    if !s.sentError {
      DeliverSpec(s, ts);
      var d := Deliver(s, ts);
      assert forall e :: (d.log + [e])[..|d.log|] == d.log;
    }
  }

  /** In every sequence of `Parse` calls the handler gets at most one error, after which it
      gets nothing. */
  lemma {:induction false} SessionsLatch(s: Session, calls: seq<Call>)
    requires Latched(s)
    ensures Latched(ParseCalls(s, calls))
    decreases calls
  {
    if calls != [] {
      ParseCallKeepsLatch(s, calls[0].tokens, calls[0].status);
      SessionsLatch(ParseCall(s, calls[0].tokens, calls[0].status), calls[1..]);
    }
  }

  /** The error that is reported is the callbacks' own if they raised one, and otherwise the
      tokenizer's; without either, nothing is reported. */
  lemma ReportedCode(s: Session, ts: seq<Token>, status: nat)
    requires Latched(s) && !s.sentError
    ensures var own := Run(s.parser, ts).raised; var r := ParseCall(s, ts, status);
            var code := if own != ERROR_NONE then own else status;
            && (r.sentError <==> code != ERROR_NONE)
            && (r.sentError ==> r.log != [] && r.log[|r.log| - 1] == ErrorEvent(code))
  {
    DeliverSpec(s, ts);
  }

  /** What a session does does not depend on what the handler was told earlier. */
  lemma {:induction false} DeliverIgnoresLog(l: seq<HandlerEvent>, s: Session, ts: seq<Token>)
    ensures var r := Deliver(s, ts); Deliver(s.(log := l + s.log), ts) == r.(log := l + r.log)
    decreases ts
  {
    if ts != [] {
      var next := s.(parser := Step(s.parser, ts[0]), log := s.log + Passes(s.parser, ts[0]));
      ConcatAssoc(l, s.log, Passes(s.parser, ts[0]));
      DeliverIgnoresLog(l, next, ts[1..]);
    }
  }

  lemma {:induction false} CallsIgnoreLog(l: seq<HandlerEvent>, s: Session, calls: seq<Call>)
    ensures var r := ParseCalls(s, calls); ParseCalls(s.(log := l + s.log), calls) == r.(log := l + r.log)
    decreases calls
  {
    if calls != [] {
      var c := calls[0];
      DeliverIgnoresLog(l, s, c.tokens);
      var d := Deliver(s, c.tokens);
      ConcatAssoc(l, d.log, [ErrorEvent(Raise(d.parser, c.status).raised)]);
      CallsIgnoreLog(l, ParseCall(s, c.tokens, c.status), calls[1..]);
    }
  }

  /** `XmlParser::Reset`: the context and the latch are cleared, the handler is left alone. */
  function AfterReset(s: Session): Session {
    s.(parser := s.parser.(ns := [], depths := [], raised := ERROR_NONE), sentError := false)
  }

  /** After a reset the handler again gets at most one error, as if nothing had been told. */
  lemma LatchAfterReset(s: Session, calls: seq<Call>)
    ensures var r := ParseCalls(AfterReset(s).(log := []), calls);
            Latched(r) && ParseCalls(AfterReset(s), calls) == r.(log := s.log + r.log)
  {
    var t := AfterReset(s).(log := []);
    assert s.log + t.log == s.log;
    SessionsLatch(t, calls);
    CallsIgnoreLog(s.log, t, calls);
  }

  /** The parser `p` with elements around the ones it has open. */
  function Under(outer: seq<OpenElement>, root: Option<Node>, p: Parser): Parser {
    p.(open := outer + p.open, root := root)
  }

  lemma StartUnder(outer: seq<OpenElement>, root: Option<Node>, p: Parser, t: Token)
    requires p.raised == ERROR_NONE && p.open != [] && t.Start?
    ensures var s, q := Step(p, t), Step(Under(outer, root, p), t);
            && q.raised == s.raised && s.root == p.root
            && (s.raised == ERROR_NONE ==>
                 q == Under(outer, root, s) && |s.open| == |p.open| + 1 && |s.depths| == |p.depths| + 1)
  {
    hide StartDecls, Build;
    var (decls, ok) := StartDecls(t.atts);
    var el := Build(p.ns + decls, t.tag, t.atts);
    if el.Some? {
      ConcatAssoc(outer, p.open, [el.value]);
    }
  }

  /** The last element ends: its tree becomes the root, or a child of the element around it. */
  lemma LastUnder(outer: seq<OpenElement>, root: Option<Node>, p: Parser)
    requires p.raised == ERROR_NONE && |p.open| == |p.depths| == 1
    ensures var s, q := OnEnd(p), OnEnd(Under(outer, root, p));
            && s.raised == ERROR_NONE && q.raised == ERROR_NONE && s.open == [] && s.root.Some?
            && q == Attach(s.(open := outer, root := root), s.root.value)
  {
    hide AddChild;
    var o := outer + p.open;
    assert o[..|o| - 1] == outer && o[|o| - 1] == p.open[0];
  }

  lemma UnderRaised(outer: seq<OpenElement>, root: Option<Node>, p: Parser)
    ensures Under(outer, root, p).raised == p.raised
  {
  }

  lemma AttachUnder(outer: seq<OpenElement>, root: Option<Node>, p: Parser, c: string)
    requires p.open != []
    ensures Attach(Under(outer, root, p), Text(c)) == Under(outer, root, Attach(p, Text(c)))
    ensures var s := Attach(p, Text(c)); s == p.(open := s.open) && |s.open| == |p.open|
  {
    hide AddChild;
    var n := |p.open| - 1;
    var o := outer + p.open;
    var now := p.open[n].(children := AddChild(p.open[n].children, Text(c)));
    assert o[..|o| - 1] == outer + p.open[..n] && o[|o| - 1] == p.open[n];
    ConcatAssoc(outer, p.open[..n], [now]);
  }

  lemma EndUnder(outer: seq<OpenElement>, root: Option<Node>, p: Parser)
    requires |p.open| > 1 && |p.open| == |p.depths|
    ensures OnEnd(Under(outer, root, p)) == Under(outer, root, OnEnd(p))
    ensures var s := OnEnd(p);
            |s.open| == |s.depths| == |p.open| - 1 && s.root == p.root && s.raised == p.raised
  {
    hide AddChild;
    var n := |p.open| - 1;
    var o, init := outer + p.open, p.open[..n];
    var now := init[n - 1].(children := AddChild(init[n - 1].children, p.open[n].Closed()));
    assert o[..|o| - 1] == outer + init && o[|o| - 1] == p.open[n];
    assert (outer + init)[..|outer + init| - 1] == outer + init[..n - 1];
    ConcatAssoc(outer, init[..n - 1], [now]);
  }

  /** Reading the rest of a document inside other elements attaches its tree to them. */
  lemma {:induction false} RunUnder(outer: seq<OpenElement>, root: Option<Node>, p: Parser, ts: seq<Token>)
    requires p.raised == ERROR_NONE && p.open != [] && |p.open| == |p.depths| && p.root == None
    requires (outer == [] ==> root == None) && Closes(ts, |p.open|)
    ensures var s, q := Run(p, ts), Run(Under(outer, root, p), ts);
            && q.raised == s.raised
            && (s.raised == ERROR_NONE ==>
                 s.open == [] && s.root.Some? && q == Attach(s.(open := outer, root := root), s.root.value))
    decreases ts
  {
    hide OnStart, OnEnd, Attach, Under;
    match ts[0]
    case Start(_, _) =>
      StartUnder(outer, root, p, ts[0]);
      var s, q := Step(p, ts[0]), Step(Under(outer, root, p), ts[0]);
      UnderRaised(outer, root, p);
      if s.raised != ERROR_NONE {
        RunAfterError(s, ts[1..]);
        RunAfterError(q, ts[1..]);
      } else {
        RunUnder(outer, root, s, ts[1..]);
      }
    case Chars(c) =>
      AttachUnder(outer, root, p, c);
      UnderRaised(outer, root, p);
      RunUnder(outer, root, Attach(p, Text(c)), ts[1..]);
    case End(_) =>
      UnderRaised(outer, root, p);
      if |p.open| == 1 {
        LastUnder(outer, root, p);
        assert ts[1..] == [];
      } else {
        EndUnder(outer, root, p);
        RunUnder(outer, root, OnEnd(p), ts[1..]);
      }
  }

  /** A document ends with nothing declared. */
  lemma {:induction false} FreshEnds(p: Parser, ts: seq<Token>)
    requires p.raised == ERROR_NONE && p.open != [] && |p.open| == |p.depths| && p.depths[0] == 0
    requires Closes(ts, |p.open|)
    ensures var s := Run(p, ts); s.raised == ERROR_NONE ==> s.ns == [] && s.depths == []
    decreases ts
  {
    var s := Step(p, ts[0]);
    EndsStep(p, ts[0]);
    hide Step;
    if s.raised != ERROR_NONE {
      RunAfterError(s, ts[1..]);
    } else if s.open != [] {
      FreshEnds(s, ts[1..]);
    } else {
      assert ts[1..] == [];
    }
  }

  lemma EndsStep(p: Parser, t: Token)
    requires p.raised == ERROR_NONE && p.open != [] && |p.open| == |p.depths| && p.depths[0] == 0
    ensures var s := Step(p, t);
            s.raised == ERROR_NONE ==>
              && |s.open| == |s.depths| == |p.open| + (if t.Start? then 1 else if t.End? then -1 else 0)
              && (if s.open == [] then s.ns == [] else s.depths[0] == 0)
  {
    hide StartDecls, Build, AddChild;
  }

  /** After a reset the next document, if it is accepted, is attached where the builder
      stands; so it is built as a fresh parser builds it exactly if no element was open. */
  lemma DocumentAfterReset(s: Session, ts: seq<Token>)
    requires Opens(ts, 0) && Run(FreshParser, ts).raised == ERROR_NONE
    ensures var r, f := AfterReset(s).parser, Run(FreshParser, ts);
            && f == FreshParser.(root := f.root) && f.root.Some?
            && Run(r, ts) == Attach(r, f.root.value)
            && (Run(r, ts) == f <==> s.parser.open == [])
  {
    var r := AfterReset(s).parser;
    var a, b := Step(FreshParser, ts[0]), Step(r, ts[0]);
    if a.raised != ERROR_NONE {
      RunAfterError(a, ts[1..]);
    }
    var root := if r.open == [] then None else r.root;
    StartAfterReset(r, ts[0]);
    RunUnder(r.open, root, a, ts[1..]);
    var f := Run(FreshParser, ts);
    FreshEnds(a, ts[1..]);
  }

  /** A reset inside `<a>` leaves the builder there, and `<b/>` becomes a child of it. */
  lemma ResetInsideElement()
    ensures var a, b := QName("", "a"), Element(QName("", "b"), [], []);
            var s := Session(Run(FreshParser, [StartToken([], a, [])]), false, []);
            var r := Run(AfterReset(s).parser, Tokens(b, []));
            && s.parser.raised == ERROR_NONE
            && Run(FreshParser, Tokens(b, [])) == FreshParser.(root := Some(b))
            && r.root == None && r.open == [OpenElement(a, [], [b])]
  {
    hide StartToken, Run, Tokens, Namable, Decorate, WellNamed, Frame;
    var a, b := QName("", "a"), Element(QName("", "b"), [], []);
    NothingGenerated("b");
    StartOnly(a);
    var s := Session(Run(FreshParser, [StartToken([], a, [])]), false, []);
    PrintThenParse(b);
    OneTag(b);
    DocumentAfterReset(s, Tokens(b, []));
    var top := s.parser.open[0];
    assert s.parser.open[..0] == [] && top.children + [b] == [b];
  }

  lemma StartOnly(a: QName)
    requires a == QName("", "a")
    ensures var p := Run(FreshParser, [StartToken([], a, [])]);
            p.raised == ERROR_NONE && p.open == [OpenElement(a, [], [])] && p.root == None
  {
    hide StartToken, Step, Frame, FullAttrs;
    NothingGenerated("a");
    var start := StartToken([], a, []);
    StartStep(FreshParser, a, []);
    assert [start][1..] == [] && Run(FreshParser, [start]) == Run(Step(FreshParser, start), []);
    assert FreshParser.open + [OpenElement(a, [], [])] == [OpenElement(a, [], [])];
  }

  lemma NothingGenerated(local: string)
    requires local == "a" || local == "b"
    ensures var e := Element(QName("", local), [], []);
            FullAttrs([], e.name, []) == [] && WellNamed(e) && Namable(e, []) && Decorate(e, []) == e
    ensures NamableTag([], QName("", local), [])
  {
    assert [] + Declared([]) == [] && Frame([], QName("", local), []) == [];
    assert FullAttrs([], QName("", local), []) == [] + DeclAttrs([]);
  }

  lemma OneTag(e: Node)
    requires e.Element? && e.children == []
    ensures Opens(Tokens(e, []), 0)
  {
    var ts := Tokens(e, []);
    var f := Format(Frame([], e.name, e.attrs), e.name, false);
    assert TokensOf([], Frame([], e.name, e.attrs)) == [];
    assert ts == [StartToken([], e.name, e.attrs)] + [] + [End(f)];
    assert ts[1..] == [End(f)] && [End(f)][1..] == [];
  }

  lemma StartAfterReset(r: Parser, t: Token)
    requires t.Start? && Step(FreshParser, t).raised == ERROR_NONE
    requires r.ns == [] && r.depths == [] && r.raised == ERROR_NONE
    ensures var a := Step(FreshParser, t);
            && |a.open| == 1 && a.root == None && |a.depths| == 1
            && Step(r, t) == Under(r.open, if r.open == [] then None else r.root, a)
  {
    hide StartDecls, Build;
    assert FreshParser.open + [] == [];
  }

  /** Tokens that arrive after the one that raised an error change nothing. */
  lemma {:induction false} NothingAfterError(s: Session, ts: seq<Token>, more: seq<Token>)
    requires Run(s.parser, ts).raised != ERROR_NONE
    ensures Deliver(s, ts + more) == Deliver(s, ts)
    decreases ts
  {
    if ts == [] {
      assert ts + more == more;
      DeliverAfterError(s, more);
    } else {
      assert (ts + more)[0] == ts[0] && (ts + more)[1..] == ts[1..] + more;
      var next := s.(parser := Step(s.parser, ts[0]), log := s.log + Passes(s.parser, ts[0]));
      NothingAfterError(next, ts[1..], more);
    }
  }

  lemma {:induction false} DeliverAfterError(s: Session, ts: seq<Token>)
    requires s.parser.raised != ERROR_NONE
    ensures Deliver(s, ts) == s
    decreases ts
  {
    if ts != [] {
      assert s.log + [] == s.log;
      DeliverAfterError(s, ts[1..]);
    }
  }

  // ---- the objects ---------------------------------------------------------------------

  class XmlBuilder {
    var open: seq<OpenElement>
    var root: Option<Node>

    constructor ()
      ensures open == [] && root == None
    {
      open, root := [], None;
    }

    /** Resolves the names of a tag; fails on an unresolved name or a repeated qualified one. */
    method BuildElement(stack: XmlnsStacks.XmlnsStack, tag: string, atts: seq<RawAtt>) returns (r: Option<OpenElement>)
      ensures r == Build(stack.bindings, tag, atts)
    {
      var name := Resolve(stack.bindings, tag, false);
      if name.IsEmpty() {
        return None;
      }
      var attrs, seen: set<QName>, i := [], {}, 0;
      ghost var all := BuildAttrs(stack.bindings, atts, {});
      assert atts[0..] == atts;
      assert all.Some? ==> attrs + all.value == all.value;
      while i < |atts|
        invariant 0 <= i <= |atts|
        invariant var rest := BuildAttrs(stack.bindings, atts[i..], seen);
                  all == if rest.None? then None else Some(attrs + rest.value)
      {
        assert atts[i..][1..] == atts[i + 1..];
        var q := Resolve(stack.bindings, atts[i].name, true);
        if q.IsEmpty() {
          return None;
        }
        if q.ns != "" {
          if q in seen {
            return None;
          }
          seen := seen + {q};
        }
        ghost var rest := BuildAttrs(stack.bindings, atts[i + 1..], seen);
        if rest.Some? {
          ConcatAssoc(attrs, [Attr(q, atts[i].value)], rest.value);
        }
        attrs := attrs + [Attr(q, atts[i].value)];
        i := i + 1;
      }
      assert attrs + [] == attrs;
      return Some(OpenElement(name, attrs, []));
    }

    /** The tree that the root holds while it is being built. */
    ghost function Tree(): Option<Node>
      reads this
    {
      Visible(Parser([], [], 0, open, root))
    }

    /** Starts an element inside the current one; reports failure to build it. */
    method StartElement(stack: XmlnsStacks.XmlnsStack, tag: string, atts: seq<RawAtt>) returns (ok: bool)
      modifies this
      ensures var el := Build(stack.bindings, tag, atts);
              && (ok <==> el.Some?)
              && open == (if ok then old(open) + [el.value] else old(open))
              && root == (if ok && old(open) == [] then None else old(root))
              && Tree() == if ok then Visible(Attach(Parser([], [], 0, old(open), old(root)), el.value.Closed()))
                           else old(Tree())
    {
      var el := BuildElement(stack, tag, atts);
      if el.None? {
        return false;
      }
      if open == [] {
        root := None;
      }
      OpenVisible(open, el.value);
      open := open + [el.value];
      return true;
    }

    /** Goes back to the parent of the current element; the tree stays the same. */
    method EndElement()
      requires open != []
      modifies this
      ensures Tree() == old(Tree())
      ensures var n := |old(open)| - 1;
              var p := Attach(Parser([], [], 0, old(open)[..n], old(root)), old(open)[n].Closed());
              open == p.open && root == p.root
    {
      var n := |open| - 1;
      var done := open[n].Closed();
      OpenVisible(open[..n], open[n]);
      assert open[..n] + [open[n]] == open;
      open := open[..n];
      if open == [] {
        root := Some(done);
      } else {
        var top := open[n - 1];
        open := open[..n - 1] + [top.(children := top.children + [done])];
      }
    }

    method CharacterData(chunk: string)
      modifies this`open
      ensures open == Attach(Parser([], [], 0, old(open), root), Text(chunk)).open
    {
      if open != [] {
        var n := |open| - 1;
        open := open[..n] + [open[n].(children := AddText(open[n].children, chunk))];
      }
    }

    method Error()
      modifies this
      ensures open == [] && root == None
    {
      open, root := [], None;
    }
  }

  class XmlParser {
    const stack: XmlnsStacks.XmlnsStack
    const builder: XmlBuilder
    var raised: nat
    var sentError: bool
    var log: seq<HandlerEvent>

    ghost function View(): Session
      reads this, stack, builder
    {
      Session(Parser(stack.bindings, stack.depths, raised, builder.open, builder.root), sentError, log)
    }

    constructor ()
      ensures View() == FreshSession && fresh(stack) && fresh(builder)
    {
      stack := new XmlnsStacks.XmlnsStack();
      builder := new XmlBuilder();
      raised, sentError, log := ERROR_NONE, false, [];
    }

    method RaiseError(code: nat)
      modifies this`raised
      ensures raised == if old(raised) == ERROR_NONE then code else old(raised)
    {
      if raised == ERROR_NONE {
        raised := code;
      }
    }

    method ExpatStartElement(tag: string, atts: seq<RawAtt>)
      modifies this, stack, builder
      ensures View() == Deliver(old(View()), [Start(tag, atts)])
    {
      assert [Start(tag, atts)][1..] == [];
      if raised != ERROR_NONE {
        assert log + [] == log;
        return;
      }
      stack.PushFrame();
      var ok := StartNamespaces(atts);
      if !ok {
        RaiseError(ERROR_SYNTAX);
        assert log + [] == log;
        return;
      }
      log := log + [StartEvent(tag, atts)];
      var built := builder.StartElement(stack, tag, atts);
      if !built {
        RaiseError(ERROR_SYNTAX);
      }
    }

    /** Puts the declarations of a tag on the stack, up to an illegal one. */
    method StartNamespaces(atts: seq<RawAtt>) returns (ok: bool)
      modifies stack`bindings
      ensures var (decls, legal) := StartDecls(atts);
              ok == legal && stack.bindings == old(stack.bindings) + decls
    {
      var i := 0;
      assert atts[0..] == atts;
      while i < |atts|
        invariant 0 <= i <= |atts|
        invariant StartDecls(atts).1 == StartDecls(atts[i..]).1
        invariant stack.bindings + StartDecls(atts[i..]).0 == old(stack.bindings) + StartDecls(atts).0
      {
        assert atts[i..][1..] == atts[i + 1..];
        match DeclOf(atts[i]) {
          case Illegal => return false;
          case NotDeclaration =>
          case Declares(d) =>
            ConcatAssoc(stack.bindings, [d], StartDecls(atts[i + 1..]).0);
            stack.AddXmlns(d.prefix, d.ns);
        }
        i := i + 1;
      }
      return true;
    }

    method ExpatEndElement(tag: string)
      requires raised == ERROR_NONE ==> stack.depths != [] && builder.open != []
      modifies this, stack, builder
      ensures View() == Deliver(old(View()), [End(tag)])
    {
      assert [End(tag)][1..] == [];
      if raised != ERROR_NONE {
        assert log + [] == log;
        return;
      }
      stack.PopFrame();
      log := log + [EndEvent(tag)];
      builder.EndElement();
    }

    method ExpatCharacterData(chunk: string)
      modifies this, builder
      ensures View() == Deliver(old(View()), [Chars(chunk)])
    {
      assert [Chars(chunk)][1..] == [];
      if raised != ERROR_NONE {
        assert log + [] == log;
        return;
      }
      log := log + [TextEvent(chunk)];
      builder.CharacterData(chunk);
    }

    /** Feeds the tokenizer's callbacks to the handler and reports the first error once. */
    method Parse(ts: seq<Token>, status: nat) returns (ok: bool)
      requires Feedable(View().parser, ts)
      modifies this, stack, builder
      ensures View() == ParseCall(old(View()), ts, status)
      ensures ok <==> !View().sentError && View().parser.raised == ERROR_NONE
    {
      if sentError {
        return false;
      }
      var i := 0;
      assert ts[0..] == ts;
      while i < |ts|
        invariant 0 <= i <= |ts|
        invariant Deliver(View(), ts[i..]) == Deliver(old(View()), ts)
        invariant Feedable(View().parser, ts[i..])
        invariant !sentError
      {
        assert ts[i..][1..] == ts[i + 1..];
        ghost var s := View();
        match ts[i] {
          case Start(tag, atts) => ExpatStartElement(tag, atts);
          case Chars(c) => ExpatCharacterData(c);
          case End(tag) => ExpatEndElement(tag);
        }
        DeliverOne(s, ts[i..]);
        i := i + 1;
      }
      if status != ERROR_NONE {
        RaiseError(status);
      }
      if raised != ERROR_NONE {
        sentError := true;
        log := log + [ErrorEvent(raised)];
        builder.Error();
        return false;
      }
      return true;
    }

    method Reset()
      modifies this, stack
      ensures View() == AfterReset(old(View()))
    {
      stack.Reset();
      raised, sentError := ERROR_NONE, false;
    }
  }

  /** The tokenizer ends only elements that are open, as its own nesting check ensures. */
  ghost predicate Feedable(p: Parser, ts: seq<Token>)
    decreases ts
  {
    ts == [] ||
    ((ts[0].End? && p.raised == ERROR_NONE ==> p.depths != [] && p.open != []) && Feedable(Step(p, ts[0]), ts[1..]))
  }

  lemma DeliverOne(s: Session, ts: seq<Token>)
    requires ts != []
    ensures Deliver(s, ts) == Deliver(Deliver(s, [ts[0]]), ts[1..])
    ensures Deliver(s, [ts[0]]).parser == Step(s.parser, ts[0])
    ensures Deliver(s, [ts[0]]).sentError == s.sentError
  {
    assert [ts[0]][1..] == [];
  }
}
