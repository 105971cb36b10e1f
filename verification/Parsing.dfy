/** The parser callbacks and the tree builder behind them, as a step function on values. */
module Parsing {
  import opened Xml
  import opened Namespaces

  const ERROR_NONE: nat := 0
  const ERROR_SYNTAX: nat := 2

  // ---- one start tag -------------------------------------------------------------------

  datatype DeclKind = NotDeclaration | Declares(binding: Binding) | Illegal

  /** What an attribute, as spelled, declares. A prefix may not be bound to the empty name. */
  function DeclOf(a: RawAtt): DeclKind {
    if !("xmlns" <= a.name) then NotDeclaration
    else if |a.name| == 5 then Declares(Binding("", a.value))
    else if a.name[5] != ':' then NotDeclaration
    else if a.value == "" then Illegal
    else Declares(Binding(a.name[6..], a.value))
  }

  /** The declarations of a tag up to the first illegal one, and whether there is none. */
  function StartDecls(atts: seq<RawAtt>): (Bindings, bool) {
    if atts == [] then ([], true) else
      match DeclOf(atts[0])
      case Illegal => ([], false)
      case NotDeclaration => StartDecls(atts[1..])
      case Declares(d) => var (rest, ok) := StartDecls(atts[1..]); ([d] + rest, ok)
  }

  /** Resolved attributes, unless a name does not resolve or a qualified one repeats. */
  function BuildAttrs(b: Bindings, atts: seq<RawAtt>, seen: set<QName>): Option<seq<Attr>>
    decreases atts
  {
    if atts == [] then Some([]) else
      var q := Resolve(b, atts[0].name, true);
      if q.IsEmpty() || (q.ns != "" && q in seen) then None else
        match BuildAttrs(b, atts[1..], if q.ns != "" then seen + {q} else seen)
        case None => None
        case Some(rest) => Some([Attr(q, atts[0].value)] + rest)
  }

  /** An element that has been started and not ended. */
  datatype OpenElement = OpenElement(name: QName, attrs: seq<Attr>, children: seq<Node>) {
    function Closed(): Node { Element(name, attrs, children) }
  }

  function Build(b: Bindings, tag: string, atts: seq<RawAtt>): Option<OpenElement> {
    var q := Resolve(b, tag, false);
    if q.IsEmpty() then None else
      match BuildAttrs(b, atts, {})
      case None => None
      case Some(attrs) => Some(OpenElement(q, attrs, []))
  }

  // ---- adding children -----------------------------------------------------------------

  /** Character data joins a text child that is already last; an empty chunk adds nothing. */
  function AddText(children: seq<Node>, t: string): seq<Node> {
    if t == "" then children
    else if children != [] && children[|children| - 1].Text? then
      children[..|children| - 1] + [Text(children[|children| - 1].text + t)]
    else children + [Text(t)]
  }

  function AddChild(children: seq<Node>, n: Node): seq<Node> {
    if n.Text? then AddText(children, n.text) else children + [n]
  }

  // ---- the parser as a step function ---------------------------------------------------

  /** `open` is the path from the root to the current element, outermost first; `root` the
      tree that has been completed. */
  datatype Parser = Parser(ns: Bindings, depths: seq<nat>, raised: nat,
                           open: seq<OpenElement>, root: Option<Node>)

  const FreshParser := Parser([], [], ERROR_NONE, [], None)

  function OnStart(p: Parser, tag: string, atts: seq<RawAtt>): Parser {
    var (decls, ok) := StartDecls(atts);
    var q := p.(depths := p.depths + [|p.ns|], ns := p.ns + decls);
    if !ok then q.(raised := ERROR_SYNTAX) else
      match Build(q.ns, tag, atts)
      case None => q.(raised := ERROR_SYNTAX)
      case Some(el) => q.(open := q.open + [el], root := if q.open == [] then None else q.root)
  }

  /** Adds a finished node to the current element, or makes it the root. */
  function Attach(p: Parser, n: Node): Parser {
    if p.open == [] then if n.Text? then p else p.(root := Some(n))
    else
      var top := p.open[|p.open| - 1];
      p.(open := p.open[..|p.open| - 1] + [top.(children := AddChild(top.children, n))])
  }

  function PopBindings(b: Bindings, n: nat): Bindings {
    if n < |b| then b[..n] else b
  }

  /** The tokenizer only ends an element that it started. */
  function OnEnd(p: Parser): Parser {
    if p.depths == [] || p.open == [] then p else
      var q := p.(ns := PopBindings(p.ns, p.depths[|p.depths| - 1]), depths := p.depths[..|p.depths| - 1],
                  open := p.open[..|p.open| - 1]);
      Attach(q, p.open[|p.open| - 1].Closed())
  }

  /** Once an error is raised, callbacks return at once. */
  function Step(p: Parser, t: Token): Parser {
    if p.raised != ERROR_NONE then p else
      match t
      case Start(tag, atts) => OnStart(p, tag, atts)
      case Chars(c) => Attach(p, Text(c))
      case End(_) => OnEnd(p)
  }

  function Run(p: Parser, ts: seq<Token>): Parser
    decreases ts
  {
    if ts == [] then p else Run(Step(p, ts[0]), ts[1..])
  }

  lemma {:induction false} RunConcat(p: Parser, s: seq<Token>, t: seq<Token>)
    ensures Run(p, s + t) == Run(Run(p, s), t)
    decreases s
  {
    if s == [] {
      assert s + t == t;
    } else {
      assert (s + t)[0] == s[0] && (s + t)[1..] == s[1..] + t;
      RunConcat(Step(p, s[0]), s[1..], t);
    }
  }

  lemma {:induction false} RunAfterError(p: Parser, ts: seq<Token>)
    requires p.raised != ERROR_NONE
    ensures Run(p, ts) == p
    decreases ts
  {
    if ts != [] {
      RunAfterError(p, ts[1..]);
    }
  }

  // ---- depth ---------------------------------------------------------------------------

  /** Each frame begins where the one before it does or later, and none beyond `n`. */
  ghost predicate Nested(depths: seq<nat>, n: nat)
    decreases depths
  {
    depths == [] ||
    (depths[|depths| - 1] <= n && Nested(depths[..|depths| - 1], depths[|depths| - 1]))
  }

  /** On an error-free run the parents stack is as deep as the namespace frames, and the
      frames are nested. */
  ghost predicate InStep(p: Parser) {
    p.raised == ERROR_NONE ==> |p.open| == |p.depths| && Nested(p.depths, |p.ns|)
  }

  /** A frame that ends forgets exactly the declarations made since it began, and every run
      keeps the frames and the parents in step. */
  lemma {:induction false} RunInStep(p: Parser, ts: seq<Token>)
    requires InStep(p)
    ensures InStep(Run(p, ts))
    decreases ts
  {
    if ts != [] {
      StepInStep(p, ts[0]);
      RunInStep(Step(p, ts[0]), ts[1..]);
    }
  }

  lemma StepInStep(p: Parser, t: Token)
    requires InStep(p)
    ensures InStep(Step(p, t))
    ensures p.raised == ERROR_NONE && p.depths != [] && t.End? ==>
            |Step(p, t).ns| == p.depths[|p.depths| - 1] && Step(p, t).ns <= p.ns
  {
    if t.Start? {
      assert (p.depths + [|p.ns|])[..|p.depths|] == p.depths;
    }
  }

  // ---- the tree while it is built ------------------------------------------------------

  /** The tree that the open elements stand in, each the last child of the one before. */
  function Standing(open: seq<OpenElement>): Node
    requires open != []
    decreases |open|
  {
    var n := |open| - 1;
    if n == 0 then open[0].Closed()
    else Standing(open[..n - 1] + [open[n - 1].(children := open[n - 1].children + [open[n].Closed()])])
  }

  /** What the builder's root holds at any time. */
  function Visible(p: Parser): Option<Node> {
    if p.open == [] then p.root else Some(Standing(p.open))
  }

  /** The tree as it can be seen from the root: starting an element attaches it at once, and
      ending it changes nothing. */
  lemma StepVisible(p: Parser, t: Token)
    requires p.raised == ERROR_NONE && InStep(p)
    ensures t.End? ==> Visible(Step(p, t)) == Visible(p)
    ensures var q := Step(p, t);
            t.Start? && q.raised == ERROR_NONE ==>
              |q.open| == |p.open| + 1 && q.open[|p.open|].children == []
              && q.open[..|p.open|] == p.open
              && Visible(q) == Visible(Attach(p, q.open[|p.open|].Closed()))
  {
    if t.Start? {
      var (decls, ok) := StartDecls(t.atts);
      var el := Build(p.ns + decls, t.tag, t.atts);
      if ok && el.Some? {
        OpenVisible(p.open, el.value);
      }
    } else if t.End? && p.open != [] {
      var n := |p.open| - 1;
      OpenVisible(p.open[..n], p.open[n]);
      assert p.open[..n] + [p.open[n]] == p.open;
    }
  }

  lemma OpenVisible(open: seq<OpenElement>, el: OpenElement)
    ensures var n := |open|;
            Standing(open + [el]) ==
            if open == [] then el.Closed()
            else Standing(open[..n - 1] + [open[n - 1].(children := open[n - 1].children + [el.Closed()])])
  {
    assert open != [] ==> (open + [el])[..|open| - 1] == open[..|open| - 1];
  }

  // ---- chunks --------------------------------------------------------------------------

  /** Joins adjacent character data and drops empty chunks. */
  function Squash(ts: seq<Token>): seq<Token> {
    if ts == [] then [] else
      var rest := Squash(ts[1..]);
      if !ts[0].Chars? then [ts[0]] + rest
      else if ts[0].chunk == "" then rest
      else if rest != [] && rest[0].Chars? then [Chars(ts[0].chunk + rest[0].chunk)] + rest[1..]
      else [ts[0]] + rest
  }

  lemma AttachTextTwice(p: Parser, a: string, b: string)
    ensures Attach(Attach(p, Text(a)), Text(b)) == Attach(p, Text(a + b))
    ensures Attach(p, Text("")) == p
  {
    assert a == "" ==> a + b == b;
    assert b == "" ==> a + b == a;
    if p.open != [] {
      var top := p.open[|p.open| - 1];
      var kids := top.children;
      AddTextTwice(kids, a, b);
      assert p.open[..|p.open| - 1] + [top] == p.open;
    }
  }

  lemma AddTextTwice(kids: seq<Node>, a: string, b: string)
    ensures AddText(AddText(kids, a), b) == AddText(kids, a + b)
  {
    assert a == "" ==> a + b == b;
    assert b == "" ==> a + b == a;
    if kids != [] && kids[|kids| - 1].Text? {
      ConcatAssoc(kids[|kids| - 1].text, a, b);
    }
  }

  lemma {:induction false} RunSquash(p: Parser, ts: seq<Token>)
    ensures Run(p, Squash(ts)) == Run(p, ts)
    decreases ts
  {
    if p.raised != ERROR_NONE {
      RunAfterError(p, ts);
      RunAfterError(p, Squash(ts));
    } else if ts != [] {
      var rest := Squash(ts[1..]);
      RunSquash(Step(p, ts[0]), ts[1..]);
      if !ts[0].Chars? || (ts[0].chunk != "" && (rest == [] || !rest[0].Chars?)) {
        assert Squash(ts)[1..] == rest;
      } else if ts[0].chunk == "" {
        AttachTextTwice(p, "", "");
      } else {
        AttachTextTwice(p, ts[0].chunk, rest[0].chunk);
        assert Squash(ts)[1..] == rest[1..];
      }
    }
  }

  /** The tree does not depend on how character data is cut into chunks. */
  lemma ChunkingIrrelevant(p: Parser, s: seq<Token>, t: seq<Token>)
    requires Squash(s) == Squash(t)
    ensures Run(p, s) == Run(p, t)
  {
    RunSquash(p, s);
    RunSquash(p, t);
  }
}
