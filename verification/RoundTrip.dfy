/** Printing a tree and parsing it again: the parser's namespace stack follows the printer's,
    and the tree comes back with the declarations the printer had to add. */
module RoundTrip {
  import opened Xml
  import opened Namespaces
  import opened Printing
  import opened Parsing

  // ---- which trees are meant -----------------------------------------------------------

  /** Local names are non-empty and colon-free and no attribute is given twice. */
  ghost predicate WellNamed(n: Node) {
    match n
    case Text(_) => true
    case Element(name, attrs, children) =>
      && IsLocal(name.local)
      && (forall i :: 0 <= i < |attrs| ==> IsLocal(attrs[i].name.local))
      && DistinctNames(attrs)
      && forall i :: 0 <= i < |children| ==> WellNamed(children[i])
  }

  predicate IsLocal(s: string) { s != "" && ':' !in s }

  /** A stack a parser can have: colon-free prefixes, and none bound to the empty name. */
  ghost predicate GoodStack(b: Bindings) {
    ColonFree(b) && forall i :: 0 <= i < |b| && b[i].prefix != "" ==> b[i].ns != ""
  }

  /** The tag declares no prefix to be empty, and if its name is unqualified, no default
      namespace is in force where it stands. */
  predicate NamableTag(b: Bindings, name: QName, attrs: seq<Attr>) {
    && (forall i :: 0 <= i < |attrs| && attrs[i].name.ns == NS_XMLNS ==> attrs[i].value != "")
    && (name.ns == "" ==> NsFor(b + Declared(attrs), "") == Some(""))
  }

  /** Every tag of the tree can be spelled in XML 1.0 where it stands. */
  predicate Namable(n: Node, b: Bindings)
    decreases n, 1
  {
    match n
    case Text(_) => true
    case Element(name, attrs, children) =>
      NamableTag(b, name, attrs) && NamableAll(children, Frame(b, name, attrs))
  }

  predicate NamableAll(ns: seq<Node>, b: Bindings)
    decreases ns, 0
  {
    ns == [] || (Namable(ns[0], b) && NamableAll(ns[1..], b))
  }

  // ---- the tree that comes back --------------------------------------------------------

  /** The same tree with the declarations the printer adds to each tag, and with its
      character data joined as a parser joins it. */
  function Decorate(n: Node, b: Bindings): Node
    decreases n, 1
  {
    match n
    case Text(_) => n
    case Element(name, attrs, children) =>
      Element(name, FullAttrs(b, name, attrs), DecorateInto([], children, Frame(b, name, attrs)))
  }

  function DecorateInto(done: seq<Node>, ns: seq<Node>, b: Bindings): seq<Node>
    decreases ns, 0
  {
    if ns == [] then done else DecorateInto(AddChild(done, Decorate(ns[0], b)), ns[1..], b)
  }

  // ---- the printer's stack -------------------------------------------------------------

  /** The last part of `c` declares prefixes that are fresh where they are declared. */
  ghost predicate FreshFrom(c: Bindings, n: nat) {
    n <= |c| && forall k :: n <= k < |c| ==> c[k].prefix != "" && forall j :: 0 <= j < k ==> c[j].prefix != c[k].prefix
  }

  lemma AddNewKeeps(b: Bindings, ns: string, isAttr: bool, n: nat)
    requires ColonFree(b) && FreshFrom(b, n)
    ensures var c := AddNew(b, ns, isAttr); ColonFree(c) && FreshFrom(c, n)
  {
    if PrefixFor(b, ns, isAttr).None? {
      AddNewSpec(b, ns, isAttr);
      var c := AddNew(b, ns, isAttr);
      forall j | 0 <= j < |b| ensures c[j].prefix != FreshPrefix(b, ns) {
        assert b[j].prefix in Prefixes(b);
      }
    }
  }

  lemma ExtendsTransitive(a: Bindings, b: Bindings, c: Bindings)
    requires Extends(a, b) && Extends(b, c)
    ensures Extends(a, c)
  {
  }

  lemma {:induction false} AddForAttrsSpec(b: Bindings, attrs: seq<Attr>, n: nat)
    requires ColonFree(b) && FreshFrom(b, n)
    ensures var c := AddForAttrs(b, attrs);
            && Extends(b, c) && ColonFree(c) && FreshFrom(c, n)
            && (forall i :: 0 <= i < |attrs| ==> PrefixFor(c, attrs[i].name.ns, true).Some?)
            && (forall k :: |b| <= k < |c| ==> c[k].ns != "")
    decreases attrs
  {
    if attrs != [] {
      var d := AddNew(b, attrs[0].name.ns, true);
      AddNewGivesPrefix(b, attrs[0].name.ns, true);
      AddNewKeeps(b, attrs[0].name.ns, true, n);
      AddForAttrsSpec(d, attrs[1..], n);
      var c := AddForAttrs(b, attrs);
      ExtendsTransitive(b, d, c);
      ExtendsKeepsPrefix(d, c, attrs[0].name.ns, true);
      assert attrs == [attrs[0]] + attrs[1..];
      assert forall k :: |d| <= k < |c| ==> c[k].ns != "";
      assert forall k :: 0 <= k < |d| ==> c[k] == d[k];
    }
  }

  /** Inside a printed tag every name has a prefix, and the added prefixes are fresh. */
  lemma FrameSpec(b: Bindings, name: QName, attrs: seq<Attr>)
    requires ColonFree(b + Declared(attrs))
    ensures var c := Frame(b, name, attrs);
            && ColonFree(c) && FreshFrom(c, |b| + |Declared(attrs)|)
            && PrefixFor(c, name.ns, false).Some?
            && (forall i :: 0 <= i < |attrs| ==> PrefixFor(c, attrs[i].name.ns, true).Some?)
  {
    var b1 := b + Declared(attrs);
    var d := AddNew(b1, name.ns, false);
    AddNewGivesPrefix(b1, name.ns, false);
    AddNewKeeps(b1, name.ns, false, |b1|);
    AddForAttrsSpec(d, attrs, |b1|);
    ExtendsKeepsPrefix(d, AddForAttrs(d, attrs), name.ns, false);
  }

  /** The empty namespace can only be reached as the default namespace. */
  lemma EmptyNamespaceIsDefault(b: Bindings)
    requires GoodStack(b)
    ensures PrefixFor(b, "", false).Some? <==> NsFor(b, "") == Some("")
  {
    ScanSound(b, |b|, "", false);
    var r := ScanPrefix(b, |b|, "", false);
    if r.Some? {
      LookupMember(b, r.value);
    }
  }

  /** A declaration of the empty namespace is added exactly for an unqualified name under a
      non-empty default namespace. */
  lemma GeneratedEmpty(b: Bindings, name: QName, attrs: seq<Attr>)
    requires GoodStack(b + Declared(attrs))
    ensures var g := Generated(b, name, attrs);
            (exists k :: 0 <= k < |g| && g[k].ns == "") <==>
            (name.ns == "" && NsFor(b + Declared(attrs), "") != Some(""))
  {
    hide AddForAttrs, PrefixFor, NsFor, Declared;
    var b1 := b + Declared(attrs);
    EmptyNamespaceIsDefault(b1);
    GeneratedHead(b1, name.ns, attrs);
    assert Generated(b, name, attrs) == AddForAttrs(AddNew(b1, name.ns, false), attrs)[|b1|..];
  }

  lemma GeneratedHead(b1: Bindings, ns: string, attrs: seq<Attr>)
    requires ColonFree(b1)
    ensures var g := AddForAttrs(AddNew(b1, ns, false), attrs)[|b1|..];
            (exists k :: 0 <= k < |g| && g[k].ns == "") <==> (ns == "" && PrefixFor(b1, ns, false).None?)
  {
    var d := AddNew(b1, ns, false);
    AddNewKeeps(b1, ns, false, |b1|);
    AddForAttrsSpec(d, attrs, |b1|);
    var c := AddForAttrs(d, attrs);
    assert forall k :: 0 <= k < |d| ==> c[k] == d[k];
    var g := c[|b1|..];
    assert forall k :: 0 <= k < |g| ==> g[k] == c[|b1| + k];
    if PrefixFor(b1, ns, false).None? {
      assert g[0].ns == ns;
    }
  }

  lemma {:induction false} DeclaredPrefixes(attrs: seq<Attr>)
    requires forall i :: 0 <= i < |attrs| ==> IsLocal(attrs[i].name.local)
    ensures ColonFree(Declared(attrs))
    ensures forall i :: 0 <= i < |attrs| && attrs[i].name.ns == NS_XMLNS ==>
              Binding(attrs[i].name.local, attrs[i].value) in Declared(attrs)
    ensures (forall i :: 0 <= i < |attrs| && attrs[i].name.ns == NS_XMLNS ==> attrs[i].value != "") ==>
              GoodStack(Declared(attrs))
  {
    if attrs != [] {
      DeclaredPrefixes(attrs[1..]);
      var h, t := Declaration(attrs[0]), Declared(attrs[1..]);
      assert forall i :: 0 <= i < |attrs| - 1 ==> attrs[1..][i] == attrs[i + 1];
      assert forall i :: 0 <= i < |attrs| ==> attrs[i] == attrs[0] || attrs[i] in attrs[1..];
    }
  }

  lemma GoodConcat(b: Bindings, c: Bindings)
    requires GoodStack(b) && GoodStack(c)
    ensures GoodStack(b + c)
  {
  }

  lemma {:induction false} DeclaredConcat(a: seq<Attr>, c: seq<Attr>)
    ensures Declared(a + c) == Declared(a) + Declared(c)
  {
    if a == [] {
      assert a + c == c;
    } else {
      assert (a + c)[0] == a[0] && (a + c)[1..] == a[1..] + c;
      DeclaredConcat(a[1..], c);
    }
  }

  lemma {:induction false} DeclaredOfDeclAttrs(g: Bindings)
    ensures Declared(DeclAttrs(g)) == g
  {
    if g != [] {
      assert DeclAttrs(g)[1..] == DeclAttrs(g[1..]);
      DeclaredOfDeclAttrs(g[1..]);
      assert g == [g[0]] + g[1..];
    }
  }

  /** The declarations of the printed tag, read in order, rebuild the printer's stack. */
  lemma FullAttrsDeclare(b: Bindings, name: QName, attrs: seq<Attr>)
    ensures b + Declared(FullAttrs(b, name, attrs)) == Frame(b, name, attrs)
  {
    hide Frame, Declared, DeclAttrs;
    var g := Generated(b, name, attrs);
    DeclaredConcat(attrs, DeclAttrs(g));
    DeclaredOfDeclAttrs(g);
  }

  // ---- reading one tag back ------------------------------------------------------------

  lemma XmlnsHasPrefix(c: Bindings)
    ensures PrefixFor(c, NS_XMLNS, true).Some?
  {
  }

  /** The attributes of a printed tag are well named and pairwise distinct. */
  lemma FullAttrsSpec(b: Bindings, name: QName, attrs: seq<Attr>)
    requires ColonFree(b) && DistinctNames(attrs)
    requires forall i :: 0 <= i < |attrs| ==> IsLocal(attrs[i].name.local)
    ensures var full := FullAttrs(b, name, attrs); var c := Frame(b, name, attrs);
            && DistinctNames(full)
            && (forall i :: 0 <= i < |full| ==>
                 IsLocal(full[i].name.local) && PrefixFor(c, full[i].name.ns, true).Some?)
  {
    hide Frame, PrefixFor, Declared;
    DeclaredPrefixes(attrs);
    FrameSpec(b, name, attrs);
    var c, full, g := Frame(b, name, attrs), FullAttrs(b, name, attrs), Generated(b, name, attrs);
    var n := |b| + |Declared(attrs)|;
    assert PrefixFor(c, NS_XMLNS, true).Some? by { XmlnsHasPrefix(c); }
    forall i, j | 0 <= i < j < |full| ensures full[i].name != full[j].name {
      if j >= |attrs| {
        var k := n + (j - |attrs|);
        assert full[j].name == QName(NS_XMLNS, c[k].prefix);
        if i < |attrs| && attrs[i].name.ns == NS_XMLNS {
          var d := Binding(attrs[i].name.local, attrs[i].value);
          var m :| 0 <= m < |Declared(attrs)| && Declared(attrs)[m] == d;
          assert c[|b| + m] == c[..n][|b| + m] == d;
        }
      }
    }
  }

  /** What an attribute that the printer spells declares to the parser. */
  lemma FormattedDecl(c: Bindings, a: Attr)
    requires ColonFree(c) && IsLocal(a.name.local) && PrefixFor(c, a.name.ns, true).Some?
    ensures var k := DeclOf(RawAtt(Format(c, a.name, true), a.value));
            if a.name.ns == NS_XMLNS && a.value == "" then k == Illegal
            else if Declaration(a) == [] then k == NotDeclaration
            else k == Declares(Declaration(a)[0])
  {
    PrefixForInverse(c, a.name.ns, true);
    PrefixColonFree(c, a.name.ns, true);
    var p := PrefixFor(c, a.name.ns, true).value;
    var s := Format(c, a.name, true);
    if a.name.ns == NS_XMLNS {
      assert s[..5] == "xmlns" && s[6..] == a.name.local;
    } else if p == "" {
      assert |s| == 5 && "xmlns" <= s ==> s == "xmlns";
    } else {
      assert forall i :: 0 <= i < |p| ==> s[i] == p[i];
      assert s[|p|] == ':';
    }
  }

  lemma {:induction false} StartDeclsOfFormatted(c: Bindings, attrs: seq<Attr>)
    requires ColonFree(c)
    requires forall i :: 0 <= i < |attrs| ==>
               IsLocal(attrs[i].name.local) && PrefixFor(c, attrs[i].name.ns, true).Some?
    ensures var (decls, ok) := StartDecls(FormatAttrs(c, attrs));
            && (ok <==> forall i :: 0 <= i < |attrs| && attrs[i].name.ns == NS_XMLNS ==> attrs[i].value != "")
            && (ok ==> decls == Declared(attrs))
    decreases attrs
  {
    if attrs != [] {
      FormattedDecl(c, attrs[0]);
      StartDeclsOfFormatted(c, attrs[1..]);
      assert FormatAttrs(c, attrs)[1..] == FormatAttrs(c, attrs[1..]);
      assert forall i :: 0 <= i < |attrs| - 1 ==> attrs[1..][i] == attrs[i + 1];
    }
  }

  lemma ReadsBack(c: Bindings, q: QName, isAttr: bool)
    requires ColonFree(c) && IsLocal(q.local) && PrefixFor(c, q.ns, isAttr).Some?
    ensures Resolve(c, Format(c, q, isAttr), isAttr) == q
  {
    hide PrefixFor, Resolve, Format;
    ResolveFormat(c, q, isAttr);
    PrefixColonFree(c, q.ns, isAttr);
  }

  lemma {:induction false} BuildAttrsOfFormatted(c: Bindings, attrs: seq<Attr>, seen: set<QName>)
    requires ColonFree(c) && DistinctNames(attrs)
    requires forall i :: 0 <= i < |attrs| ==>
               IsLocal(attrs[i].name.local) && PrefixFor(c, attrs[i].name.ns, true).Some?
    requires forall i :: 0 <= i < |attrs| ==> attrs[i].name !in seen
    ensures BuildAttrs(c, FormatAttrs(c, attrs), seen) == Some(attrs)
    decreases attrs
  {
    hide PrefixFor, Resolve, Format;
    if attrs != [] {
      var q := attrs[0].name;
      ReadsBack(c, q, true);
      BuildAttrsOfFormatted(c, attrs[1..], if q.ns != "" then seen + {q} else seen);
      assert FormatAttrs(c, attrs)[1..] == FormatAttrs(c, attrs[1..]);
      assert attrs == [Attr(q, attrs[0].value)] + attrs[1..];
    }
  }

  /** Names that differ are spelled differently, as a tokenizer requires of one tag. */
  lemma FormattedNamesDistinct(c: Bindings, attrs: seq<Attr>, i: nat, j: nat)
    requires ColonFree(c) && DistinctNames(attrs) && i < j < |attrs|
    requires forall k :: 0 <= k < |attrs| ==>
               IsLocal(attrs[k].name.local) && PrefixFor(c, attrs[k].name.ns, true).Some?
    ensures FormatAttrs(c, attrs)[i].name != FormatAttrs(c, attrs)[j].name
  {
    hide PrefixFor, Resolve, Format;
    ReadsBack(c, attrs[i].name, true);
    ReadsBack(c, attrs[j].name, true);
  }

  /** One printed start tag, read by a parser whose stack is the printer's: the stacks stay
      equal and the element is opened; or the tag is not namable and an error is raised. */
  lemma StartStep(p: Parser, name: QName, attrs: seq<Attr>)
    requires p.raised == ERROR_NONE && GoodStack(p.ns) && IsLocal(name.local) && DistinctNames(attrs)
    requires forall i :: 0 <= i < |attrs| ==> IsLocal(attrs[i].name.local)
    ensures var q := Step(p, StartToken(p.ns, name, attrs));
            if NamableTag(p.ns, name, attrs) then
              q == p.(ns := Frame(p.ns, name, attrs), depths := p.depths + [|p.ns|],
                      open := p.open + [OpenElement(name, FullAttrs(p.ns, name, attrs), [])],
                      root := if p.open == [] then None else p.root)
              && GoodStack(q.ns)
            else q.raised == ERROR_SYNTAX
  {
    var b := p.ns;
    var c, full := Frame(b, name, attrs), FullAttrs(b, name, attrs);
    TagReads(b, name, attrs);
    var (decls, ok) := StartDecls(FormatAttrs(c, full));
    assert ok ==> b + decls == c;
  }

  /** The attributes of a printed tag, as the parser reads them. */
  lemma TagReads(b: Bindings, name: QName, attrs: seq<Attr>)
    requires GoodStack(b) && IsLocal(name.local) && DistinctNames(attrs)
    requires forall i :: 0 <= i < |attrs| ==> IsLocal(attrs[i].name.local)
    ensures var c := Frame(b, name, attrs); var full := FullAttrs(b, name, attrs);
            var (decls, ok) := StartDecls(FormatAttrs(c, full));
            && (ok <==> NamableTag(b, name, attrs))
            && (ok ==> b + decls == c && GoodStack(c)
                       && Build(c, Format(c, name, false), FormatAttrs(c, full)) == Some(OpenElement(name, full, [])))
  {
    hide Frame, FullAttrs, FormatAttrs, Format, PrefixFor, Declared, StartDecls, BuildAttrs, NamableTag;
    var c, full := Frame(b, name, attrs), FullAttrs(b, name, attrs);
    DeclaredPrefixes(attrs);
    assert ColonFree(b + Declared(attrs));
    FrameSpec(b, name, attrs);
    FullAttrsSpec(b, name, attrs);
    StartDeclsOfFormatted(c, full);
    NamableTagIff(b, name, attrs);
    if NamableTag(b, name, attrs) {
      FullAttrsDeclare(b, name, attrs);
      ReadsBack(c, name, false);
      BuildAttrsOfFormatted(c, full, {});
      DeclaredPrefixes(full);
      GoodConcat(b, Declared(full));
    }
  }

  /** A tag is namable exactly when none of the declarations it is printed with is empty. */
  lemma NamableTagIff(b: Bindings, name: QName, attrs: seq<Attr>)
    requires GoodStack(b) && forall i :: 0 <= i < |attrs| ==> IsLocal(attrs[i].name.local)
    ensures var full := FullAttrs(b, name, attrs);
            NamableTag(b, name, attrs) <==>
            forall i :: 0 <= i < |full| && full[i].name.ns == NS_XMLNS ==> full[i].value != ""
  {
    var full, g := FullAttrs(b, name, attrs), Generated(b, name, attrs);
    assert forall i :: 0 <= i < |attrs| ==> full[i] == attrs[i];
    assert forall k :: 0 <= k < |g| ==> full[|attrs| + k] == Attr(QName(NS_XMLNS, g[k].prefix), g[k].ns);
    if forall i :: 0 <= i < |attrs| && attrs[i].name.ns == NS_XMLNS ==> attrs[i].value != "" {
      DeclaredPrefixes(attrs);
      GoodConcat(b, Declared(attrs));
      GeneratedEmpty(b, name, attrs);
    }
  }

  // ---- whole trees ---------------------------------------------------------------------

  lemma {:induction false} CharTokensRun(p: Parser, t: string)
    requires p.raised == ERROR_NONE
    ensures Run(p, CharTokens(t)) == Attach(p, Text(t))
    decreases t
  {
    if t == "" {
      AttachTextTwice(p, "", "");
    } else {
      CharTokensRun(Attach(p, Text([t[0]])), t[1..]);
      AttachTextTwice(p, [t[0]], t[1..]);
      assert [t[0]] + t[1..] == t;
      assert CharTokens(t)[1..] == CharTokens(t[1..]);
    }
  }

  /** Running the tokens of a printed node attaches the decorated node and restores the
      parser's namespace stack and frames; it fails exactly when the node is not namable. */
  lemma {:induction false} ParseNode(n: Node, p: Parser)
    requires WellNamed(n) && p.raised == ERROR_NONE && GoodStack(p.ns)
    ensures var q := Run(p, Tokens(n, p.ns));
            if Namable(n, p.ns) then q == Attach(p, Decorate(n, p.ns)) else q.raised == ERROR_SYNTAX
    decreases n, 1
  {
    match n
    case Text(t) => CharTokensRun(p, t);
    case Element(name, attrs, children) =>
      var c := Frame(p.ns, name, attrs);
      var start, end := StartToken(p.ns, name, attrs), End(Format(c, name, false));
      var mid := TokensOf(children, c);
      StartStep(p, name, attrs);
      var q := Step(p, start);
      RunConcat(p, [start] + mid, [end]);
      RunConcat(p, [start], mid);
      assert Run(p, [start]) == q by { assert [start][1..] == []; }
      if NamableTag(p.ns, name, attrs) {
        ParseNodes(children, q);
        if NamableAll(children, c) {
          EndStep(p, name, attrs, children, end.tag);
        } else {
          RunAfterError(Run(q, mid), [end]);
        }
      } else {
        RunAfterError(q, mid);
        RunAfterError(q, [end]);
      }
  }

  /** The parser with one more element open, whose children so far are `kids`. */
  function Opened(p: Parser, name: QName, attrs: seq<Attr>, kids: seq<Node>): Parser {
    p.(ns := Frame(p.ns, name, attrs), depths := p.depths + [|p.ns|],
       open := p.open + [OpenElement(name, FullAttrs(p.ns, name, attrs), kids)],
       root := if p.open == [] then None else p.root)
  }

  lemma EndStep(p: Parser, name: QName, attrs: seq<Attr>, children: seq<Node>, tag: string)
    requires p.raised == ERROR_NONE
    ensures var kids := DecorateInto([], children, Frame(p.ns, name, attrs));
            Run(Opened(p, name, attrs, kids), [End(tag)]) == Attach(p, Decorate(Element(name, attrs, children), p.ns))
  {
    hide Frame, FullAttrs, DecorateInto, AddChild;
    var b := p.ns;
    var c := Frame(b, name, attrs);
    var q := Opened(p, name, attrs, DecorateInto([], children, c));
    FramePrefix(b, name, attrs);
    assert PopBindings(c, |b|) == b;
    assert q.depths[..|q.depths| - 1] == p.depths && q.open[..|q.open| - 1] == p.open;
    assert [End(tag)][1..] == [];
  }

  lemma {:induction false} ParseNodes(ns: seq<Node>, q: Parser)
    requires forall i :: 0 <= i < |ns| ==> WellNamed(ns[i])
    requires q.raised == ERROR_NONE && GoodStack(q.ns) && q.open != []
    ensures var r := Run(q, TokensOf(ns, q.ns)); var top := q.open[|q.open| - 1];
            if NamableAll(ns, q.ns) then
              r == q.(open := q.open[..|q.open| - 1] + [top.(children := DecorateInto(top.children, ns, q.ns))])
            else r.raised == ERROR_SYNTAX
    decreases ns, 0
  {
    if ns == [] {
      assert q.open == q.open[..|q.open| - 1] + [q.open[|q.open| - 1]];
    } else {
      ParseNode(ns[0], q);
      var q1 := Run(q, Tokens(ns[0], q.ns));
      RunConcat(q, Tokens(ns[0], q.ns), TokensOf(ns[1..], q.ns));
      if Namable(ns[0], q.ns) {
        assert q1.open[..|q1.open| - 1] == q.open[..|q.open| - 1];
        ParseNodes(ns[1..], q1);
      } else {
        RunAfterError(q1, TokensOf(ns[1..], q.ns));
      }
    }
  }

  /** Printing a document and parsing its tokens gives the decorated tree exactly when every
      tag is namable; otherwise the parser reports a syntax error. */
  lemma PrintThenParse(e: Node)
    requires e.Element? && WellNamed(e)
    ensures var q := Run(FreshParser, Tokens(e, []));
            if Namable(e, []) then q == FreshParser.(root := Some(Decorate(e, []))) else q.raised == ERROR_SYNTAX
  {
    ParseNode(e, FreshParser);
  }
}
