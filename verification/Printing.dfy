/** Printing an element tree: the text that is written, and the tokens that text spells. */
module Printing {
  import opened Xml
  import opened Namespaces
  import opened Escaping
  import XmlnsStacks

  // ---- declarations of one start tag ---------------------------------------------------

  /** The declaration an attribute of the tree makes, if it is one. */
  function Declaration(a: Attr): Bindings {
    if a.name == QN_XMLNS then [Binding("", a.value)]
    else if a.name.ns == NS_XMLNS then [Binding(a.name.local, a.value)]
    else []
  }

  function Declared(attrs: seq<Attr>): Bindings {
    if attrs == [] then [] else Declaration(attrs[0]) + Declared(attrs[1..])
  }

  function AddForAttrs(b: Bindings, attrs: seq<Attr>): (c: Bindings)
    ensures |b| <= |c| && c[..|b|] == b
    decreases attrs
  {
    if attrs == [] then b else AddForAttrs(AddNew(b, attrs[0].name.ns, true), attrs[1..])
  }

  /** The declarations in scope inside a start tag that is printed under `b`. */
  function Frame(b: Bindings, name: QName, attrs: seq<Attr>): (c: Bindings)
    ensures |b| + |Declared(attrs)| <= |c| && c[..|b| + |Declared(attrs)|] == b + Declared(attrs)
  {
    var b1 := b + Declared(attrs);
    var b2 := AddNew(b1, name.ns, false);
    var c := AddForAttrs(b2, attrs);
    assert c[..|b1|] == c[..|b2|][..|b1|];
    c
  }

  lemma FramePrefix(b: Bindings, name: QName, attrs: seq<Attr>)
    ensures var c := Frame(b, name, attrs); |b| <= |c| && c[..|b|] == b
  {
    var c, d := Frame(b, name, attrs), Declared(attrs);
    assert c[..|b|] == c[..|b| + |d|][..|b|] == (b + d)[..|b|];
  }

  /** The declarations the printer adds to those the tree already makes. */
  function Generated(b: Bindings, name: QName, attrs: seq<Attr>): Bindings {
    Frame(b, name, attrs)[|b| + |Declared(attrs)|..]
  }

  function DeclAttrs(g: Bindings): (r: seq<Attr>)
    ensures |r| == |g|
    ensures forall i :: 0 <= i < |g| ==> r[i] == Attr(QName(NS_XMLNS, g[i].prefix), g[i].ns)
  {
    seq(|g|, i requires 0 <= i < |g| => Attr(QName(NS_XMLNS, g[i].prefix), g[i].ns))
  }

  /** The attributes a reader of the printed tag sees. */
  function FullAttrs(b: Bindings, name: QName, attrs: seq<Attr>): seq<Attr> {
    attrs + DeclAttrs(Generated(b, name, attrs))
  }

  function FormatAttrs(b: Bindings, attrs: seq<Attr>): (r: seq<RawAtt>)
    ensures |r| == |attrs|
    ensures forall i :: 0 <= i < |r| ==> r[i] == RawAtt(Format(b, attrs[i].name, true), attrs[i].value)
  {
    if attrs == [] then []
    else [RawAtt(Format(b, attrs[0].name, true), attrs[0].value)] + FormatAttrs(b, attrs[1..])
  }

  // ---- text ----------------------------------------------------------------------------

  function AttText(a: RawAtt): string {
    " " + a.name + "=\"" + Escape(a.value, true) + "\""
  }

  function AttsText(atts: seq<RawAtt>): string {
    if atts == [] then "" else AttText(atts[0]) + AttsText(atts[1..])
  }

  /** A generated declaration; its value is written as it is. */
  function DeclText(d: Binding): string {
    if d.prefix == "" then " xmlns=\"" + d.ns + "\""
    else " xmlns:" + d.prefix + "=\"" + d.ns + "\""
  }

  function DeclsText(g: Bindings): string {
    if g == [] then "" else DeclText(g[0]) + DeclsText(g[1..])
  }

  /** The start tag up to but not including its closing bracket. */
  function TagText(b: Bindings, name: QName, attrs: seq<Attr>): string {
    var c := Frame(b, name, attrs);
    "<" + Format(c, name, false) + AttsText(FormatAttrs(c, attrs)) + DeclsText(Generated(b, name, attrs))
  }

  /** What follows the attributes: children and end tag. */
  function BodyText(c: Bindings, name: QName, children: seq<Node>): string
    decreases children, 1
  {
    if children == [] then "/>" else ">" + NodesText(children, c) + "</" + Format(c, name, false) + ">"
  }

  function NodeText(n: Node, b: Bindings): string
    decreases n, 2
  {
    match n
    case Text(t) => Escape(t, false)
    case Element(name, attrs, children) =>
      TagText(b, name, attrs) + BodyText(Frame(b, name, attrs), name, children)
  }

  function NodesText(ns: seq<Node>, b: Bindings): string
    decreases ns, 0
  {
    if ns == [] then "" else NodeText(ns[0], b) + NodesText(ns[1..], b)
  }

  lemma BodyPieces(out: string, kids: string, name: string)
    ensures out + ">" + kids + "</" + name + ">" == out + (">" + kids + "</" + name + ">")
  {
  }

  // ---- tokens --------------------------------------------------------------------------

  /** Character data, in the finest chunks a tokenizer may deliver. */
  function CharTokens(t: string): seq<Token> {
    if t == "" then [] else [Chars([t[0]])] + CharTokens(t[1..])
  }

  function StartToken(b: Bindings, name: QName, attrs: seq<Attr>): Token {
    var c := Frame(b, name, attrs);
    Start(Format(c, name, false), FormatAttrs(c, FullAttrs(b, name, attrs)))
  }

  function Tokens(n: Node, b: Bindings): seq<Token>
    decreases n, 1
  {
    match n
    case Text(t) => CharTokens(t)
    case Element(name, attrs, children) =>
      var c := Frame(b, name, attrs);
      [StartToken(b, name, attrs)] + TokensOf(children, c) + [End(Format(c, name, false))]
  }

  function TokensOf(ns: seq<Node>, b: Bindings): seq<Token>
    decreases ns, 0
  {
    if ns == [] then [] else Tokens(ns[0], b) + TokensOf(ns[1..], b)
  }

  // ---- the printer ---------------------------------------------------------------------

  /** Writes trees to an output stream, with a namespace stack that the caller may prepare. */
  class XmlPrinter {
    var out: string
    const stack: XmlnsStacks.XmlnsStack

    constructor (stack: XmlnsStacks.XmlnsStack)
      ensures this.stack == stack && out == ""
    {
      this.stack, out := stack, "";
    }

    /** Writes the element and leaves the namespace stack as it was. */
    method PrintElement(e: Node)
      requires e.Element?
      modifies this`out, stack
      ensures out == old(out) + NodeText(e, old(stack.bindings))
      ensures stack.bindings == old(stack.bindings) && stack.depths == old(stack.depths)
      decreases e, 2
    {
      hide Frame, TagText, BodyText, Declared;
      ghost var b := stack.bindings;
      FramePrefix(b, e.name, e.attrs);
      ghost var before := out;
      stack.PushFrame();
      PrintStartTag(e);
      PrintBody(e);
      ConcatAssoc(before, TagText(b, e.name, e.attrs), BodyText(stack.bindings, e.name, e.children));
      stack.PopFrame();
    }

    /** Writes the children and the end tag. */
    method PrintBody(e: Node)
      requires e.Element?
      modifies this`out, stack
      ensures out == old(out) + BodyText(stack.bindings, e.name, e.children)
      ensures stack.bindings == old(stack.bindings) && stack.depths == old(stack.depths)
      decreases e, 1
    {
      hide Format;
      if e.children == [] {
        out := out + "/>";
      } else {
        ghost var before := out;
        out := out + ">";
        PrintChildren(e.children);
        var name := stack.FormatQName(e.name, false);
        BodyPieces(before, NodesText(e.children, stack.bindings), name);
        out := out + "</" + name + ">";
      }
    }

    method PrintChildren(children: seq<Node>)
      modifies this`out, stack
      ensures out == old(out) + NodesText(children, stack.bindings)
      ensures stack.bindings == old(stack.bindings) && stack.depths == old(stack.depths)
      decreases children, 0
    {
      var i := 0;
      ghost var b := stack.bindings;
      while i < |children|
        invariant 0 <= i <= |children|
        invariant stack.bindings == b && stack.depths == old(stack.depths)
        invariant out + NodesText(children[i..], b) == old(out) + NodesText(children, b)
      {
        assert NodesText(children[i..], b) == NodeText(children[i], b) + NodesText(children[i + 1..], b) by {
          assert children[i..][1..] == children[i + 1..];
        }
        ConcatAssoc(out, NodeText(children[i], b), NodesText(children[i + 1..], b));
        PrintChild(children[i]);
        i := i + 1;
      }
    }

    method PrintChild(child: Node)
      modifies this`out, stack
      ensures out == old(out) + NodeText(child, stack.bindings)
      ensures stack.bindings == old(stack.bindings) && stack.depths == old(stack.depths)
      decreases child, 3
    {
      match child {
        case Text(t) =>
          var text := PrintEscaped(t, false);
          out := out + text;
        case Element(_, _, _) =>
          PrintElement(child);
      }
    }

    /** Declares what the tag needs and writes it up to its closing bracket. */
    method PrintStartTag(e: Node)
      requires e.Element?
      modifies this`out, stack`bindings
      ensures out == old(out) + TagText(old(stack.bindings), e.name, e.attrs)
      ensures stack.bindings == Frame(old(stack.bindings), e.name, e.attrs)
    {
      hide AddForAttrs, AddNew, Declared, DeclsText, AttsText, FormatAttrs, Format;
      DeclareExplicit(e.attrs);
      var added := DeclareNeeded(e);
      var name := stack.FormatQName(e.name, false);
      var open := "<" + name;
      ghost var before := out;
      out := out + open;
      PrintAttributes(e.attrs);
      PrintDeclarations(added);
      ghost var atts := AttsText(FormatAttrs(stack.bindings, e.attrs));
      ConcatAssoc(before, open, atts);
      ConcatAssoc(before, open + atts, DeclsText(added));
    }

    method PrintDeclarations(added: Bindings)
      modifies this`out
      ensures out == old(out) + DeclsText(added)
    {
      var i := 0;
      while i < |added|
        invariant 0 <= i <= |added|
        invariant out + DeclsText(added[i..]) == old(out) + DeclsText(added)
      {
        assert DeclsText(added[i..]) == DeclText(added[i]) + DeclsText(added[i + 1..]) by {
          assert added[i..][1..] == added[i + 1..];
        }
        ConcatAssoc(out, DeclText(added[i]), DeclsText(added[i + 1..]));
        var piece := " xmlns:" + added[i].prefix + "=\"" + added[i].ns + "\"";
        if added[i].prefix == "" {
          piece := " xmlns=\"" + added[i].ns + "\"";
        }
        out := out + piece;
        i := i + 1;
      }
    }

    /** First pass over the attributes: the declarations the tree makes itself. */
    method DeclareExplicit(attrs: seq<Attr>)
      modifies stack`bindings
      ensures stack.bindings == old(stack.bindings) + Declared(attrs)
    {
      var i := 0;
      while i < |attrs|
        invariant 0 <= i <= |attrs|
        invariant stack.bindings + Declared(attrs[i..]) == old(stack.bindings) + Declared(attrs)
      {
        var a := attrs[i];
        assert attrs[i..][1..] == attrs[i + 1..];
        assert Declared(attrs[i..]) == Declaration(a) + Declared(attrs[i + 1..]);
        ConcatAssoc(stack.bindings, Declaration(a), Declared(attrs[i + 1..]));
        if a.name == QN_XMLNS {
          stack.AddXmlns("", a.value);
        } else if a.name.ns == NS_XMLNS {
          stack.AddXmlns(a.name.local, a.value);
        } else {
          assert stack.bindings + [] == stack.bindings;
        }
        i := i + 1;
      }
    }

    /** Second pass: a declaration for every name whose namespace has no prefix yet. */
    method DeclareNeeded(e: Node) returns (added: Bindings)
      requires e.Element?
      modifies stack`bindings
      ensures stack.bindings == AddForAttrs(AddNew(old(stack.bindings), e.name.ns, false), e.attrs)
      ensures added == stack.bindings[|old(stack.bindings)|..]
    {
      ghost var b := stack.bindings;
      added := Need(e.name.ns, false, []);
      ghost var c := stack.bindings;
      var i := 0;
      assert e.attrs[0..] == e.attrs;
      while i < |e.attrs|
        invariant 0 <= i <= |e.attrs|
        invariant AddForAttrs(stack.bindings, e.attrs[i..]) == AddForAttrs(c, e.attrs)
        invariant stack.bindings == b + added
      {
        assert e.attrs[i..][1..] == e.attrs[i + 1..];
        added := Need(e.attrs[i].name.ns, true, added);
        i := i + 1;
      }
    }

    /** Declares a prefix for `ns` if it has none, and records it in the list. */
    method Need(ns: string, isAttr: bool, added: Bindings) returns (r: Bindings)
      modifies stack`bindings
      ensures stack.bindings == AddNew(old(stack.bindings), ns, isAttr)
      ensures forall b :: old(stack.bindings) == b + added ==> stack.bindings == b + r
    {
      var p := stack.AddNewPrefix(ns, isAttr);
      r := if p.Some? then added + [Binding(p.value, ns)] else added;
    }

    method PrintAttribute(a: Attr)
      modifies this`out
      ensures out == old(out) + AttText(RawAtt(Format(stack.bindings, a.name, true), a.value))
    {
      var name := stack.FormatQName(a.name, true);
      var value := PrintEscaped(a.value, true);
      var piece := " " + name + "=\"" + value + "\"";
      out := out + piece;
    }

    method PrintAttributes(attrs: seq<Attr>)
      modifies this`out
      ensures out == old(out) + AttsText(FormatAttrs(stack.bindings, attrs))
    {
      var i := 0;
      ghost var atts := FormatAttrs(stack.bindings, attrs);
      while i < |attrs|
        invariant 0 <= i <= |attrs|
        invariant out + AttsText(atts[i..]) == old(out) + AttsText(atts)
      {
        assert AttsText(atts[i..]) == AttText(atts[i]) + AttsText(atts[i + 1..]) by {
          assert atts[i..][1..] == atts[i + 1..];
        }
        ConcatAssoc(out, AttText(atts[i]), AttsText(atts[i + 1..]));
        PrintAttribute(attrs[i]);
        i := i + 1;
      }
    }
  }

  /** The text of a whole document: printing starts from an empty stack. */
  method PrintXml(e: Node) returns (out: string)
    requires e.Element?
    ensures out == NodeText(e, [])
  {
    var stack := new XmlnsStacks.XmlnsStack();
    var printer := new XmlPrinter(stack);
    printer.PrintElement(e);
    out := printer.out;
  }
}
