/** Deep copies of element trees on the heap. */
module ElementCopy {
  import opened Xml

  /** A tree as the objects hold it: elements have a CDATA flag. */
  datatype Shape =
    | TextShape(text: string)
    | ElementShape(name: QName, attrs: seq<Attr>, children: seq<Shape>, cdata: bool)

  class XmlAttr {
    var next: XmlAttr?
    const attr: Attr

    constructor (attr: Attr)
      ensures this.attr == attr && next == null
    {
      this.attr := attr;
      next := null;
    }
  }

  /** A child object: text, or an element with linked lists of attributes and children. */
  class XmlChild {
    var next: XmlChild?
    const isText: bool
    var text: string
    const name: QName
    var firstAttr: XmlAttr?
    var lastAttr: XmlAttr?
    var firstChild: XmlChild?
    var lastChild: XmlChild?
    var cdata: bool
    /** The objects of the subtree, this one included; siblings are not part of it. */
    ghost var own: set<object>
    /** Those that are attributes of this element. */
    ghost var ownAttrs: set<object>

    constructor (isText: bool, text: string, name: QName)
      ensures this.isText == isText && this.text == text && this.name == name && !cdata
      ensures next == null && firstAttr == null && lastAttr == null && firstChild == null && lastChild == null
      ensures own == {this} && ownAttrs == {}
    {
      this.isText, this.text, this.name, cdata := isText, text, name, false;
      next, firstAttr, lastAttr, firstChild, lastChild := null, null, null, null, null;
      own, ownAttrs := {this}, {};
    }
  }

  /** The list from `a` holds the attributes, on objects of `part`, and `last` is on its last
      node if `tails`. */
  ghost predicate Lists(a: XmlAttr?, last: XmlAttr?, attrs: seq<Attr>, part: set<object>, tails: bool)
    reads part
    decreases attrs
  {
    if attrs == [] then a == null && (tails ==> last == null)
    else
      && a != null && a in part && a.attr == attrs[0]
      && (if |attrs| == 1 then a.next == null && (tails ==> last == a)
          else a.next != null && Lists(a.next, last, attrs[1..], part - {a}, tails))
  }

  /** The object stands for the tree, using only the objects it owns; all tail pointers are
      right if `tails`. */
  ghost predicate Stands(n: XmlChild, t: Shape, tails: bool)
    reads n`own, n`ownAttrs, n`text, n`cdata, n`firstAttr, n`lastAttr, n`firstChild, n`lastChild, n.own - {n}
    decreases t, 1
  {
    n in n.own && n.ownAttrs <= n.own - {n} &&
    match t
    case TextShape(text) => n.isText && n.text == text
    case ElementShape(name, attrs, children, cdata) =>
      && !n.isText && n.name == name && n.cdata == cdata
      && Lists(n.firstAttr, n.lastAttr, attrs, n.ownAttrs, tails)
      && StandsAll(n.firstChild, n.lastChild, children, n.own - {n} - n.ownAttrs, tails)
  }

  /** The list from `n` stands for the trees, on disjoint parts of `part`, and `last` is on its
      last object if `tails`. */
  ghost predicate StandsAll(n: XmlChild?, last: XmlChild?, ts: seq<Shape>, part: set<object>, tails: bool)
    reads part
    decreases ts, 0
  {
    if ts == [] then n == null && (tails ==> last == null)
    else
      && n != null && n in part && n.own <= part && Stands(n, ts[0], tails)
      && (if |ts| == 1 then n.next == null && (tails ==> last == n)
          else n.next != null && StandsAll(n.next, last, ts[1..], part - n.own, tails))
  }

  /** The copy constructor: an equal tree made of new objects only, with right tail pointers
      whether or not those of the original are. */
  method Copy(n: XmlChild, ghost t: Shape) returns (c: XmlChild)
    requires Stands(n, t, false)
    ensures fresh(c.own) && Stands(c, t, true) && c.next == null
    decreases t, 1
  {
    c := new XmlChild(n.isText, n.text, n.name);
    if !n.isText {
      ghost var attrPart, part;
      var firstAttr, lastAttr, firstChild, lastChild;
      firstAttr, lastAttr, attrPart := CopyAttrs(n.firstAttr, n.lastAttr, t.attrs, n.ownAttrs);
      firstChild, lastChild, part := CopyList(n.firstChild, n.lastChild, t.children, n.own - {n} - n.ownAttrs);
      SetParts(c, firstAttr, lastAttr, attrPart, firstChild, lastChild, part, n.cdata, t);
    }
  }

  method SetParts(c: XmlChild, firstAttr: XmlAttr?, lastAttr: XmlAttr?, ghost attrPart: set<object>,
                  firstChild: XmlChild?, lastChild: XmlChild?, ghost part: set<object>, cdata: bool, ghost t: Shape)
    requires t.ElementShape? && !c.isText && c.name == t.name && cdata == t.cdata
    requires c !in attrPart && c !in part && attrPart !! part
    requires Lists(firstAttr, lastAttr, t.attrs, attrPart, true)
    requires StandsAll(firstChild, lastChild, t.children, part, true)
    modifies c
    ensures Stands(c, t, true) && c.own == {c} + attrPart + part && c.next == old(c.next)
  {
    c.firstAttr, c.lastAttr, c.firstChild, c.lastChild := firstAttr, lastAttr, firstChild, lastChild;
    c.cdata := cdata;
    c.own, c.ownAttrs := {c} + attrPart + part, attrPart;
    assert c.own - {c} - c.ownAttrs == part;
  }

  /** Copies a list of attributes one after the other. */
  method CopyAttrs(a: XmlAttr?, ghost last: XmlAttr?, ghost attrs: seq<Attr>, ghost part: set<object>)
    returns (first: XmlAttr?, end: XmlAttr?, ghost used: set<object>)
    requires Lists(a, last, attrs, part, false)
    ensures fresh(used) && Lists(first, end, attrs, used, true)
    decreases attrs
  {
    if a == null {
      return null, null, {};
    }
    first := new XmlAttr(a.attr);
    end := first;
    ghost var more := {};
    if a.next != null {
      first.next, end, more := CopyAttrs(a.next, last, attrs[1..], part - {a});
    }
    used := {first} + more;
    assert used - {first} == more;
  }

  /** Copies a list of children one after the other; the original is left alone. */
  method CopyList(n: XmlChild?, ghost last: XmlChild?, ghost ts: seq<Shape>, ghost part: set<object>)
    returns (first: XmlChild?, end: XmlChild?, ghost used: set<object>)
    requires StandsAll(n, last, ts, part, false)
    ensures fresh(used) && StandsAll(first, end, ts, used, true)
    decreases ts, 0
  {
    if n == null {
      return null, null, {};
    }
    var head := Copy(n, ts[0]);
    var rest, tail;
    ghost var more := {};
    if n.next != null {
      rest, tail, more := CopyList(n.next, last, ts[1..], part - n.own);
    } else {
      rest, tail := null, head;
    }
    head.next := rest;
    first, end, used := head, tail, head.own + more;
    assert used - head.own == more;
  }
}
