/** From a tree to its text and back: the printed text spells the tokens of the tree, so
    reading it builds the tree again. */
module Documents {
  import opened Xml
  import opened Namespaces
  import opened Escaping
  import opened Printing
  import opened Parsing
  import opened RoundTrip
  import opened Lexing

  // ---- what can be spelled -------------------------------------------------------------

  /** A name without a colon, as section 3 of Namespaces in XML 1.0 requires of its parts. */
  predicate IsNCName(s: string) { IsName(s) && ':' !in s }

  /** A character that text can carry through unchanged. */
  predicate IsTextChar(c: char) { c >= ' ' || c == '\t' || c == '\n' }

  predicate IsTextual(t: string) {
    forall i :: 0 <= i < |t| ==> IsTextChar(t[i])
  }

  /** Names are XML names, and no attribute is given twice. */
  ghost predicate Spellable(n: Node) {
    match n
    case Text(_) => true
    case Element(name, attrs, children) =>
      && IsNCName(name.local)
      && (forall i :: 0 <= i < |attrs| ==> IsNCName(attrs[i].name.local))
      && DistinctNames(attrs)
      && forall i :: 0 <= i < |children| ==> Spellable(children[i])
  }

  ghost predicate SpellableStack(b: Bindings) {
    forall i :: 0 <= i < |b| ==> b[i].prefix == "" || IsNCName(b[i].prefix)
  }

  /** The namespace names the printer writes without escaping are plain. */
  ghost predicate PlainDecls(g: Bindings) {
    forall i :: 0 <= i < |g| ==> IsPlain(g[i].ns)
  }

  ghost predicate PlainAttrs(attrs: seq<Attr>) {
    forall i :: 0 <= i < |attrs| ==> IsValue(attrs[i].value)
  }

  ghost predicate PlainTag(b: Bindings, name: QName, attrs: seq<Attr>) {
    PlainAttrs(attrs) && PlainDecls(Generated(b, name, attrs))
  }

  /** All that is written survives tokenizing: text, values, and generated declarations. */
  ghost predicate PlainTree(n: Node, b: Bindings)
    decreases n, 1
  {
    match n
    case Text(t) => IsTextual(t)
    case Element(name, attrs, children) =>
      PlainTag(b, name, attrs) && PlainTrees(children, Frame(b, name, attrs))
  }

  ghost predicate PlainTrees(ns: seq<Node>, b: Bindings)
    decreases ns, 0
  {
    ns == [] || (PlainTree(ns[0], b) && PlainTrees(ns[1..], b))
  }

  lemma {:induction false} SpellableIsWellNamed(n: Node)
    requires Spellable(n)
    ensures WellNamed(n)
  {
    if n.Element? {
      forall i | 0 <= i < |n.children| ensures WellNamed(n.children[i]) {
        SpellableIsWellNamed(n.children[i]);
      }
    }
  }

  // ---- spelled names -------------------------------------------------------------------

  lemma FreshPrefixIsName(b: Bindings, ns: string)
    ensures IsNCName(FreshPrefix(b, ns))
  {
    var base := SuggestPrefix(ns);
    var i := FirstFree(b, base, 1);
    CandidateUsable(base, i);
    var c := Candidate(base, i);
    forall k | 0 <= k < |c| ensures IsNameChar(c[k]) {
      if k < |base| { assert c[k] == base[k]; }
    }
    assert c[0] == base[0];
  }

  lemma {:induction false} AddForAttrsSpellable(b: Bindings, attrs: seq<Attr>)
    requires SpellableStack(b)
    ensures SpellableStack(AddForAttrs(b, attrs))
    decreases attrs
  {
    if attrs != [] {
      FreshPrefixIsName(b, attrs[0].name.ns);
      AddForAttrsSpellable(AddNew(b, attrs[0].name.ns, true), attrs[1..]);
    }
  }

  lemma {:induction false} DeclaredSpellable(attrs: seq<Attr>)
    requires forall i :: 0 <= i < |attrs| ==> IsNCName(attrs[i].name.local)
    ensures SpellableStack(Declared(attrs))
  {
    if attrs != [] {
      DeclaredSpellable(attrs[1..]);
    }
  }

  lemma AddNewSpellable(b: Bindings, ns: string, isAttr: bool)
    requires SpellableStack(b)
    ensures SpellableStack(AddNew(b, ns, isAttr))
  {
    FreshPrefixIsName(b, ns);
  }

  lemma SpellableColonFree(b: Bindings, c: Bindings)
    requires SpellableStack(b) && SpellableStack(c)
    ensures SpellableStack(b + c) && ColonFree(b + c)
  {
  }

  lemma FrameSpellable(b: Bindings, name: QName, attrs: seq<Attr>)
    requires SpellableStack(b) && forall i :: 0 <= i < |attrs| ==> IsNCName(attrs[i].name.local)
    ensures SpellableStack(Frame(b, name, attrs)) && ColonFree(b + Declared(attrs))
    ensures var g := Generated(b, name, attrs); forall i :: 0 <= i < |g| ==> IsNCName(g[i].prefix)
  {
    DeclaredSpellable(attrs);
    SpellableColonFree(b, Declared(attrs));
    AddNewSpellable(b + Declared(attrs), name.ns, false);
    AddForAttrsSpellable(AddNew(b + Declared(attrs), name.ns, false), attrs);
    FrameSpec(b, name, attrs);
    TailIsNamed(Frame(b, name, attrs), |b| + |Declared(attrs)|);
  }

  lemma TailIsNamed(c: Bindings, n: nat)
    requires SpellableStack(c) && FreshFrom(c, n)
    ensures forall i :: 0 <= i < |c[n..]| ==> IsNCName(c[n..][i].prefix)
  {
    assert forall i :: 0 <= i < |c[n..]| ==> c[n..][i] == c[n + i];
  }

  lemma FormatIsName(c: Bindings, q: QName, isAttr: bool)
    requires SpellableStack(c) && IsNCName(q.local)
    ensures IsName(Format(c, q, isAttr))
  {
    ScanSound(c, |c|, q.ns, isAttr);
    var r := PrefixFor(c, q.ns, isAttr);
    if r.Some? && r.value != "" {
      var p, s := r.value, Format(c, q, isAttr);
      assert IsName(p);
      forall k | 0 <= k < |s| ensures IsNameChar(s[k]) {
        if k < |p| { assert s[k] == p[k]; } else if k > |p| { assert s[k] == q.local[k - |p| - 1]; }
      }
      assert s[0] == p[0];
    }
  }

  // ---- reading a start tag -------------------------------------------------------------

  /** Text that can follow a name or an attribute list of a tag. */
  predicate EndsName(s: string) { s != "" && (s[0] == ' ' || s[0] == '/' || s[0] == '>') }

  predicate EndsAtts(s: string) { s != "" && (s[0] == '/' || s[0] == '>') }

  /** Reading `name="raw"...`: the name is found and the value is read from `raw`. */
  lemma ReadAttsStep(name: string, raw: string, rest: string)
    requires IsName(name)
    ensures var r := ReadValue(raw + ("\"" + rest));
            ReadAtts((" " + name + "=\"" + raw + "\"") + rest) ==
            if r.None? then None else ConsAtt(RawAtt(name, r.value.0), ReadAtts(r.value.1))
  {
    var s := (" " + name + "=\"" + raw + "\"") + rest;
    var after := "=\"" + (raw + ("\"" + rest));
    assert s == " " + (name + after);
    assert s[1..] == name + after;
    NameLengthOf(name, after);
    assert s[1..1 + |name|] == name && s[1 + |name|..] == after;
    assert after[..2] == "=\"" && after[2..] == raw + ("\"" + rest);
  }

  /** At some position the value that was read is not the one that is expected there. */
  ghost predicate Mismatch(atts: seq<RawAtt>, full: seq<RawAtt>) {
    exists i :: 0 <= i < |atts| && i < |full| && atts[i].value != full[i].value
  }

  lemma MismatchAfter(before: seq<RawAtt>, atts: seq<RawAtt>, full: seq<RawAtt>)
    requires Mismatch(atts, full)
    ensures Mismatch(before + atts, before + full)
  {
    var i :| 0 <= i < |atts| && i < |full| && atts[i].value != full[i].value;
    assert (before + atts)[|before| + i] == atts[i] && (before + full)[|before| + i] == full[i];
  }

  lemma MismatchBefore(atts: seq<RawAtt>, full: seq<RawAtt>, more: seq<RawAtt>, rest: seq<RawAtt>)
    requires Mismatch(atts, full)
    ensures Mismatch(atts + more, full + rest)
  {
    var i :| 0 <= i < |atts| && i < |full| && atts[i].value != full[i].value;
    assert (atts + more)[i] == atts[i] && (full + rest)[i] == full[i];
  }

  ghost predicate NamedAtts(atts: seq<RawAtt>) {
    forall i :: 0 <= i < |atts| ==> IsName(atts[i].name)
  }

  ghost predicate ValueAtts(atts: seq<RawAtt>) {
    forall i :: 0 <= i < |atts| ==> IsValue(atts[i].value)
  }

  function ConsAtts(atts: seq<RawAtt>, r: Option<(seq<RawAtt>, string)>): Option<(seq<RawAtt>, string)> {
    if r.None? then None else Some((atts + r.value.0, r.value.1))
  }

  /** An attribute is read back exactly when its value is carried through. */
  lemma ReadAttText(a: RawAtt, rest: string)
    requires IsName(a.name)
    ensures var r := ReadAtts(AttText(a) + rest);
            if IsValue(a.value) then r == ConsAtt(a, ReadAtts(rest))
            else r.Some? ==> r.value.0 != [] && r.value.0[0].value != a.value
  {
    ReadAttsStep(a.name, Escape(a.value, true), rest);
    ReadEscapedValue(a.value, rest);
  }

  lemma ConsAttsCons(a: RawAtt, atts: seq<RawAtt>, r: Option<(seq<RawAtt>, string)>)
    ensures ConsAtt(a, ConsAtts(atts, r)) == ConsAtts([a] + atts, r)
  {
    if r.Some? {
      ConcatAssoc([a], atts, r.value.0);
    }
  }

  lemma ValueAttsCons(atts: seq<RawAtt>)
    requires atts != []
    ensures ValueAtts(atts) <==> IsValue(atts[0].value) && ValueAtts(atts[1..])
  {
    assert forall i :: 0 < i < |atts| ==> atts[i] == atts[1..][i - 1];
  }

  /** Attributes are read back exactly when their values are carried through. */
  lemma {:induction false} ReadAttsText(atts: seq<RawAtt>, rest: string)
    requires NamedAtts(atts)
    ensures var r := ReadAtts(AttsText(atts) + rest);
            if ValueAtts(atts) then r == ConsAtts(atts, ReadAtts(rest))
            else r.Some? ==> Mismatch(r.value.0, atts)
  {
    if atts == [] {
      assert AttsText(atts) + rest == rest;
      assert ReadAtts(rest).Some? ==> [] + ReadAtts(rest).value.0 == ReadAtts(rest).value.0;
    } else {
      hide ReadAtts, IsValue, AttText;
      var a, more := atts[0], AttsText(atts[1..]) + rest;
      ConcatAssoc(AttText(a), AttsText(atts[1..]), rest);
      ReadAttText(a, more);
      ReadAttsText(atts[1..], rest);
      ConsAttsCons(a, atts[1..], ReadAtts(rest));
      ValueAttsCons(atts);
      assert atts == [a] + atts[1..];
      var t := ReadAtts(more);
      if IsValue(a.value) && t.Some? && Mismatch(t.value.0, atts[1..]) {
        MismatchAfter([a], t.value.0, atts[1..]);
      }
    }
  }

  /** The generated declarations as a reader sees them. */
  function RawDecls(g: Bindings): (r: seq<RawAtt>)
    ensures |r| == |g|
    ensures forall i :: 0 <= i < |g| ==> r[i] == RawAtt("xmlns:" + g[i].prefix, g[i].ns)
  {
    if g == [] then [] else [RawAtt("xmlns:" + g[0].prefix, g[0].ns)] + RawDecls(g[1..])
  }

  lemma XmlnsNameIsName(p: string)
    requires IsNCName(p)
    ensures IsName("xmlns:" + p)
  {
    var s := "xmlns:" + p;
    assert forall k :: 6 <= k < |s| ==> s[k] == p[k - 6];
  }

  lemma ReadDeclText(d: Binding, rest: string)
    requires IsNCName(d.prefix)
    ensures var r := ReadAtts(DeclText(d) + rest);
            var a := RawAtt("xmlns:" + d.prefix, d.ns);
            if IsPlain(d.ns) then r == ConsAtt(a, ReadAtts(rest))
            else r.Some? ==> r.value.0 != [] && r.value.0[0].value != d.ns
  {
    var name := "xmlns:" + d.prefix;
    XmlnsNameIsName(d.prefix);
    assert DeclText(d) == " " + name + "=\"" + d.ns + "\"";
    ReadAttsStep(name, d.ns, rest);
    ReadRawValue(d.ns, rest);
  }

  /** Generated declarations are read back exactly when their values are plain; otherwise the
      tag is rejected or a value is read that is not the one written. */
  lemma {:induction false} ReadDeclsText(g: Bindings, rest: string)
    requires forall i :: 0 <= i < |g| ==> IsNCName(g[i].prefix)
    requires EndsAtts(rest)
    ensures var r := ReadAtts(DeclsText(g) + rest);
            if PlainDecls(g) then r == Some((RawDecls(g), rest))
            else r.Some? ==> Mismatch(r.value.0, RawDecls(g))
  {
    if g == [] {
      assert DeclsText(g) + rest == rest;
    } else {
      ReadDeclsText(g[1..], rest);
      ReadDeclsCons(g, rest);
      PlainDeclsCons(g);
      var t := ReadAtts(DeclsText(g[1..]) + rest);
      var a := RawAtt("xmlns:" + g[0].prefix, g[0].ns);
      assert RawDecls(g) == [a] + RawDecls(g[1..]);
      if t.Some? && Mismatch(t.value.0, RawDecls(g[1..])) {
        MismatchAfter([a], t.value.0, RawDecls(g[1..]));
      }
    }
  }

  lemma ReadDeclsCons(g: Bindings, rest: string)
    requires g != [] && IsNCName(g[0].prefix)
    ensures var r := ReadAtts(DeclsText(g) + rest);
            var t := ReadAtts(DeclsText(g[1..]) + rest);
            if IsPlain(g[0].ns) then r == ConsAtt(RawAtt("xmlns:" + g[0].prefix, g[0].ns), t)
            else r.Some? ==> Mismatch(r.value.0, RawDecls(g))
  {
    var more := DeclsText(g[1..]) + rest;
    ConcatAssoc(DeclText(g[0]), DeclsText(g[1..]), rest);
    ReadDeclText(g[0], more);
    assert RawDecls(g)[0].value == g[0].ns;
  }

  lemma PlainDeclsCons(g: Bindings)
    requires g != []
    ensures PlainDecls(g) <==> IsPlain(g[0].ns) && PlainDecls(g[1..])
  {
    assert forall i :: 0 < i < |g| ==> g[i] == g[1..][i - 1];
  }

  lemma FormatXmlns(c: Bindings, p: string)
    ensures Format(c, QName(NS_XMLNS, p), true) == "xmlns:" + p
  {
    assert |NS_XML| != |NS_XMLNS|;
    assert "xmlns" + ":" + p == "xmlns:" + p;
  }

  lemma FormatDecls(c: Bindings, attrs: seq<Attr>, g: Bindings)
    ensures FormatAttrs(c, attrs + DeclAttrs(g)) == FormatAttrs(c, attrs) + RawDecls(g)
  {
    forall i | 0 <= i < |g| ensures Format(c, QName(NS_XMLNS, g[i].prefix), true) == "xmlns:" + g[i].prefix {
      FormatXmlns(c, g[i].prefix);
    }
    assert FormatAttrs(c, DeclAttrs(g)) == RawDecls(g);
    FormatConcat(c, attrs, DeclAttrs(g));
  }

  lemma {:induction false} FormatConcat(c: Bindings, a: seq<Attr>, d: seq<Attr>)
    ensures FormatAttrs(c, a + d) == FormatAttrs(c, a) + FormatAttrs(c, d)
    decreases a
  {
    hide Format;
    if a == [] {
      assert a + d == d;
    } else {
      assert (a + d)[0] == a[0] && (a + d)[1..] == a[1..] + d;
      FormatConcat(c, a[1..], d);
    }
  }

  /** The attribute part of a printed tag is read back exactly when the generated
      declarations are plain. */
  lemma ReadTagAtts(b: Bindings, name: QName, attrs: seq<Attr>, tail: string)
    requires SpellableStack(b) && Spellable(Element(name, attrs, [])) && EndsAtts(tail)
    ensures var c := Frame(b, name, attrs); var g := Generated(b, name, attrs);
            var full := FormatAttrs(c, FullAttrs(b, name, attrs));
            var r := ReadAtts(AttsText(FormatAttrs(c, attrs)) + (DeclsText(g) + tail));
            if PlainTag(b, name, attrs) then r == Some((full, tail))
            else r.Some? ==> Misses(r.value.0, full, FormatAttrs(c, attrs))
  {
    hide Frame, Generated, ReadAtts, IsValue, AttsText, DeclsText, Format;
    var c, g := Frame(b, name, attrs), Generated(b, name, attrs);
    FrameSpellable(b, name, attrs);
    var atts := FormatAttrs(c, attrs);
    forall i | 0 <= i < |atts| ensures IsName(atts[i].name) {
      FormatIsName(c, attrs[i].name, true);
    }
    assert ValueAtts(atts) <==> PlainAttrs(attrs) by {
      assert forall i :: 0 <= i < |attrs| ==> atts[i].value == attrs[i].value;
    }
    ReadAttsText(atts, DeclsText(g) + tail);
    ReadDeclsText(g, tail);
    FormatDecls(c, attrs, g);
    var r, t := ReadAtts(AttsText(atts) + (DeclsText(g) + tail)), ReadAtts(DeclsText(g) + tail);
    if !PlainAttrs(attrs) {
      if r.Some? {
        MismatchBefore(r.value.0, atts, [], RawDecls(g));
        assert r.value.0 + [] == r.value.0;
      }
    } else if t.Some? && Mismatch(t.value.0, RawDecls(g)) {
      MismatchAfter(atts, t.value.0, RawDecls(g));
    }
  }

  /** The attributes that were read are neither those of the printed tag, `full`, nor those
      that the element itself has, `own`. */
  ghost predicate Misses(atts: seq<RawAtt>, full: seq<RawAtt>, own: seq<RawAtt>) {
    Mismatch(atts, full) && (|atts| != |own| || Mismatch(atts, own))
  }

  /** A token sequence begins with `ts`. */
  ghost predicate Begins(r: Option<seq<Token>>, ts: seq<Token>) {
    r.Some? && ts <= r.value
  }

  /** If the text is tokenized at all, its first tag has another value than `start`. */
  ghost predicate Misread(r: Option<seq<Token>>, start: Token, own: seq<RawAtt>)
    requires start.Start?
  {
    r.Some? ==> r.value != [] && r.value[0].Start? && Misses(r.value[0].atts, start.atts, own)
  }

  lemma MisreadBegins(r: Option<seq<Token>>, start: Token, own: seq<RawAtt>)
    requires start.Start? && Misread(r, start, own)
    ensures !Begins(r, [start])
  {
  }

  lemma AttsEndName(atts: seq<RawAtt>, g: Bindings, tail: string)
    requires EndsAtts(tail)
    ensures EndsName(AttsText(atts) + (DeclsText(g) + tail))
  {
    var d := DeclsText(g) + tail;
    if g == [] {
      assert d == tail;
    } else {
      assert DeclText(g[0])[0] == ' ' && d[0] == DeclText(g[0])[0];
    }
    if atts == [] {
      assert AttsText(atts) + d == d;
    } else {
      assert AttText(atts[0])[0] == ' ' && (AttsText(atts) + d)[0] == AttText(atts[0])[0];
    }
  }

  /** A printed start tag is tokenized to the start token of the tree, or its declarations
      are not plain and it is not. */
  lemma LexTag(b: Bindings, name: QName, attrs: seq<Attr>, tail: string, open: seq<string>)
    requires SpellableStack(b) && Spellable(Element(name, attrs, [])) && EndsAtts(tail)
    ensures var r := Lex(TagText(b, name, attrs) + tail, open); var start := StartToken(b, name, attrs);
            if PlainTag(b, name, attrs) then r == LexClose(start, tail, open)
            else Misread(r, start, FormatAttrs(Frame(b, name, attrs), attrs))
  {
    var c, g := Frame(b, name, attrs), Generated(b, name, attrs);
    var f, atts := Format(c, name, false), FormatAttrs(c, attrs);
    var more := AttsText(atts) + (DeclsText(g) + tail);
    FrameSpellable(b, name, attrs);
    FormatIsName(c, name, false);
    TagSplit(f, AttsText(atts), DeclsText(g), tail);
    AttsEndName(atts, g, tail);
    ReadTagAtts(b, name, attrs, tail);
    LexSpelledTag(f, FormatAttrs(c, FullAttrs(b, name, attrs)), atts, more, tail, open, PlainTag(b, name, attrs));
  }

  lemma LexSpelledTag(f: string, full: seq<RawAtt>, own: seq<RawAtt>, more: string, tail: string,
                      open: seq<string>, plain: bool)
    requires IsName(f) && EndsName(more)
    requires var r := ReadAtts(more);
             if plain then r == Some((full, tail)) else r.Some? ==> Misses(r.value.0, full, own)
    ensures var r := Lex("<" + (f + more), open); var start := Start(f, full);
            if plain then r == LexClose(start, tail, open) else Misread(r, start, own)
  {
    LexName(f, more, open);
    var r := ReadAtts(more);
    if !plain && r.Some? {
      LexCloseBegins(Start(f, r.value.0), r.value.1, open);
    }
  }

  lemma TagSplit(f: string, a: string, d: string, tail: string)
    ensures ("<" + f + a + d) + tail == "<" + (f + (a + (d + tail)))
  {
    ConcatAssoc(a, d, tail);
    ConcatAssoc(f, a + d, tail);
    assert ("<" + f + a + d) + tail == "<" + ((f + (a + d)) + tail);
  }

  lemma LexCloseBegins(t: Token, rest: string, open: seq<string>)
    requires t.Start?
    ensures var r := LexClose(t, rest, open); r.Some? ==> r.value != [] && r.value[0] == t
  {
  }

  lemma LexCloseCases(start: Token, text: string, open: seq<string>)
    requires start.Start? && UniqueAtts(start.atts)
    ensures LexClose(start, "/>" + text, open) == Prepend([start, End(start.tag)], After(text, open))
    ensures LexClose(start, ">" + text, open) == Prepend([start], Lex(text, open + [start.tag]))
  {
    assert ("/>" + text)[2..] == text && (">" + text)[1..] == text;
    assert (">" + text)[0] != "/>"[0];
  }

  lemma BodySplit(kids: string, f: string, rest: string)
    ensures (">" + kids + "</" + f + ">") + rest == ">" + (kids + ("</" + f + ">" + rest))
  {
    ConcatAssoc(kids, "</" + f + ">", rest);
    assert ">" + kids + "</" + f + ">" == ">" + (kids + ("</" + f + ">"));
  }

  lemma LexName(f: string, more: string, open: seq<string>)
    requires IsName(f) && EndsName(more)
    ensures var r := ReadAtts(more);
            Lex("<" + (f + more), open) ==
            if r.None? then None else LexClose(Start(f, r.value.0), r.value.1, open)
  {
    var s := "<" + (f + more);
    assert s[1] == f[0] && s[1..] == f + more;
    NameLengthOf(f, more);
  }

  lemma LexEndTag(f: string, rest: string, open: seq<string>)
    requires IsName(f)
    ensures Lex("</" + f + ">" + rest, open + [f]) == Prepend([End(f)], After(rest, open))
  {
    var s := "</" + f + ">" + rest;
    assert s == "</" + (f + (">" + rest));
    assert s[2..] == f + (">" + rest);
    NameLengthOf(f, ">" + rest);
    assert (f + (">" + rest))[|f| + 1..] == rest;
    assert (open + [f])[..|open + [f]| - 1] == open;
  }

  /** Text in which no '>' comes before the next tag, so that no "]]>" does. */
  predicate Guarded(s: string) {
    s == "" || s[0] == '<' || (s[0] != '>' && Guarded(s[1..]))
  }

  lemma GuardedHasNoEnd(s: string)
    requires Guarded(s)
    ensures !("]]>" <= s)
  {
    if |s| > 2 && s[0] == ']' && s[1] == ']' {
      assert Guarded(s[1..]) && s[1..][0] == ']';
      assert Guarded(s[1..][1..]) && s[1..][1..][0] == s[2];
    }
  }

  lemma {:induction false} GuardedText(t: string, rest: string)
    requires Guarded(rest)
    ensures Guarded(Escape(t, false) + rest)
  {
    if t == "" {
      assert Escape(t, false) + rest == rest;
    } else {
      GuardedText(t[1..], rest);
      var e, more := EscapeChar(t[0], false), Escape(t[1..], false) + rest;
      ConcatAssoc(e, Escape(t[1..], false), rest);
      GuardedChar(t[0], more);
    }
  }

  lemma GuardedChar(c: char, more: string)
    requires Guarded(more)
    ensures Guarded(EscapeChar(c, false) + more)
  {
    GuardedPrefix(EscapeChar(c, false), more);
  }

  lemma {:induction false} GuardedPrefix(e: string, more: string)
    requires Guarded(more) && forall i :: 0 <= i < |e| ==> e[i] != '>'
    ensures Guarded(e + more)
  {
    if e == "" {
      assert e + more == more;
    } else {
      GuardedPrefix(e[1..], more);
      assert (e + more)[1..] == e[1..] + more;
    }
  }

  lemma {:induction false} GuardedNodes(ns: seq<Node>, b: Bindings, rest: string)
    requires Guarded(rest)
    ensures Guarded(NodesText(ns, b) + rest)
  {
    if ns == [] {
      assert NodesText(ns, b) + rest == rest;
    } else {
      hide TagText, BodyText;
      GuardedNodes(ns[1..], b, rest);
      var more := NodesText(ns[1..], b) + rest;
      ConcatAssoc(NodeText(ns[0], b), NodesText(ns[1..], b), rest);
      match ns[0]
      case Text(t) => GuardedText(t, more);
      case Element(name, attrs, _) => TagBegins(b, name, attrs);
    }
  }

  lemma TagBegins(b: Bindings, name: QName, attrs: seq<Attr>)
    ensures TagText(b, name, attrs) != "" && TagText(b, name, attrs)[0] == '<'
  {
  }

  lemma {:induction false} LexText(t: string, rest: string, open: seq<string>)
    requires open != [] && Guarded(rest)
    ensures var r := Lex(Escape(t, false) + rest, open);
            if IsTextual(t) then r == Prepend(CharTokens(t), Lex(rest, open)) else !Begins(r, CharTokens(t))
  {
    if t == "" {
      assert Escape(t, false) + rest == rest;
      PrependNothing(Lex(rest, open));
    } else {
      hide Lex, EscapeChar, Guarded, IsTextChar;
      var more := Escape(t[1..], false) + rest;
      LexText(t[1..], rest, open);
      LexChar(t, rest, open);
      IsTextualCons(t);
      PrependTwice([Chars([t[0]])], CharTokens(t[1..]), Lex(rest, open));
      if IsTextChar(t[0]) && Begins(Lex(Escape(t, false) + rest, open), CharTokens(t)) {
        BeginsAfter([Chars([t[0]])], CharTokens(t[1..]), Lex(more, open));
      }
    }
  }

  lemma IsTextualCons(t: string)
    requires t != ""
    ensures IsTextual(t) <==> IsTextChar(t[0]) && IsTextual(t[1..])
  {
    assert forall i :: 0 < i < |t| ==> t[i] == t[1..][i - 1];
  }

  /** One escaped character is read back exactly when text can carry it; a carriage return is
      read as a line feed and other control characters are rejected. */
  lemma LexChar(t: string, rest: string, open: seq<string>)
    requires t != "" && open != [] && Guarded(rest)
    ensures var r, more := Lex(Escape(t, false) + rest, open), Escape(t[1..], false) + rest;
            if IsTextChar(t[0]) then r == Prepend([Chars([t[0]])], Lex(more, open))
            else r.Some? ==> r.value != [] && r.value[0] == Chars("\n") && t[0] == '\r'
  {
    var e, more := EscapeChar(t[0], false), Escape(t[1..], false) + rest;
    ConcatAssoc(e, Escape(t[1..], false), rest);
    GuardedText(t, rest);
    GuardedHasNoEnd(Escape(t, false) + rest);
    if IsUnsafe(t[0], false) {
      EntityOfEscape(t[0], false, more);
    } else {
      assert ([t[0]] + more)[1..] == more;
    }
  }

  lemma PrependNothing(r: Option<seq<Token>>)
    ensures Prepend([], r) == r
  {
    assert r.Some? ==> [] + r.value == r.value;
  }

  lemma PrependTwice(s: seq<Token>, t: seq<Token>, r: Option<seq<Token>>)
    ensures Prepend(s, Prepend(t, r)) == Prepend(s + t, r)
  {
    if r.Some? {
      ConcatAssoc(s, t, r.value);
    }
  }

  lemma BeginsAfter(s: seq<Token>, t: seq<Token>, r: Option<seq<Token>>)
    requires Begins(Prepend(s, r), s + t)
    ensures Begins(r, t)
  {
    assert (s + r.value)[|s|..] == r.value && (s + t)[|s|..] == t;
  }

  lemma BeginsShorter(s: seq<Token>, t: seq<Token>, r: Option<seq<Token>>)
    requires Begins(r, s + t)
    ensures Begins(r, s)
  {
    assert (s + t)[..|s|] == s && r.value[..|s|] == s;
  }

  // ---- whole trees ---------------------------------------------------------------------

  /** The printed text of a node is tokenized to the node's tokens exactly when every
      generated declaration in it is plain. */
  lemma {:induction false} LexNode(n: Node, b: Bindings, rest: string, open: seq<string>)
    requires Spellable(n) && SpellableStack(b) && Guarded(rest) && (n.Text? ==> open != [])
    ensures var r := Lex(NodeText(n, b) + rest, open);
            if PlainTree(n, b) then r == Prepend(Tokens(n, b), After(rest, open)) else !Begins(r, Tokens(n, b))
    decreases n, 2
  {
    match n
    case Text(t) => LexText(t, rest, open);
    case Element(name, attrs, children) =>
      var c := Frame(b, name, attrs);
      var start, f := StartToken(b, name, attrs), Format(c, name, false);
      var tail := BodyText(c, name, children) + rest;
      ConcatAssoc(TagText(b, name, attrs), BodyText(c, name, children), rest);
      LexTag(b, name, attrs, tail, open);
      var ts := TokensOf(children, c) + [End(f)];
      assert Tokens(n, b) == [start] + ts;
      if PlainTag(b, name, attrs) {
        LexBody(b, name, attrs, children, rest, open);
      } else {
        var r := Lex(TagText(b, name, attrs) + tail, open);
        MisreadBegins(r, start, FormatAttrs(c, attrs));
        if Begins(r, [start] + ts) {
          BeginsShorter([start], ts, r);
        }
      }
  }

  lemma {:induction false} LexBody(b: Bindings, name: QName, attrs: seq<Attr>, children: seq<Node>, rest: string,
                                   open: seq<string>)
    requires Spellable(Element(name, attrs, children)) && SpellableStack(b) && Guarded(rest)
    ensures var c := Frame(b, name, attrs); var start := StartToken(b, name, attrs);
            var ts := [start] + (TokensOf(children, c) + [End(start.tag)]);
            var r := LexClose(start, BodyText(c, name, children) + rest, open);
            if PlainTrees(children, c) then r == Prepend(ts, After(rest, open)) else !Begins(r, ts)
    decreases children, 1
  {
    var c, start := Frame(b, name, attrs), StartToken(b, name, attrs);
    var f, mid := start.tag, TokensOf(children, c);
    StartTokenIsUnique(b, name, attrs);
    if children == [] {
      LexCloseCases(start, rest, open);
      assert [start] + (mid + [End(f)]) == [start, End(f)];
    } else {
      FrameSpellable(b, name, attrs);
      FormatIsName(c, name, false);
      var inner := "</" + f + ">" + rest;
      var text := NodesText(children, c) + inner;
      LexNodes(children, c, inner, open + [f]);
      LexEndTag(f, rest, open);
      BodySplit(NodesText(children, c), f, rest);
      LexCloseCases(start, text, open);
      WrapTokens(start, mid, End(f), Lex(text, open + [f]), After(rest, open), PlainTrees(children, c));
    }
  }

  /** Puts a start and an end token around the tokens of the children. */
  lemma WrapTokens(start: Token, mid: seq<Token>, end: Token, r: Option<seq<Token>>, rest: Option<seq<Token>>,
                   plain: bool)
    requires if plain then r == Prepend(mid, Prepend([end], rest)) else !Begins(r, mid)
    ensures var ts := [start] + (mid + [end]);
            if plain then Prepend([start], r) == Prepend(ts, rest) else !Begins(Prepend([start], r), ts)
  {
    PrependTwice(mid, [end], rest);
    PrependTwice([start], mid + [end], rest);
    if !plain && Begins(Prepend([start], r), [start] + (mid + [end])) {
      BeginsAfter([start], mid + [end], r);
      BeginsShorter(mid, [end], r);
    }
  }

  lemma StartTokenIsUnique(b: Bindings, name: QName, attrs: seq<Attr>)
    requires Spellable(Element(name, attrs, [])) && SpellableStack(b)
    ensures UniqueAtts(StartToken(b, name, attrs).atts)
  {
    FrameSpellable(b, name, attrs);
    FrameSpec(b, name, attrs);
    SpellableColonFree(b, []);
    assert b + [] == b;
    FullAttrsSpec(b, name, attrs);
    var c, full := Frame(b, name, attrs), FullAttrs(b, name, attrs);
    forall i, j | 0 <= i < j < |full| ensures FormatAttrs(c, full)[i].name != FormatAttrs(c, full)[j].name {
      FormattedNamesDistinct(c, full, i, j);
    }
  }

  lemma {:induction false} LexNodes(ns: seq<Node>, b: Bindings, rest: string, open: seq<string>)
    requires (forall i :: 0 <= i < |ns| ==> Spellable(ns[i])) && SpellableStack(b) && Guarded(rest) && open != []
    ensures var r := Lex(NodesText(ns, b) + rest, open);
            if PlainTrees(ns, b) then r == Prepend(TokensOf(ns, b), Lex(rest, open))
            else !Begins(r, TokensOf(ns, b))
    decreases ns, 0
  {
    if ns == [] {
      assert NodesText(ns, b) + rest == rest;
      PrependNothing(Lex(rest, open));
    } else {
      var more := NodesText(ns[1..], b) + rest;
      ConcatAssoc(NodeText(ns[0], b), NodesText(ns[1..], b), rest);
      GuardedNodes(ns[1..], b, rest);
      LexNode(ns[0], b, more, open);
      LexNodes(ns[1..], b, rest, open);
      var t0, t1 := Tokens(ns[0], b), TokensOf(ns[1..], b);
      PrependTwice(t0, t1, Lex(rest, open));
      var r := Lex(NodeText(ns[0], b) + more, open);
      if Begins(r, t0 + t1) {
        BeginsShorter(t0, t1, r);
        if PlainTree(ns[0], b) {
          BeginsAfter(t0, t1, Lex(more, open));
        }
      }
    }
  }

  // ---- the document theorems -----------------------------------------------------------

  /** Reading a document: tokenize it and run the parser over the tokens. */
  function ForStr(text: string): Option<Node> {
    match Lex(text, [])
    case None => None
    case Some(ts) => var p := Run(FreshParser, ts); if p.raised != ERROR_NONE then None else p.root
  }

  /** The text of a document is tokenized to its tokens exactly when its generated
      declarations are plain. */
  lemma TextSpellsTokens(e: Node)
    requires e.Element? && Spellable(e)
    ensures Lex(NodeText(e, []), []) == Some(Tokens(e, [])) <==> PlainTree(e, [])
  {
    LexNode(e, [], "", []);
    assert NodeText(e, []) + "" == NodeText(e, []);
    assert Tokens(e, []) + [] == Tokens(e, []);
  }
}
