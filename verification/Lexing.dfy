/** A reference tokenizer for the XML that the printer emits, standing in for the tokenizer
    library: names, double-quoted attributes, predefined entities, nested tags. It follows
    sections 2.1 (a single root), 2.3 (names), 2.11 and 3.3.3 (white space), 3.1 (tags, unique
    attributes) and 4.6 (entities) of XML 1.0. Character data is delivered one character at a
    time; by `Parsing.ChunkingIrrelevant` coarser chunks build the same tree. */
module Lexing {
  import opened Xml
  import opened Escaping

  predicate IsNameStart(c: char) {
    'a' <= c <= 'z' || 'A' <= c <= 'Z' || c == '_' || c == ':' || c >= '\U{80}'
  }

  predicate IsNameChar(c: char) {
    IsNameStart(c) || '0' <= c <= '9' || c == '-' || c == '.'
  }

  predicate IsName(s: string) {
    s != "" && IsNameStart(s[0]) && forall i :: 0 <= i < |s| ==> IsNameChar(s[i])
  }

  /** Length of the longest run of name characters at the start. */
  function NameLength(s: string): (n: nat)
    ensures n <= |s|
  {
    if s == "" || !IsNameChar(s[0]) then 0 else 1 + NameLength(s[1..])
  }

  /** The attribute value up to the closing quote, and what follows the quote. */
  function ReadValue(s: string): (r: Option<(string, string)>)
    ensures r.Some? ==> |r.value.0| + 1 + |r.value.1| <= |s|
  {
    if s == "" || s[0] == '<' then None
    else if s[0] == '"' then Some(("", s[1..]))
    else if s[0] == '&' then
      match Entity(s)
      case None => None
      case Some((c, n)) => ConsValue(c, ReadValue(s[n..]))
    else if "\r\n" <= s then ConsValue(' ', ReadValue(s[2..]))
    else if s[0] == '\t' || s[0] == '\n' || s[0] == '\r' then ConsValue(' ', ReadValue(s[1..]))
    else if s[0] < ' ' then None
    else ConsValue(s[0], ReadValue(s[1..]))
  }

  function ConsValue(c: char, r: Option<(string, string)>): Option<(string, string)> {
    if r.None? then None else Some(([c] + r.value.0, r.value.1))
  }

  /** The attributes of a start tag, and what follows them. */
  function ReadAtts(s: string): (r: Option<(seq<RawAtt>, string)>)
    ensures r.Some? ==> |r.value.1| <= |s|
    decreases |s|
  {
    if s == "" || s[0] != ' ' then Some(([], s)) else
      var n := NameLength(s[1..]);
      var name, after := s[1..1 + n], s[1 + n..];
      if !IsName(name) || !("=\"" <= after) then None else
        match ReadValue(after[2..])
        case None => None
        case Some((v, rest)) => ConsAtt(RawAtt(name, v), ReadAtts(rest))
  }

  function ConsAtt(a: RawAtt, r: Option<(seq<RawAtt>, string)>): Option<(seq<RawAtt>, string)> {
    if r.None? then None else Some(([a] + r.value.0, r.value.1))
  }

  predicate UniqueAtts(atts: seq<RawAtt>) {
    forall i, j :: 0 <= i < j < |atts| ==> atts[i].name != atts[j].name
  }

  function Prepend(ts: seq<Token>, r: Option<seq<Token>>): Option<seq<Token>> {
    if r.None? then None else Some(ts + r.value)
  }

  /** What follows a tag: nothing after the root element. */
  function After(s: string, open: seq<string>): Option<seq<Token>>
    decreases |s|, 2
  {
    if open != [] then Lex(s, open) else if s == "" then Some([]) else None
  }

  /** The tokens of `s` read inside the elements `open`, or at the start of a document; nothing
      if it is not well formed. */
  function Lex(s: string, open: seq<string>): Option<seq<Token>>
    decreases |s|, 1
  {
    if s == "" then None
    else if s[0] == '<' then
      if |s| > 1 && s[1] == '/' then LexEnd(s[2..], open) else LexStart(s[1..], open)
    else if open == [] then None
    else if s[0] == '&' then
      match Entity(s)
      case None => None
      case Some((c, n)) => Prepend([Chars([c])], Lex(s[n..], open))
    else if s[0] == '\r' then
      Prepend([Chars("\n")], Lex(if "\r\n" <= s then s[2..] else s[1..], open))
    else if (s[0] < ' ' && s[0] != '\t' && s[0] != '\n') || "]]>" <= s then None
    else Prepend([Chars([s[0]])], Lex(s[1..], open))
  }

  function LexStart(s: string, open: seq<string>): Option<seq<Token>>
    decreases |s|, 2
  {
    var n := NameLength(s);
    if !IsName(s[..n]) then None else
      match ReadAtts(s[n..])
      case None => None
      case Some((atts, rest)) => LexClose(Start(s[..n], atts), rest, open)
  }

  /** The end of a start tag: the element is empty or stays open. */
  function LexClose(start: Token, rest: string, open: seq<string>): Option<seq<Token>>
    requires start.Start?
    decreases |rest|, 1
  {
    if !UniqueAtts(start.atts) then None
    else if "/>" <= rest then Prepend([start, End(start.tag)], After(rest[2..], open))
    else if ">" <= rest then Prepend([start], After(rest[1..], open + [start.tag]))
    else None
  }

  function LexEnd(s: string, open: seq<string>): Option<seq<Token>>
    decreases |s|, 0
  {
    var n := NameLength(s);
    if open == [] || open[|open| - 1] != s[..n] || !(">" <= s[n..]) then None
    else Prepend([End(s[..n])], After(s[n + 1..], open[..|open| - 1]))
  }

  // ---- names and values ----------------------------------------------------------------

  lemma {:induction false} NameLengthOf(name: string, rest: string)
    requires forall i :: 0 <= i < |name| ==> IsNameChar(name[i])
    requires rest != "" && !IsNameChar(rest[0])
    ensures NameLength(name + rest) == |name|
    ensures (name + rest)[..|name|] == name && (name + rest)[|name|..] == rest
  {
    if name == "" {
      assert name + rest == rest;
    } else {
      assert (name + rest)[1..] == name[1..] + rest;
      NameLengthOf(name[1..], rest);
    }
  }

  /** A character an attribute value can carry through unchanged. */
  predicate IsValueChar(c: char) { c >= ' ' }

  predicate IsValue(v: string) {
    forall i :: 0 <= i < |v| ==> IsValueChar(v[i])
  }

  /** An escaped value is read back exactly when its characters are carried through; what
      follows it is found in any case. */
  lemma {:induction false} ReadEscapedValue(v: string, rest: string)
    ensures var r := ReadValue(Escape(v, true) + ("\"" + rest));
            && (r.Some? ==> r.value.1 == rest)
            && (if IsValue(v) then r.Some? && r.value.0 == v else r.Some? ==> r.value.0 != v)
    decreases |v|
  {
    var tail := "\"" + rest;
    if v == "" {
      assert Escape(v, true) + tail == tail && tail[1..] == rest;
    } else {
      hide ReadValue, EscapeChar;
      ReadEscapedValue(v[1..], rest);
      ConcatAssoc(EscapeChar(v[0], true), Escape(v[1..], true), tail);
      IsValueCons(v);
      assert v == [v[0]] + v[1..];
      if IsValueChar(v[0]) {
        ReadEscapedChar(v[0], Escape(v[1..], true) + tail);
      } else if |v| > 1 && v[..2] == "\r\n" {
        ReadEscapedValue(v[2..], rest);
        ReadBreak(v, tail);
      } else {
        ReadControl(v, tail);
      }
    }
  }

  lemma IsValueCons(v: string)
    requires v != ""
    ensures IsValue(v) <==> IsValueChar(v[0]) && IsValue(v[1..])
  {
    assert forall i :: 0 < i < |v| ==> v[i] == v[1..][i - 1];
  }

  lemma ReadEscapedChar(c: char, more: string)
    requires IsValueChar(c)
    ensures ReadValue(EscapeChar(c, true) + more) == ConsValue(c, ReadValue(more))
  {
    if IsUnsafe(c, true) {
      EntityOfEscape(c, true, more);
    } else {
      assert ([c] + more)[1..] == more;
    }
  }

  lemma ReadBreak(v: string, tail: string)
    requires |v| > 1 && v[..2] == "\r\n"
    ensures ReadValue(Escape(v, true) + tail) == ConsValue(' ', ReadValue(Escape(v[2..], true) + tail))
  {
    var e := Escape(v[2..], true);
    EscapeBreak(v);
    var s := "\r\n" + (e + tail);
    ConcatAssoc("\r\n", e, tail);
    assert s[2..] == e + tail && s[..2] == "\r\n";
  }

  lemma EscapeBreak(v: string)
    requires |v| > 1 && v[..2] == "\r\n"
    ensures Escape(v, true) == "\r\n" + Escape(v[2..], true)
  {
    hide Escape;
    assert v == "\r\n" + v[2..];
    EscapeConcat("\r\n", v[2..], true);
    EscapeSafe("\r\n", true);
  }

  /** White space is read as a blank, and other control characters are rejected. */
  lemma ReadControl(v: string, tail: string)
    requires v != "" && !IsValueChar(v[0]) && !(|v| > 1 && v[..2] == "\r\n") && "\"" <= tail
    ensures var r := ReadValue(Escape(v, true) + tail);
            r.None? || r == ConsValue(' ', ReadValue(Escape(v[1..], true) + tail))
  {
    var more := Escape(v[1..], true) + tail;
    var s := Escape(v, true) + tail;
    assert s == [v[0]] + more && s[1..] == more;
    if v[0] == '\r' {
      if |v| == 1 {
        assert v[1..] == "" && more == tail && more[0] == '"';
      } else {
        assert v[..2] == [v[0], v[1]];
        EscapeBegins(v[1..], tail);
      }
      assert more[0] != '\n' && s[1] == more[0];
    }
  }

  lemma EscapeBegins(v: string, tail: string)
    requires v != "" && v[0] != '\n'
    ensures var s := Escape(v, true) + tail; s != "" && s[0] != '\n'
  {
    var e := EscapeChar(v[0], true);
    assert (Escape(v, true) + tail)[0] == e[0];
  }

  /** A value that reads back as itself although it is written without escaping. */
  predicate IsPlain(v: string) {
    forall i :: 0 <= i < |v| ==> IsPlainChar(v[i])
  }

  /** An entity does not reach across a quote. */
  lemma EntityInside(v: string, tail: string)
    requires tail != "" && tail[0] == '"' && Entity(v + tail).Some?
    ensures Entity(v + tail).value.1 <= |v|
  {
    var s := v + tail;
    var n := Entity(s).value.1;
    assert s[|v|] == '"' && '"' !in s[..n];
  }

  predicate IsPlainChar(c: char) { IsValueChar(c) && c != '<' && c != '&' && c != '"' }

  lemma IsPlainCons(v: string)
    requires v != ""
    ensures IsPlain(v) <==> IsPlainChar(v[0]) && IsPlain(v[1..])
  {
    assert forall i :: 0 < i < |v| ==> v[i] == v[1..][i - 1];
  }

  /** One raw character of a value: read as itself, as a blank, as the end, or rejected. */
  lemma ReadRawChar(c: char, more: string)
    requires c != '&' && !("\r\n" <= [c] + more)
    ensures var r := ReadValue([c] + more);
            if IsPlainChar(c) then r == ConsValue(c, ReadValue(more))
            else r.None? || (c == '"' && r.value.0 == "") || (c != ' ' && r == ConsValue(' ', ReadValue(more)))
  {
    assert ([c] + more)[1..] == more;
  }

  lemma RawBreak(v: string, s: string)
    requires |v| > 1 && v <= s && "\r\n" <= s
    ensures ReadValue(s) == ConsValue(' ', ReadValue(s[2..])) && !IsPlain(v) && v[0] != ' '
  {
    assert v[0] == s[0] == '\r';
  }

  /** An unescaped value is read back as it was written exactly when it is plain; anything
      else is rejected or read as a different value. */
  lemma {:induction false} ReadRawValue(v: string, rest: string)
    ensures var r := ReadValue(v + ("\"" + rest));
            && (IsPlain(v) ==> r == Some((v, rest)))
            && (r.Some? ==> |r.value.0| <= |v|)
            && (r.Some? && r.value.0 == v ==> IsPlain(v))
    decreases v
  {
    var tail := "\"" + rest;
    var s := v + tail;
    if v == "" {
      assert s == tail && tail[1..] == rest;
    } else if v[0] == '&' {
      if Entity(s).Some? {
        var n := Entity(s).value.1;
        EntityInside(v, tail);
        assert s[n..] == v[n..] + tail;
        ReadRawValue(v[n..], rest);
      }
    } else if "\r\n" <= s {
      assert s[1] == '\n' && s[|v|] == '"';
      assert s[2..] == v[2..] + tail;
      ReadRawValue(v[2..], rest);
      RawBreak(v, s);
    } else {
      var more := v[1..] + tail;
      assert s == [v[0]] + more && s[1..] == more;
      ReadRawValue(v[1..], rest);
      IsPlainCons(v);
      ReadRawChar(v[0], more);
      hide ReadValue, IsPlain;
      assert v == [v[0]] + v[1..];
    }
  }
}
