/** Escaping of attribute values and body text, and the predefined entities of section 4.6
    of XML 1.0 that undo it. */
module Escaping {
  import opened Xml

  /** The characters `PrintQuotedValue` (quoted) and `PrintBodyText` replace. */
  predicate IsUnsafe(c: char, quoted: bool) {
    c == '<' || c == '>' || c == '&' || (quoted && c == '"')
  }

  function EscapeChar(c: char, quoted: bool): string {
    if c == '<' then "&lt;"
    else if c == '>' then "&gt;"
    else if c == '&' then "&amp;"
    else if c == '"' && quoted then "&quot;"
    else [c]
  }

  function Escape(s: string, quoted: bool): string {
    if s == "" then "" else EscapeChar(s[0], quoted) + Escape(s[1..], quoted)
  }

  lemma {:induction false} EscapeConcat(s: string, t: string, quoted: bool)
    ensures Escape(s + t, quoted) == Escape(s, quoted) + Escape(t, quoted)
  {
    if s == "" {
      assert s + t == t;
    } else {
      assert (s + t)[1..] == s[1..] + t;
      EscapeConcat(s[1..], t, quoted);
    }
  }

  lemma {:induction false} EscapeSafe(s: string, quoted: bool)
    requires forall i :: 0 <= i < |s| ==> !IsUnsafe(s[i], quoted)
    ensures Escape(s, quoted) == s
  {
    if s != "" {
      EscapeSafe(s[1..], quoted);
      assert s == [s[0]] + s[1..];
    }
  }

  /** What each character is written as, and that no other changes. */
  lemma EscapeTable(c: char, quoted: bool)
    ensures EscapeChar('<', quoted) == "&lt;" && EscapeChar('>', quoted) == "&gt;" && EscapeChar('&', quoted) == "&amp;"
    ensures EscapeChar('"', true) == "&quot;" && EscapeChar('"', false) == "\""
    ensures c !in {'<', '>', '&', '"'} ==> EscapeChar(c, quoted) == [c]
    ensures IsUnsafe(c, quoted) <==> EscapeChar(c, quoted) != [c]
  {
  }

  /** Position of the first unsafe character from `from` on, or the length. */
  function FirstUnsafe(s: string, from: nat, quoted: bool): (i: nat)
    requires from <= |s|
    ensures from <= i <= |s|
    ensures forall k :: from <= k < i ==> !IsUnsafe(s[k], quoted)
    ensures i < |s| ==> IsUnsafe(s[i], quoted)
    decreases |s| - from
  {
    if from == |s| || IsUnsafe(s[from], quoted) then from else FirstUnsafe(s, from + 1, quoted)
  }

  lemma EscapeStretch(s: string, i: nat, j: nat, quoted: bool)
    requires i <= j <= |s| && forall k :: i <= k < j ==> !IsUnsafe(s[k], quoted)
    ensures Escape(s[..j], quoted) == Escape(s[..i], quoted) + s[i..j]
  {
    assert s[..j] == s[..i] + s[i..j];
    EscapeConcat(s[..i], s[i..j], quoted);
    EscapeSafe(s[i..j], quoted);
  }

  lemma EscapeOne(s: string, i: nat, quoted: bool)
    requires i < |s|
    ensures Escape(s[..i + 1], quoted) == Escape(s[..i], quoted) + EscapeChar(s[i], quoted)
  {
    assert s[..i + 1] == s[..i] + [s[i]];
    EscapeConcat(s[..i], [s[i]], quoted);
    assert [s[i]][1..] == "";
  }

  /** The loop of `PrintQuotedValue` and `PrintBodyText`: copies safe stretches whole and
      replaces each unsafe character. */
  method PrintEscaped(text: string, quoted: bool) returns (out: string)
    ensures out == Escape(text, quoted)
  {
    out := "";
    var safe := 0;
    while true
      invariant 0 <= safe <= |text|
      invariant out == Escape(text[..safe], quoted)
      decreases |text| - safe
    {
      var unsafe := FirstUnsafe(text, safe, quoted);
      out := out + text[safe..unsafe];
      EscapeStretch(text, safe, unsafe, quoted);
      if unsafe == |text| {
        assert text[..unsafe] == text;
        return;
      }
      match text[unsafe] {
        case '<' => out := out + "&lt;";
        case '>' => out := out + "&gt;";
        case '&' => out := out + "&amp;";
        case _ => out := out + "&quot;";
      }
      EscapeOne(text, unsafe, quoted);
      safe := unsafe + 1;
      if safe == |text| {
        assert text[..safe] == text;
        return;
      }
    }
  }

  // ---- reading entities back -----------------------------------------------------------

  /** The character a predefined entity at the start of `s` stands for, and its length. */
  function Entity(s: string): (r: Option<(char, nat)>)
    ensures r.Some? ==> 1 < r.value.1 <= |s|
  {
    if "&lt;" <= s then Some(('<', 4))
    else if "&gt;" <= s then Some(('>', 4))
    else if "&amp;" <= s then Some(('&', 5))
    else if "&quot;" <= s then Some(('"', 6))
    else if "&apos;" <= s then Some(('\'', 6))
    else None
  }

  /** Replaces entities; fails on an '&' that starts none. */
  function Unescape(s: string): Option<string> {
    if s == "" then Some("")
    else if s[0] == '&' then
      match Entity(s)
      case None => None
      case Some((c, n)) =>
        (match Unescape(s[n..])
         case None => None
         case Some(t) => Some([c] + t))
    else
      match Unescape(s[1..])
      case None => None
      case Some(t) => Some([s[0]] + t)
  }

  lemma EntityOfEscape(c: char, quoted: bool, rest: string)
    requires IsUnsafe(c, quoted)
    ensures var e := EscapeChar(c, quoted);
            Entity(e + rest) == Some((c, |e|)) && (e + rest)[|e|..] == rest && e[0] == '&'
  {
    var e := EscapeChar(c, quoted);
    var s := e + rest;
    assert s[..|e|] == e;
    assert s[1] == e[1] && s[2] == e[2];
  }

  /** Replacing the entities of escaped text gives the text back. */
  lemma {:induction false} UnescapeEscape(s: string, quoted: bool)
    ensures Unescape(Escape(s, quoted)) == Some(s)
  {
    if s != "" {
      UnescapeEscape(s[1..], quoted);
      var rest := Escape(s[1..], quoted);
      if IsUnsafe(s[0], quoted) {
        EntityOfEscape(s[0], quoted, rest);
      } else {
        assert ([s[0]] + rest)[1..] == rest;
      }
      assert s == [s[0]] + s[1..];
    }
  }

  /** No raw markup character, and every '&' starts an entity. */
  ghost predicate Clean(e: string, quoted: bool) {
    forall i :: 0 <= i < |e| ==> CleanAt(e, i, quoted)
  }

  ghost predicate CleanAt(e: string, i: nat, quoted: bool)
    requires i < |e|
  {
    && e[i] != '<' && e[i] != '>' && (quoted ==> e[i] != '"')
    && (e[i] == '&' ==> Entity(e[i..]).Some?)
  }

  lemma EscapeCharIsClean(c: char, quoted: bool, t: string, i: nat)
    requires i < |EscapeChar(c, quoted)|
    ensures CleanAt(EscapeChar(c, quoted) + t, i, quoted)
  {
    var h := EscapeChar(c, quoted);
    var e := h + t;
    assert e[i] == h[i];
    assert e[i] == '&' ==> i == 0;
    if IsUnsafe(c, quoted) {
      EntityOfEscape(c, quoted, t);
      assert e[0..] == e;
    }
  }

  /** Escaped text holds no raw markup character, and every '&' in it starts an entity. */
  lemma {:induction false} EscapeIsClean(s: string, quoted: bool)
    ensures Clean(Escape(s, quoted), quoted)
  {
    if s != "" {
      EscapeIsClean(s[1..], quoted);
      var h, t := EscapeChar(s[0], quoted), Escape(s[1..], quoted);
      forall i | 0 <= i < |h + t| ensures CleanAt(h + t, i, quoted) {
        if i < |h| {
          EscapeCharIsClean(s[0], quoted, t, i);
        } else {
          assert CleanAt(t, i - |h|, quoted) && (h + t)[i..] == t[i - |h|..];
        }
      }
    }
  }
}
