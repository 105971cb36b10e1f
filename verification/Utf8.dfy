/** Truncation of a presence status to 300 bytes without splitting a character. */
module Utf8 {

  type Byte = b: int | 0 <= b < 256

  const LIMIT := 300

  /** The test on the byte where the text would be cut. */
  predicate IsFirstByte(b: Byte) {
    b < 0x80 || (b - 0xC0) % 256 < 0x3E
  }

  predicate IsTail(b: Byte) { 0x80 <= b <= 0xBF }

  /** Length of the character at the start of `s` by section 4 of RFC 3629; 0 if none. */
  function CharLength(s: seq<Byte>): (n: nat)
    ensures n <= |s| && n <= 4
    ensures n > 0 ==> !IsTail(s[0]) && s[0] <= 0xF4 && forall k :: 1 <= k < n ==> IsTail(s[k])
  {
    if s == [] then 0
    else if s[0] < 0x80 then 1
    else if 0xC2 <= s[0] <= 0xDF && |s| >= 2 && IsTail(s[1]) then 2
    else if |s| >= 3 && IsTail(s[1]) && IsTail(s[2]) &&
            ((s[0] == 0xE0 && s[1] >= 0xA0) || (0xE1 <= s[0] <= 0xEC)
             || (s[0] == 0xED && s[1] <= 0x9F) || (0xEE <= s[0] <= 0xEF))
    then 3
    else if |s| >= 4 && IsTail(s[1]) && IsTail(s[2]) && IsTail(s[3]) &&
            ((s[0] == 0xF0 && s[1] >= 0x90) || (0xF1 <= s[0] <= 0xF3) || (s[0] == 0xF4 && s[1] <= 0x8F))
    then 4
    else 0
  }

  predicate IsUtf8(s: seq<Byte>) {
    s == [] || (CharLength(s) > 0 && IsUtf8(s[CharLength(s)..]))
  }

  // ---- valid text is encoded characters ------------------------------------------------

  /** A character number of section 3 of RFC 3629. */
  predicate IsScalar(c: int) { 0 <= c <= 0x10FFFF && !(0xD800 <= c <= 0xDFFF) }

  /** Its bytes, by the table there. */
  function Encode(c: int): (s: seq<Byte>)
    requires IsScalar(c)
  {
    if c < 0x80 then [c]
    else if c < 0x800 then [0xC0 + c / 64, 0x80 + c % 64]
    else if c < 0x1_0000 then [0xE0 + c / 4096, 0x80 + c / 64 % 64, 0x80 + c % 64]
    else [0xF0 + c / 262144, 0x80 + c / 4096 % 64, 0x80 + c / 64 % 64, 0x80 + c % 64]
  }

  predicate AllScalar(cs: seq<int>) {
    forall i :: 0 <= i < |cs| ==> IsScalar(cs[i])
  }

  function EncodeAll(cs: seq<int>): seq<Byte>
    requires AllScalar(cs)
  {
    if cs == [] then [] else Encode(cs[0]) + EncodeAll(cs[1..])
  }

  lemma EncodedLength(c: int, rest: seq<Byte>)
    requires IsScalar(c)
    ensures CharLength(Encode(c) + rest) == |Encode(c)|
    ensures (Encode(c) + rest)[|Encode(c)|..] == rest
  {
    var e := Encode(c);
    var s := e + rest;
    assert s[0] == e[0] && (|e| > 1 ==> s[1] == e[1]) && (|e| > 2 ==> s[2] == e[2]) && (|e| > 3 ==> s[3] == e[3]);
    LeadByte(c);
  }

  /** The ranges of the first two bytes by the table of section 4. */
  lemma LeadByte(c: int)
    requires IsScalar(c)
    ensures var e := Encode(c);
            && (|e| == 2 ==> 0xC2 <= e[0] <= 0xDF)
            && (|e| == 3 ==> (e[0] == 0xE0 && e[1] >= 0xA0) || 0xE1 <= e[0] <= 0xEC
                             || (e[0] == 0xED && e[1] <= 0x9F) || 0xEE <= e[0] <= 0xEF)
            && (|e| == 4 ==> (e[0] == 0xF0 && e[1] >= 0x90) || 0xF1 <= e[0] <= 0xF3 || (e[0] == 0xF4 && e[1] <= 0x8F))
  {
  }

  lemma {:induction false} EncodedIsUtf8(cs: seq<int>)
    requires AllScalar(cs)
    ensures IsUtf8(EncodeAll(cs))
  {
    if cs != [] {
      EncodedIsUtf8(cs[1..]);
      EncodedLength(cs[0], EncodeAll(cs[1..]));
    }
  }

  /** The character that the first bytes stand for. */
  function FirstCharacter(s: seq<Byte>): (c: int)
    requires CharLength(s) > 0
  {
    match CharLength(s)
    case 1 => s[0]
    case 2 => Continue(s[0] - 0xC0, s[1])
    case 3 => Continue(Continue(s[0] - 0xE0, s[1]), s[2])
    case _ => Continue(Continue(Continue(s[0] - 0xF0, s[1]), s[2]), s[3])
  }

  /** Six more bits. */
  function Continue(c: int, b: int): int { c * 64 + (b - 0x80) }

  lemma FirstCharacterEncodes(s: seq<Byte>)
    requires CharLength(s) > 0
    ensures IsScalar(FirstCharacter(s)) && Encode(FirstCharacter(s)) == s[..CharLength(s)]
  {
    LengthRanges(s);
    hide CharLength;
    if CharLength(s) == 1 {
      assert s[..1] == [s[0]];
    } else if CharLength(s) == 2 {
      hide Encode, IsScalar;
      TwoBytes(s[0] - 0xC0, s[1] - 0x80);
      assert s[..2] == [s[0], s[1]];
    } else if CharLength(s) == 3 {
      hide Encode, IsScalar;
      ThreeBytes(s[0] - 0xE0, s[1] - 0x80, s[2] - 0x80);
      assert s[..3] == [s[0], s[1], s[2]];
    } else {
      hide Encode, IsScalar;
      FourBytes(s[0] - 0xF0, s[1] - 0x80, s[2] - 0x80, s[3] - 0x80);
      assert s[..4] == [s[0], s[1], s[2], s[3]];
    }
  }

  /** The ranges of the bytes of a character, by the table of section 4. */
  lemma LengthRanges(s: seq<Byte>)
    requires CharLength(s) > 0
    ensures CharLength(s) == 1 ==> s[0] < 0x80
    ensures CharLength(s) == 2 ==> 0xC2 <= s[0] <= 0xDF
    ensures CharLength(s) == 3 ==>
              0xE0 <= s[0] <= 0xEF && (s[0] == 0xE0 ==> s[1] >= 0xA0) && (s[0] == 0xED ==> s[1] <= 0x9F)
    ensures CharLength(s) == 4 ==>
              0xF0 <= s[0] <= 0xF4 && (s[0] == 0xF0 ==> s[1] >= 0x90) && (s[0] == 0xF4 ==> s[1] <= 0x8F)
  {
  }

  lemma TwoBytes(a: nat, b: nat)
    requires 2 <= a < 32 && b < 64
    ensures var c := a * 64 + b; IsScalar(c) && Encode(c) == [0xC0 + a, 0x80 + b]
  {
  }

  lemma ThreeBytes(a: nat, b: nat, d: nat)
    requires a < 16 && b < 64 && d < 64 && (a == 0 ==> b >= 32) && (a == 13 ==> b < 32)
    ensures var c := (a * 64 + b) * 64 + d; IsScalar(c) && Encode(c) == [0xE0 + a, 0x80 + b, 0x80 + d]
  {
    var c := (a * 64 + b) * 64 + d;
    assert c / 64 == a * 64 + b && c / 4096 == a && c % 64 == d && c / 64 % 64 == b;
  }

  lemma FourBytes(a: nat, b: nat, d: nat, e: nat)
    requires a <= 4 && b < 64 && d < 64 && e < 64 && (a == 0 ==> b >= 16) && (a == 4 ==> b < 16)
    ensures var c := ((a * 64 + b) * 64 + d) * 64 + e;
            IsScalar(c) && Encode(c) == [0xF0 + a, 0x80 + b, 0x80 + d, 0x80 + e]
  {
    var c := ((a * 64 + b) * 64 + d) * 64 + e;
    assert c / 64 == (a * 64 + b) * 64 + d && c % 64 == e;
    assert c / 4096 == a * 64 + b && c / 262144 == a && c / 64 % 64 == d && c / 4096 % 64 == b;
  }

  function Decoded(s: seq<Byte>): seq<int>
    requires IsUtf8(s)
  {
    if s == [] then [] else [FirstCharacter(s)] + Decoded(s[CharLength(s)..])
  }

  lemma DecodedCons(s: seq<Byte>)
    requires IsUtf8(s) && s != []
    ensures var n := CharLength(s);
            0 < n <= |s| && IsUtf8(s[n..]) && Decoded(s) == [FirstCharacter(s)] + Decoded(s[n..])
  {
  }

  /** Text is valid if and only if it encodes some characters. */
  lemma {:induction false} Utf8Decodes(s: seq<Byte>)
    requires IsUtf8(s)
    ensures AllScalar(Decoded(s)) && EncodeAll(Decoded(s)) == s
    decreases |s|, 1
  {
    if s == [] {
      assert Decoded(s) == [];
    } else {
      DecodedStep(s);
    }
  }

  lemma {:induction false} DecodedStep(s: seq<Byte>)
    requires IsUtf8(s) && s != []
    ensures AllScalar(Decoded(s)) && EncodeAll(Decoded(s)) == s
    decreases |s|, 0
  {
    hide *;
    var n := CharLength(s);
    DecodedCons(s);
    FirstCharacterEncodes(s);
    Utf8Decodes(s[n..]);
    EncodeCons(FirstCharacter(s), Decoded(s[n..]));
    assert s[..n] + s[n..] == s;
  }

  lemma EncodeCons(c: int, rest: seq<int>)
    requires IsScalar(c) && AllScalar(rest)
    ensures AllScalar([c] + rest)
    ensures EncodeAll([c] + rest) == Encode(c) + EncodeAll(rest)
  {
    hide Encode, IsScalar;
    assert ([c] + rest)[1..] == rest;
  }

  // ---- cutting -------------------------------------------------------------------------

  /** Where the loop stops: the last position up to `n` that holds a first byte, or 0. */
  function CutPoint(s: seq<Byte>, n: nat): (c: nat)
    requires n < |s|
    ensures c <= n
    ensures c > 0 ==> IsFirstByte(s[c])
    ensures forall k :: c < k <= n ==> !IsFirstByte(s[k])
  {
    if IsFirstByte(s[n]) || n == 0 then n else CutPoint(s, n - 1)
  }

  function Truncated(s: seq<Byte>): seq<Byte> {
    if |s| > LIMIT then s[..CutPoint(s, LIMIT)] else s
  }

  method TruncateStatus(s: seq<Byte>) returns (r: seq<Byte>)
    ensures r == Truncated(s)
    ensures r <= s && |r| <= 300 && (|s| <= 300 ==> r == s)
  {
    r := s;
    if |s| > LIMIT {
      var len := LIMIT;
      while !IsFirstByte(s[len]) && len > 0
        invariant 0 <= len <= LIMIT
        invariant CutPoint(s, len) == CutPoint(s, LIMIT)
      {
        len := len - 1;
      }
      r := s[..len];
    }
  }

  /** A first byte of a character is a first byte to the test; a tail byte is not. */
  lemma FirstByteOrTail(s: seq<Byte>)
    requires CharLength(s) > 0
    ensures IsFirstByte(s[0]) && forall k :: 1 <= k < CharLength(s) ==> !IsFirstByte(s[k])
  {
  }

  lemma CharLengthPrefix(s: seq<Byte>, i: nat)
    requires CharLength(s) > 0 && CharLength(s) <= i <= |s|
    ensures CharLength(s[..i]) == CharLength(s)
  {
  }

  /** In valid text the test accepts only starts of characters: there the text can be cut
      into valid pieces. */
  lemma {:induction false} FirstBytesAreBoundaries(s: seq<Byte>, i: nat)
    requires IsUtf8(s) && i < |s| && IsFirstByte(s[i])
    ensures IsUtf8(s[..i])
    decreases |s|
  {
    var n := CharLength(s);
    FirstByteOrTail(s);
    if i < n {
      assert s[..i] == [];
    } else {
      FirstBytesAreBoundaries(s[n..], i - n);
      CharLengthPrefix(s, i);
      assert s[..i][n..] == s[n..][..i - n];
    }
  }

  /** A first byte is never more than three bytes back. */
  lemma {:induction false} FirstByteIsNear(s: seq<Byte>, i: nat) returns (j: nat)
    requires IsUtf8(s) && i < |s|
    ensures i - 3 <= j <= i && IsFirstByte(s[j])
    decreases |s|
  {
    var n := CharLength(s);
    FirstByteOrTail(s);
    if i < n {
      j := 0;
    } else {
      var k := FirstByteIsNear(s[n..], i - n);
      j := k + n;
    }
  }

  /** Conversely a cut that leaves valid text is at a first byte. */
  lemma {:induction false} BoundariesAreFirstBytes(s: seq<Byte>, i: nat)
    requires IsUtf8(s) && i < |s| && IsUtf8(s[..i])
    ensures IsFirstByte(s[i])
    decreases |s|
  {
    FirstByteOrTail(s);
    var n := CharLength(s);
    if 0 < i {
      var m := CharLength(s[..i]);
      assert s[..i][0] == s[0];
      SameCharacter(s, i);
      assert s[..i][n..] == s[n..][..i - n];
      BoundariesAreFirstBytes(s[n..], i - n);
    }
  }

  lemma SameCharacter(s: seq<Byte>, i: nat)
    requires CharLength(s) > 0 && 0 < i <= |s| && CharLength(s[..i]) > 0
    ensures CharLength(s[..i]) == CharLength(s) <= i
  {
    assert forall k :: 0 <= k < i ==> s[..i][k] == s[k];
  }

  /** A valid status is cut to its longest valid prefix of at most 300 bytes: itself if it is
      no longer, and otherwise one of at least 297 bytes. */
  lemma TruncationIsSafe(s: seq<Byte>)
    requires IsUtf8(s)
    ensures var t := Truncated(s);
            && t <= s && IsUtf8(t) && |t| <= 300
            && (forall k :: |t| < k <= |s| && k <= 300 ==> !IsUtf8(s[..k]))
            && (if |s| <= 300 then t == s else |t| >= 297)
  {
    if |s| > LIMIT {
      var c := CutPoint(s, LIMIT);
      var j := FirstByteIsNear(s, LIMIT);
      FirstBytesAreBoundaries(s, c);
      forall k | c < k <= LIMIT ensures !IsUtf8(s[..k]) {
        if IsUtf8(s[..k]) {
          BoundariesAreFirstBytes(s, k);
        }
      }
    }
  }
}
