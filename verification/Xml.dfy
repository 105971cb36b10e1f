/** Values shared by the XML modules: qualified names, attributes and element trees. */
module Xml {

  datatype Option<+T> = None | Some(value: T)

  /** A qualified name; the empty name is what a failed resolution returns. */
  datatype QName = QName(ns: string, local: string) {
    predicate IsEmpty() { ns == "" && local == "" }
  }

  datatype Attr = Attr(name: QName, value: string)

  /** One child of an element: character data or a nested element. */
  datatype Node =
    | Text(text: string)
    | Element(name: QName, attrs: seq<Attr>, children: seq<Node>)

  /** An attribute as it is spelled in a start tag, its value already unescaped. */
  datatype RawAtt = RawAtt(name: string, value: string)

  /** A callback of the underlying XML tokenizer. */
  datatype Token =
    | Start(tag: string, atts: seq<RawAtt>)
    | Chars(chunk: string)
    | End(tag: string)

  const NS_XML := "http://www.w3.org/XML/1998/namespace"
  const NS_XMLNS := "http://www.w3.org/2000/xmlns/"

  /** The name of a default-namespace declaration. */
  const QN_XMLNS := QName("", "xmlns")

  /** Index of the first `c` in `s`, or `|s|` when there is none. */
  function Find(s: string, c: char): (i: nat)
    ensures i <= |s|
    ensures c !in s[..i]
    ensures i < |s| ==> s[i] == c
  {
    if s == "" || s[0] == c then 0 else
      var i := 1 + Find(s[1..], c);
      assert s[..i] == [s[0]] + s[1..][..i - 1];
      i
  }

  /** `Find` is determined by what it promises. */
  lemma FindIs(s: string, c: char, i: nat)
    requires i <= |s| && c !in s[..i] && (i < |s| ==> s[i] == c)
    ensures Find(s, c) == i
  {
    var f := Find(s, c);
    assert forall k :: 0 <= k < i ==> s[k] == s[..i][k];
    assert forall k :: 0 <= k < f ==> s[k] == s[..f][k];
  }

  predicate IsLetter(c: char) { 'a' <= c <= 'z' || 'A' <= c <= 'Z' }

  predicate IsLower(c: char) { 'a' <= c <= 'z' }

  /** `tolower` in the C locale. */
  function LowerChar(c: char): (r: char)
    ensures IsLetter(c) ==> IsLower(r)
    ensures r as int == if 65 <= c as int <= 90 then c as int + 32 else c as int
  {
    if 'A' <= c <= 'Z' then c - 'A' + 'a' else c
  }

  function Lower(s: string): (r: string)
    ensures |r| == |s|
    ensures forall i :: 0 <= i < |s| ==> r[i] == LowerChar(s[i])
  {
    seq(|s|, i requires 0 <= i < |s| => LowerChar(s[i]))
  }

  lemma ConcatAssoc<T>(a: seq<T>, b: seq<T>, c: seq<T>)
    ensures (a + b) + c == a + (b + c)
  {
  }

  ghost predicate DistinctNames(attrs: seq<Attr>) {
    forall i, j :: 0 <= i < j < |attrs| ==> attrs[i].name != attrs[j].name
  }
}
