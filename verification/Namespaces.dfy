/** The namespace stack as a value: what a prefix means, and which prefix a namespace has.

    A stack is the list of its `xmlns` declarations, oldest first. The source keeps each
    declaration as two adjacent strings of one vector; here the two form a `Binding`. */
module Namespaces {
  import opened Xml

  datatype Binding = Binding(prefix: string, ns: string)

  type Bindings = seq<Binding>

  // ---- prefix to namespace -------------------------------------------------------------

  /** Prefixes that begin with "xml" in any letter case are reserved. */
  predicate IsReserved(p: string) {
    && |p| >= 3
    && (p[0] == 'x' || p[0] == 'X')
    && (p[1] == 'm' || p[1] == 'M')
    && (p[2] == 'l' || p[2] == 'L')
  }

  /** The youngest declaration of `p`. */
  function Lookup(b: Bindings, p: string): Option<string> {
    if b == [] then None
    else if b[|b| - 1].prefix == p then Some(b[|b| - 1].ns)
    else Lookup(b[..|b| - 1], p)
  }

  function NsFor(b: Bindings, p: string): Option<string> {
    if IsReserved(p) then
      if p == "xml" then Some(NS_XML) else if p == "xmlns" then Some(NS_XMLNS) else None
    else if Lookup(b, p).Some? then Lookup(b, p)
    else if p == "" then Some("")
    else None
  }

  // ---- namespace to prefix -------------------------------------------------------------

  /** The youngest of the first `n` declarations that declares `ns` and is not shadowed. */
  function ScanPrefix(b: Bindings, n: nat, ns: string, isAttr: bool): Option<string>
    requires n <= |b|
  {
    if n == 0 then None
    else if b[n - 1].ns == ns && (!isAttr || b[n - 1].prefix != "") && NsFor(b, b[n - 1].prefix) == Some(ns)
    then Some(b[n - 1].prefix)
    else ScanPrefix(b, n - 1, ns, isAttr)
  }

  function PrefixFor(b: Bindings, ns: string, isAttr: bool): Option<string> {
    if ns == NS_XML then Some("xml")
    else if ns == NS_XMLNS then Some("xmlns")
    else if (if isAttr then ns == "" else NsFor(b, "") == Some(ns)) then Some("")
    else ScanPrefix(b, |b|, ns, isAttr)
  }

  /** What a prefix stands for in the position of an element or of an attribute name: an
      unprefixed attribute is in no namespace (section 6.2 of Namespaces in XML 1.0). */
  function Meaning(b: Bindings, p: string, isAttr: bool): Option<string> {
    if isAttr && p == "" then Some("") else NsFor(b, p)
  }

  lemma {:induction false} LookupMember(b: Bindings, p: string)
    ensures Lookup(b, p).Some? <==> exists i :: 0 <= i < |b| && b[i].prefix == p
    ensures Lookup(b, p).Some? ==> Binding(p, Lookup(b, p).value) in b
  {
    if b != [] && b[|b| - 1].prefix != p {
      LookupMember(b[..|b| - 1], p);
      if i :| 0 <= i < |b| && b[i].prefix == p {
        assert b[..|b| - 1][i].prefix == p;
      }
    }
  }

  lemma {:induction false} ScanSound(b: Bindings, n: nat, ns: string, isAttr: bool)
    requires n <= |b|
    ensures var r := ScanPrefix(b, n, ns, isAttr);
            r.Some? ==> NsFor(b, r.value) == Some(ns) && (isAttr ==> r.value != "")
                        && exists i :: 0 <= i < n && b[i].prefix == r.value
    ensures ScanPrefix(b, n, ns, isAttr).None? ==>
              forall i :: 0 <= i < n && b[i].ns == ns && (isAttr ==> b[i].prefix != "") ==>
                NsFor(b, b[i].prefix) != Some(ns)
  {
    if n != 0 {
      ScanSound(b, n - 1, ns, isAttr);
    }
  }

  /** Searching for a prefix undoes resolving one, under any shadowing: an answer means what
      was asked for, and there is no answer only when nothing in scope means it. */
  lemma PrefixForInverse(b: Bindings, ns: string, isAttr: bool)
    ensures var r := PrefixFor(b, ns, isAttr); r.Some? ==> Meaning(b, r.value, isAttr) == Some(ns)
    ensures PrefixFor(b, ns, isAttr).None? ==> forall p :: Meaning(b, p, isAttr) != Some(ns)
  {
    ScanSound(b, |b|, ns, isAttr);
    if PrefixFor(b, ns, isAttr).None? {
      forall p ensures Meaning(b, p, isAttr) != Some(ns) {
        LookupMember(b, p);
        if Lookup(b, p) == Some(ns) {
          var i :| 0 <= i < |b| && b[i] == Binding(p, ns);
        }
      }
    }
  }

  /** What a prefix means: the three letters "xml" in any case are reserved, otherwise the
      youngest declaration counts, and the empty prefix means the empty namespace if nothing
      else is declared. */
  lemma NsForSpec(b: Bindings, p: string)
    ensures |p| >= 3 && Lower(p[..3]) == "xml" ==>
              NsFor(b, p) == if p == "xml" then Some("http://www.w3.org/XML/1998/namespace")
                             else if p == "xmlns" then Some("http://www.w3.org/2000/xmlns/") else None
    ensures !(|p| >= 3 && Lower(p[..3]) == "xml") ==>
              && (forall i :: 0 <= i < |b| && b[i].prefix == p && (forall j :: i < j < |b| ==> b[j].prefix != p) ==>
                   NsFor(b, p) == Some(b[i].ns))
              && ((forall i :: 0 <= i < |b| ==> b[i].prefix != p) ==> NsFor(b, p) == if p == "" then Some("") else None)
  {
    ReservedIs(p);
    LookupMember(b, p);
    forall i | 0 <= i < |b| && b[i].prefix == p && (forall j :: i < j < |b| ==> b[j].prefix != p)
      ensures Lookup(b, p) == Some(b[i].ns)
    {
      LookupYoungest(b, p, i);
    }
  }

  lemma ReservedIs(p: string)
    ensures IsReserved(p) <==> |p| >= 3 && Lower(p[..3]) == "xml"
  {
    if |p| >= 3 {
      var q := Lower(p[..3]);
      assert q[0] == LowerChar(p[0]) && q[1] == LowerChar(p[1]) && q[2] == LowerChar(p[2]);
      assert q == "xml" <==> q[0] == 'x' && q[1] == 'm' && q[2] == 'l';
    }
  }

  lemma {:induction false} LookupYoungest(b: Bindings, p: string, i: nat)
    requires i < |b| && b[i].prefix == p && forall j :: i < j < |b| ==> b[j].prefix != p
    ensures Lookup(b, p) == Some(b[i].ns)
    decreases b
  {
    if i < |b| - 1 {
      LookupYoungest(b[..|b| - 1], p, i);
    }
  }

  /** A declaration whose prefix can be written for `ns`. */
  ghost predicate Usable(b: Bindings, i: nat, ns: string, isAttr: bool)
    requires i < |b|
  {
    b[i].ns == ns && (isAttr ==> b[i].prefix != "") && NsFor(b, b[i].prefix) == Some(ns)
  }

  /** Which prefix is found: a built-in one, none at all where none is needed, or the youngest
      that can be written. */
  lemma PrefixForSpec(b: Bindings, ns: string, isAttr: bool)
    ensures ns == "http://www.w3.org/XML/1998/namespace" ==> PrefixFor(b, ns, isAttr) == Some("xml")
    ensures ns == "http://www.w3.org/2000/xmlns/" ==> PrefixFor(b, ns, isAttr) == Some("xmlns")
    ensures ns != NS_XML && ns != NS_XMLNS && (if isAttr then ns == "" else NsFor(b, "") == Some(ns)) ==>
              PrefixFor(b, ns, isAttr) == Some("")
    ensures ns != NS_XML && ns != NS_XMLNS && !(if isAttr then ns == "" else NsFor(b, "") == Some(ns)) ==>
              && (forall i :: 0 <= i < |b| && Usable(b, i, ns, isAttr)
                              && (forall j :: i < j < |b| ==> !Usable(b, j, ns, isAttr)) ==>
                   PrefixFor(b, ns, isAttr) == Some(b[i].prefix))
              && ((forall i :: 0 <= i < |b| ==> !Usable(b, i, ns, isAttr)) ==> PrefixFor(b, ns, isAttr) == None)
  {
    hide NsFor;
    assert |NS_XML| != |NS_XMLNS|;
    forall i | 0 <= i < |b| && Usable(b, i, ns, isAttr) && (forall j :: i < j < |b| ==> !Usable(b, j, ns, isAttr))
      ensures ScanPrefix(b, |b|, ns, isAttr) == Some(b[i].prefix)
    {
      ScanYoungest(b, |b|, ns, isAttr, i);
    }
    if forall i :: 0 <= i < |b| ==> !Usable(b, i, ns, isAttr) {
      ScanNothing(b, |b|, ns, isAttr);
    }
  }

  lemma {:induction false} ScanYoungest(b: Bindings, n: nat, ns: string, isAttr: bool, i: nat)
    requires i < n <= |b| && Usable(b, i, ns, isAttr) && forall j :: i < j < n ==> !Usable(b, j, ns, isAttr)
    ensures ScanPrefix(b, n, ns, isAttr) == Some(b[i].prefix)
  {
    hide NsFor;
    assert n > i + 1 ==> !Usable(b, n - 1, ns, isAttr);
    if i < n - 1 {
      ScanYoungest(b, n - 1, ns, isAttr, i);
    }
  }

  lemma {:induction false} ScanNothing(b: Bindings, n: nat, ns: string, isAttr: bool)
    requires n <= |b| && forall j :: 0 <= j < n ==> !Usable(b, j, ns, isAttr)
    ensures ScanPrefix(b, n, ns, isAttr) == None
  {
    hide NsFor;
    if n > 0 {
      assert !Usable(b, n - 1, ns, isAttr);
      ScanNothing(b, n - 1, ns, isAttr);
    }
  }

  // ---- qualified names -----------------------------------------------------------------

  function Format(b: Bindings, q: QName, isAttr: bool): string {
    match PrefixFor(b, q.ns, isAttr)
    case Some(p) => if p == "" then q.local else p + ":" + q.local
    case None => q.local
  }

  function Resolve(b: Bindings, s: string, isAttr: bool): QName {
    var i := Find(s, ':');
    if i < |s| then
      match NsFor(b, s[..i])
      case Some(ns) => QName(ns, s[i + 1..])
      case None => QName("", "")
    else if isAttr then QName("", s)
    else
      match NsFor(b, "")
      case Some(ns) => QName(ns, s)
      case None => QName("", "")
  }

  ghost predicate ColonFree(b: Bindings) {
    forall i :: 0 <= i < |b| ==> ':' !in b[i].prefix
  }

  /** The name's namespace has a prefix, and the first colon of the printed name is the one
      that ends the prefix. */
  predicate Readable(b: Bindings, q: QName, isAttr: bool) {
    match PrefixFor(b, q.ns, isAttr)
    case Some(p) => ':' !in (if p == "" then q.local else p)
    case None => false
  }

  /** A printed name is read back as the name it was printed from if and only if its namespace
      has a prefix and no colon is in the way; the empty name is what an unreadable one is
      read as. */
  lemma ResolveFormat(b: Bindings, q: QName, isAttr: bool)
    requires !q.IsEmpty()
    ensures Resolve(b, Format(b, q, isAttr), isAttr) == q <==> Readable(b, q, isAttr)
  {
    hide ScanPrefix, Lookup, Find;
    PrefixForInverse(b, q.ns, isAttr);
    var s, i := Format(b, q, isAttr), Find(Format(b, q, isAttr), ':');
    match PrefixFor(b, q.ns, isAttr) {
      case Some(p) =>
        if p == "" {
          NoColon(s);
        } else {
          FirstColon(p, q.local);
        }
      case None =>
        NoColon(s);
    }
  }

  lemma NoColon(s: string)
    ensures Find(s, ':') == |s| <==> ':' !in s
  {
    hide Find;
    assert s[..|s|] == s;
    if ':' !in s {
      FindIs(s, ':', |s|);
    }
  }

  lemma FirstColon(p: string, local: string)
    ensures var s, i := p + ":" + local, Find(p + ":" + local, ':');
            && (':' !in p ==> i == |p| && s[..i] == p && s[i + 1..] == local)
            && (':' in p ==> i < |p|)
  {
    hide Find;
    var s := p + ":" + local;
    assert s[..|p|] == p && s[|p|] == ':';
    if ':' !in p {
      FindIs(s, ':', |p|);
      assert s[|p| + 1..] == local;
    } else {
      var k :| 0 <= k < |p| && p[k] == ':';
      assert s[k] == ':' && (forall i :: k < i <= |s| ==> s[..i][k] == ':');
    }
  }

  lemma PrefixColonFree(b: Bindings, ns: string, isAttr: bool)
    requires ColonFree(b)
    ensures var r := PrefixFor(b, ns, isAttr); r.Some? ==> ':' !in r.value
  {
    ScanSound(b, |b|, ns, isAttr);
  }

  // ---- prefix suggestion ---------------------------------------------------------------

  /** Position of the last '.', or `|s|` when there is none. */
  function LastDot(s: string, n: nat): (i: nat)
    requires n <= |s|
    ensures i <= |s|
    ensures i < |s| ==> i < n && s[i] == '.' && '.' !in s[i + 1..n]
    ensures i == |s| ==> '.' !in s[..n]
  {
    if n == 0 then |s| else if s[n - 1] == '.' then n - 1 else LastDot(s, n - 1)
  }

  /** Length of `ns` without a short file extension. */
  function StemLength(ns: string): (n: nat)
    ensures n <= |ns|
  {
    var i := LastDot(ns, |ns|);
    if i < |ns| && |ns| - i <= 5 then i else |ns|
  }

  /** End of the last run of letters within the first `n` characters; 0 if none. */
  function RunEnd(s: string, n: nat): (e: nat)
    requires n <= |s|
    ensures e <= n && (e > 0 ==> IsLetter(s[e - 1]))
    ensures forall i :: e <= i < n ==> !IsLetter(s[i])
  {
    if n == 0 || IsLetter(s[n - 1]) then n else RunEnd(s, n - 1)
  }

  /** Start of the run of letters that ends at `e`. */
  function RunStart(s: string, e: nat): (f: nat)
    requires e <= |s|
    ensures f <= e && (f > 0 ==> !IsLetter(s[f - 1]))
    ensures forall i :: f <= i < e ==> IsLetter(s[i])
  {
    if e == 0 || !IsLetter(s[e - 1]) then e else RunStart(s, e - 1)
  }

  /** A short lower-case word taken from the end of the namespace name. */
  function SuggestPrefix(ns: string): (r: string)
    ensures IsBase(r)
  {
    var e := RunEnd(ns, StemLength(ns));
    if e == 0 then "ns" else SuggestFrom(ns, RunStart(ns, e), e)
  }

  /** The suggestion made from the run of letters between `f` and `e`. */
  function SuggestFrom(ns: string, f: nat, e: nat): (r: string)
    requires f < e <= |ns| && forall i :: f <= i < e ==> IsLetter(ns[i])
    ensures IsBase(r)
  {
    var l := if e - f > 4 then f + 3 else e;
    var word := Lower(ns[f..l]);
    assert forall i :: 0 <= i < |word| ==> word[i] == LowerChar(ns[f + i]);
    if "xml" <= word then "ns" else word
  }

  /** What makes a word safe to number: lower-case letters, not beginning with "xml". */
  predicate IsBase(s: string) {
    s != "" && (forall i :: 0 <= i < |s| ==> IsLower(s[i])) && !("xml" <= s)
  }

  /** The first `n` characters are left when a last dot and at most four characters after it
      are cut off. */
  ghost predicate IsStem(ns: string, n: nat) {
    && n <= |ns|
    && (forall i :: n < i < |ns| ==> ns[i] != '.')
    && (n < |ns| ==> ns[n] == '.' && |ns| - n <= 5)
    && (n == |ns| ==> forall i :: 0 <= i < |ns| && |ns| - i <= 5 ==> ns[i] != '.')
  }

  /** The last word within the first `n` characters is between `f` and `e`. */
  ghost predicate IsLastWord(s: string, n: nat, f: nat, e: nat) {
    && f < e <= n <= |s|
    && (forall i :: f <= i < e ==> IsLetter(s[i]))
    && (forall i :: e <= i < n ==> !IsLetter(s[i]))
    && (f > 0 ==> !IsLetter(s[f - 1]))
  }

  lemma StemIs(ns: string, n: nat)
    requires IsStem(ns, n)
    ensures StemLength(ns) == n
  {
    var i := LastDot(ns, |ns|);
    if i < |ns| {
      assert forall k :: i < k < |ns| ==> ns[k] == ns[i + 1..|ns|][k - i - 1];
    } else {
      assert forall k :: 0 <= k < |ns| ==> ns[k] == ns[..|ns|][k];
    }
  }

  /** Without a letter in its stem a namespace is given the word "ns". */
  lemma SuggestNothing(ns: string, n: nat)
    requires IsStem(ns, n) && forall i :: 0 <= i < n ==> !IsLetter(ns[i])
    ensures SuggestPrefix(ns) == "ns"
  {
    StemIs(ns, n);
  }

  /** Otherwise it is given the last word of its stem in lower case, cut to three letters if
      it has more than four, or "ns" if that begins with "xml". */
  lemma SuggestLastWord(ns: string, n: nat, f: nat, e: nat)
    requires IsStem(ns, n) && IsLastWord(ns, n, f, e)
    ensures var word := Lower(if e - f > 4 then ns[f..f + 3] else ns[f..e]);
            SuggestPrefix(ns) == if "xml" <= word then "ns" else word
  {
    hide RunEnd, RunStart, StemLength, Lower, IsStem;
    StemIs(ns, n);
    RunIs(ns, n, f, e);
  }

  lemma RunIs(s: string, n: nat, f: nat, e: nat)
    requires IsLastWord(s, n, f, e)
    ensures RunEnd(s, n) == e && RunStart(s, e) == f
  {
    hide RunEnd, RunStart;
    assert IsLetter(s[e - 1]);
    var r, g := RunEnd(s, n), RunStart(s, e);
    assert r > 0 ==> IsLetter(s[r - 1]);
    assert g > 0 ==> !IsLetter(s[g - 1]);
  }

  /** Every namespace falls under one of the two rules. */
  lemma SuggestionRule(ns: string) returns (n: nat, f: nat, e: nat)
    ensures IsStem(ns, n)
    ensures e == 0 ==> forall i :: 0 <= i < n ==> !IsLetter(ns[i])
    ensures e > 0 ==> IsLastWord(ns, n, f, e)
  {
    n := StemLength(ns);
    e := RunEnd(ns, n);
    f := RunStart(ns, e);
    var i := LastDot(ns, |ns|);
    if i < |ns| {
      assert forall k :: i < k < |ns| ==> ns[k] == ns[i + 1..|ns|][k - i - 1];
    } else {
      assert forall k :: 0 <= k < |ns| ==> ns[k] == ns[..|ns|][k];
    }
  }

  /** The words that the library's own examples expect. */
  lemma SuggestedWords()
    ensures SuggestPrefix("http://a.b.com/foo.htm") == "foo" && SuggestPrefix("http://a.b.com/bare") == "bare"
    ensures SuggestPrefix("z") == "z" && SuggestPrefix("http://my/default") == "def"
    ensures SuggestPrefix("http://a.b.com/xmltest") == "ns" && SuggestPrefix("xmlagain") == "ns"
  {
    hide SuggestPrefix, Lower, IsLetter;
    assert "default"[..3] == "def" && "xmlagain"[..3] == "xml";
    LowerWords();
    WordsAreLetters();
    SuggestedFiles();
    SuggestWord("", "z", "");
    assert "" + "z" + "" == "z";
    SuggestWord("http://my/", "default", "");
    assert "http://my/" + "default" + "" == "http://my/default";
    SuggestWord("", "xmlagain", "");
    assert "" + "xmlagain" + "" == "xmlagain";
  }

  lemma SuggestedFiles()
    ensures SuggestPrefix("http://a.b.com/foo.htm") == "foo" && SuggestPrefix("http://a.b.com/bare") == "bare"
    ensures SuggestPrefix("http://a.b.com/xmltest") == "ns"
  {
    hide SuggestPrefix, Lower, IsLetter;
    var start := "http://a.b.com/";
    assert "xmltest"[..3] == "xml";
    LowerWords();
    WordsAreLetters();
    SuggestWord(start, "foo", ".htm");
    SuggestWord(start, "bare", "");
    SuggestWord(start, "xmltest", "");
    assert start + "foo" + ".htm" == "http://a.b.com/foo.htm";
    assert start + "bare" + "" == "http://a.b.com/bare" && start + "xmltest" + "" == "http://a.b.com/xmltest";
  }

  predicate IsWord(s: string) { s != "" && forall i :: 0 <= i < |s| ==> IsLetter(s[i]) }

  lemma WordsAreLetters()
    ensures IsWord("foo") && IsWord("bare") && IsWord("z")
    ensures IsWord("default") && IsWord("xmltest") && IsWord("xmlagain")
    ensures !IsLetter('/')
  {
  }

  lemma LowerWords()
    ensures Lower("foo") == "foo" && Lower("bare") == "bare" && Lower("z") == "z"
    ensures Lower("def") == "def" && Lower("xml") == "xml"
  {
  }

  /** A name that ends in a word, or in a word and a short extension. */
  lemma SuggestWord(before: string, word: string, extension: string)
    requires IsWord(word)
    requires before == "" || !IsLetter(before[|before| - 1])
    requires extension == "" ==> forall i :: 0 <= i < |before| && |before| + |word| - i <= 5 ==> before[i] != '.'
    requires extension != "" ==> extension[0] == '.' && |extension| <= 5 && '.' !in extension[1..]
    ensures var w := Lower(if |word| > 4 then word[..3] else word);
            SuggestPrefix(before + word + extension) == if "xml" <= w then "ns" else w
  {
    hide SuggestPrefix;
    var ns, f, e := before + word + extension, |before|, |before| + |word|;
    assert forall i :: 0 <= i < f ==> ns[i] == before[i];
    assert forall i :: f <= i < e ==> ns[i] == word[i - f];
    assert forall i :: e < i < |ns| ==> ns[i] == extension[1..][i - e - 1];
    assert ns[f..e] == word && (|word| > 4 ==> ns[f..f + 3] == word[..3]);
    SuggestLastWord(ns, e, f, e);
  }

  // ---- numbered candidates -------------------------------------------------------------

  function Digit(d: nat): char
    requires d < 10
  {
    '0' + d as char
  }

  function Decimal(n: nat): (s: string)
    ensures s != "" && forall i :: 0 <= i < |s| ==> '0' <= s[i] <= '9'
  {
    if n < 10 then [Digit(n)] else Decimal(n / 10) + [Digit(n % 10)]
  }

  lemma {:induction false} DecimalInjective(m: nat, n: nat)
    requires Decimal(m) == Decimal(n)
    ensures m == n
  {
    var s := Decimal(m);
    assert s[|s| - 1] == Digit(m % 10) == Digit(n % 10);
    assert |s| > 1 <==> m >= 10;
    if |s| > 1 {
      assert Decimal(m / 10) == s[..|s| - 1] == Decimal(n / 10);
      DecimalInjective(m / 10, n / 10);
    }
  }

  /** The number that decimal digits stand for, most significant first. */
  function Number(s: string): nat
    requires forall i :: 0 <= i < |s| ==> '0' <= s[i] <= '9'
  {
    if s == "" then 0 else 10 * Number(s[..|s| - 1]) + (s[|s| - 1] as int - 48)
  }

  /** Numbers are written in decimal, without leading zeros. */
  lemma {:induction false} DecimalReads(n: nat)
    ensures Number(Decimal(n)) == n && (n > 0 ==> Decimal(n)[0] != '0')
  {
    var s := Decimal(n);
    assert Digit(n % 10) as int == 48 + n % 10;
    if n < 10 {
      assert s[..0] == "";
    } else {
      DecimalReads(n / 10);
      assert s[..|s| - 1] == Decimal(n / 10);
    }
  }

  /** The tries of the prefix search, in order: the base itself, then base2, base3, ... */
  function Candidate(base: string, i: nat): string {
    if i < 2 then base else base + Decimal(i)
  }

  lemma CandidateInjective(base: string, i: nat, j: nat)
    requires 1 <= i && 1 <= j && Candidate(base, i) == Candidate(base, j)
    ensures i == j
  {
    var c := Candidate(base, i);
    if i >= 2 && j >= 2 {
      assert Decimal(i) == c[|base|..] == Decimal(j);
      DecimalInjective(i, j);
    } else {
      assert i >= 2 ==> |c| > |base|;
      assert j >= 2 ==> |c| > |base|;
    }
  }

  /** No candidate is empty, reserved or contains a colon. */
  lemma CandidateUsable(base: string, i: nat)
    requires IsBase(base)
    ensures var c := Candidate(base, i); c != "" && !IsReserved(c) && ':' !in c
  {
    var c := Candidate(base, i);
    assert forall k :: 0 <= k < |c| ==> if k < |base| then IsLower(c[k]) else '0' <= c[k] <= '9';
    assert |base| >= 3 ==> base[..3] != "xml" && c[..3] == base[..3];
  }

  // ---- inventing a prefix --------------------------------------------------------------

  function Prefixes(b: Bindings): set<string> {
    set i | 0 <= i < |b| :: b[i].prefix
  }

  /** Declared prefixes the search may still run into from the i-th try on. */
  ghost function Obstacles(b: Bindings, base: string, i: nat): set<string> {
    set p | p in Prefixes(b) && exists j :: i <= j && p == Candidate(base, j)
  }

  lemma ObstaclesShrink(b: Bindings, base: string, i: nat)
    requires 1 <= i && IsBase(base) && NsFor(b, Candidate(base, i)).Some?
    ensures Obstacles(b, base, i + 1) < Obstacles(b, base, i)
  {
    var c := Candidate(base, i);
    CandidateUsable(base, i);
    LookupMember(b, c);
    assert c in Obstacles(b, base, i);
    if c in Obstacles(b, base, i + 1) {
      var j :| i + 1 <= j && c == Candidate(base, j);
      CandidateInjective(base, i, j);
    }
  }

  /** The first try, from the i-th on, that is not in scope. */
  function FirstFree(b: Bindings, base: string, i: nat): (r: nat)
    requires 1 <= i && IsBase(base)
    ensures i <= r && NsFor(b, Candidate(base, r)).None?
    ensures forall j :: i <= j < r ==> NsFor(b, Candidate(base, j)).Some?
    decreases Obstacles(b, base, i)
  {
    if NsFor(b, Candidate(base, i)).None? then i
    else
      ObstaclesShrink(b, base, i);
      FirstFree(b, base, i + 1)
  }

  /** The tries up to the free one are distinct declared prefixes, so their number is bounded
      by the number of declarations. */
  lemma {:induction false} BoundTriesAreDeclared(b: Bindings, base: string, r: nat)
    requires 1 <= r && IsBase(base)
    requires forall j :: 1 <= j < r ==> NsFor(b, Candidate(base, j)).Some?
    ensures var tried := set j | 1 <= j < r :: Candidate(base, j);
            tried <= Prefixes(b) && |tried| == r - 1
  {
    var tried := set j | 1 <= j < r :: Candidate(base, j);
    if r == 1 {
      assert tried == {};
    } else {
      BoundTriesAreDeclared(b, base, r - 1);
      var before := set j | 1 <= j < r - 1 :: Candidate(base, j);
      var c := Candidate(base, r - 1);
      assert tried == before + {c};
      if c in before {
        var j :| 1 <= j < r - 1 && c == Candidate(base, j);
        CandidateInjective(base, j, r - 1);
      }
      CandidateUsable(base, r - 1);
      LookupMember(b, c);
    }
  }

  lemma {:induction false} PrefixesBounded(b: Bindings)
    ensures |Prefixes(b)| <= |b|
  {
    if b == [] {
      assert Prefixes(b) == {};
    } else {
      var init := b[..|b| - 1];
      PrefixesBounded(init);
      forall p | p in Prefixes(b) ensures p in Prefixes(init) + {b[|b| - 1].prefix} {
        var i :| 0 <= i < |b| && b[i].prefix == p;
        if i < |b| - 1 { assert init[i].prefix == p; }
      }
      assert Prefixes(b) <= Prefixes(init) + {b[|b| - 1].prefix};
      SubsetSize(Prefixes(b), Prefixes(init) + {b[|b| - 1].prefix});
    }
  }

  lemma {:induction false} SubsetSize<T>(a: set<T>, b: set<T>)
    requires a <= b
    ensures |a| <= |b|
  {
    if a != {} {
      var x :| x in a;
      SubsetSize(a - {x}, b - {x});
    }
  }

  lemma BoundTriesFit(b: Bindings, base: string, r: nat)
    requires 1 <= r && IsBase(base)
    requires forall j :: 1 <= j < r ==> NsFor(b, Candidate(base, j)).Some?
    ensures r <= |b| + 1
  {
    BoundTriesAreDeclared(b, base, r);
    PrefixesBounded(b);
    SubsetSize(set j | 1 <= j < r :: Candidate(base, j), Prefixes(b));
  }

  /** The search makes at most one more try than there are declarations. */
  lemma SearchIsShort(b: Bindings, base: string)
    requires IsBase(base)
    ensures FirstFree(b, base, 1) <= |b| + 1
  {
    BoundTriesFit(b, base, FirstFree(b, base, 1));
  }

  function FreshPrefix(b: Bindings, ns: string): string {
    Candidate(SuggestPrefix(ns), FirstFree(b, SuggestPrefix(ns), 1))
  }

  /** The stack after making sure that `ns` has a prefix. */
  function AddNew(b: Bindings, ns: string, isAttr: bool): (c: Bindings)
    ensures |b| <= |c| && c[..|b|] == b
  {
    if PrefixFor(b, ns, isAttr).Some? then b else b + [Binding(FreshPrefix(b, ns), ns)]
  }

  /** The prefixes that the library's own examples expect. */
  lemma AddedPrefixes()
    ensures AddNew([], "http://a.b.com/foo.htm", true) == [Binding("foo", "http://a.b.com/foo.htm")]
    ensures var b := [Binding("ns", "http://a.b.com/xmltest")];
            AddNew(b, "xmlagain", false) == b + [Binding("ns2", "xmlagain")]
    ensures forall b, isAttr :: AddNew(b, "http://www.w3.org/XML/1998/namespace", isAttr) == b
  {
    hide SuggestPrefix;
    SuggestedWords();
    assert !IsReserved("foo") && NsFor([], "foo") == None;
    var b := [Binding("ns", "http://a.b.com/xmltest")];
    assert !IsReserved("ns") && Lookup(b, "ns") == Some("http://a.b.com/xmltest");
    assert Decimal(2) == "2" && "ns" + "2" == "ns2";
    assert b[..0] == [] && Lookup(b, "ns2") == Lookup([], "ns2") && Lookup(b, "") == Lookup([], "");
    assert !IsReserved("ns2") && NsFor(b, Candidate("ns", 2)) == None;
    assert FirstFree(b, "ns", 1) == FirstFree(b, "ns", 2) == 2;
    assert ScanPrefix(b, 1, "xmlagain", false) == ScanPrefix(b, 0, "xmlagain", false);
  }

  /** `c` adds declarations to `b` without changing the meaning of any prefix in scope. */
  ghost predicate Extends(b: Bindings, c: Bindings) {
    b <= c && forall p :: NsFor(b, p).Some? ==> NsFor(c, p) == NsFor(b, p)
  }

  lemma LookupSnoc(b: Bindings, x: Binding, p: string)
    ensures Lookup(b + [x], p) == if x.prefix == p then Some(x.ns) else Lookup(b, p)
  {
    assert (b + [x])[..|b + [x]| - 1] == b;
  }

  /** An invented prefix is non-empty, not reserved, colon-free and was not in scope. It now
      means `ns`, and every other prefix means what it meant before. */
  lemma AddNewSpec(b: Bindings, ns: string, isAttr: bool)
    requires PrefixFor(b, ns, isAttr).None?
    ensures var p := FreshPrefix(b, ns); var c := AddNew(b, ns, isAttr);
            && p != "" && !IsReserved(p) && ':' !in p
            && NsFor(b, p).None? && p !in Prefixes(b)
            && NsFor(c, p) == Some(ns)
            && forall q :: q != p ==> NsFor(c, q) == NsFor(b, q)
  {
    var p := FreshPrefix(b, ns);
    CandidateUsable(SuggestPrefix(ns), FirstFree(b, SuggestPrefix(ns), 1));
    LookupMember(b, p);
    forall q ensures Lookup(AddNew(b, ns, isAttr), q) == if q == p then Some(ns) else Lookup(b, q) {
      LookupSnoc(b, Binding(p, ns), q);
    }
  }

  /** Whichever branch it takes, the namespace has a usable prefix afterwards. */
  lemma AddNewGivesPrefix(b: Bindings, ns: string, isAttr: bool)
    ensures var c := AddNew(b, ns, isAttr); Extends(b, c) && PrefixFor(c, ns, isAttr).Some?
  {
    if PrefixFor(b, ns, isAttr).None? {
      AddNewSpec(b, ns, isAttr);
      var c, p := AddNew(b, ns, isAttr), FreshPrefix(b, ns);
      PrefixForInverse(c, ns, isAttr);
      assert Meaning(c, p, isAttr) == Some(ns);
    }
  }

  /** A namespace that has a prefix keeps having one when the stack is extended. */
  lemma ExtendsKeepsPrefix(b: Bindings, c: Bindings, ns: string, isAttr: bool)
    requires Extends(b, c) && PrefixFor(b, ns, isAttr).Some?
    ensures PrefixFor(c, ns, isAttr).Some?
  {
    PrefixForInverse(b, ns, isAttr);
    PrefixForInverse(c, ns, isAttr);
    var p := PrefixFor(b, ns, isAttr).value;
    assert Meaning(c, p, isAttr) == Some(ns);
  }
}
