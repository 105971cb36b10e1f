/** Jabber identifiers: parsing, normalising and printing `node@domain/resource`.

    A character stands for one byte; bytes above 0x7F are kept, as `tolower` keeps them in
    the C locale. */
module Jids {
  import opened Xml

  datatype Jid = Jid(node: string, domain: string, resource: string) {
    predicate IsValid() { domain != "" }
    predicate IsFull() { IsValid() && resource != "" }
  }

  const EmptyJid := Jid("", "", "")

  const MAX_PART := 1023

  // ---- characters ----------------------------------------------------------------------

  function NodeChar(c: char): Option<char> {
    if c <= '\U{17}' || c in {' ', '&', '/', ':', '<', '>', '@', '"', '\'', '\U{7F}'} then None
    else Some(LowerChar(c))
  }

  predicate IllegalInResource(c: char) { c <= '\U{17}' || c == '\U{7F}' }

  /** An illegal character of a resource becomes a NUL; it does not make the resource invalid. */
  function ResourceChar(c: char): char {
    if IllegalInResource(c) then '\0' else c
  }

  function LabelChar(c: char): Option<char> {
    if c == '-' || '0' <= c <= '9' || 'a' <= c <= 'z' || c > '\U{7F}' then Some(c)
    else if 'A' <= c <= 'Z' then Some(LowerChar(c))
    else None
  }

  /** Maps every character, or fails if one has no image. */
  function MapAll(f: char -> Option<char>, s: string): (r: Option<string>)
    ensures r.Some? ==> |r.value| == |s| && forall i :: 0 <= i < |s| ==> f(s[i]) == Some(r.value[i])
    ensures r.None? ==> exists i :: 0 <= i < |s| && f(s[i]).None?
  {
    if s == "" then Some("") else
      var init := MapAll(f, s[..|s| - 1]);
      if init.None? || f(s[|s| - 1]).None? then None else Some(init.value + [f(s[|s| - 1]).value])
  }

  // ---- parts ---------------------------------------------------------------------------

  function PrepNode(node: string): Option<string> {
    var r := MapAll(NodeChar, node);
    if r.Some? && |r.value| > MAX_PART then None else r
  }

  function MapResource(s: string): (r: string)
    ensures |r| == |s| && forall i :: 0 <= i < |s| ==> r[i] == ResourceChar(s[i])
  {
    seq(|s|, i requires 0 <= i < |s| => ResourceChar(s[i]))
  }

  function PrepResource(s: string): Option<string> {
    if |s| > MAX_PART then None else Some(MapResource(s))
  }

  function PrepLabel(part: string): Option<string> {
    var r := MapAll(LabelChar, part);
    if r.None? || !(1 <= |r.value| <= 63) || r.value[0] == '-' || r.value[|r.value| - 1] == '-' then None else r
  }

  /** Normalises a dotted name label by label. */
  function PrepLabels(domain: string): Option<string> {
    var i := Find(domain, '.');
    if i == |domain| then PrepLabel(domain) else
      var first, rest := PrepLabel(domain[..i]), PrepLabels(domain[i + 1..]);
      if first.None? || rest.None? then None else Some(first.value + "." + rest.value)
  }

  /** A domain that is too long is dropped, yet it does not count as invalid. */
  function PrepDomain(domain: string): Option<string> {
    var r := PrepLabels(domain);
    if r.Some? && |r.value| > MAX_PART then Some("") else r
  }

  // ---- identifiers ---------------------------------------------------------------------

  function Normalise(node: string, domain: string, resource: string): Jid {
    var n, d, r := PrepNode(node), PrepDomain(domain), PrepResource(resource);
    if n.None? || d.None? || r.None? then EmptyJid else Jid(n.value, d.value, r.value)
  }

  /** The three parts of a string, before they are normalised. */
  function Split(s: string): (string, string, string) {
    var slash, at := Find(s, '/'), Find(s, '@');
    var resource := if slash == |s| then "" else s[slash + 1..];
    if at < slash then (s[..at], s[at + 1..slash], resource) else ("", s[..slash], resource)
  }

  function Parse(s: string): Jid {
    if s == "" then EmptyJid else
      var (node, domain, resource) := Split(s);
      Normalise(node, domain, resource)
  }

  function Str(j: Jid): string {
    if !j.IsValid() then "" else
      (if j.node == "" then "" else j.node + "@") + j.domain + (if j.resource == "" then "" else "/" + j.resource)
  }

  function BareJid(j: Jid): Jid {
    if !j.IsValid() then EmptyJid
    else if !j.IsFull() then j
    else Normalise(j.node, j.domain, "")
  }

  // ---- normalising is idempotent -------------------------------------------------------

  lemma MapAllFixed(f: char -> Option<char>, s: string)
    requires forall i :: 0 <= i < |s| ==> f(s[i]) == Some(s[i])
    ensures MapAll(f, s) == Some(s)
  {
    var r := MapAll(f, s);
    if r.Some? {
      assert forall i :: 0 <= i < |s| ==> r.value[i] == s[i];
      assert r.value == s;
    }
  }

  lemma PrepNodeIdempotent(s: string)
    requires PrepNode(s).Some?
    ensures var t := PrepNode(s).value;
            PrepNode(t) == Some(t) && |t| == |s| <= MAX_PART && '@' !in t && '/' !in t
  {
    var t := PrepNode(s).value;
    assert forall i :: 0 <= i < |s| ==> NodeChar(s[i]) == Some(t[i]);
    assert forall i :: 0 <= i < |t| ==> NodeChar(t[i]) == Some(t[i]);
    MapAllFixed(NodeChar, t);
  }

  lemma PrepResourceIdempotent(s: string)
    requires PrepResource(s).Some?
    ensures var t := PrepResource(s).value; PrepResource(t) == Some(t) && |t| == |s|
  {
    var t := PrepResource(s).value;
    assert MapResource(t) == t;
  }

  lemma PrepLabelIdempotent(s: string)
    requires PrepLabel(s).Some?
    ensures var t := PrepLabel(s).value;
            PrepLabel(t) == Some(t) && |t| == |s| && '.' !in t && '@' !in t && '/' !in t
  {
    var t := PrepLabel(s).value;
    assert forall i :: 0 <= i < |s| ==> LabelChar(s[i]) == Some(t[i]);
    assert forall i :: 0 <= i < |t| ==> LabelChar(t[i]) == Some(t[i]);
    MapAllFixed(LabelChar, t);
  }

  lemma {:induction false} PrepLabelsIdempotent(s: string)
    requires PrepLabels(s).Some?
    ensures var t := PrepLabels(s).value;
            PrepLabels(t) == Some(t) && |t| == |s| > 0 && '@' !in t && '/' !in t
    decreases |s|
  {
    var i := Find(s, '.');
    var t := PrepLabels(s).value;
    if i == |s| {
      PrepLabelIdempotent(s);
      assert t[..|t|] == t;
      FindIs(t, '.', |t|);
    } else {
      PrepLabelIdempotent(s[..i]);
      PrepLabelsIdempotent(s[i + 1..]);
      var first, rest := PrepLabel(s[..i]).value, PrepLabels(s[i + 1..]).value;
      assert t == first + "." + rest;
      assert t[..i] == first && t[i] == '.' && t[i + 1..] == rest;
      FindIs(t, '.', i);
    }
  }

  lemma PrepLabelsDot(d: string, i: nat)
    requires i < |d| && d[i] == '.' && '.' !in d[..i]
    ensures var first, rest := PrepLabel(d[..i]), PrepLabels(d[i + 1..]);
            PrepLabels(d) == if first.None? || rest.None? then None else Some(first.value + "." + rest.value)
  {
    FindIs(d, '.', i);
  }

  lemma PrepLabelsNoDot(d: string)
    requires '.' !in d
    ensures PrepLabels(d) == PrepLabel(d)
  {
    assert d[..|d|] == d;
    FindIs(d, '.', |d|);
  }

  // ---- letter case ---------------------------------------------------------------------

  /** A map that ignores letter case gives the same result for a string and its lower case. */
  lemma {:induction false} MapAllIgnoresCase(f: char -> Option<char>, s: string)
    requires forall c :: f(LowerChar(c)) == f(c)
    ensures MapAll(f, Lower(s)) == MapAll(f, s)
    decreases |s|
  {
    if s != "" {
      var n := |s| - 1;
      MapAllIgnoresCase(f, s[..n]);
      assert Lower(s)[..n] == Lower(s[..n]);
    }
  }

  lemma PrepLabelIgnoresCase(s: string)
    ensures PrepLabel(Lower(s)) == PrepLabel(s)
  {
    MapAllIgnoresCase(LabelChar, s);
  }

  lemma {:induction false} PrepLabelsIgnoresCase(s: string)
    ensures PrepLabels(Lower(s)) == PrepLabels(s)
    decreases |s|
  {
    hide PrepLabel, PrepLabels, Find;
    var i, l := Find(s, '.'), Lower(s);
    if i == |s| {
      assert forall k :: 0 <= k < |s| ==> s[..i][k] == s[k];
      PrepLabelsNoDot(s);
      PrepLabelsNoDot(l);
      PrepLabelIgnoresCase(s);
    } else {
      assert forall k :: 0 <= k < i ==> s[..i][k] == s[k];
      assert l[..i] == Lower(s[..i]) && l[i + 1..] == Lower(s[i + 1..]);
      PrepLabelIgnoresCase(s[..i]);
      PrepLabelsIgnoresCase(s[i + 1..]);
      PrepLabelsDot(l, i);
      PrepLabelsDot(s, i);
    }
  }

  /** Node and domain are the same identifier in either letter case. */
  lemma CaseIrrelevant(node: string, domain: string, resource: string)
    ensures Normalise(Lower(node), Lower(domain), resource) == Normalise(node, domain, resource)
  {
    hide MapAll, PrepLabels, PrepResource;
    MapAllIgnoresCase(NodeChar, node);
    PrepLabelsIgnoresCase(domain);
  }

  // ---- what an identifier looks like ---------------------------------------------------

  /** The dot-separated labels of a domain. */
  function Labels(d: string): seq<string> {
    var i := Find(d, '.');
    if i == |d| then [d] else [d[..i]] + Labels(d[i + 1..])
  }

  lemma {:induction false} LabelsAreShort(d: string)
    requires PrepLabels(d).Some?
    ensures forall i :: 0 <= i < |Labels(d)| ==> 1 <= |Labels(d)[i]| <= 63
    decreases |d|
  {
    var i := Find(d, '.');
    if i != |d| {
      LabelsAreShort(d[i + 1..]);
    }
  }

  /** Parts that are all in normal form and belong to a valid identifier. */
  predicate Normal(j: Jid) {
    PrepNode(j.node) == Some(j.node) && PrepResource(j.resource) == Some(j.resource)
    && PrepLabels(j.domain) == Some(j.domain) && |j.domain| <= MAX_PART
  }

  /** The parts of a call whose domain is dropped for its length while another part stays. */
  predicate LosesDomain(node: string, domain: string, resource: string) {
    && |domain| > MAX_PART && PrepLabels(domain).Some?
    && PrepNode(node).Some? && PrepResource(resource).Some?
    && (node != "" || resource != "")
  }

  /** A normalised identifier is empty, or in normal form with labels of 1 to 63 bytes; or
      its domain was too long and dropped. */
  lemma NormaliseCases(node: string, domain: string, resource: string)
    ensures var j := Normalise(node, domain, resource);
            && (j.IsValid() ==>
                 Normal(j) && forall i :: 0 <= i < |Labels(j.domain)| ==> 1 <= |Labels(j.domain)[i]| <= 63)
            && (!j.IsValid() ==> (j != EmptyJid <==> LosesDomain(node, domain, resource)))
  {
    var n, d, r := PrepNode(node), PrepLabels(domain), PrepResource(resource);
    if n.Some? && d.Some? && r.Some? {
      PrepNodeIdempotent(node);
      PrepLabelsIdempotent(domain);
      PrepResourceIdempotent(resource);
      LabelsAreShort(d.value);
    }
  }

  // ---- print and parse -----------------------------------------------------------------

  lemma SplitStr(j: Jid)
    requires j.domain != "" && '/' !in j.node + j.domain && '@' !in j.node + j.domain
    ensures Split(Str(j)) == (j.node, j.domain, j.resource) && Str(j) != ""
  {
    hide Find;
    var s := Str(j);
    var bare := (if j.node == "" then "" else j.node + "@") + j.domain;
    var tail := if j.resource == "" then "" else "/" + j.resource;
    assert s == bare + tail && s[..|bare|] == bare;
    assert '/' !in bare by {
      assert forall i :: 0 <= i < |j.node| ==> (j.node + j.domain)[i] == j.node[i];
      assert forall i :: 0 <= i < |j.domain| ==> (j.node + j.domain)[|j.node| + i] == j.domain[i];
    }
    FindIs(s, '/', |bare|);
    if j.resource != "" {
      assert s[|bare| + 1..] == j.resource;
    }
    SplitBare(j, tail);
  }

  lemma SplitBare(j: Jid, tail: string)
    requires j.domain != "" && '@' !in j.node + j.domain && (tail == "" || tail[0] == '/')
    ensures var bare := (if j.node == "" then "" else j.node + "@") + j.domain;
            var at := Find(bare + tail, '@');
            if j.node == "" then at >= |bare| && bare == j.domain
            else at == |j.node| && (bare + tail)[..at] == j.node && (bare + tail)[at + 1..|bare|] == j.domain
  {
    assert forall i :: 0 <= i < |j.node| ==> (j.node + j.domain)[i] == j.node[i];
    assert forall i :: 0 <= i < |j.domain| ==> (j.node + j.domain)[|j.node| + i] == j.domain[i];
    var bare := (if j.node == "" then "" else j.node + "@") + j.domain;
    var s := bare + tail;
    if j.node == "" {
      assert forall i :: 0 <= i < |bare| ==> s[i] == j.domain[i];
    } else {
      assert s[..|j.node|] == j.node;
      FindIs(s, '@', |j.node|);
    }
  }

  /** A valid identifier in normal form is what its text parses to. */
  lemma ParseStr(j: Jid)
    requires Normal(j)
    ensures Parse(Str(j)) == j
  {
    PrepNodeIdempotent(j.node);
    PrepLabelsIdempotent(j.domain);
    SplitStr(j);
  }

  /** Printing and parsing again gives a normalised identifier back, unless its domain was
      dropped for its length while its node or resource stayed. */
  lemma NormaliseRoundTrip(node: string, domain: string, resource: string)
    ensures var j := Normalise(node, domain, resource);
            Parse(Str(j)) == j <==> !LosesDomain(node, domain, resource)
  {
    NormaliseCases(node, domain, resource);
    var j := Normalise(node, domain, resource);
    if j.IsValid() {
      ParseStr(j);
      if LosesDomain(node, domain, resource) {
        PrepLabelsIdempotent(domain);
      }
    }
  }

  /** The same for an identifier given as one string. */
  lemma StringRoundTrip(s: string)
    ensures var (node, domain, resource) := Split(s);
            Parse(Str(Parse(s))) == Parse(s) <==> s == "" || !LosesDomain(node, domain, resource)
  {
    var (node, domain, resource) := Split(s);
    NormaliseRoundTrip(node, domain, resource);
  }

  /** Text determines a valid identifier, and is short. */
  lemma StrInjective(j: Jid, k: Jid)
    requires Normal(j) && Normal(k) && Str(j) == Str(k)
    ensures j == k && |Str(j)| <= 3071
  {
    ParseStr(j);
    ParseStr(k);
  }

  /** Taking the bare identifier normalises again, and only drops the resource. */
  lemma BareKeepsParts(j: Jid)
    requires Normal(j)
    ensures BareJid(j) == j.(resource := "") && Normal(BareJid(j)) && BareJid(BareJid(j)) == BareJid(j)
  {
    PrepLabelsIdempotent(j.domain);
    assert MapResource("") == "";
  }

  // ---- what normalising accepts and keeps ----------------------------------------------

  /** The characters of the library's tables, by number. */
  predicate LegalInNode(c: char) {
    var n := c as int;
    n > 0x17 && n !in {0x20, 0x22, 0x26, 0x27, 0x2F, 0x3A, 0x3C, 0x3E, 0x40, 0x7F}
  }

  predicate LegalInLabel(c: char) {
    var n := c as int;
    n == 0x2D || 0x30 <= n <= 0x39 || 0x41 <= n <= 0x5A || 0x61 <= n <= 0x7A || n > 0x7F
  }

  predicate LegalNode(s: string) {
    |s| <= 1023 && forall i :: 0 <= i < |s| ==> LegalInNode(s[i])
  }

  predicate GoodLabels(labels: seq<string>) {
    forall i :: 0 <= i < |labels| ==> GoodLabel(labels[i])
  }

  predicate GoodLabel(s: string) {
    1 <= |s| <= 63 && (forall i :: 0 <= i < |s| ==> LegalInLabel(s[i])) && s[0] != '-' && s[|s| - 1] != '-'
  }

  /** Mapping every character: all of them have an image, or one has not. */
  lemma MapAllSpec(f: char -> Option<char>, s: string, t: string)
    requires |t| == |s|
    ensures (forall i :: 0 <= i < |s| ==> f(s[i]) == Some(t[i])) ==> MapAll(f, s) == Some(t)
    ensures MapAll(f, s).Some? ==> forall i :: 0 <= i < |s| ==> f(s[i]).Some?
  {
    var r := MapAll(f, s);
    if r.Some? && forall i :: 0 <= i < |s| ==> f(s[i]) == Some(t[i]) {
      assert r.value == t;
    }
  }

  /** A node is legal if it is short and has no illegal character; only its letter case
      changes. */
  lemma PrepNodeSpec(s: string)
    ensures PrepNode(s) == if LegalNode(s) then Some(Lower(s)) else None
  {
    hide MapAll;
    assert forall c :: NodeChar(c) == if LegalInNode(c) then Some(LowerChar(c)) else None;
    hide NodeChar, LegalInNode;
    MapAllSpec(NodeChar, s, Lower(s));
  }

  lemma LabelCharSpec(c: char)
    ensures LabelChar(c) == if LegalInLabel(c) then Some(LowerChar(c)) else None
    ensures LegalInLabel('-') && LowerChar(c) == '-' <==> c == '-'
  {
  }

  /** A label is legal if it has 1 to 63 legal characters and a hyphen at neither end; only its
      letter case changes. */
  lemma PrepLabelSpec(s: string)
    ensures PrepLabel(s) == if GoodLabel(s) then Some(Lower(s)) else None
  {
    hide MapAll, LegalInLabel, LabelChar;
    forall c ensures LabelChar(c) == if LegalInLabel(c) then Some(LowerChar(c)) else None {
      LabelCharSpec(c);
    }
    MapAllSpec(LabelChar, s, Lower(s));
    if s != "" {
      LabelCharSpec(s[0]);
      LabelCharSpec(s[|s| - 1]);
    }
  }

  /** The labels of a domain, the first one cut off. */
  lemma LabelsCases(d: string, i: nat)
    requires i == Find(d, '.')
    ensures i == |d| ==> Labels(d) == [d] && '.' !in d
    ensures i < |d| ==>
              && Labels(d) == [d[..i]] + Labels(d[i + 1..]) && '.' !in d[..i] && d[i] == '.'
              && d == d[..i] + "." + d[i + 1..]
  {
    LabelsStep(d);
    hide *;
    if i == |d| {
      assert d[..i] == d;
    }
  }

  lemma LabelsStep(d: string)
    ensures var i := Find(d, '.'); Labels(d) == if i == |d| then [d] else [d[..i]] + Labels(d[i + 1..])
  {
    hide Find;
  }

  /** The labels of a domain are what stands between its dots. */
  lemma {:induction false} LabelsSpec(d: string)
    ensures Joined(Labels(d)) == d && Labels(d) != []
    ensures forall i :: 0 <= i < |Labels(d)| ==> '.' !in Labels(d)[i]
    decreases |d|
  {
    hide Find, Labels;
    var i := Find(d, '.');
    LabelsCases(d, i);
    if i < |d| {
      var rest := Labels(d[i + 1..]);
      LabelsSpec(d[i + 1..]);
      assert ([d[..i]] + rest)[1..] == rest;
      forall k | 0 <= k < |Labels(d)| ensures '.' !in Labels(d)[k] {
        if k > 0 { assert Labels(d)[k] == rest[k - 1]; }
      }
    }
  }

  function Joined(labels: seq<string>): string {
    if labels == [] then "" else if |labels| == 1 then labels[0] else labels[0] + "." + Joined(labels[1..])
  }

  /** A domain is legal exactly if all its labels are; only its letter case changes. */
  lemma {:induction false} PrepLabelsSpec(d: string)
    ensures PrepLabels(d) == if GoodLabels(Labels(d)) then Some(Lower(d)) else None
    decreases |d|
  {
    hide *;
    var i := Find(d, '.');
    LabelsCases(d, i);
    if i == |d| {
      PrepLabelsNoDot(d);
      PrepLabelSpec(d);
      GoodOne(d);
    } else {
      PrepLabelsDot(d, i);
      PrepLabelSpec(d[..i]);
      PrepLabelsSpec(d[i + 1..]);
      GoodCons(d[..i], Labels(d[i + 1..]));
      LowerAtDot(d, i);
    }
  }

  lemma GoodOne(l: string)
    ensures GoodLabels([l]) <==> GoodLabel(l)
  {
    hide GoodLabel;
    assert [l][0] == l;
  }

  lemma GoodCons(l: string, rest: seq<string>)
    ensures GoodLabels([l] + rest) <==> GoodLabel(l) && GoodLabels(rest)
  {
    hide GoodLabel;
    var ls := [l] + rest;
    assert ls[0] == l && forall k :: 0 <= k < |rest| ==> ls[k + 1] == rest[k];
    assert forall k :: 0 < k < |ls| ==> ls[k] == rest[k - 1];
  }

  lemma LowerAtDot(d: string, i: nat)
    requires i < |d| && d[i] == '.'
    ensures Lower(d) == Lower(d[..i]) + "." + Lower(d[i + 1..])
  {
  }

  /** A resource is legal if it is short; its illegal characters become NULs. */
  lemma PrepResourceSpec(s: string)
    ensures |s| > 1023 ==> PrepResource(s) == None
    ensures |s| <= 1023 ==>
              && PrepResource(s).Some? && |PrepResource(s).value| == |s|
              && forall i :: 0 <= i < |s| ==>
                   var c := s[i] as int;
                   PrepResource(s).value[i] as int == if c <= 0x17 || c == 0x7F then 0 else c
  {
  }

  ghost predicate LegalParts(node: string, domain: string, resource: string) {
    LegalNode(node) && GoodLabels(Labels(domain)) && |resource| <= 1023
  }

  /** The three-part constructor: all parts are kept up to letter case if they are legal, but
      for a domain that is too long; otherwise all are cleared. */
  lemma NormaliseSpec(node: string, domain: string, resource: string)
    ensures var j := Normalise(node, domain, resource);
            if !LegalParts(node, domain, resource) then j == EmptyJid
            else j.node == Lower(node) && j.domain == (if |domain| <= 1023 then Lower(domain) else "")
                 && Some(j.resource) == PrepResource(resource)
  {
    hide PrepNode, PrepLabels, LegalNode, GoodLabels, Labels, MapResource;
    PrepNodeSpec(node);
    PrepLabelsSpec(domain);
    PrepResourceSpec(resource);
  }

  /** Where a string is cut: the resource begins after the first slash, and the node ends at
      the first '@' before it. */
  lemma SplitSpec(s: string)
    ensures var (node, domain, resource) := Split(s);
            && '/' !in node + domain && '@' !in node
            && (s == node + "@" + domain || s == node + "@" + domain + "/" + resource
                || (node == "" && '@' !in domain && (s == domain || s == domain + "/" + resource)))
            && ('/' !in s ==> resource == "")
  {
    hide Find;
    var slash, at := Find(s, '/'), Find(s, '@');
    var (node, domain, resource) := Split(s);
    assert forall i :: 0 <= i < slash ==> s[i] == s[..slash][i];
    assert forall i :: 0 <= i < at ==> s[i] == s[..at][i];
    if slash < |s| {
      assert s == s[..slash] + "/" + resource && '/' in s;
    } else {
      assert s == s[..slash];
    }
    if at < slash {
      assert s[..slash] == node + "@" + domain;
    } else {
      assert s[..slash] == domain;
    }
  }

  /** The text of an identifier, with or without node and resource. */
  lemma StrSpec(node: string, domain: string, resource: string)
    requires domain != ""
    ensures Str(Jid("", domain, "")) == domain && Str(Jid("", "", resource)) == "" && Str(Jid(node, "", "")) == ""
    ensures node != "" ==> Str(Jid(node, domain, "")) == node + "@" + domain
    ensures resource != "" ==> Str(Jid("", domain, resource)) == domain + "/" + resource
    ensures node != "" && resource != "" ==> Str(Jid(node, domain, resource)) == node + "@" + domain + "/" + resource
  {
  }

  // ---- an identifier without a domain --------------------------------------------------

  /** A legal domain of 1024 or more bytes: labels "a" separated by dots. */
  function LongDomain(n: nat): string
    ensures |LongDomain(n)| == 2 * n + 1
  {
    if n == 0 then "a" else "a." + LongDomain(n - 1)
  }

  lemma SingleLetterLabel()
    ensures PrepLabel("a") == Some("a")
  {
    MapAllFixed(LabelChar, "a");
  }

  lemma {:induction false} LongDomainIsLegal(n: nat)
    ensures PrepLabels(LongDomain(n)) == Some(LongDomain(n))
  {
    hide PrepLabel, PrepLabels;
    SingleLetterLabel();
    if n == 0 {
      PrepLabelsNoDot("a");
    } else {
      var d, rest := LongDomain(n), LongDomain(n - 1);
      LongDomainIsLegal(n - 1);
      assert d == "a" + "." + rest;
      assert d[..1] == "a" && d[1] == '.' && d[2..] == rest;
      PrepLabelsDot(d, 1);
    }
  }

  /** Normalising can leave a node without a domain, which does not print. */
  lemma NodeWithoutDomain()
    ensures var j := Normalise("n", LongDomain(600), "");
            j == Jid("n", "", "") && Parse(Str(j)) != j
  {
    hide MapAll, PrepLabels, LongDomain;
    LongDomainIsLegal(600);
    MapAllFixed(NodeChar, "n");
    assert MapResource("") == "";
  }

  // ---- what normalising is meant to reject ---------------------------------------------

  predicate HasIllegal(resource: string) {
    exists i :: 0 <= i < |resource| && IllegalInResource(resource[i])
  }

  /** A resource as the legality of each character, which is computed and not used, is meant
      to decide. */
  function IntendedResource(s: string): Option<string> {
    if |s| > MAX_PART || HasIllegal(s) then None else Some(s)
  }

  /** A domain that is too long is invalid, like any other part that is. */
  function IntendedDomain(domain: string): Option<string> {
    var r := PrepLabels(domain);
    if r.Some? && |r.value| > MAX_PART then None else r
  }

  function IntendedJid(node: string, domain: string, resource: string): Jid {
    var n, d, r := PrepNode(node), IntendedDomain(domain), IntendedResource(resource);
    if n.None? || d.None? || r.None? then EmptyJid else Jid(n.value, d.value, r.value)
  }

  /** A resource is normalised as intended unless it has an illegal character and is not
      rejected for its length. */
  lemma ResourceAsIntended(s: string)
    ensures PrepResource(s) == IntendedResource(s) <==> |s| > MAX_PART || !HasIllegal(s)
  {
    if |s| <= MAX_PART && !HasIllegal(s) {
      assert MapResource(s) == s;
    }
  }

  /** The parts of a call that keeps an illegal resource because nothing else is invalid. */
  predicate KeepsIllegal(node: string, domain: string, resource: string) {
    && HasIllegal(resource) && |resource| <= MAX_PART
    && PrepNode(node).Some? && PrepLabels(domain).Some?
  }

  /** The three parts give the identifier they should, if and only if no domain is dropped
      and no illegal resource is kept. */
  lemma NormaliseAsIntended(node: string, domain: string, resource: string)
    ensures Normalise(node, domain, resource) == IntendedJid(node, domain, resource) <==>
            !LosesDomain(node, domain, resource) && !KeepsIllegal(node, domain, resource)
  {
    hide MapAll, PrepLabels, NodeChar, LabelChar;
    ResourceAsIntended(resource);
    if PrepLabels(domain).Some? {
      PrepLabelsIdempotent(domain);
    }
    if PrepNode(node).Some? {
      PrepNodeIdempotent(node);
    }
  }

  /** An identifier with an illegal resource is accepted, with a NUL in the resource. */
  lemma IllegalResourceAccepted()
    ensures Parse("a/\U{1}") == Jid("", "a", "\0")
    ensures IntendedJid("", "a", "\U{1}") == EmptyJid && Split("a/\U{1}") == ("", "a", "\U{1}")
  {
    hide MapAll, PrepLabels, Find;
    var s := "a/\U{1}";
    FindIs(s, '/', 1);
    FindIs(s, '@', 3);
    assert s[..1] == "a" && s[2..] == "\U{1}";
    LongDomainIsLegal(0);
    MapAllFixed(NodeChar, "");
    assert MapResource("\U{1}") == "\0";
    assert IllegalInResource("\U{1}"[0]);
  }

  // ---- the loops -----------------------------------------------------------------------

  lemma MapAllSnoc(f: char -> Option<char>, s: string, i: nat)
    requires i < |s|
    ensures MapAll(f, s[..i + 1]) ==
            if MapAll(f, s[..i]).None? || f(s[i]).None? then None else Some(MapAll(f, s[..i]).value + [f(s[i]).value])
  {
    assert s[..i + 1][..i] == s[..i];
  }

  lemma {:induction false} MapAllFails(f: char -> Option<char>, s: string, i: nat)
    requires i <= |s| && MapAll(f, s[..i]).None?
    ensures MapAll(f, s).None?
  {
    var k :| 0 <= k < i && f(s[..i][k]).None?;
    assert f(s[k]).None?;
  }

  method ComputePrepNode(node: string) returns (r: Option<string>)
    ensures r == PrepNode(node)
  {
    var result := "";
    var i := 0;
    while i < |node|
      invariant 0 <= i <= |node|
      invariant MapAll(NodeChar, node[..i]) == Some(result)
    {
      MapAllSnoc(NodeChar, node, i);
      var c := NodeChar(node[i]);
      if c.None? {
        MapAllFails(NodeChar, node, i + 1);
        return None;
      }
      result := result + [c.value];
      i := i + 1;
    }
    assert node[..|node|] == node;
    if |result| > MAX_PART {
      return None;
    }
    return Some(result);
  }

  method ComputePrepResource(resource: string) returns (r: Option<string>)
    ensures r == PrepResource(resource)
  {
    var result := "";
    var i := 0;
    while i < |resource|
      invariant 0 <= i <= |resource|
      invariant result == MapResource(resource[..i])
    {
      result := result + [ResourceChar(resource[i])];
      i := i + 1;
    }
    assert resource[..|resource|] == resource;
    if |result| > MAX_PART {
      return None;
    }
    return Some(result);
  }

  /** Appends the normalised label to the buffer. */
  method PrepDomainLabel(part: string, buf: string) returns (out: string, valid: bool)
    ensures valid <==> PrepLabel(part).Some?
    ensures valid ==> out == buf + PrepLabel(part).value
  {
    out, valid := buf, false;
    var startLen := |buf|;
    ghost var mapped := "";
    var i := 0;
    while i < |part|
      invariant 0 <= i <= |part|
      invariant MapAll(LabelChar, part[..i]) == Some(mapped)
      invariant out == buf + mapped
    {
      MapAllSnoc(LabelChar, part, i);
      var c := LabelChar(part[i]);
      if c.None? {
        MapAllFails(LabelChar, part, i + 1);
        return;
      }
      ConcatAssoc(buf, mapped, [c.value]);
      out, mapped := out + [c.value], mapped + [c.value];
      i := i + 1;
    }
    assert part[..|part|] == part;
    var count := |out| - startLen;
    if count == 0 || count > 63 {
      return;
    }
    if out[startLen] == '-' || out[|out| - 1] == '-' {
      return;
    }
    valid := true;
  }

  /** Normalises a domain in one pass that cuts it at the dots. */
  method ComputePrepLabels(domain: string) returns (buf: string, valid: bool)
    ensures valid <==> PrepLabels(domain).Some?
    ensures valid ==> buf == PrepLabels(domain).value
  {
    hide PrepLabels, PrepLabel;
    buf, valid := "", false;
    var last, i := 0, 0;
    PendingAtStart(domain);
    while i < |domain|
      invariant 0 <= last <= i <= |domain|
      invariant forall k :: last <= k < i ==> domain[k] != '.'
      invariant Pending(domain, last, buf)
    {
      if domain[i] == '.' {
        var labelValid;
        buf, labelValid := PrepUpToDot(domain, last, i, buf);
        last := i + 1;
        if !labelValid {
          return;
        }
      }
      i := i + 1;
    }
    PrepLabelsNoDot(domain[last..]);
    buf, valid := PrepDomainLabel(domain[last..], buf);
  }

  /** Normalises the label that ends at a dot and puts it and the dot on the buffer. */
  method PrepUpToDot(domain: string, last: nat, i: nat, buf: string) returns (out: string, valid: bool)
    requires last <= i < |domain| && domain[i] == '.' && (forall k :: last <= k < i ==> domain[k] != '.')
    requires Pending(domain, last, buf)
    ensures if valid then Pending(domain, i + 1, out) else PrepLabels(domain).None?
  {
    CutAtDot(domain, last, i, buf);
    out, valid := PrepDomainLabel(domain[last..i], buf);
    out := out + ".";
  }

  /** The domain's normal form is the buffer followed by that of the part not yet seen. */
  ghost predicate Pending(d: string, last: nat, buf: string)
    requires last <= |d|
  {
    var rest := PrepLabels(d[last..]);
    PrepLabels(d) == if rest.None? then None else Some(buf + rest.value)
  }

  lemma PendingAtStart(d: string)
    ensures Pending(d, 0, "")
  {
    assert d[0..] == d;
    var rest := PrepLabels(d);
    assert rest.Some? ==> "" + rest.value == rest.value;
  }

  /** Cutting off a label moves its normal form to the buffer. */
  lemma CutAtDot(d: string, last: nat, i: nat, buf: string)
    requires last <= i < |d| && d[i] == '.' && (forall k :: last <= k < i ==> d[k] != '.') && Pending(d, last, buf)
    ensures var first := PrepLabel(d[last..i]);
            if first.None? then PrepLabels(d).None? else Pending(d, i + 1, buf + first.value + ".")
  {
    hide PrepLabels, PrepLabel;
    var s, first, rest := d[last..], PrepLabel(d[last..i]), PrepLabels(d[i + 1..]);
    assert s[..i - last] == d[last..i] && s[i - last] == '.' && s[i - last + 1..] == d[i + 1..];
    PrepLabelsDot(s, i - last);
    if first.Some? && rest.Some? {
      ConcatAssoc(buf, first.value, ".");
      ConcatAssoc(buf, first.value + ".", rest.value);
    }
  }

  /** Normalises the parts and clears all of them if one is invalid. */
  method ValidateOrReset(node: string, domain: string, resource: string) returns (j: Jid)
    ensures j == Normalise(node, domain, resource)
  {
    var n := ComputePrepNode(node);
    var buf, validDomain := ComputePrepLabels(domain);
    if validDomain && |buf| > MAX_PART {
      buf := "";
    }
    var r := ComputePrepResource(resource);
    if n.None? || !validDomain || r.None? {
      return EmptyJid;
    }
    return Jid(n.value, buf, r.value);
  }
}
