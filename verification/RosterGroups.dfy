/** The group list of a roster contact and its cache of a count and a last position. */
module RosterGroups {
  import opened Xml

  /** A child of the contact's XML element. */
  datatype Child = Group(text: string) | Other

  // ---- the uncached walk ---------------------------------------------------------------

  /** Texts of the group elements, in order. */
  function Groups(kids: seq<Child>): seq<string> {
    if kids == [] then []
    else if kids[|kids| - 1].Group? then Groups(kids[..|kids| - 1]) + [kids[|kids| - 1].text]
    else Groups(kids[..|kids| - 1])
  }

  /** Position of the first group element from `i` on, or the length. */
  function NextGroup(kids: seq<Child>, i: nat): (r: nat)
    requires i <= |kids|
    ensures i <= r <= |kids|
    ensures r < |kids| ==> kids[r].Group?
    ensures forall k :: i <= k < r ==> !kids[k].Group?
    decreases |kids| - i
  {
    if i == |kids| || kids[i].Group? then i else NextGroup(kids, i + 1)
  }

  lemma GroupsSnoc(kids: seq<Child>, k: Child)
    ensures Groups(kids + [k]) == if k.Group? then Groups(kids) + [k.text] else Groups(kids)
  {
    assert (kids + [k])[..|kids|] == kids;
  }

  lemma {:induction false} GroupsConcat(a: seq<Child>, b: seq<Child>)
    ensures Groups(a + b) == Groups(a) + Groups(b)
    decreases b
  {
    if b == [] {
      assert a + b == a;
    } else {
      var n := |b| - 1;
      assert (a + b)[..|a + b| - 1] == a + b[..n];
      GroupsConcat(a, b[..n]);
    }
  }

  lemma {:induction false} NoGroups(kids: seq<Child>)
    requires forall k :: 0 <= k < |kids| ==> !kids[k].Group?
    ensures Groups(kids) == []
  {
    if kids != [] {
      NoGroups(kids[..|kids| - 1]);
    }
  }

  /** Walking to the next group element skips no group. */
  lemma NextGroupSpec(kids: seq<Child>, i: nat)
    requires i <= |kids|
    ensures Groups(kids[..NextGroup(kids, i)]) == Groups(kids[..i])
  {
    var r := NextGroup(kids, i);
    assert kids[..r] == kids[..i] + kids[i..r];
    GroupsConcat(kids[..i], kids[i..r]);
    NoGroups(kids[i..r]);
  }

  /** The group element at `pos` is number `n`. */
  ghost predicate IsNth(kids: seq<Child>, pos: nat, n: nat) {
    pos < |kids| && kids[pos].Group? && |Groups(kids[..pos])| == n
  }

  lemma NthText(kids: seq<Child>, pos: nat, n: nat)
    requires IsNth(kids, pos, n)
    ensures n < |Groups(kids)| && Groups(kids)[n] == kids[pos].text
  {
    assert kids == kids[..pos + 1] + kids[pos + 1..];
    GroupsConcat(kids[..pos + 1], kids[pos + 1..]);
    assert kids[..pos + 1] == kids[..pos] + [kids[pos]];
    GroupsSnoc(kids[..pos], kids[pos]);
  }

  /** If more groups follow, the next one exists and has the next number. */
  lemma NextIsNth(kids: seq<Child>, i: nat, n: nat)
    requires i <= |kids| && |Groups(kids[..i])| == n
    ensures NextGroup(kids, i) < |kids| ==> IsNth(kids, NextGroup(kids, i), n)
    ensures NextGroup(kids, i) == |kids| ==> |Groups(kids)| == n
  {
    NextGroupSpec(kids, i);
    if NextGroup(kids, i) == |kids| {
      assert kids[..|kids|] == kids;
    }
  }

  lemma AfterNth(kids: seq<Child>, pos: nat, n: nat)
    requires IsNth(kids, pos, n)
    ensures |Groups(kids[..pos + 1])| == n + 1
  {
    assert kids[..pos + 1] == kids[..pos] + [kids[pos]];
    GroupsSnoc(kids[..pos], kids[pos]);
  }

  /** Position of the first group with that text from `i` on, or the length. */
  function FindGroup(kids: seq<Child>, group: string, i: nat): (r: nat)
    requires i <= |kids|
    ensures i <= r <= |kids|
    ensures r < |kids| ==> kids[r] == Group(group)
    ensures forall k :: i <= k < r ==> kids[k] != Group(group)
    decreases |kids| - i
  {
    if i == |kids| || kids[i] == Group(group) then i else FindGroup(kids, group, i + 1)
  }

  /** `after` is `before` without the first occurrence of `group`. */
  ghost predicate DropsFirst(before: seq<string>, after: seq<string>, group: string) {
    exists i ::
      0 <= i < |before| && before[i] == group && group !in before[..i] && after == before[..i] + before[i + 1..]
  }

  lemma {:induction false} GroupMember(kids: seq<Child>, group: string)
    ensures group in Groups(kids) <==> Group(group) in kids
  {
    if kids != [] {
      var n := |kids| - 1;
      GroupMember(kids[..n], group);
      assert kids == kids[..n] + [kids[n]];
    }
  }

  lemma Cut(a: seq<string>, group: string, b: seq<string>)
    ensures var s := a + [group] + b; s[..|a|] == a && s[|a|] == group && s[|a| + 1..] == b
  {
  }

  lemma RemoveSpec(kids: seq<Child>, group: string, pos: nat)
    requires pos < |kids| && kids[pos] == Group(group) && forall k :: 0 <= k < pos ==> kids[k] != Group(group)
    ensures var i := |Groups(kids[..pos])|;
            && i < |Groups(kids)| && Groups(kids)[i] == group && group !in Groups(kids)[..i]
            && Groups(kids[..pos] + kids[pos + 1..]) == Groups(kids)[..i] + Groups(kids)[i + 1..]
  {
    hide Groups;
    var a, b := kids[..pos], kids[pos + 1..];
    assert kids == a + [kids[pos]] + b;
    GroupsConcat(a + [kids[pos]], b);
    GroupsSnoc(a, kids[pos]);
    GroupsConcat(a, b);
    GroupMember(a, group);
    Cut(Groups(a), group, Groups(b));
  }

  // ---- calls, and what they do to the element and the count -----------------------------

  datatype Op = Wire(element: Option<seq<Child>>) | Count | Get(index: nat) | Add(group: string) | Remove(group: string)

  /** The element of a contact and its cached count; -1 stands for "not counted". */
  datatype Contact = Contact(xml: Option<seq<Child>>, count: int)

  const FreshContact := Contact(None, -1)

  function AllOf(xml: Option<seq<Child>>): seq<string> {
    if xml.None? then [] else Groups(xml.value)
  }

  /** The element has a group of that text to remove. */
  predicate Has(xml: Option<seq<Child>>, group: string) {
    group != "" && xml.Some? && Group(group) in xml.value
  }

  /** What a call leaves of the element, whatever is cached. */
  function ElementAfter(xml: Option<seq<Child>>, op: Op): Option<seq<Child>> {
    match op
    case Wire(element) => element
    case Count => xml
    case Get(_) => xml
    case Add(group) =>
      if group == "" || Has(xml, group) then xml
      else Some((if xml.None? then [] else xml.value) + [Group(group)])
    case Remove(group) =>
      if !Has(xml, group) then xml else
        var pos := FindGroup(xml.value, group, 0);
        Some(xml.value[..pos] + xml.value[pos + 1..])
  }

  /** A call that makes the cache forget the count. */
  predicate Forgets(xml: Option<seq<Child>>, op: Op) {
    op.Wire? || (op.Remove? && Has(xml, op.group))
  }

  /** A call that counts unless there is a count, cached rightly or not. */
  predicate Counts(xml: Option<seq<Child>>, op: Op) {
    xml.Some? && (op.Count? || op.Get?)
  }

  predicate Adds(xml: Option<seq<Child>>, op: Op) {
    op.Add? && op.group != "" && !Has(xml, op.group)
  }

  /** The count is incremented even if there is none. */
  function Step(c: Contact, op: Op): Contact {
    Contact(ElementAfter(c.xml, op),
            if Forgets(c.xml, op) then -1
            else if Counts(c.xml, op) && c.count == -1 then |AllOf(c.xml)|
            else if Adds(c.xml, op) then c.count + 1
            else c.count)
  }

  /** What `GetGroupCount` returns. */
  function Reported(c: Contact): int {
    if c.xml.None? then 0 else Step(c, Count).count
  }

  function After(ops: seq<Op>): Contact {
    if ops == [] then FreshContact else Step(After(ops[..|ops| - 1]), ops[|ops| - 1])
  }

  // ---- when the count is right ---------------------------------------------------------

  /** The element after the first `k` calls. */
  function ElementAt(ops: seq<Op>, k: nat): Option<seq<Child>>
    requires k <= |ops|
  {
    if k == 0 then None else ElementAfter(ElementAt(ops, k - 1), ops[k - 1])
  }

  /** Number of calls up to the last that made the cache forget the count. */
  function LastReset(ops: seq<Op>, k: nat): (r: nat)
    requires k <= |ops|
    ensures r <= k
  {
    if k == 0 then 0 else if Forgets(ElementAt(ops, k - 1), ops[k - 1]) then k else LastReset(ops, k - 1)
  }

  ghost predicate CountedBefore(ops: seq<Op>, i: nat, k: nat)
    requires i <= k <= |ops|
  {
    exists j :: LastReset(ops, k) <= j < i && Counts(ElementAt(ops, j), ops[j])
  }

  /** Among the first `k` calls, a group was added after the last reset and before the groups
      were counted. */
  ghost predicate AddedBlindly(ops: seq<Op>, k: nat)
    requires k <= |ops|
  {
    exists i :: LastReset(ops, k) <= i < k && Adds(ElementAt(ops, i), ops[i]) && !CountedBefore(ops, i, k)
  }

  lemma AddedStep(ops: seq<Op>, k: nat)
    requires k < |ops|
    ensures var x, op := ElementAt(ops, k), ops[k];
            && (Forgets(x, op) ==> !AddedBlindly(ops, k + 1) && !CountedBefore(ops, k + 1, k + 1))
            && (!Forgets(x, op) ==>
                 && (CountedBefore(ops, k + 1, k + 1) <==> CountedBefore(ops, k, k) || Counts(x, op))
                 && (AddedBlindly(ops, k + 1) <==> AddedBlindly(ops, k) || (Adds(x, op) && !CountedBefore(ops, k, k))))
  {
    var x, op := ElementAt(ops, k), ops[k];
    if !Forgets(x, op) {
      assert LastReset(ops, k + 1) == LastReset(ops, k);
      forall i | LastReset(ops, k) <= i <= k ensures CountedBefore(ops, i, k + 1) <==> CountedBefore(ops, i, k) {
      }
      if Adds(x, op) && !CountedBefore(ops, k, k) {
        assert !CountedBefore(ops, k, k + 1);
        assert AddedBlindly(ops, k + 1);
      }
    }
  }

  lemma GroupsAfter(xml: Option<seq<Child>>, op: Op)
    ensures Adds(xml, op) ==> |AllOf(ElementAfter(xml, op))| == |AllOf(xml)| + 1
    ensures !Adds(xml, op) && !Forgets(xml, op) ==> ElementAfter(xml, op) == xml
  {
    hide Groups;
    if Adds(xml, op) {
      NoGroups([]);
      GroupsSnoc(if xml.None? then [] else xml.value, Group(op.group));
    }
  }

  /** What the cache holds after any calls: no count, the right one, or one that is too low
      because groups were added to no count. */
  lemma {:induction false} CacheAfter(ops: seq<Op>, k: nat)
    requires k <= |ops|
    ensures var c, n := After(ops[..k]), |AllOf(ElementAt(ops, k))|;
            && c.xml == ElementAt(ops, k)
            && -1 <= c.count <= n
            && (AddedBlindly(ops, k) ==> 0 <= c.count < n && c.xml.Some?)
            && (!AddedBlindly(ops, k) ==> c.count == if CountedBefore(ops, k, k) then n else -1)
  {
    hide Groups, LastReset, Forgets, Adds, Counts, ElementAfter, AddedBlindly, CountedBefore;
    if k == 0 {
      assert ops[..0] == [];
      NothingYet(ops);
    } else {
      CacheAfter(ops, k - 1);
      assert ops[..k][..k - 1] == ops[..k - 1];
      AddedStep(ops, k - 1);
      GroupsAfter(ElementAt(ops, k - 1), ops[k - 1]);
      CallKinds(ElementAt(ops, k - 1), ops[k - 1]);
    }
  }

  lemma NothingYet(ops: seq<Op>)
    ensures !AddedBlindly(ops, 0) && !CountedBefore(ops, 0, 0) && AllOf(None) == []
  {
  }

  /** A call does one of the three things at most. */
  lemma CallKinds(xml: Option<seq<Child>>, op: Op)
    ensures Adds(xml, op) ==> !Forgets(xml, op) && !Counts(xml, op) && ElementAfter(xml, op).Some?
    ensures Counts(xml, op) ==> !Forgets(xml, op) && xml.Some?
  {
  }

  /** After any calls the reported count is never too high, and it is right if and only if no
      group was added after the last reset before the groups were counted. */
  lemma CountIsRightIff(ops: seq<Op>)
    ensures var groups := AllOf(ElementAt(ops, |ops|));
            && 0 <= Reported(After(ops)) <= |groups|
            && (Reported(After(ops)) == |groups| <==> !AddedBlindly(ops, |ops|))
  {
    CacheAfter(ops, |ops|);
    assert ops[..|ops|] == ops;
  }

  // ---- the contact ---------------------------------------------------------------------

  class RosterContact {
    var xml: Option<seq<Child>>
    var groupCount: int
    var groupIndexReturned: int
    var groupReturned: nat
    /** The calls made so far. */
    ghost var calls: seq<Op>

    ghost function AllGroups(): seq<string>
      reads this
    {
      AllOf(xml)
    }

    /** The element and the count are what the calls made of them, and the cached position is
        that of its group. */
    ghost predicate Valid()
      reads this
    {
      && Contact(xml, groupCount) == After(calls)
      && (groupIndexReturned >= 0 ==> xml.Some? && IsNth(xml.value, groupReturned, groupIndexReturned))
    }

    constructor ()
      ensures Valid() && xml == None && groupCount == -1 && calls == []
    {
      xml, groupCount, groupIndexReturned, groupReturned, calls := None, -1, -1, 0, [];
    }

    method ResetGroupCache()
      modifies this`groupCount, this`groupIndexReturned
      ensures groupCount == -1 && groupIndexReturned == -1
    {
      groupCount, groupIndexReturned := -1, -1;
    }

    method SetXmlFromWire(x: Option<seq<Child>>)
      modifies this
      ensures Valid() && xml == x && groupCount == -1 && calls == old(calls) + [Wire(x)]
    {
      hide After, Groups;
      ResetGroupCache();
      xml := x;
      AfterSnoc(calls, Wire(x));
      calls := calls + [Wire(x)];
    }

    /** The number of groups, unless a group was added after the last reset and before the
        groups were counted. */
    method GetGroupCount() returns (r: nat)
      requires Valid()
      modifies this`groupCount, this`calls
      ensures Valid() && calls == old(calls) + [Count]
      ensures Contact(xml, groupCount) == Step(old(Contact(xml, groupCount)), Count)
      ensures r <= |AllGroups()|
      ensures r == |AllGroups()| <==> !AddedBlindly(old(calls), |old(calls)|)
      ensures r == Reported(old(Contact(xml, groupCount)))
      ensures xml.Some? ==> r == groupCount
    {
      hide After, Groups, AddedBlindly, ElementAt;
      CountOfCalls(calls);
      AfterSnoc(calls, Count);
      r := CountOrCached();
      calls := calls + [Count];
    }

    method CountOrCached() returns (r: nat)
      requires groupCount >= -1
      modifies this`groupCount
      ensures r == Reported(old(Contact(xml, groupCount)))
      ensures groupCount == Step(old(Contact(xml, groupCount)), Count).count
      ensures xml.Some? ==> r == groupCount
    {
      if xml.None? {
        return 0;
      }
      if groupCount == -1 {
        var n := CountGroups(xml.value);
        groupCount := n;
      }
      return groupCount;
    }

    static method CountGroups(kids: seq<Child>) returns (n: nat)
      ensures n == |Groups(kids)|
    {
      n := 0;
      var pos := NextGroup(kids, 0);
      assert kids[..0] == [];
      NextIsNth(kids, 0, 0);
      while pos < |kids|
        invariant 0 <= pos <= |kids|
        invariant pos < |kids| ==> IsNth(kids, pos, n)
        invariant pos == |kids| ==> |Groups(kids)| == n
        decreases |kids| - pos
      {
        AfterNth(kids, pos, n);
        NextIsNth(kids, pos + 1, n + 1);
        n := n + 1;
        pos := NextGroup(kids, pos + 1);
      }
    }

    /** The group at an index, as an uncached walk would find it. */
    method GetGroup(index: nat) returns (r: string)
      requires Valid()
      modifies this`groupCount, this`groupIndexReturned, this`groupReturned, this`calls
      ensures Valid() && calls == old(calls) + [Get(index)]
      ensures Contact(xml, groupCount) == Step(old(Contact(xml, groupCount)), Get(index))
      ensures if index < Reported(old(Contact(xml, groupCount)))
              then index < |AllGroups()| && r == AllGroups()[index] else r == ""
    {
      hide After, Groups, AddedBlindly, ElementAt;
      CountOfCalls(calls);
      AfterSnoc(calls, Get(index));
      var count := CountOrCached();
      calls := calls + [Get(index)];
      if index >= count {
        return "";
      }
      r := GroupAt(index);
    }

    /** Moves the cached position to the group at an index. */
    method GroupAt(index: nat) returns (r: string)
      requires Valid() && index < |AllGroups()|
      modifies this`groupIndexReturned, this`groupReturned
      ensures Valid() && r == AllGroups()[index]
    {
      hide After, Groups;
      var kids := xml.value;
      if groupIndexReturned >= 0 && index == groupIndexReturned + 1 {
        AfterNth(kids, groupReturned, groupIndexReturned);
        NextIsNth(kids, groupReturned + 1, index);
        groupReturned := NextGroup(kids, groupReturned + 1);
        groupIndexReturned := groupIndexReturned + 1;
      } else if groupIndexReturned < 0 || groupIndexReturned != index {
        var pos := WalkTo(kids, index);
        groupIndexReturned := index;
        groupReturned := pos;
      }
      NthText(kids, groupReturned, index);
      return kids[groupReturned].text;
    }

    static method WalkTo(kids: seq<Child>, index: nat) returns (pos: nat)
      requires index < |Groups(kids)|
      ensures IsNth(kids, pos, index)
    {
      pos := NextGroup(kids, 0);
      assert kids[..0] == [];
      NextIsNth(kids, 0, 0);
      var n := 0;
      while n < index
        invariant 0 <= n <= index && IsNth(kids, pos, n)
      {
        NthText(kids, pos, n);
        AfterNth(kids, pos, n);
        NextIsNth(kids, pos + 1, n + 1);
        n := n + 1;
        pos := NextGroup(kids, pos + 1);
      }
    }

    /** Adds a group unless the contact has it. The cached count is incremented even when it
        has never been computed. */
    method AddGroup(group: string) returns (ok: bool)
      requires Valid()
      modifies this
      ensures Valid() && (ok <==> group != "") && calls == old(calls) + [Add(group)]
      ensures Contact(xml, groupCount) == Step(old(Contact(xml, groupCount)), Add(group))
      ensures AllGroups() == if !ok || group in old(AllGroups()) then old(AllGroups()) else old(AllGroups()) + [group]
      ensures groupCount == old(groupCount) + |AllGroups()| - |old(AllGroups())|
    {
      hide Groups, After;
      AfterSnoc(calls, Add(group));
      calls := calls + [Add(group)];
      NoGroups([]);
      if group == "" {
        return false;
      }
      if xml.None? {
        xml := Some([]);
      }
      var kids := xml.value;
      GroupMember(kids, group);
      if FindGroup(kids, group, 0) < |kids| {
        return true;
      }
      GroupsSnoc(kids, Group(group));
      xml := Some(kids + [Group(group)]);
      if groupIndexReturned >= 0 {
        assert (kids + [Group(group)])[..groupReturned] == kids[..groupReturned];
      }
      groupCount := groupCount + 1;
      return true;
    }

    /** Removes the first group with that text and forgets the cache, or changes nothing. */
    method RemoveGroup(group: string) returns (ok: bool)
      requires Valid()
      modifies this
      ensures Valid() && (ok <==> group != "") && calls == old(calls) + [Remove(group)]
      ensures Contact(xml, groupCount) == Step(old(Contact(xml, groupCount)), Remove(group))
      ensures !ok || group !in old(AllGroups()) ==>
              && AllGroups() == old(AllGroups()) && groupCount == old(groupCount)
              && groupIndexReturned == old(groupIndexReturned)
      ensures ok && group in old(AllGroups()) ==> groupCount == -1 && DropsFirst(old(AllGroups()), AllGroups(), group)
    {
      hide Groups, After;
      AfterSnoc(calls, Remove(group));
      calls := calls + [Remove(group)];
      NoGroups([]);
      if group == "" {
        return false;
      }
      if xml.None? {
        return true;
      }
      var kids := xml.value;
      var pos := FindGroup(kids, group, 0);
      GroupMember(kids, group);
      if pos < |kids| {
        RemoveSpec(kids, group, pos);
        xml := Some(kids[..pos] + kids[pos + 1..]);
        ResetGroupCache();
      }
      return true;
    }
  }

  lemma CountOfCalls(ops: seq<Op>)
    ensures var c := After(ops);
            && c.count >= -1 && 0 <= Reported(c) <= |AllOf(c.xml)|
            && (Reported(c) == |AllOf(c.xml)| <==> !AddedBlindly(ops, |ops|))
  {
    CountIsRightIff(ops);
    CacheAfter(ops, |ops|);
    assert ops[..|ops|] == ops;
  }

  lemma AfterSnoc(ops: seq<Op>, op: Op)
    ensures After(ops + [op]) == Step(After(ops), op)
  {
    assert (ops + [op])[..|ops|] == ops;
  }

  /** Adding a group before the groups were ever counted leaves the count too low. */
  method CountBeforeAdding(first: string, second: string) returns (low: nat, right: nat)
    requires first != "" && second != "" && first != second
    ensures low == 1 && right == 2
  {
    hide After, Groups, AddedBlindly, ElementAt;
    NoGroups([]);
    var c := new RosterContact();
    var ok := c.AddGroup(first);
    ok := c.AddGroup(second);
    low := c.GetGroupCount();
    var d := new RosterContact();
    d.SetXmlFromWire(Some([]));
    var none := d.GetGroupCount();
    ok := d.AddGroup(first);
    ok := d.AddGroup(second);
    right := d.GetGroupCount();
  }
}
