/** The singly linked attribute and child lists of an element, with their tail pointers. */
module Elements {
  import opened Xml

  /** Every node is known by its position, so no node occurs twice. */
  ghost predicate Indexed<T>(nodes: seq<T>, index: map<T, nat>) {
    forall i :: 0 <= i < |nodes| ==> nodes[i] in index && index[nodes[i]] == i
  }

  /** `now` is `was` without position `i`. */
  ghost predicate Without<T>(was: seq<T>, i: nat, now: seq<T>) {
    && i < |was| && |now| == |was| - 1
    && (forall k :: 0 <= k < i ==> now[k] == was[k])
    && (forall k :: i <= k < |now| ==> now[k] == was[k + 1])
  }

  lemma RemoveNode<T>(was: seq<T>, index: map<T, nat>, i: nat) returns (now: seq<T>, moved: map<T, nat>)
    requires i < |was| && Indexed(was, index)
    ensures Without(was, i, now) && Indexed(now, moved)
  {
    now := was[..i] + was[i + 1..];
    moved := map n | n in index :: if index[n] <= i then index[n] else index[n] - 1;
  }

  lemma WithoutConcat<T>(was: seq<T>, i: nat, now: seq<T>)
    requires Without(was, i, now)
    ensures now == was[..i] + was[i + 1..]
  {
  }

  /** `now` is `was` with `x` put at position `i`. */
  ghost predicate With<T>(was: seq<T>, i: nat, x: T, now: seq<T>) {
    && i <= |was| && |now| == |was| + 1 && now[i] == x
    && (forall k :: 0 <= k < i ==> now[k] == was[k])
    && (forall k :: i < k < |now| ==> now[k] == was[k - 1])
  }

  lemma WithLast<T>(was: seq<T>, x: T, now: seq<T>)
    requires With(was, |was|, x, now)
    ensures now == was + [x]
  {
  }

  lemma InsertNode<T>(was: seq<T>, index: map<T, nat>, i: nat, x: T) returns (now: seq<T>, moved: map<T, nat>)
    requires i <= |was| && x !in was && Indexed(was, index)
    ensures With(was, i, x, now) && Indexed(now, moved)
  {
    now := was[..i] + [x] + was[i..];
    moved := (map n | n in index :: if index[n] < i then index[n] else index[n] + 1)[x := i];
  }

  // ---- attributes ----------------------------------------------------------------------

  /** Position of the first attribute with that name, or the length. */
  function IndexOfAttr(attrs: seq<Attr>, name: QName): (i: nat)
    ensures i <= |attrs|
    ensures i < |attrs| ==> attrs[i].name == name
    ensures forall k :: 0 <= k < i ==> attrs[k].name != name
  {
    if attrs == [] || attrs[0].name == name then 0 else 1 + IndexOfAttr(attrs[1..], name)
  }

  lemma IndexOfAttrIs(attrs: seq<Attr>, name: QName, i: nat)
    requires i <= |attrs| && (i < |attrs| ==> attrs[i].name == name)
    requires forall k :: 0 <= k < i ==> attrs[k].name != name
    ensures IndexOfAttr(attrs, name) == i
  {
  }

  /** Sets the value of the first attribute of that name, or appends one. */
  function WithAttr(attrs: seq<Attr>, name: QName, value: string): seq<Attr> {
    var i := IndexOfAttr(attrs, name);
    if i < |attrs| then attrs[i := Attr(name, value)] else attrs + [Attr(name, value)]
  }

  /** Drops the first attribute of that name. */
  function WithoutAttr(attrs: seq<Attr>, name: QName): seq<Attr> {
    var i := IndexOfAttr(attrs, name);
    if i < |attrs| then attrs[..i] + attrs[i + 1..] else attrs
  }

  /** The value of the first attribute of that name. */
  function ValueOf(attrs: seq<Attr>, name: QName): Option<string> {
    var i := IndexOfAttr(attrs, name);
    if i < |attrs| then Some(attrs[i].value) else None
  }

  /** The value that is set is the value found, all other names keep theirs, and setting again
      replaces it. */
  lemma SetThenGet(attrs: seq<Attr>, name: QName, value: string, other: QName)
    ensures ValueOf(WithAttr(attrs, name, value), other) ==
            if other == name then Some(value) else ValueOf(attrs, other)
    ensures |WithAttr(attrs, name, value)| == |attrs| + if ValueOf(attrs, name).Some? then 0 else 1
    ensures forall k :: 0 <= k < |attrs| ==> WithAttr(attrs, name, value)[k].name == attrs[k].name
  {
    hide IndexOfAttr;
    var now, i, j := WithAttr(attrs, name, value), IndexOfAttr(attrs, name), IndexOfAttr(attrs, other);
    if other == name {
      IndexOfAttrIs(now, name, i);
    } else {
      IndexOfAttrIs(now, other, if j < |attrs| then j else |now|);
    }
  }

  /** Clearing a name that is given once leaves no value of it and all others. */
  lemma ClearThenGet(attrs: seq<Attr>, name: QName, other: QName)
    requires DistinctNames(attrs)
    ensures ValueOf(WithoutAttr(attrs, name), other) == if other == name then None else ValueOf(attrs, other)
    ensures DistinctNames(WithoutAttr(attrs, name))
  {
    hide IndexOfAttr;
    var left, i, j := WithoutAttr(attrs, name), IndexOfAttr(attrs, name), IndexOfAttr(attrs, other);
    if i < |attrs| {
      assert forall k :: 0 <= k < |left| ==> left[k] == attrs[if k < i then k else k + 1];
    }
    if other == name {
      IndexOfAttrIs(left, name, |left|);
    } else {
      var k := if j == |attrs| then |left| else if j < i || i == |attrs| then j else j - 1;
      IndexOfAttrIs(left, other, k);
    }
  }

  class AttrNode {
    var next: AttrNode?
    var name: QName
    var value: string

    constructor (name: QName, value: string)
      ensures next == null && this.name == name && this.value == value
    {
      this.name, this.value := name, value;
      next := null;
    }
  }

  /** The node at a position, or null outside the list. */
  ghost function AttrAt(nodes: seq<AttrNode>, i: int): AttrNode? {
    if 0 <= i < |nodes| then nodes[i] else null
  }

  class AttrList {
    var first: AttrNode?
    var last: AttrNode?
    ghost var nodes: seq<AttrNode>
    ghost var index: map<AttrNode, nat>

    /** The nodes are distinct and linked in order, and the tail pointer is on the last. */
    ghost predicate Valid()
      reads this, nodes
    {
      && Indexed(nodes, index)
      && (forall i :: 0 <= i < |nodes| ==> nodes[i].next == AttrAt(nodes, i + 1))
      && first == AttrAt(nodes, 0)
      && last == AttrAt(nodes, |nodes| - 1)
    }

    ghost function Contents(): (r: seq<Attr>)
      reads this, nodes
      ensures |r| == |nodes| && forall i :: 0 <= i < |r| ==> r[i] == Attr(nodes[i].name, nodes[i].value)
    {
      seq(|nodes|, i requires 0 <= i < |nodes| reads this, nodes => Attr(nodes[i].name, nodes[i].value))
    }

    constructor ()
      ensures Valid() && Contents() == [] && nodes == []
    {
      first, last, nodes, index := null, null, [], map[];
    }

    /** The first attribute of that name and the one before it; null where there is none. */
    method Locate(name: QName) returns (attr: AttrNode?, prev: AttrNode?, ghost i: nat)
      requires Valid()
      ensures i == IndexOfAttr(Contents(), name) <= |nodes|
      ensures attr == AttrAt(nodes, i)
      ensures prev == AttrAt(nodes, i - 1)
    {
      hide Contents, IndexOfAttr, Indexed;
      attr, prev, i := first, null, 0;
      while attr != null && attr.name != name
        invariant 0 <= i <= |nodes|
        invariant attr == AttrAt(nodes, i)
        invariant prev == AttrAt(nodes, i - 1)
        invariant forall k :: 0 <= k < i ==> nodes[k].name != name
        decreases |nodes| - i
      {
        prev, attr, i := attr, attr.next, i + 1;
      }
      IndexOfAttrIs(Contents(), name, i);
    }

    /** The value of an attribute, or the empty string. */
    method Value(name: QName) returns (r: string, present: bool)
      requires Valid()
      ensures var i := IndexOfAttr(Contents(), name);
              && (present <==> i < |Contents()|)
              && r == if present then Contents()[i].value else ""
    {
      var attr, prev, i := Locate(name);
      if attr == null {
        return "", false;
      }
      return attr.value, true;
    }

    method AddAttr(name: QName, value: string)
      requires Valid()
      modifies this, last
      ensures Valid() && Contents() == old(Contents()) + [Attr(name, value)]
      ensures forall n :: n in nodes && n !in old(nodes) ==> fresh(n)
    {
      hide Contents, Indexed, AttrAt;
      var attr := new AttrNode(name, value);
      Append(attr);
      WithLast(old(nodes), attr, nodes);
    }

    method Append(attr: AttrNode)
      requires Valid() && attr !in nodes && attr.next == null
      modifies this, last
      ensures Valid() && With(old(nodes), |old(nodes)|, attr, nodes)
      ensures old(last) != null ==> old(last).name == old(last.name) && old(last).value == old(last.value)
    {
      ghost var now, moved := InsertNode(nodes, index, |nodes|, attr);
      if last != null {
        last.next := attr;
      } else {
        first := attr;
      }
      last := attr;
      nodes, index := now, moved;
    }

    method SetAttr(name: QName, value: string)
      requires Valid()
      modifies this, nodes
      ensures Valid() && Contents() == WithAttr(old(Contents()), name, value)
      ensures forall n :: n in nodes && n !in old(nodes) ==> fresh(n)
    {
      var attr, prev, i := Locate(name);
      if attr == null {
        AddAttr(name, value);
      } else {
        Assign(attr, value, i);
      }
    }

    method Assign(attr: AttrNode, value: string, ghost i: nat)
      requires Valid() && i < |nodes| && nodes[i] == attr
      modifies attr
      ensures Valid() && Contents() == old(Contents())[i := Attr(attr.name, value)] && attr.name == old(attr.name)
    {
      hide Contents, AttrAt;
      attr.value := value;
      assert forall k :: 0 <= k < |nodes| && k != i ==> nodes[k] != attr;
    }

    method ClearAttr(name: QName)
      requires Valid()
      modifies this, nodes
      ensures Valid() && Contents() == WithoutAttr(old(Contents()), name)
      ensures forall n :: n in nodes ==> n in old(nodes)
    {
      hide Contents, Indexed, IndexOfAttr;
      var attr, prev, i := Locate(name);
      if attr != null {
        assert i < |nodes| && (i > 0 ==> prev == nodes[i - 1]);
        hide AttrAt;
        Remove(attr, prev, i);
      }
    }

    method Remove(attr: AttrNode, prev: AttrNode?, ghost i: nat)
      requires Valid() && i < |nodes| && attr == nodes[i] && prev == AttrAt(nodes, i - 1)
      modifies this, prev
      ensures Valid() && Contents() == old(Contents())[..i] + old(Contents())[i + 1..]
      ensures forall n :: n in nodes ==> n in old(nodes)
    {
      Unlink(attr, prev, i);
      UnlinkedContents(i);
    }

    /** What removing a node means for the contents. */
    twostate lemma UnlinkedContents(i: nat)
      requires old(Valid()) && i < |old(nodes)| && Without(old(nodes), i, nodes)
      requires forall n :: n in nodes ==> n.name == old(n.name) && n.value == old(n.value)
      ensures Contents() == old(Contents())[..i] + old(Contents())[i + 1..]
      ensures forall n :: n in nodes ==> n in old(nodes)
    {
      hide Contents, Indexed, AttrAt;
      WithoutConcat(old(Contents()), i, Contents());
    }

    method Unlink(attr: AttrNode, prev: AttrNode?, ghost i: nat)
      requires Valid() && i < |nodes| && attr == nodes[i] && prev == AttrAt(nodes, i - 1)
      modifies this, prev
      ensures Valid() && Without(old(nodes), i, nodes)
      ensures prev != null ==> prev.name == old(prev.name) && prev.value == old(prev.value)
    {
      ghost var now, moved := RemoveNode(nodes, index, i);
      if prev == null {
        first := attr.next;
      } else {
        prev.next := attr.next;
      }
      if last == attr {
        last := prev;
      }
      nodes, index := now, moved;
    }

    method ClearAttributes()
      modifies this
      ensures Valid() && Contents() == []
    {
      first, last, nodes, index := null, null, [], map[];
    }
  }

  // ---- children ------------------------------------------------------------------------

  /** A child in a list: character data, or an element known by its name. */
  datatype Kid = TextKid(text: string) | ElementKid(name: QName)

  /** Character data is joined to the child before `tail`. */
  predicate Joins(kids: seq<Kid>, t: string, tail: nat)
    requires tail <= |kids|
  {
    t != "" && tail > 0 && kids[tail - 1].TextKid?
  }

  /** Joins character data to a text child before `tail`, or puts it there as the last child;
      adds nothing for the empty string. */
  function AddedText(kids: seq<Kid>, t: string, tail: nat): seq<Kid>
    requires tail <= |kids|
  {
    if t == "" then kids
    else if Joins(kids, t, tail) then kids[tail - 1 := TextKid(kids[tail - 1].text + t)]
    else kids[..tail] + [TextKid(t)]
  }

  /** The text of all text children, one after the other. */
  function AllText(kids: seq<Kid>): string {
    if kids == [] then "" else
      AllText(kids[..|kids| - 1]) + if kids[|kids| - 1].TextKid? then kids[|kids| - 1].text else ""
  }

  /** Text that is added in two pieces is the text that is added at once; it is joined to a
      text child and put after anything else; the elements stay. */
  lemma AddedTextLaws(kids: seq<Kid>, s: string, t: string)
    ensures var once := AddedText(kids, s, |kids|);
            && AddedText(once, t, |once|) == AddedText(kids, s + t, |kids|)
            && AllText(once) == AllText(kids) + s
            && (s != "" ==> once != [] && once[|once| - 1].TextKid?)
            && |once| == |kids| + if s == "" || (kids != [] && kids[|kids| - 1].TextKid?) then 0 else 1
  {
    var n := |kids|;
    var once := AddedText(kids, s, n);
    assert kids[..n] == kids;
    assert s == "" ==> s + t == t;
    assert t == "" ==> s + t == s;
    if s != "" {
      if n > 0 && kids[n - 1].TextKid? {
        ConcatAssoc(kids[n - 1].text, s, t);
        assert once[..n - 1] == kids[..n - 1];
        ConcatAssoc(AllText(kids[..n - 1]), kids[n - 1].text, s);
      } else {
        assert once[..n] == kids;
      }
      var m := |once|;
      if t != "" {
        assert once[m - 1].TextKid?;
        assert AddedText(once, t, m) == once[m - 1 := TextKid(once[m - 1].text + t)];
        assert AddedText(kids, s + t, n) == AddedText(once, t, m);
      }
    }
    assert once[..|once|] == once;
  }

  /** What `BodyText` returns. */
  function BodyOf(kids: seq<Kid>, tail: nat): string {
    if IsBody(kids, tail) then kids[0].text else ""
  }

  /** With a right tail pointer, the text that is set is the body text, and nothing else is
      left. */
  lemma SetThenBody(kids: seq<Kid>, t: string)
    ensures var now := BodySet(kids, t, |kids|);
            BodyOf(now, |now|) == t && AllText(now) == t && |now| == if t == "" then 0 else 1
  {
    var now := BodySet(kids, t, |kids|);
    if t != "" {
      assert now == [TextKid(t)] && now[..0] == [];
    }
  }

  /** The children that are not elements of that name. */
  function Unnamed(kids: seq<Kid>, name: QName): seq<Kid> {
    if kids == [] then []
    else
      var init, last := Unnamed(kids[..|kids| - 1], name), kids[|kids| - 1];
      if last == ElementKid(name) then init else init + [last]
  }

  lemma {:induction false} UnnamedConcat(a: seq<Kid>, b: seq<Kid>, name: QName)
    ensures Unnamed(a + b, name) == Unnamed(a, name) + Unnamed(b, name)
    decreases b
  {
    if b == [] {
      assert a + b == a;
    } else {
      assert (a + b)[..|a + b| - 1] == a + b[..|b| - 1];
      UnnamedConcat(a, b[..|b| - 1], name);
    }
  }

  /** One step of filtering from the front. */
  lemma UnnamedStep(kids: seq<Kid>, i: nat, name: QName)
    requires i < |kids|
    ensures var rest := Unnamed(kids[i + 1..], name);
            Unnamed(kids[i..], name) == if kids[i] == ElementKid(name) then rest else [kids[i]] + rest
  {
    hide Unnamed;
    assert kids[i..] == [kids[i]] + kids[i + 1..];
    UnnamedConcat([kids[i]], kids[i + 1..], name);
    UnnamedOne(kids[i], name);
  }

  lemma UnnamedOne(kid: Kid, name: QName)
    ensures Unnamed([kid], name) == if kid == ElementKid(name) then [] else [kid]
  {
    assert [kid][..0] == [];
  }

  /** The first `k` children have been filtered, the others not yet. */
  ghost predicate Filtering(kids: seq<Kid>, k: nat, name: QName, target: seq<Kid>) {
    k <= |kids| && kids[..k] + Unnamed(kids[k..], name) == target
  }

  lemma FilterKeep(kids: seq<Kid>, k: nat, name: QName, target: seq<Kid>)
    requires k < |kids| && kids[k] != ElementKid(name) && Filtering(kids, k, name, target)
    ensures Filtering(kids, k + 1, name, target)
  {
    hide Unnamed;
    UnnamedStep(kids, k, name);
    ConcatAssoc(kids[..k], [kids[k]], Unnamed(kids[k + 1..], name));
    assert kids[..k + 1] == kids[..k] + [kids[k]];
  }

  lemma FilterDrop(kids: seq<Kid>, k: nat, name: QName, target: seq<Kid>)
    requires k < |kids| && kids[k] == ElementKid(name) && Filtering(kids, k, name, target)
    ensures Filtering(kids[..k] + kids[k + 1..], k, name, target)
  {
    UnnamedStep(kids, k, name);
    var now := kids[..k] + kids[k + 1..];
    assert now[..k] == kids[..k] && now[k..] == kids[k + 1..];
  }

  lemma FilterEnds(kids: seq<Kid>, name: QName, target: seq<Kid>)
    ensures Filtering(kids, 0, name, Unnamed(kids, name))
    ensures Filtering(kids, |kids|, name, target) ==> kids == target
  {
    assert kids[0..] == kids && kids[..0] == [] && kids[|kids|..] == [] && kids[..|kids|] == kids;
    assert [] + Unnamed(kids, name) == Unnamed(kids, name) && kids + [] == kids;
  }

  /** Where the tail pointer ends up when the children from `k` on are still to be filtered. */
  ghost function TailGoal(kids: seq<Kid>, k: nat, tail: nat, name: QName): nat
    requires k <= |kids| && tail <= |kids|
  {
    if k < tail then k + |Unnamed(kids[k..tail], name)| else tail
  }

  lemma GoalAtEnd(kids: seq<Kid>, tail: nat, name: QName)
    requires tail <= |kids|
    ensures TailGoal(kids, |kids|, tail, name) == tail
  {
  }

  lemma GoalAtStart(kids: seq<Kid>, tail: nat, name: QName)
    requires tail <= |kids|
    ensures TailGoal(kids, 0, tail, name) == |Unnamed(kids[..tail], name)|
  {
    assert kids[0..tail] == kids[..tail];
    UnnamedNothing(name);
  }

  lemma GoalKeep(kids: seq<Kid>, k: nat, tail: nat, name: QName)
    requires k < |kids| && tail <= |kids| && kids[k] != ElementKid(name)
    ensures TailGoal(kids, k + 1, tail, name) == TailGoal(kids, k, tail, name)
  {
    hide Unnamed;
    if k < tail {
      GoalStep(kids, k, tail, name);
    }
  }

  lemma GoalStep(kids: seq<Kid>, k: nat, tail: nat, name: QName)
    requires k < tail <= |kids|
    ensures var rest := Unnamed(kids[k + 1..tail], name);
            Unnamed(kids[k..tail], name) == if kids[k] == ElementKid(name) then rest else [kids[k]] + rest
    ensures Unnamed(kids[tail..tail], name) == []
  {
    hide Unnamed;
    UnnamedStep(kids[k..tail], 0, name);
    assert kids[k..tail][0..] == kids[k..tail] && kids[k..tail][1..] == kids[k + 1..tail];
    UnnamedNothing(name);
    assert kids[tail..tail] == [];
  }

  lemma UnnamedNothing(name: QName)
    ensures Unnamed([], name) == []
  {
  }

  lemma GoalDrop(kids: seq<Kid>, k: nat, tail: nat, name: QName)
    requires k < |kids| && tail <= |kids| && kids[k] == ElementKid(name)
    ensures var now := kids[..k] + kids[k + 1..];
            TailGoal(now, k, if k < tail then tail - 1 else tail, name) == TailGoal(kids, k, tail, name)
  {
    hide Unnamed;
    if k < tail {
      var now := kids[..k] + kids[k + 1..];
      GoalStep(kids, k, tail, name);
      assert now[k..tail - 1] == kids[k + 1..tail];
    }
  }

  /** The tail pointer is on a text child that comes first. */
  predicate IsBody(kids: seq<Kid>, tail: nat) {
    tail == 1 && kids != [] && kids[0].TextKid?
  }

  function BodySet(kids: seq<Kid>, t: string, tail: nat): seq<Kid> {
    if t == "" then []
    else if IsBody(kids, tail) then kids[0 := TextKid(t)]
    else [TextKid(t)]
  }

  class ChildNode {
    var next: ChildNode?
    var kid: Kid

    constructor (kid: Kid)
      ensures next == null && this.kid == kid
    {
      this.kid := kid;
      next := null;
    }
  }

  /** The node at a position, or null outside the list. */
  ghost function KidAt(nodes: seq<ChildNode>, i: int): ChildNode? {
    if 0 <= i < |nodes| then nodes[i] else null
  }

  class ChildList {
    var first: ChildNode?
    var last: ChildNode?
    ghost var nodes: seq<ChildNode>
    ghost var index: map<ChildNode, nat>

    /** The nodes are distinct and linked in order from the first. */
    ghost predicate Linked()
      reads this, nodes
    {
      && Indexed(nodes, index)
      && (forall i :: 0 <= i < |nodes| ==> nodes[i].next == KidAt(nodes, i + 1))
      && first == KidAt(nodes, 0)
    }

    /** The tail pointer is on the last of the first `t` nodes. */
    ghost predicate TailAt(t: nat)
      reads this
    {
      t <= |nodes| && last == KidAt(nodes, t - 1)
    }

    /** The tail pointer is on the last node that can be reached. */
    ghost predicate Valid()
      reads this, nodes
    {
      Linked() && TailAt(|nodes|)
    }

    ghost function Contents(): (r: seq<Kid>)
      reads this, nodes
      ensures |r| == |nodes| && forall i :: 0 <= i < |r| ==> r[i] == nodes[i].kid
    {
      seq(|nodes|, i requires 0 <= i < |nodes| reads this, nodes => nodes[i].kid)
    }

    constructor ()
      ensures Valid() && Contents() == [] && nodes == []
    {
      first, last, nodes, index := null, null, [], map[];
    }

    /** Puts a node that is not in the list where the tail pointer is: at the end if it is
        right, and otherwise in place of everything after it. */
    method Append(child: ChildNode, ghost tail: nat)
      requires Linked() && TailAt(tail) && child !in nodes
      modifies this, last, child
      ensures Valid() && nodes == old(nodes)[..tail] + [child] && child.kid == old(child.kid)
      ensures Contents() == old(Contents())[..tail] + [child.kid]
    {
      hide Contents, Indexed, KidAt;
      LinkLast(child, tail);
      WithLast(old(nodes)[..tail], child, nodes);
      assert Contents() == old(Contents())[..tail] + [child.kid];
    }

    method LinkLast(child: ChildNode, ghost tail: nat)
      requires Linked() && TailAt(tail) && child !in nodes
      modifies this, last, child
      ensures Valid() && With(old(nodes)[..tail], tail, child, nodes) && child.kid == old(child.kid)
      ensures old(last) != null ==> old(last).kid == old(last.kid)
    {
      ghost var was := nodes[..tail];
      ghost var now, moved := InsertNode(was, index, tail, child);
      UpToTail(was);
      if last != null {
        last.next := child;
      } else {
        first := child;
      }
      last := child;
      child.next := null;
      nodes, index := now, moved;
      Relinked(was, child);
    }

    /** The nodes up to the tail pointer's are linked and differ from it except the last. */
    lemma UpToTail(was: seq<ChildNode>)
      requires Linked() && TailAt(|was|) && was == nodes[..|was|]
      ensures forall i :: 0 <= i < |was| - 1 ==> was[i].next == was[i + 1] && was[i] != last
      ensures was != [] ==> first == was[0] && last == was[|was| - 1]
    {
    }

    lemma Relinked(was: seq<ChildNode>, child: ChildNode)
      requires Indexed(nodes, index) && With(was, |was|, child, nodes) && child.next == null && last == child
      requires was == [] ==> first == child
      requires was != [] ==> first == was[0] && was[|was| - 1].next == child
      requires forall i :: 0 <= i < |was| - 1 ==> was[i].next == was[i + 1]
      ensures Valid()
    {
      hide Indexed;
      forall i | 0 <= i < |nodes| ensures nodes[i].next == KidAt(nodes, i + 1) {
        if i < |was| {
          assert nodes[i] == was[i];
        }
      }
    }

    method AddElement(child: ChildNode?, ghost tail: nat)
      requires Linked() && TailAt(tail) && (child != null ==> child !in nodes && child.kid.ElementKid?)
      modifies this, last, child
      ensures Linked() && (child != null || tail == |old(nodes)| ==> Valid())
      ensures Contents() == if child == null then old(Contents()) else old(Contents())[..tail] + [old(child.kid)]
    {
      if child == null {
        return;
      }
      Append(child, tail);
    }

    /** Text joined to the tail node leaves the list and the tail pointer as they are. */
    method AddText(t: string, ghost tail: nat)
      requires Linked() && TailAt(tail)
      modifies this, last
      ensures Linked() && Contents() == AddedText(old(Contents()), t, tail)
      ensures if t == "" || Joins(old(Contents()), t, tail) then nodes == old(nodes) && TailAt(tail) else Valid()
      ensures forall n :: n in nodes && n !in old(nodes) ==> fresh(n)
    {
      if t == "" {
        return;
      }
      hide Contents, Indexed;
      if last != null && last.kid.TextKid? {
        Join(last, t, tail - 1);
        return;
      }
      AppendText(t, tail);
    }

    method AppendText(t: string, ghost tail: nat)
      requires Linked() && TailAt(tail)
      modifies this, last
      ensures Valid() && Contents() == old(Contents())[..tail] + [TextKid(t)]
      ensures forall n :: n in nodes && n !in old(nodes) ==> fresh(n)
    {
      hide Contents, Indexed, KidAt;
      var child := new ChildNode(TextKid(t));
      Append(child, tail);
    }

    method Join(node: ChildNode, t: string, ghost i: nat)
      requires Linked() && i < |nodes| && node == nodes[i] && node.kid.TextKid?
      modifies node`kid
      ensures Linked() && Contents() == old(Contents())[i := TextKid(old(node.kid.text) + t)]
    {
      node.kid := TextKid(node.kid.text + t);
    }

    /** The text of the first child, if it is text and the tail pointer is on it: of the only
        child, if the pointer is right. */
    method BodyText(ghost tail: nat) returns (r: string)
      requires Linked() && TailAt(tail)
      ensures r == if tail == 1 && Contents()[0].TextKid? then Contents()[0].text else ""
      ensures r == BodyOf(Contents(), tail)
    {
      if first != null && first.kid.TextKid? && last == first {
        return first.kid.text;
      }
      return "";
    }

    /** Makes text the only child, or removes all children for the empty string. If the tail
        pointer was left on a text child that came first, the children after it stay. */
    method SetBodyText(t: string, ghost tail: nat)
      requires Linked() && TailAt(tail)
      modifies this, first
      ensures Linked() && Contents() == BodySet(old(Contents()), t, tail)
      ensures if t != "" && IsBody(old(Contents()), tail) then nodes == old(nodes) && TailAt(tail) else Valid()
    {
      if t == "" {
        ClearChildren();
      } else if first == null {
        AddText(t, 0);
      } else if first.kid.TextKid? && last == first {
        ReplaceFirst(t);
      } else {
        ClearChildren();
        AddText(t, 0);
      }
    }

    method ReplaceFirst(t: string)
      requires Linked() && nodes != [] && first != null && first.kid.TextKid?
      modifies first`kid
      ensures Linked() && Contents() == old(Contents())[0 := TextKid(t)]
    {
      hide Contents;
      first.kid := TextKid(t);
      assert forall k :: 0 < k < |nodes| ==> nodes[k] != first;
    }

    /** Removes the child after `pred`, or the first child for null. The tail pointer stays on
        its node, or moves to the one before when that is removed. */
    method RemoveChildAfter(pred: ChildNode?, ghost i: nat, ghost tail: nat)
      requires Linked() && TailAt(tail) && i < |nodes| && pred == KidAt(nodes, i - 1)
      modifies this, pred
      ensures Linked() && Without(old(nodes), i, nodes) && TailAt(if i < tail then tail - 1 else tail)
      ensures forall n :: n in nodes ==> n in old(nodes)
      ensures forall n :: n in nodes ==> n.kid == old(n.kid)
      ensures Contents() == old(Contents())[..i] + old(Contents())[i + 1..]
    {
      hide Indexed, KidAt, Contents;
      NextIs(pred, i, tail);
      var next := if pred == null then first else pred.next;
      Unlink(next, pred, i);
      MoveTail(next, pred, i, tail, old(nodes));
      RemovedContents(i);
    }

    lemma NextIs(pred: ChildNode?, i: nat, tail: nat)
      requires Linked() && TailAt(tail) && i < |nodes| && pred == KidAt(nodes, i - 1)
      ensures (if pred == null then first else pred.next) == nodes[i]
      ensures last == nodes[i] <==> tail == i + 1
    {
    }

    method MoveTail(next: ChildNode, pred: ChildNode?, ghost i: nat, ghost tail: nat, ghost was: seq<ChildNode>)
      requires Without(was, i, nodes) && tail <= |was| && last == KidAt(was, tail - 1)
      requires (last == next <==> tail == i + 1) && pred == KidAt(was, i - 1)
      modifies `last
      ensures TailAt(if i < tail then tail - 1 else tail)
    {
      if last == next {
        last := pred;
      }
    }

    method Unlink(next: ChildNode, pred: ChildNode?, ghost i: nat)
      requires Linked() && i < |nodes| && next == nodes[i] && pred == KidAt(nodes, i - 1)
      modifies `first, `nodes, `index, pred
      ensures Linked() && Without(old(nodes), i, nodes)
      ensures pred != null ==> pred.kid == old(pred.kid)
    {
      ghost var now, moved := RemoveNode(nodes, index, i);
      if pred == null {
        first := next.next;
      } else {
        pred.next := next.next;
      }
      nodes, index := now, moved;
    }

    /** What removing a child means for the contents. */
    twostate lemma RemovedContents(i: nat)
      requires old(Linked()) && i < |old(nodes)| && Without(old(nodes), i, nodes)
      requires forall n :: n in nodes ==> n.kid == old(n.kid)
      ensures Contents() == old(Contents())[..i] + old(Contents())[i + 1..]
      ensures forall n :: n in nodes ==> n in old(nodes)
    {
      hide Contents, Indexed, KidAt;
      WithoutConcat(old(Contents()), i, Contents());
    }

    /** Inserts a child after `pred`, or first for null. The tail pointer is not maintained,
        so it stays right exactly when the child does not become the last one. */
    method InsertChildAfter(pred: ChildNode?, child: ChildNode, ghost i: nat, ghost tail: nat)
      requires Linked() && TailAt(tail) && child !in nodes && i <= |nodes| && pred == KidAt(nodes, i - 1)
      modifies this, pred, child
      ensures Linked() && With(old(nodes), i, child, nodes) && TailAt(if tail <= i then tail else tail + 1)
      ensures child.kid == old(child.kid) && (pred != null ==> pred.kid == old(pred.kid))
      ensures Valid() <==> tail == |old(nodes)| && pred != old(last)
    {
      LinkIn(pred, child, i);
    }

    method LinkIn(pred: ChildNode?, child: ChildNode, ghost i: nat)
      requires Linked() && child !in nodes && i <= |nodes| && pred == KidAt(nodes, i - 1)
      modifies `first, `nodes, `index, pred, child
      ensures Linked() && With(old(nodes), i, child, nodes)
      ensures child.kid == old(child.kid) && (pred != null ==> pred.kid == old(pred.kid))
    {
      hide Indexed, With;
      if pred == null {
        LinkFirst(child);
      } else {
        LinkAfter(pred, child, i);
      }
    }

    method LinkFirst(child: ChildNode)
      requires Linked() && child !in nodes
      modifies `first, `nodes, `index, child`next
      ensures Linked() && With(old(nodes), 0, child, nodes)
    {
      ghost var now, moved := InsertNode(nodes, index, 0, child);
      child.next := first;
      first := child;
      nodes, index := now, moved;
    }

    method LinkAfter(pred: ChildNode, child: ChildNode, ghost i: nat)
      requires Linked() && child !in nodes && 0 < i <= |nodes| && pred == nodes[i - 1]
      modifies `nodes, `index, pred`next, child`next
      ensures Linked() && With(old(nodes), i, child, nodes)
    {
      ghost var now, moved := InsertNode(nodes, index, i, child);
      child.next := pred.next;
      pred.next := child;
      nodes, index := now, moved;
    }

    /** Removes every element of that name. The tail pointer ends on the last kept child up to
        where it was. */
    method ClearNamedChildren(name: QName, ghost tail: nat)
      requires Linked() && TailAt(tail)
      modifies this, nodes
      ensures Linked() && Contents() == Unnamed(old(Contents()), name)
      ensures TailAt(|Unnamed(old(Contents())[..tail], name)|)
      ensures tail == |old(nodes)| ==> Valid()
      ensures forall n :: n in nodes ==> n in old(nodes)
    {
      ghost var was, target := Contents(), Unnamed(Contents(), name);
      FilterEnds(was, name, target);
      hide Filtering, Unnamed, Indexed, Contents, TailGoal;
      GoalAtStart(was, tail, name);
      assert was[..|was|] == was;
      ghost var now := ClearFrom(name, target, tail);
      FilterEnds(Contents(), name, target);
    }

    /** The loop over the children, which unlinks each one to be removed. */
    method ClearFrom(name: QName, ghost target: seq<Kid>, ghost tail: nat) returns (ghost now: nat)
      requires Linked() && TailAt(tail) && Filtering(Contents(), 0, name, target)
      modifies this, nodes
      ensures Linked() && Filtering(Contents(), |nodes|, name, target)
      ensures TailAt(now) && now == TailGoal(old(Contents()), 0, tail, name)
      ensures forall n :: n in nodes ==> n in old(nodes)
    {
      hide Filtering, Unnamed, Indexed, Contents, TailGoal;
      var prev, child := null, first;
      ghost var kept := 0;
      ghost var goal := TailGoal(Contents(), 0, tail, name);
      now := tail;
      while child != null
        invariant Linked() && TailAt(now) && 0 <= kept <= |nodes|
        invariant TailGoal(Contents(), kept, now, name) == goal
        invariant forall n :: n in nodes ==> n in old(nodes)
        invariant prev == null || prev in old(nodes)
        invariant Filtering(Contents(), kept, name, target)
        invariant prev == KidAt(nodes, kept - 1) && child == KidAt(nodes, kept)
        decreases |nodes| - kept
      {
        var next := child.next;
        prev, kept, now := Visit(prev, child, kept, name, target, now);
        child := next;
      }
      GoalAtEnd(Contents(), now, name);
    }

    /** Removes or keeps one child; returns the last one kept. */
    method Visit(prev: ChildNode?, child: ChildNode, ghost k: nat, name: QName, ghost target: seq<Kid>, ghost tail: nat)
      returns (p: ChildNode?, ghost kept: nat, ghost now: nat)
      requires Linked() && TailAt(tail) && k < |nodes| && prev == KidAt(nodes, k - 1) && child == nodes[k]
      requires Filtering(Contents(), k, name, target)
      modifies this, prev
      ensures Linked() && TailAt(now) && kept <= |nodes| && |nodes| - kept == |old(nodes)| - k - 1
      ensures Filtering(Contents(), kept, name, target)
      ensures TailGoal(Contents(), kept, now, name) == old(TailGoal(Contents(), k, tail, name))
      ensures forall n :: n in nodes ==> n in old(nodes)
      ensures p == prev || p == child
      ensures p == KidAt(nodes, kept - 1) && KidAt(nodes, kept) == KidAt(old(nodes), k + 1)
    {
      hide Filtering, Unnamed, Indexed, Contents, TailGoal;
      if child.kid == ElementKid(name) {
        DropNamed(prev, k, name, target, tail);
        p, kept, now := prev, k, if k < tail then tail - 1 else tail;
      } else {
        FilterKeep(Contents(), k, name, target);
        GoalKeep(Contents(), k, tail, name);
        p, kept, now := child, k + 1, tail;
      }
    }

    method DropNamed(prev: ChildNode?, ghost k: nat, name: QName, ghost target: seq<Kid>, ghost tail: nat)
      requires Linked() && TailAt(tail) && k < |nodes| && prev == KidAt(nodes, k - 1)
      requires Contents()[k] == ElementKid(name) && Filtering(Contents(), k, name, target)
      modifies this, prev
      ensures var now := if k < tail then tail - 1 else tail;
              && Linked() && TailAt(now) && Filtering(Contents(), k, name, target) && |nodes| == |old(nodes)| - 1
              && TailGoal(Contents(), k, now, name) == old(TailGoal(Contents(), k, tail, name))
      ensures forall n :: n in nodes ==> n in old(nodes)
      ensures prev == KidAt(nodes, k - 1) && KidAt(nodes, k) == KidAt(old(nodes), k + 1)
    {
      hide Filtering, Unnamed, Indexed, Contents, TailGoal;
      FilterDrop(Contents(), k, name, target);
      GoalDrop(Contents(), k, tail, name);
      RemoveChildAfter(prev, k, tail);
    }

    method ClearChildren()
      modifies this
      ensures Valid() && Contents() == []
    {
      first, last, nodes, index := null, null, [], map[];
    }
  }

  /** A child inserted into an empty list is lost when text is added. */
  method InsertThenAdd(name: QName, text: string) returns (list: ChildList)
    requires text != ""
    ensures list.Linked() && list.Contents() == [TextKid(text)]
  {
    list := new ChildList();
    var child := new ChildNode(ElementKid(name));
    list.InsertChildAfter(null, child, 0, 0);
    assert list.Contents() == [ElementKid(name)];
    list.AddText(text, 0);
  }

  /** Text inserted as the only child is not the body text. */
  method BodyTextInserted(text: string) returns (body: string, list: ChildList)
    ensures list.Linked() && list.Contents() == [TextKid(text)] && body == ""
  {
    list := new ChildList();
    var node := new ChildNode(TextKid(text));
    list.InsertChildAfter(null, node, 0, 0);
    body := list.BodyText(0);
  }

  /** Text with a child inserted behind it still is the body text. */
  method BodyTextBehind(list: ChildList, name: QName, text: string) returns (body: string)
    requires list.Valid() && list.Contents() == [TextKid(text)]
    modifies list, list.nodes
    ensures body == text && list.Linked() && list.Contents() == [TextKid(text), ElementKid(name)]
  {
    var child := new ChildNode(ElementKid(name));
    list.InsertChildAfter(list.first, child, 1, 1);
    body := list.BodyText(1);
  }
}
