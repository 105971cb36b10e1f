/** The presence cache: a flat list and a list per bare identifier that share their entries. */
module RosterPresence {
  import opened Xml
  import opened Jids

  datatype Stanza = Stanza(from: Jid, body: string)

  // ---- the cache as a value ------------------------------------------------------------

  /** Position of the entry for a full identifier, or the length. */
  function IndexOf(view: seq<Stanza>, jid: Jid): (i: nat)
    ensures i <= |view|
    ensures i < |view| ==> view[i].from == jid
    ensures forall k :: 0 <= k < i ==> view[k].from != jid
  {
    if view == [] || view[0].from == jid then 0 else 1 + IndexOf(view[1..], jid)
  }

  /** A stanza replaces the entry of its sender or becomes a new last entry. */
  function Record(view: seq<Stanza>, s: Stanza): seq<Stanza> {
    var i := IndexOf(view, s.from);
    if i < |view| then view[i := s] else view + [s]
  }

  function Replay(view: seq<Stanza>, ss: seq<Stanza>): seq<Stanza> {
    if ss == [] then view else Record(Replay(view, ss[..|ss| - 1]), ss[|ss| - 1])
  }

  /** The entries of one bare identifier, in order. */
  function Bucket(view: seq<Stanza>, bare: Jid): seq<Stanza> {
    if view == [] then []
    else
      var init, last := Bucket(view[..|view| - 1], bare), view[|view| - 1];
      if BareJid(last.from) == bare then init + [last] else init
  }

  // ---- runs ----------------------------------------------------------------------------

  /** Senders in the order in which they were first heard of. */
  function FirstSeen(ss: seq<Stanza>): seq<Jid> {
    if ss == [] then []
    else
      var init, jid := FirstSeen(ss[..|ss| - 1]), ss[|ss| - 1].from;
      if jid in init then init else init + [jid]
  }

  /** The last stanza of a sender. */
  function Latest(ss: seq<Stanza>, jid: Jid): Option<Stanza> {
    if ss == [] then None
    else if ss[|ss| - 1].from == jid then Some(ss[|ss| - 1])
    else Latest(ss[..|ss| - 1], jid)
  }

  /** After any run the list holds one entry per sender, in first-seen order, with the
      sender's latest stanza. */
  lemma {:induction false} ReplaySpec(ss: seq<Stanza>)
    ensures var v := Replay([], ss); var seen := FirstSeen(ss);
            && |v| == |seen|
            && (forall i :: 0 <= i < |v| ==> v[i].from == seen[i] && Latest(ss, seen[i]) == Some(v[i]))
            && (forall i, j :: 0 <= i < j < |v| ==> v[i].from != v[j].from)
  {
    if ss != [] {
      var init, last := ss[..|ss| - 1], ss[|ss| - 1];
      ReplaySpec(init);
      var v, seen := Replay([], init), FirstSeen(init);
      var i := IndexOf(v, last.from);
      if last.from in seen {
        var k :| 0 <= k < |seen| && seen[k] == last.from;
        assert v[k].from == last.from;
      } else {
        assert i == |v|;
      }
    }
  }

  // ---- the shared objects --------------------------------------------------------------

  class Presence {
    var stanza: Stanza

    constructor (stanza: Stanza)
      ensures this.stanza == stanza
    {
      this.stanza := stanza;
    }
  }

  /** The entries whose sender belongs to a bare identifier. */
  function Select(entries: seq<Presence>, jids: seq<Jid>, bare: Jid): (r: seq<Presence>)
    requires |jids| == |entries|
    ensures forall p :: p in r ==> p in entries
  {
    if entries == [] then []
    else
      var n := |entries| - 1;
      var init := Select(entries[..n], jids[..n], bare);
      if BareJid(jids[n]) == bare then init + [entries[n]] else init
  }

  lemma {:induction false} SelectHas(entries: seq<Presence>, jids: seq<Jid>, bare: Jid, i: nat)
    requires |jids| == |entries| && i < |entries| && BareJid(jids[i]) == bare
    ensures entries[i] in Select(entries, jids, bare)
    decreases entries
  {
    var n := |entries| - 1;
    if i < n {
      SelectHas(entries[..n], jids[..n], bare, i);
    }
  }

  lemma SelectSnoc(entries: seq<Presence>, jids: seq<Jid>, p: Presence, jid: Jid, bare: Jid)
    requires |jids| == |entries|
    ensures Select(entries + [p], jids + [jid], bare) ==
            if BareJid(jid) == bare then Select(entries, jids, bare) + [p] else Select(entries, jids, bare)
  {
    assert (entries + [p])[..|entries|] == entries && (jids + [jid])[..|jids|] == jids;
  }

  class PresenceCache {
    var flat: seq<Presence>
    var buckets: map<Jid, seq<Presence>>
    ghost var jids: seq<Jid>

    /** Entries are distinct and keep their sender; each bucket is the part of the flat list
        that belongs to it, entry by entry the same objects. */
    ghost predicate Valid()
      reads this, flat
    {
      && |jids| == |flat|
      && (forall i :: 0 <= i < |flat| ==> flat[i].stanza.from == jids[i])
      && (forall i, j :: 0 <= i < j < |flat| ==> flat[i] != flat[j] && jids[i] != jids[j])
      && (forall b :: b in buckets ==> buckets[b] == Select(flat, jids, b))
      && (forall i :: 0 <= i < |flat| ==> BareJid(jids[i]) in buckets)
    }

    ghost function View(): seq<Stanza>
      reads this, flat
    {
      Stanzas(flat)
    }

    constructor ()
      ensures Valid() && View() == []
    {
      flat, buckets, jids := [], map[], [];
    }

    /** Finds the entry of a sender in a bucket. */
    method FindIn(bucket: seq<Presence>, jid: Jid) returns (r: Option<Presence>)
      ensures r.Some? ==> r.value in bucket && r.value.stanza.from == jid
      ensures r.None? ==> forall p :: p in bucket ==> p.stanza.from != jid
    {
      var i := 0;
      while i < |bucket|
        invariant 0 <= i <= |bucket|
        invariant forall k :: 0 <= k < i ==> bucket[k].stanza.from != jid
      {
        if bucket[i].stanza.from == jid {
          return Some(bucket[i]);
        }
        i := i + 1;
      }
      return None;
    }

    /** Updates the sender's entry through its bucket, or adds one to both lists. */
    method InternalIncomingPresence(s: Stanza) returns (p: Presence)
      requires Valid()
      modifies this, flat
      ensures Valid() && fresh(set q | q in flat && q !in old(flat))
      ensures p in flat && p.stanza == s
      ensures View() == Record(old(View()), s)
    {
      hide Select, BareJid;
      var bare := BareJid(s.from);
      EnsureBucket(bare);
      var found := FindIn(buckets[bare], s.from);
      if found.Some? {
        p := found.value;
        Update(p, s);
      } else {
        NotThere(s.from);
        p := new Presence(s);
        Extend(p, bare);
      }
    }

    method EnsureBucket(bare: Jid)
      requires Valid()
      modifies this`buckets
      ensures Valid() && bare in buckets
    {
      if bare !in buckets {
        NoneSelected(bare);
        buckets := buckets[bare := []];
      }
    }

    /** Replaces the stanza of an entry that is in both lists. */
    method Update(p: Presence, s: Stanza)
      requires Valid() && p in flat && p.stanza.from == s.from
      modifies p
      ensures Valid() && p.stanza == s && View() == Record(old(View()), s)
    {
      ghost var i :| 0 <= i < |flat| && flat[i] == p;
      IndexIs(View(), s.from, i);
      p.stanza := s;
      assert View() == old(View())[i := s];
    }

    /** Puts a new entry on the bucket and on the flat list. */
    method Extend(p: Presence, bare: Jid)
      requires Valid() && p !in flat && bare == BareJid(p.stanza.from) && bare in buckets
      requires forall i :: 0 <= i < |flat| ==> jids[i] != p.stanza.from
      modifies this
      ensures Valid() && flat == old(flat) + [p] && View() == old(View()) + [p.stanza]
    {
      hide Select, BareJid;
      ghost var jid := p.stanza.from;
      forall b | b in buckets ensures Select(flat + [p], jids + [jid], b) ==
        if b == bare then buckets[b] + [p] else buckets[b]
      {
        SelectSnoc(flat, jids, p, jid, b);
      }
      buckets := buckets[bare := buckets[bare] + [p]];
      flat := flat + [p];
      jids := jids + [jid];
    }

    lemma NoneSelected(bare: Jid)
      requires Valid() && bare !in buckets
      ensures Select(flat, jids, bare) == []
    {
      NothingSelected(flat, jids, bare);
    }

    lemma NotThere(jid: Jid)
      requires Valid() && BareJid(jid) in buckets
      requires forall p :: p in buckets[BareJid(jid)] ==> p.stanza.from != jid
      ensures forall i :: 0 <= i < |flat| ==> jids[i] != jid
      ensures IndexOf(View(), jid) == |flat|
    {
      forall i | 0 <= i < |flat| ensures jids[i] != jid {
        if jids[i] == jid {
          SelectHas(flat, jids, BareJid(jid), i);
        }
      }
    }

    /** Each bucket shows the order-preserving part of what the flat list shows. */
    lemma BucketIsFilter(bare: Jid)
      requires Valid() && bare in buckets
      ensures Stanzas(buckets[bare]) == Bucket(View(), bare)
    {
      SelectView(flat, jids, bare);
    }
  }

  lemma {:induction false} NothingSelected(entries: seq<Presence>, jids: seq<Jid>, bare: Jid)
    requires |jids| == |entries| && forall i :: 0 <= i < |jids| ==> BareJid(jids[i]) != bare
    ensures Select(entries, jids, bare) == []
    decreases entries
  {
    if entries != [] {
      var n := |entries| - 1;
      NothingSelected(entries[..n], jids[..n], bare);
    }
  }

  ghost function Stanzas(entries: seq<Presence>): seq<Stanza>
    reads entries
  {
    seq(|entries|, i requires 0 <= i < |entries| reads entries => entries[i].stanza)
  }

  lemma {:induction false} SelectView(entries: seq<Presence>, jids: seq<Jid>, bare: Jid)
    requires |jids| == |entries| && forall i :: 0 <= i < |jids| ==> entries[i].stanza.from == jids[i]
    ensures Stanzas(Select(entries, jids, bare)) == Bucket(Stanzas(entries), bare)
    decreases entries
  {
    if entries != [] {
      var n := |entries| - 1;
      SelectView(entries[..n], jids[..n], bare);
      assert Stanzas(entries)[..n] == Stanzas(entries[..n]);
    }
  }

  lemma IndexIs(view: seq<Stanza>, jid: Jid, i: nat)
    requires i < |view| && view[i].from == jid
    requires forall k, l :: 0 <= k < l < |view| ==> view[k].from != view[l].from
    ensures IndexOf(view, jid) == i
  {
  }
}
