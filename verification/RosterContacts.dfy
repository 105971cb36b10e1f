/** The roster's contact list and the index-based notifications that follow it. */
module RosterContacts {
  import opened Xml
  import opened Jids

  /** A roster item as it came from the server; a contact is the item it was made from. */
  datatype RosterItem = RosterItem(jid: Jid, remove: bool, details: string)

  /** What the roster handler is told. */
  datatype Notice =
    | ContactsAdded(index: nat, number: nat)
    | ContactChanged(was: RosterItem, index: nat)
    | ContactRemoved(was: RosterItem, index: nat)

  /** A notification, and the contact list a handler sees when it asks during the callback. */
  datatype Callback = Callback(notice: Notice, contacts: seq<RosterItem>)

  /** Position of the first contact with that identifier, or the length. */
  function IndexOf(contacts: seq<RosterItem>, jid: Jid): (i: nat)
    ensures i <= |contacts|
    ensures i < |contacts| ==> contacts[i].jid == jid
    ensures forall k :: 0 <= k < i ==> contacts[k].jid != jid
  {
    if contacts == [] || contacts[0].jid == jid then 0 else 1 + IndexOf(contacts[1..], jid)
  }

  // ---- one item ------------------------------------------------------------------------

  /** The list after one item, and the callbacks it causes. On the first load the search for
      a known contact is skipped and nothing is notified. */
  function OnItem(contacts: seq<RosterItem>, item: RosterItem, allNew: bool): (seq<RosterItem>, seq<Callback>) {
    if !item.jid.IsValid() then (contacts, []) else
      var i := if allNew then |contacts| else IndexOf(contacts, item.jid);
      if i == |contacts| then
        var after := contacts + [item];
        (after, if allNew then [] else [Callback(ContactsAdded(i, 1), after)])
      else if item.remove then
        var after := contacts[..i] + contacts[i + 1..];
        (after, [Callback(ContactRemoved(contacts[i], i), after)])
      else
        var after := contacts[i := item];
        (after, [Callback(ContactChanged(contacts[i], i), after)])
  }

  function AfterItems(contacts: seq<RosterItem>, items: seq<RosterItem>, allNew: bool): seq<RosterItem>
    decreases items
  {
    if items == [] then contacts else AfterItems(OnItem(contacts, items[0], allNew).0, items[1..], allNew)
  }

  function ItemCallbacks(contacts: seq<RosterItem>, items: seq<RosterItem>, allNew: bool): seq<Callback>
    decreases items
  {
    if items == [] then [] else
      var (after, cbs) := OnItem(contacts, items[0], allNew);
      cbs + ItemCallbacks(after, items[1..], allNew)
  }

  // ---- one stanza ----------------------------------------------------------------------

  function AfterStanza(contacts: seq<RosterItem>, items: seq<RosterItem>): seq<RosterItem> {
    AfterItems(contacts, items, contacts == [])
  }

  /** The first load is notified once, at the end. */
  function StanzaCallbacks(contacts: seq<RosterItem>, items: seq<RosterItem>): seq<Callback> {
    var after := AfterStanza(contacts, items);
    ItemCallbacks(contacts, items, contacts == []) +
    if contacts == [] then [Callback(ContactsAdded(0, |after|), after)] else []
  }

  function AfterStanzas(contacts: seq<RosterItem>, stanzas: seq<seq<RosterItem>>): seq<RosterItem>
    decreases stanzas
  {
    if stanzas == [] then contacts else AfterStanzas(AfterStanza(contacts, stanzas[0]), stanzas[1..])
  }

  function AllCallbacks(contacts: seq<RosterItem>, stanzas: seq<seq<RosterItem>>): seq<Callback>
    decreases stanzas
  {
    if stanzas == [] then []
    else StanzaCallbacks(contacts, stanzas[0]) + AllCallbacks(AfterStanza(contacts, stanzas[0]), stanzas[1..])
  }

  // ---- a mirror kept from the notifications --------------------------------------------

  /** What a handler does to its own copy, using only the index and number it is given and
      reading just the contacts they name. */
  function Mirror(copy: seq<RosterItem>, cb: Callback): seq<RosterItem> {
    match cb.notice
    case ContactsAdded(i, n) =>
      if i <= |copy| && i + n <= |cb.contacts| then copy[..i] + cb.contacts[i..i + n] + copy[i..] else copy
    case ContactChanged(_, i) =>
      if i < |copy| && i < |cb.contacts| then copy[i := cb.contacts[i]] else copy
    case ContactRemoved(_, i) =>
      if i < |copy| then copy[..i] + copy[i + 1..] else copy
  }

  function MirrorAll(copy: seq<RosterItem>, cbs: seq<Callback>): seq<RosterItem>
    decreases cbs
  {
    if cbs == [] then copy else MirrorAll(Mirror(copy, cbs[0]), cbs[1..])
  }

  lemma {:induction false} MirrorConcat(copy: seq<RosterItem>, a: seq<Callback>, b: seq<Callback>)
    ensures MirrorAll(copy, a + b) == MirrorAll(MirrorAll(copy, a), b)
    decreases a
  {
    if a == [] {
      assert a + b == b;
    } else {
      assert (a + b)[1..] == a[1..] + b;
      MirrorConcat(Mirror(copy, a[0]), a[1..], b);
    }
  }

  lemma ItemMirrored(contacts: seq<RosterItem>, item: RosterItem)
    ensures var (after, cbs) := OnItem(contacts, item, false); MirrorAll(contacts, cbs) == after
  {
    var (after, cbs) := OnItem(contacts, item, false);
    if cbs != [] {
      assert cbs[1..] == [];
      var i := IndexOf(contacts, item.jid);
      if i == |contacts| {
        assert contacts[..i] + after[i..i + 1] + contacts[i..] == after;
      }
    }
  }

  lemma {:induction false} ItemsMirrored(contacts: seq<RosterItem>, items: seq<RosterItem>)
    ensures MirrorAll(contacts, ItemCallbacks(contacts, items, false)) == AfterItems(contacts, items, false)
    decreases items
  {
    if items != [] {
      var (after, cbs) := OnItem(contacts, items[0], false);
      ItemMirrored(contacts, items[0]);
      MirrorConcat(contacts, cbs, ItemCallbacks(after, items[1..], false));
      ItemsMirrored(after, items[1..]);
    }
  }

  /** On the first load the valid items are appended in order, without callbacks. */
  lemma {:induction false} FirstLoad(contacts: seq<RosterItem>, items: seq<RosterItem>)
    ensures AfterItems(contacts, items, true) == contacts + ValidItems(items)
    ensures ItemCallbacks(contacts, items, true) == []
    decreases items
  {
    if items != [] {
      var after := OnItem(contacts, items[0], true).0;
      FirstLoad(after, items[1..]);
    }
  }

  /** The first load is notified exactly once, as contacts added from the start, even if there
      are none. */
  lemma FirstLoadNotice(items: seq<RosterItem>)
    ensures AfterStanza([], items) == ValidItems(items)
    ensures StanzaCallbacks([], items) == [Callback(ContactsAdded(0, |ValidItems(items)|), ValidItems(items))]
  {
    FirstLoad([], items);
    assert [] + ValidItems(items) == ValidItems(items);
  }

  function ValidItems(items: seq<RosterItem>): seq<RosterItem> {
    if items == [] then []
    else if items[0].jid.IsValid() then [items[0]] + ValidItems(items[1..])
    else ValidItems(items[1..])
  }

  lemma StanzaMirrored(contacts: seq<RosterItem>, items: seq<RosterItem>)
    ensures MirrorAll(contacts, StanzaCallbacks(contacts, items)) == AfterStanza(contacts, items)
  {
    if contacts == [] {
      FirstLoad(contacts, items);
      var after := AfterStanza(contacts, items);
      var cb := Callback(ContactsAdded(0, |after|), after);
      assert [] + [cb] == [cb] && [cb][1..] == [];
      assert contacts[..0] + after[0..|after|] + contacts[0..] == after;
    } else {
      ItemsMirrored(contacts, items);
      var cbs := ItemCallbacks(contacts, items, false);
      assert cbs + [] == cbs;
    }
  }

  /** In every run, a copy that follows the notifications equals the contact list. */
  lemma {:induction false} RunMirrored(contacts: seq<RosterItem>, stanzas: seq<seq<RosterItem>>)
    ensures MirrorAll(contacts, AllCallbacks(contacts, stanzas)) == AfterStanzas(contacts, stanzas)
    decreases stanzas
  {
    if stanzas != [] {
      var after := AfterStanza(contacts, stanzas[0]);
      StanzaMirrored(contacts, stanzas[0]);
      MirrorConcat(contacts, StanzaCallbacks(contacts, stanzas[0]), AllCallbacks(after, stanzas[1..]));
      RunMirrored(after, stanzas[1..]);
    }
  }

  // ---- what a handler is told ----------------------------------------------------------

  /** A notification tells the handler what its own copy holds and what the list has become:
      new contacts at the end, or the old version of one contact and its place. */
  ghost predicate Faithful(copy: seq<RosterItem>, cb: Callback) {
    && cb.contacts == Mirror(copy, cb)
    && match cb.notice
       case ContactsAdded(i, n) => i == |copy| && |cb.contacts| == |copy| + n
       case ContactChanged(was, i) => i < |copy| && copy[i] == was && cb.contacts[i].jid == was.jid
       case ContactRemoved(was, i) => i < |copy| && copy[i] == was && |cb.contacts| == |copy| - 1
  }

  ghost predicate AllFaithful(copy: seq<RosterItem>, cbs: seq<Callback>)
    decreases cbs
  {
    cbs == [] || (Faithful(copy, cbs[0]) && AllFaithful(Mirror(copy, cbs[0]), cbs[1..]))
  }

  lemma {:induction false} FaithfulConcat(copy: seq<RosterItem>, a: seq<Callback>, b: seq<Callback>)
    requires AllFaithful(copy, a) && AllFaithful(MirrorAll(copy, a), b)
    ensures AllFaithful(copy, a + b)
    decreases a
  {
    hide Faithful, Mirror;
    if a == [] {
      assert a + b == b;
    } else {
      assert (a + b)[1..] == a[1..] + b;
      FaithfulConcat(Mirror(copy, a[0]), a[1..], b);
    }
  }

  /** One item: nothing for an invalid identifier; a known contact is removed or changed in its
      place; another one is added at the end. */
  lemma ItemFaithful(contacts: seq<RosterItem>, item: RosterItem)
    ensures var (after, cbs) := OnItem(contacts, item, false); AllFaithful(contacts, cbs) && |cbs| <= 1
    ensures var cbs := OnItem(contacts, item, false).1;
            && (cbs == [] <==> !item.jid.IsValid())
            && (cbs != [] ==>
                 match cbs[0].notice
                 case ContactsAdded(_, n) => n == 1 && cbs[0].contacts == contacts + [item] && !Has(contacts, item.jid)
                 case ContactChanged(was, i) => was.jid == item.jid && !item.remove && cbs[0].contacts[i] == item
                 case ContactRemoved(was, _) => was.jid == item.jid && item.remove)
  {
    ItemMirrored(contacts, item);
    var (after, cbs) := OnItem(contacts, item, false);
    if cbs != [] {
      assert cbs[1..] == [] && MirrorAll(contacts, cbs) == MirrorAll(Mirror(contacts, cbs[0]), []);
    }
  }

  lemma {:induction false} ItemsFaithful(contacts: seq<RosterItem>, items: seq<RosterItem>)
    ensures AllFaithful(contacts, ItemCallbacks(contacts, items, false))
    decreases items
  {
    if items != [] {
      hide Faithful;
      var (after, cbs) := OnItem(contacts, items[0], false);
      ItemFaithful(contacts, items[0]);
      ItemMirrored(contacts, items[0]);
      ItemsFaithful(after, items[1..]);
      FaithfulConcat(contacts, cbs, ItemCallbacks(after, items[1..], false));
    }
  }

  /** In every run each notification agrees with the copy that the handler keeps. */
  lemma {:induction false} RunFaithful(contacts: seq<RosterItem>, stanzas: seq<seq<RosterItem>>)
    ensures AllFaithful(contacts, AllCallbacks(contacts, stanzas))
    decreases stanzas
  {
    if stanzas != [] {
      var after := AfterStanza(contacts, stanzas[0]);
      StanzaFaithful(contacts, stanzas[0]);
      StanzaMirrored(contacts, stanzas[0]);
      RunFaithful(after, stanzas[1..]);
      FaithfulConcat(contacts, StanzaCallbacks(contacts, stanzas[0]), AllCallbacks(after, stanzas[1..]));
    }
  }

  lemma StanzaFaithful(contacts: seq<RosterItem>, items: seq<RosterItem>)
    ensures AllFaithful(contacts, StanzaCallbacks(contacts, items))
  {
    if contacts == [] {
      FirstLoad(contacts, items);
      var after := AfterStanza(contacts, items);
      var cb := Callback(ContactsAdded(0, |after|), after);
      assert [] + [cb] == [cb] && [cb][1..] == [];
      assert contacts[..0] + after[0..|after|] + contacts[0..] == after;
    } else {
      ItemsFaithful(contacts, items);
      var cbs := ItemCallbacks(contacts, items, false);
      assert cbs + [] == cbs;
    }
  }

  // ---- distinct contacts ---------------------------------------------------------------

  ghost predicate Distinct(contacts: seq<RosterItem>) {
    forall i, j :: 0 <= i < j < |contacts| ==> contacts[i].jid != contacts[j].jid
  }

  lemma {:induction false} ItemsKeepDistinct(contacts: seq<RosterItem>, items: seq<RosterItem>)
    requires Distinct(contacts)
    ensures Distinct(AfterItems(contacts, items, false))
    decreases items
  {
    if items != [] {
      ItemsKeepDistinct(OnItem(contacts, items[0], false).0, items[1..]);
    }
  }

  /** One stanza keeps the contacts distinct exactly when it is not a first load that names a
      contact twice. */
  lemma StanzaKeepsDistinct(contacts: seq<RosterItem>, items: seq<RosterItem>)
    requires Distinct(contacts)
    ensures Distinct(AfterStanza(contacts, items)) <==> (contacts == [] ==> Distinct(ValidItems(items)))
  {
    if contacts == [] {
      FirstLoad(contacts, items);
      assert [] + ValidItems(items) == ValidItems(items);
    } else {
      ItemsKeepDistinct(contacts, items);
    }
  }

  /** The list is distinct after every stanza of the run. */
  ghost predicate AlwaysDistinct(contacts: seq<RosterItem>, stanzas: seq<seq<RosterItem>>)
    decreases stanzas
  {
    Distinct(contacts) && (stanzas == [] || AlwaysDistinct(AfterStanza(contacts, stanzas[0]), stanzas[1..]))
  }

  /** Every stanza that is handled while the list is empty names each contact once. */
  ghost predicate LoadsOnce(contacts: seq<RosterItem>, stanzas: seq<seq<RosterItem>>)
    decreases stanzas
  {
    stanzas == [] ||
    ((contacts == [] ==> Distinct(ValidItems(stanzas[0])))
     && LoadsOnce(AfterStanza(contacts, stanzas[0]), stanzas[1..]))
  }

  lemma {:induction false} RunDistinct(contacts: seq<RosterItem>, stanzas: seq<seq<RosterItem>>)
    requires Distinct(contacts)
    ensures AlwaysDistinct(contacts, stanzas) <==> LoadsOnce(contacts, stanzas)
    decreases stanzas
  {
    if stanzas != [] {
      var after := AfterStanza(contacts, stanzas[0]);
      StanzaKeepsDistinct(contacts, stanzas[0]);
      if Distinct(after) {
        RunDistinct(after, stanzas[1..]);
      } else {
        assert !AlwaysDistinct(after, stanzas[1..]);
      }
    }
  }

  /** A first load that names a contact twice lists it twice. */
  lemma DuplicateOnFirstLoad(jid: Jid, a: string, b: string)
    requires jid.IsValid()
    ensures !Distinct(AfterStanza([], [RosterItem(jid, false, a), RosterItem(jid, false, b)]))
  {
    var items := [RosterItem(jid, false, a), RosterItem(jid, false, b)];
    assert items[1..][1..] == [];
    assert ValidItems(items[1..]) == [items[1]];
    assert ValidItems(items) == items;
    StanzaKeepsDistinct([], items);
    assert ValidItems(items)[0].jid == ValidItems(items)[1].jid;
  }

  // ---- the list as a table -------------------------------------------------------------

  /** The contacts by identifier. */
  function Table(contacts: seq<RosterItem>): map<Jid, RosterItem> {
    if contacts == [] then map[] else
      var init, last := contacts[..|contacts| - 1], contacts[|contacts| - 1];
      Table(init)[last.jid := last]
  }

  /** What a roster push asks for: remove a known contact, otherwise store the item. */
  function TableStep(t: map<Jid, RosterItem>, item: RosterItem): map<Jid, RosterItem> {
    if !item.jid.IsValid() then t
    else if item.remove && item.jid in t then t - {item.jid}
    else t[item.jid := item]
  }

  function TableRun(t: map<Jid, RosterItem>, items: seq<RosterItem>): map<Jid, RosterItem>
    decreases items
  {
    if items == [] then t else TableRun(TableStep(t, items[0]), items[1..])
  }

  ghost predicate Has(contacts: seq<RosterItem>, j: Jid) {
    exists i :: 0 <= i < |contacts| && contacts[i].jid == j
  }

  lemma HasSnoc(contacts: seq<RosterItem>, item: RosterItem, j: Jid)
    ensures Has(contacts + [item], j) <==> Has(contacts, j) || j == item.jid
  {
    var all := contacts + [item];
    assert all[|contacts|] == item;
    if Has(contacts, j) {
      var i :| 0 <= i < |contacts| && contacts[i].jid == j;
      assert all[i].jid == j;
    }
  }

  lemma {:induction false} TableSpec(contacts: seq<RosterItem>)
    requires Distinct(contacts)
    ensures forall j :: j in Table(contacts) <==> Has(contacts, j)
    ensures forall i :: 0 <= i < |contacts| ==>
              contacts[i].jid in Table(contacts) && Table(contacts)[contacts[i].jid] == contacts[i]
  {
    if contacts != [] {
      var n := |contacts| - 1;
      var init, last := contacts[..n], contacts[n];
      assert contacts == init + [last];
      TableSpec(init);
      forall j ensures j in Table(contacts) <==> Has(contacts, j) {
        HasSnoc(init, last, j);
      }
      forall i | 0 <= i < n
        ensures contacts[i].jid in Table(contacts) && Table(contacts)[contacts[i].jid] == contacts[i]
      {
        assert init[i] == contacts[i];
      }
    }
  }

  /** A table that holds exactly the contacts of a distinct list is the list's table. */
  lemma TableExtensional(contacts: seq<RosterItem>, t: map<Jid, RosterItem>)
    requires Distinct(contacts)
    requires forall i :: 0 <= i < |contacts| ==> contacts[i].jid in t && t[contacts[i].jid] == contacts[i]
    requires forall j :: j in t ==> Has(contacts, j)
    ensures Table(contacts) == t
  {
    hide Table;
    TableSpec(contacts);
    forall j | j in t ensures j in Table(contacts) && Table(contacts)[j] == t[j] {
      var i :| 0 <= i < |contacts| && contacts[i].jid == j;
    }
    forall j | j in Table(contacts) ensures j in t {
      var i :| 0 <= i < |contacts| && contacts[i].jid == j;
    }
  }

  lemma ItemFollowsTable(contacts: seq<RosterItem>, item: RosterItem)
    requires Distinct(contacts)
    ensures var after := OnItem(contacts, item, false).0;
            Distinct(after) && Table(after) == TableStep(Table(contacts), item)
  {
    hide Table;
    TableSpec(contacts);
    if item.jid.IsValid() {
      var i := IndexOf(contacts, item.jid);
      if i < |contacts| && item.remove {
        RemovalFollowsTable(contacts, i);
      } else {
        StoreFollowsTable(contacts, item, i);
      }
    }
  }

  lemma RemovalFollowsTable(contacts: seq<RosterItem>, i: nat)
    requires Distinct(contacts) && i < |contacts|
    ensures var after := contacts[..i] + contacts[i + 1..];
            Distinct(after) && Table(after) == Table(contacts) - {contacts[i].jid}
  {
    hide Table;
    TableSpec(contacts);
    var after, t := contacts[..i] + contacts[i + 1..], Table(contacts) - {contacts[i].jid};
    assert forall k :: 0 <= k < |after| ==> after[k] == contacts[if k < i then k else k + 1];
    forall j | j in t ensures Has(after, j) {
      var k :| 0 <= k < |contacts| && contacts[k].jid == j;
      assert k != i;
      assert after[if k < i then k else k - 1].jid == j;
    }
    TableExtensional(after, t);
  }

  lemma StoreFollowsTable(contacts: seq<RosterItem>, item: RosterItem, i: nat)
    requires Distinct(contacts) && i == IndexOf(contacts, item.jid)
    ensures var after := if i < |contacts| then contacts[i := item] else contacts + [item];
            Distinct(after) && Table(after) == Table(contacts)[item.jid := item]
  {
    hide Table;
    TableSpec(contacts);
    var t := Table(contacts)[item.jid := item];
    if i == |contacts| {
      forall j | j in t ensures Has(contacts + [item], j) {
        HasSnoc(contacts, item, j);
      }
      TableExtensional(contacts + [item], t);
    } else {
      var after := contacts[i := item];
      forall j | j in t ensures Has(after, j) {
        var k :| 0 <= k < |contacts| && contacts[k].jid == j;
        assert after[k].jid == j;
      }
      TableExtensional(after, t);
    }
  }

  /** After the first load, the list changes as a table of contacts would. */
  lemma {:induction false} ItemsFollowTable(contacts: seq<RosterItem>, items: seq<RosterItem>)
    requires Distinct(contacts)
    ensures Table(AfterItems(contacts, items, false)) == TableRun(Table(contacts), items)
    decreases items
  {
    if items != [] {
      ItemFollowsTable(contacts, items[0]);
      ItemsFollowTable(OnItem(contacts, items[0], false).0, items[1..]);
    }
  }

  // ---- the module ----------------------------------------------------------------------

  class RosterModule {
    var contacts: seq<RosterItem>
    var callbacks: seq<Callback>

    constructor ()
      ensures contacts == [] && callbacks == []
    {
      contacts, callbacks := [], [];
    }

    /** Handles the items of a roster result or push; without a query there is nothing to do. */
    method InternalRosterItems(query: Option<seq<RosterItem>>)
      modifies this
      ensures query.None? ==> contacts == old(contacts) && callbacks == old(callbacks)
      ensures query.Some? ==> contacts == AfterStanza(old(contacts), query.value)
      ensures query.Some? ==> callbacks == old(callbacks) + StanzaCallbacks(old(contacts), query.value)
    {
      if query.None? {
        return;
      }
      var items := query.value;
      var allNew := contacts == [];
      var n := 0;
      ghost var cbs := ItemCallbacks(contacts, items, allNew);
      assert items[0..] == items;
      while n < |items|
        invariant 0 <= n <= |items|
        invariant AfterItems(contacts, items[n..], allNew) == AfterItems(old(contacts), items, allNew)
        invariant callbacks + ItemCallbacks(contacts, items[n..], allNew) == old(callbacks) + cbs
      {
        assert items[n..][1..] == items[n + 1..];
        ghost var (after, one) := OnItem(contacts, items[n], allNew);
        ConcatAssoc(callbacks, one, ItemCallbacks(after, items[n + 1..], allNew));
        HandleItem(items[n], allNew);
        n := n + 1;
      }
      assert callbacks == old(callbacks) + cbs;
      if allNew {
        ConcatAssoc(old(callbacks), cbs, [Callback(ContactsAdded(0, |contacts|), contacts)]);
        callbacks := callbacks + [Callback(ContactsAdded(0, |contacts|), contacts)];
      } else {
        assert cbs + [] == cbs;
      }
    }

    method HandleItem(item: RosterItem, allNew: bool)
      modifies this
      ensures var (after, cbs) := OnItem(old(contacts), item, allNew);
              contacts == after && callbacks == old(callbacks) + cbs
    {
      if !item.jid.IsValid() {
        return;
      }
      var pos := |contacts|;
      if !allNew {
        pos := IndexOf(contacts, item.jid);
      }
      if pos != |contacts| {
        var contact := contacts[pos];
        if item.remove {
          contacts := contacts[..pos] + contacts[pos + 1..];
          callbacks := callbacks + [Callback(ContactRemoved(contact, pos), contacts)];
        } else {
          contacts := contacts[pos := item];
          callbacks := callbacks + [Callback(ContactChanged(contact, pos), contacts)];
        }
      } else {
        contacts := contacts + [item];
        if !allNew {
          callbacks := callbacks + [Callback(ContactsAdded(|contacts| - 1, 1), contacts)];
        }
      }
    }
  }
}
