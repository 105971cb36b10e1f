/** The PubSub state client: item events keep a table of item details and a table of states
    by key, and every change of state is signalled. */
module PubSub {
  import opened Xml

  /** What has to be remembered about an item so that it can be retracted. */
  datatype Info = Info(publisherNick: string, publishedNick: string)

  /** An item event: with a state, or without one, which counts as a retract. */
  datatype Item<C> = Publish(id: string, info: Info, state: C) | Retract(id: string)

  /** What differs between kinds of state: the key, the default state and the comparison. */
  datatype Config<!C> = Config(getKey: (string, string) -> string, dflt: C, statesEqual: (C, C) -> bool)

  datatype Change<C> = Change(publisherNick: string, publishedNick: string, oldState: C, newState: C)

  /** A change together with the key it is about. */
  datatype Signal<C> = Signal(key: string, change: Change<C>)

  datatype State<C> = State(infos: map<string, Info>, states: map<string, C>)

  function Blank<C>(): State<C> { State(map[], map[]) }

  function KeyOfInfo<C>(cfg: Config<C>, info: Info): string {
    cfg.getKey(info.publisherNick, info.publishedNick)
  }

  /** The state of a key: what is stored, or the default. */
  function Effective<C>(cfg: Config<C>, s: State<C>, k: string): C {
    if k in s.states then s.states[k] else cfg.dflt
  }

  function Entry<K, V>(m: map<K, V>, k: K): Option<V> {
    if k in m then Some(m[k]) else None
  }

  // ---- one event -----------------------------------------------------------------------

  /** The second half of `OnItem`, when the item's details and new state are known. */
  function Settle<C>(cfg: Config<C>, s: State<C>, info: Info, newState: C, retracted: bool):
      (State<C>, Option<Signal<C>>)
  {
    var k := KeyOfInfo(cfg, info);
    var oldState := Effective(cfg, s, k);
    if (retracted && k !in s.states) || cfg.statesEqual(newState, oldState) then (s, None)
    else
      var erased := retracted || cfg.statesEqual(newState, cfg.dflt);
      var states := if erased then s.states - {k} else s.states[k := newState];
      (s.(states := states),
       Some(Signal(k, Change(if retracted then "" else info.publisherNick, info.publishedNick, oldState, newState))))
  }

  function Step<C>(cfg: Config<C>, s: State<C>, item: Item<C>): (State<C>, Option<Signal<C>>) {
    match item
    case Publish(id, info, state) => Settle(cfg, s.(infos := s.infos[id := info]), info, state, false)
    case Retract(id) =>
      if id !in s.infos then (s, None)
      else Settle(cfg, s.(infos := s.infos - {id}), s.infos[id], cfg.dflt, true)
  }

  function Next<C>(cfg: Config<C>, s: State<C>, item: Item<C>): State<C> { Step(cfg, s, item).0 }

  function Run<C>(cfg: Config<C>, s: State<C>, items: seq<Item<C>>): State<C>
    decreases items
  {
    if items == [] then s else Run(cfg, Next(cfg, s, items[0]), items[1..])
  }

  function Emitted<C>(cfg: Config<C>, s: State<C>, item: Item<C>): seq<Signal<C>> {
    match Step(cfg, s, item).1
    case None => []
    case Some(g) => [g]
  }

  function Signals<C>(cfg: Config<C>, s: State<C>, items: seq<Item<C>>): seq<Signal<C>>
    decreases items
  {
    if items == [] then []
    else Emitted(cfg, s, items[0]) + Signals(cfg, Next(cfg, s, items[0]), items[1..])
  }

  /** The key an event is about, when it is about one. */
  function KeyOf<C>(cfg: Config<C>, s: State<C>, item: Item<C>): Option<string> {
    match item
    case Publish(_, info, _) => Some(KeyOfInfo(cfg, info))
    case Retract(id) => if id in s.infos then Some(KeyOfInfo(cfg, s.infos[id])) else None
  }

  // ---- signals telescope ---------------------------------------------------------------

  function ForKey<C>(log: seq<Signal<C>>, k: string): seq<Change<C>> {
    if log == [] then []
    else if log[0].key == k then [log[0].change] + ForKey(log[1..], k)
    else ForKey(log[1..], k)
  }

  /** Each change starts from the state the one before it ended in. */
  ghost predicate Telescopes<C>(changes: seq<Change<C>>, first: C, last: C)
    decreases changes
  {
    if changes == [] then first == last
    else changes[0].oldState == first && Telescopes(changes[1..], changes[0].newState, last)
  }

  /** Only the default state itself compares equal to it. Plain equality has this property,
      and so has a comparison that is always false. */
  ghost predicate ReflectsDefault<C(!new)>(cfg: Config<C>) {
    forall x :: cfg.statesEqual(x, cfg.dflt) ==> x == cfg.dflt
  }

  /** An event is silent exactly if it retracts what is not there, or if its state compares
      equal to the one before. */
  lemma SilentIff<C>(cfg: Config<C>, s: State<C>, item: Item<C>)
    ensures Step(cfg, s, item).1.None? <==>
            match item
            case Publish(_, info, state) => cfg.statesEqual(state, Effective(cfg, s, KeyOfInfo(cfg, info)))
            case Retract(id) =>
              || id !in s.infos || KeyOfInfo(cfg, s.infos[id]) !in s.states
              || cfg.statesEqual(cfg.dflt, s.states[KeyOfInfo(cfg, s.infos[id])])
  {
  }

  /** One event changes the effective state of at most one key, and its signal says from
      what. That it also says to what fails exactly for a published state that compares
      equal to the default without being it. */
  lemma StepEffect<C>(cfg: Config<C>, s: State<C>, item: Item<C>)
    ensures var (t, g) := Step(cfg, s, item);
            && (forall k :: (g.None? || g.value.key != k) ==> Effective(cfg, t, k) == Effective(cfg, s, k))
            && (g.Some? ==> item.Publish? || item.id in s.infos)
            && (g.Some? ==>
                 var c := g.value.change;
                 && g.value.key == KeyOf(cfg, s, item).value
                 && c.publishedNick == (if item.Publish? then item.info else s.infos[item.id]).publishedNick
                 && c.publisherNick == (if item.Publish? then item.info.publisherNick else "")
                 && c.oldState == Effective(cfg, s, g.value.key)
                 && (c.newState == Effective(cfg, t, g.value.key) <==>
                      !(item.Publish? && cfg.statesEqual(item.state, cfg.dflt) && item.state != cfg.dflt)))
  {
  }

  lemma {:induction false} ForKeyConcat<C>(a: seq<Signal<C>>, b: seq<Signal<C>>, k: string)
    ensures ForKey(a + b, k) == ForKey(a, k) + ForKey(b, k)
  {
    if a == [] {
      assert a + b == b;
    } else {
      assert (a + b)[1..] == a[1..] + b;
      ForKeyConcat(a[1..], b, k);
    }
  }

  /** For every run and every key, the signals lead from the first effective state to the
      last one without a gap. */
  lemma {:induction false} SignalsTelescope<C(!new)>(cfg: Config<C>, s: State<C>, items: seq<Item<C>>, k: string)
    requires ReflectsDefault(cfg)
    ensures Telescopes(ForKey(Signals(cfg, s, items), k), Effective(cfg, s, k), Effective(cfg, Run(cfg, s, items), k))
    decreases items
  {
    if items != [] {
      StepEffect(cfg, s, items[0]);
      var t := Next(cfg, s, items[0]);
      SignalsTelescope(cfg, t, items[1..], k);
      var e := Emitted(cfg, s, items[0]);
      ForKeyConcat(e, Signals(cfg, t, items[1..]), k);
      assert e != [] ==> e[1..] == [];
      if e == [] || e[0].key != k {
        assert [] + ForKey(Signals(cfg, t, items[1..]), k) == ForKey(Signals(cfg, t, items[1..]), k);
      } else {
        var all := [e[0].change] + ForKey(Signals(cfg, t, items[1..]), k);
        assert all[1..] == ForKey(Signals(cfg, t, items[1..]), k);
      }
    }
  }

  // ---- plain equality ------------------------------------------------------------------

  ghost predicate PlainEquality<C(!new)>(cfg: Config<C>) {
    forall x, y :: cfg.statesEqual(x, y) <==> x == y
  }

  ghost predicate NoDefaultStored<C>(cfg: Config<C>, s: State<C>) {
    forall k :: k in s.states ==> s.states[k] != cfg.dflt
  }

  /** With plain equality a signal fires exactly when the effective state of a key changes. */
  lemma SignalIffChange<C(!new)>(cfg: Config<C>, s: State<C>, item: Item<C>)
    requires PlainEquality(cfg)
    ensures Step(cfg, s, item).1.Some? <==>
              exists k :: Effective(cfg, Next(cfg, s, item), k) != Effective(cfg, s, k)
  {
    StepEffect(cfg, s, item);
    var (t, g) := Step(cfg, s, item);
    if g.Some? {
      assert Effective(cfg, t, g.value.key) != Effective(cfg, s, g.value.key);
    }
  }

  /** With plain equality no run ever stores the default state. */
  lemma {:induction false} RunStoresNoDefault<C(!new)>(cfg: Config<C>, s: State<C>, items: seq<Item<C>>)
    requires PlainEquality(cfg) && NoDefaultStored(cfg, s)
    ensures NoDefaultStored(cfg, Run(cfg, s, items))
    decreases items
  {
    if items != [] {
      RunStoresNoDefault(cfg, Next(cfg, s, items[0]), items[1..]);
    }
  }

  // ---- late join -----------------------------------------------------------------------

  datatype Live<C> = Live(info: Info, state: C)

  /** The items a server keeps: the last publish of each item that was not retracted. */
  function Track<C>(m: map<string, Live<C>>, item: Item<C>): map<string, Live<C>> {
    match item
    case Publish(id, info, state) => m[id := Live(info, state)]
    case Retract(id) => m - {id}
  }

  function Survivors<C>(m: map<string, Live<C>>, items: seq<Item<C>>): map<string, Live<C>>
    decreases items
  {
    if items == [] then m else Survivors(Track(m, items[0]), items[1..])
  }

  /** A live item keeps its key, and no other live item has it. */
  predicate Fits<C>(cfg: Config<C>, m: map<string, Live<C>>, item: Item<C>) {
    item.Publish? ==>
      forall id | id in m :: (id == item.id <==> KeyOfInfo(cfg, m[id].info) == KeyOfInfo(cfg, item.info))
  }

  predicate Disciplined<C>(cfg: Config<C>, m: map<string, Live<C>>, items: seq<Item<C>>)
    decreases items
  {
    items == [] || (Fits(cfg, m, items[0]) && Disciplined(cfg, Track(m, items[0]), items[1..]))
  }

  ghost predicate DistinctKeys<C>(cfg: Config<C>, m: map<string, Live<C>>) {
    forall i, j :: i in m && j in m && KeyOfInfo(cfg, m[i].info) == KeyOfInfo(cfg, m[j].info) ==> i == j
  }

  /** States that compare equal are equal. Plain equality has this property, and so has a
      comparison that is always false. */
  ghost predicate SoundEquality<C(!new)>(cfg: Config<C>) {
    forall x, y :: cfg.statesEqual(x, y) ==> x == y
  }

  /** A state that is stored when it is published: the default is not, unless it does not even
      compare equal to itself. */
  ghost predicate Kept<C>(cfg: Config<C>, state: C) {
    state != cfg.dflt || !cfg.statesEqual(cfg.dflt, cfg.dflt)
  }

  /** The client's tables say exactly what the server's live items say. */
  ghost predicate Mirrors<C>(cfg: Config<C>, s: State<C>, m: map<string, Live<C>>) {
    && DistinctKeys(cfg, m)
    && s.infos.Keys == m.Keys
    && (forall id :: id in m ==> s.infos[id] == m[id].info
                                 && Entry(s.states, KeyOfInfo(cfg, m[id].info)) == Stored(cfg, m[id].state))
    && (forall k :: k in s.states ==> exists id :: id in m && KeyOfInfo(cfg, m[id].info) == k)
  }

  /** What a live state leaves in the table. */
  ghost function Stored<C>(cfg: Config<C>, state: C): Option<C> {
    if Kept(cfg, state) then Some(state) else None
  }

  lemma PublishTables<C(!new)>(cfg: Config<C>, s: State<C>, item: Item<C>)
    requires SoundEquality(cfg) && item.Publish?
    requires var k := KeyOfInfo(cfg, item.info); k in s.states ==> Kept(cfg, s.states[k])
    ensures var t, key := Next(cfg, s, item), KeyOfInfo(cfg, item.info);
            && t.infos == s.infos[item.id := item.info]
            && Entry(t.states, key) == Stored(cfg, item.state)
            && (forall k :: k != key ==> Entry(t.states, k) == Entry(s.states, k))
  {
  }

  lemma RetractTables<C(!new)>(cfg: Config<C>, s: State<C>, item: Item<C>)
    requires SoundEquality(cfg) && item.Retract? && item.id in s.infos
    requires var k := KeyOfInfo(cfg, s.infos[item.id]); k in s.states ==> Kept(cfg, s.states[k])
    ensures var t, key := Next(cfg, s, item), KeyOfInfo(cfg, s.infos[item.id]);
            && t.infos == s.infos - {item.id}
            && Entry(t.states, key) == None
            && (forall k :: k != key ==> Entry(t.states, k) == Entry(s.states, k))
  {
  }

  lemma MirrorsKept<C>(cfg: Config<C>, s: State<C>, m: map<string, Live<C>>, k: string)
    requires Mirrors(cfg, s, m) && k in s.states
    ensures Kept(cfg, s.states[k])
  {
    var id :| id in m && KeyOfInfo(cfg, m[id].info) == k;
    assert Entry(s.states, k) == Some(s.states[k]);
  }

  /** An event at `key` leaves the tables of all other keys and their live items as they are. */
  ghost predicate OnlyAt<C>(cfg: Config<C>, s: State<C>, t: State<C>, m: map<string, Live<C>>, n: map<string, Live<C>>,
                            key: string)
  {
    && (forall k :: k != key ==> Entry(t.states, k) == Entry(s.states, k))
    && (forall id :: id in m && KeyOfInfo(cfg, m[id].info) != key ==> id in n && n[id] == m[id])
    && (forall id :: id in n && KeyOfInfo(cfg, n[id].info) != key ==> id in m && n[id] == m[id])
  }

  lemma MirrorsElsewhere<C>(cfg: Config<C>, s: State<C>, t: State<C>, m: map<string, Live<C>>, n: map<string, Live<C>>,
                            key: string)
    requires Mirrors(cfg, s, m) && OnlyAt(cfg, s, t, m, n, key)
    ensures forall id :: id in n && KeyOfInfo(cfg, n[id].info) != key ==>
              Entry(t.states, KeyOfInfo(cfg, n[id].info)) == Stored(cfg, n[id].state)
    ensures forall k :: k in t.states && k != key ==> exists id :: id in n && KeyOfInfo(cfg, n[id].info) == k
  {
    hide KeyOfInfo, Stored;
    forall k | k in t.states && k != key ensures exists id :: id in n && KeyOfInfo(cfg, n[id].info) == k {
      assert Entry(t.states, k) == Entry(s.states, k);
      assert k in s.states;
      var id :| id in m && KeyOfInfo(cfg, m[id].info) == k;
      assert n[id] == m[id];
    }
  }

  lemma TrackDistinct<C>(cfg: Config<C>, m: map<string, Live<C>>, item: Item<C>)
    requires DistinctKeys(cfg, m) && Fits(cfg, m, item)
    ensures DistinctKeys(cfg, Track(m, item))
  {
    hide KeyOfInfo;
  }

  lemma PublishMirrors<C(!new)>(cfg: Config<C>, s: State<C>, m: map<string, Live<C>>, item: Item<C>)
    requires SoundEquality(cfg) && Mirrors(cfg, s, m) && Fits(cfg, m, item) && item.Publish?
    ensures Mirrors(cfg, Next(cfg, s, item), Track(m, item))
  {
    hide Next, KeyOfInfo, Stored, DistinctKeys, Entry;
    var t, n := Next(cfg, s, item), Track(m, item);
    var key := KeyOfInfo(cfg, item.info);
    if key in s.states {
      MirrorsKept(cfg, s, m, key);
    }
    PublishTables(cfg, s, item);
    TrackDistinct(cfg, m, item);
    assert OnlyAt(cfg, s, t, m, n, key);
    MirrorsElsewhere(cfg, s, t, m, n, key);
    assert item.id in n && n[item.id] == Live(item.info, item.state);
  }

  lemma RetractMirrors<C(!new)>(cfg: Config<C>, s: State<C>, m: map<string, Live<C>>, item: Item<C>)
    requires SoundEquality(cfg) && Mirrors(cfg, s, m) && item.Retract?
    ensures Mirrors(cfg, Next(cfg, s, item), Track(m, item))
  {
    var t, n := Next(cfg, s, item), Track(m, item);
    if item.id in m {
      RetractKnown(cfg, s, m, item);
    } else {
      assert n == m;
    }
  }

  lemma RetractKnown<C(!new)>(cfg: Config<C>, s: State<C>, m: map<string, Live<C>>, item: Item<C>)
    requires SoundEquality(cfg) && Mirrors(cfg, s, m) && item.Retract? && item.id in m
    ensures Mirrors(cfg, Next(cfg, s, item), Track(m, item))
  {
    hide Next, KeyOfInfo, Stored;
    var t, n := Next(cfg, s, item), Track(m, item);
    var key := KeyOfInfo(cfg, m[item.id].info);
    if key in s.states {
      MirrorsKept(cfg, s, m, key);
    }
    RetractTables(cfg, s, item);
    TrackDistinct(cfg, m, item);
    assert OnlyAt(cfg, s, t, m, n, key);
    MirrorsElsewhere(cfg, s, t, m, n, key);
  }

  lemma StepMirrors<C(!new)>(cfg: Config<C>, s: State<C>, m: map<string, Live<C>>, item: Item<C>)
    requires SoundEquality(cfg) && Mirrors(cfg, s, m) && Fits(cfg, m, item)
    ensures Mirrors(cfg, Next(cfg, s, item), Track(m, item))
  {
    if item.Publish? {
      PublishMirrors(cfg, s, m, item);
    } else {
      RetractMirrors(cfg, s, m, item);
    }
  }

  lemma {:induction false} RunMirrors<C(!new)>(cfg: Config<C>, s: State<C>, m: map<string, Live<C>>,
                                               items: seq<Item<C>>)
    requires SoundEquality(cfg) && Mirrors(cfg, s, m) && Disciplined(cfg, m, items)
    ensures Mirrors(cfg, Run(cfg, s, items), Survivors(m, items))
    decreases items
  {
    if items != [] {
      StepMirrors(cfg, s, m, items[0]);
      RunMirrors(cfg, Next(cfg, s, items[0]), Track(m, items[0]), items[1..]);
    }
  }

  /** The live items determine both tables. */
  lemma MirrorsUnique<C>(cfg: Config<C>, s: State<C>, t: State<C>, m: map<string, Live<C>>)
    requires Mirrors(cfg, s, m) && Mirrors(cfg, t, m)
    ensures s == t
  {
    MirrorsStates(cfg, s, t, m);
    MirrorsStates(cfg, t, s, m);
    assert s.infos == t.infos;
    assert s.states == t.states;
  }

  lemma MirrorsStates<C>(cfg: Config<C>, s: State<C>, t: State<C>, m: map<string, Live<C>>)
    requires Mirrors(cfg, s, m) && Mirrors(cfg, t, m)
    ensures forall k :: k in s.states ==> k in t.states && t.states[k] == s.states[k]
  {
    forall k | k in s.states ensures k in t.states && t.states[k] == s.states[k] {
      var id :| id in m && KeyOfInfo(cfg, m[id].info) == k;
      assert Entry(s.states, k) == Stored(cfg, m[id].state) == Entry(t.states, k);
    }
  }

  /** `js` publishes each live item of `m` once, in some order. Items of other kinds of state
      on the same node may come in between; they count as retracts of unknown items. */
  ghost predicate Enumerates<C>(js: seq<Item<C>>, m: map<string, Live<C>>) {
    && (forall i :: 0 <= i < |js| && js[i].Publish? ==> js[i].id in m && m[js[i].id] == Live(js[i].info, js[i].state))
    && (forall i :: 0 <= i < |js| && js[i].Retract? ==> js[i].id !in m)
    && (forall i, j :: 0 <= i < j < |js| ==> js[i].id != js[j].id)
    && (forall id :: id in m ==> exists i :: 0 <= i < |js| && js[i].id == id)
  }

  /** The live items among the first `n` of an enumeration. */
  ghost function Seen<C>(m: map<string, Live<C>>, js: seq<Item<C>>, n: nat): map<string, Live<C>>
    requires n <= |js|
  {
    map id | id in m && id in Ids(js[..n]) :: m[id]
  }

  ghost function Ids<C>(js: seq<Item<C>>): set<string> {
    set i | 0 <= i < |js| :: js[i].id
  }

  lemma SeenNext<C>(cfg: Config<C>, m: map<string, Live<C>>, js: seq<Item<C>>, n: nat)
    requires DistinctKeys(cfg, m) && Enumerates(js, m) && n < |js|
    ensures Track(Seen(m, js, n), js[n]) == Seen(m, js, n + 1) && Fits(cfg, Seen(m, js, n), js[n])
  {
    hide Ids, KeyOfInfo;
    IdsNext(js, n);
    assert js[n].id !in Ids(js[..n]) by { IdsAre(js, n); }
  }

  lemma IdsNext<C>(js: seq<Item<C>>, n: nat)
    requires n < |js|
    ensures Ids(js[..n + 1]) == Ids(js[..n]) + {js[n].id}
  {
    assert js[..n + 1] == js[..n] + [js[n]];
    assert forall i :: 0 <= i < n ==> js[..n + 1][i] == js[..n][i];
    assert js[..n + 1][n] == js[n];
  }

  lemma IdsAre<C>(js: seq<Item<C>>, n: nat)
    requires n <= |js|
    ensures forall id :: id in Ids(js[..n]) <==> exists i :: 0 <= i < n && js[i].id == id
  {
    assert forall i :: 0 <= i < n ==> js[..n][i] == js[i];
  }

  lemma AllSeen<C>(m: map<string, Live<C>>, js: seq<Item<C>>)
    requires Enumerates(js, m)
    ensures Seen(m, js, |js|) == m
  {
    assert js[..|js|] == js;
    forall id | id in m ensures id in Ids(js) {
      var i :| 0 <= i < |js| && js[i].id == id;
    }
  }

  /** Replaying the rest of the live items after the others is disciplined. */
  lemma {:induction false} EnumerationReplays<C>(cfg: Config<C>, m: map<string, Live<C>>, js: seq<Item<C>>, n: nat)
    requires DistinctKeys(cfg, m) && Enumerates(js, m) && n <= |js|
    ensures Disciplined(cfg, Seen(m, js, n), js[n..]) && Survivors(Seen(m, js, n), js[n..]) == m
    decreases |js| - n
  {
    hide Seen, Enumerates, Fits, DistinctKeys;
    if n == |js| {
      AllSeen(m, js);
    } else {
      EnumerationReplays(cfg, m, js, n + 1);
      SeenNext(cfg, m, js, n);
      assert js[n..][1..] == js[n + 1..];
    }
  }

  /** A client that replays a whole disciplined history and a client that only receives the
      surviving items, in any order, end with the same tables, for every comparison under
      which states that compare equal are equal. */
  lemma LateJoin<C(!new)>(cfg: Config<C>, history: seq<Item<C>>, js: seq<Item<C>>)
    requires SoundEquality(cfg) && Disciplined(cfg, map[], history)
    requires Enumerates(js, Survivors(map[], history))
    ensures Run(cfg, Blank(), js) == Run(cfg, Blank(), history)
  {
    var m := Survivors(map[], history);
    RunMirrors(cfg, Blank(), map[], history);
    EnumerationReplays(cfg, m, js, 0);
    assert js[0..] == js;
    assert Seen(m, js, 0) == map[];
    RunMirrors(cfg, Blank(), map[], js);
    MirrorsUnique(cfg, Run(cfg, Blank(), js), Run(cfg, Blank(), history), m);
  }

  // ---- histories that clients make -----------------------------------------------------

  datatype Request<C> = Request(publisherNick: string, publishedNick: string, state: C)

  function ItemId(name: string, key: string): string { name + ":" + key }

  /** The event that a call of `Publish` leads to: publishing the default is a retract. */
  function RequestItem<C>(cfg: Config<C>, name: string, r: Request<C>): Item<C> {
    var id := ItemId(name, cfg.getKey(r.publisherNick, r.publishedNick));
    if cfg.statesEqual(r.state, cfg.dflt) then Retract(id)
    else Item.Publish(id, Info(r.publisherNick, r.publishedNick), r.state)
  }

  function RequestItems<C>(cfg: Config<C>, name: string, rs: seq<Request<C>>): seq<Item<C>> {
    if rs == [] then [] else [RequestItem(cfg, name, rs[0])] + RequestItems(cfg, name, rs[1..])
  }

  ghost predicate Injective(idOf: string -> string) {
    forall j, k :: idOf(j) == idOf(k) ==> j == k
  }

  /** The id of a live item is made from its key. */
  ghost predicate NamedByKey<C>(cfg: Config<C>, idOf: string -> string, m: map<string, Live<C>>) {
    forall id :: id in m ==> id == idOf(KeyOfInfo(cfg, m[id].info))
  }

  /** Live items whose ids are made from their keys keep their keys apart. */
  lemma {:induction false} NamedItemsAreDisciplined<C>(cfg: Config<C>, idOf: string -> string,
                                                       m: map<string, Live<C>>, items: seq<Item<C>>)
    requires Injective(idOf) && NamedByKey(cfg, idOf, m)
    requires forall i :: 0 <= i < |items| ==> NamedItem(cfg, idOf, items[i])
    ensures Disciplined(cfg, m, items)
    decreases items
  {
    if items != [] {
      assert forall i :: 0 <= i < |items[1..]| ==> items[1..][i] == items[i + 1];
      NamedItemsAreDisciplined(cfg, idOf, Track(m, items[0]), items[1..]);
    }
  }

  /** The id of a published item is made from its key. */
  ghost predicate NamedItem<C>(cfg: Config<C>, idOf: string -> string, item: Item<C>) {
    item.Publish? ==> item.id == idOf(KeyOfInfo(cfg, item.info))
  }

  lemma {:induction false} RequestIds<C>(cfg: Config<C>, name: string, rs: seq<Request<C>>, idOf: string -> string)
    requires forall k :: idOf(k) == ItemId(name, k)
    ensures forall i :: 0 <= i < |RequestItems(cfg, name, rs)| ==> NamedItem(cfg, idOf, RequestItems(cfg, name, rs)[i])
  {
    if rs != [] {
      RequestIds(cfg, name, rs[1..], idOf);
    }
  }

  /** Every history that calls of `Publish` make is disciplined. */
  lemma RequestsAreDisciplined<C>(cfg: Config<C>, name: string, rs: seq<Request<C>>)
    ensures Disciplined(cfg, map[], RequestItems(cfg, name, rs))
  {
    var idOf := (k: string) => ItemId(name, k);
    forall j, k | idOf(j) == idOf(k) ensures j == k {
      var n := |name| + 1;
      assert idOf(j)[n..] == j && idOf(k)[n..] == k;
    }
    RequestIds(cfg, name, rs, idOf);
    NamedItemsAreDisciplined(cfg, idOf, map[], RequestItems(cfg, name, rs));
  }

  /** Whatever any number of clients publish, joining late is as good as having been there. */
  lemma LateJoinOfRequests<C(!new)>(cfg: Config<C>, name: string, rs: seq<Request<C>>, js: seq<Item<C>>)
    requires SoundEquality(cfg) && Enumerates(js, Survivors(map[], RequestItems(cfg, name, rs)))
    ensures Run(cfg, Blank(), js) == Run(cfg, Blank(), RequestItems(cfg, name, rs))
  {
    RequestsAreDisciplined(cfg, name, rs);
    LateJoin(cfg, RequestItems(cfg, name, rs), js);
  }

  // ---- what requests lead to -----------------------------------------------------------

  /** A call of `Publish` on a node: for this kind of state, or for another one. */
  datatype Call<C> = Own(request: Request<C>) | Foreign(name: string, key: string)

  /** What a client for the kind `name` sees of a call. An item without its kind of state
      counts as retracted. */
  function SeenItem<C>(cfg: Config<C>, name: string, c: Call<C>): Item<C> {
    match c
    case Own(r) => RequestItem(cfg, name, r)
    case Foreign(other, key) => Retract(ItemId(other, key))
  }

  function SeenItems<C>(cfg: Config<C>, name: string, cs: seq<Call<C>>): (items: seq<Item<C>>)
    ensures |items| == |cs| && forall i :: 0 <= i < |cs| ==> items[i] == SeenItem(cfg, name, cs[i])
  {
    seq(|cs|, i requires 0 <= i < |cs| => SeenItem(cfg, name, cs[i]))
  }

  /** The state of the last request for a key, or the default. */
  function LastState<C>(cfg: Config<C>, cs: seq<Call<C>>, k: string): C {
    if cs == [] then cfg.dflt else
      var c := cs[|cs| - 1];
      if c.Own? && cfg.getKey(c.request.publisherNick, c.request.publishedNick) == k then c.request.state
      else LastState(cfg, cs[..|cs| - 1], k)
  }

  /** Known items have the ids of their keys, and stored states have known items. */
  ghost predicate Keyed<C>(cfg: Config<C>, name: string, s: State<C>) {
    && (forall id :: id in s.infos ==> id == ItemId(name, KeyOfInfo(cfg, s.infos[id])))
    && (forall k :: k in s.states ==> ItemId(name, k) in s.infos && Kept(cfg, s.states[k]))
  }

  /** Different kinds of state on a node do not share items. */
  lemma IdsApart(name: string, key: string, other: string, otherKey: string)
    requires ':' !in name && ':' !in other && ItemId(name, key) == ItemId(other, otherKey)
    ensures name == other && key == otherKey
  {
    var id := ItemId(name, key);
    assert id[..|name|] == name && id[|name|] == ':' && id[|name| + 1..] == key;
    assert id[..|other|] == other && id[|other|] == ':' && id[|other| + 1..] == otherKey;
    assert forall i :: 0 <= i < |name| ==> name[i] == id[i];
    assert forall i :: 0 <= i < |other| ==> other[i] == id[i];
  }

  lemma KeyOfId(name: string, key: string, other: string)
    requires ItemId(name, key) == ItemId(name, other)
    ensures key == other
  {
    var n := |name| + 1;
    assert ItemId(name, key)[n..] == key && ItemId(name, other)[n..] == other;
  }

  /** Publishing sets the state of its key and no other. */
  lemma PublishEffect<C(!new)>(cfg: Config<C>, s: State<C>, item: Item<C>)
    requires SoundEquality(cfg) && item.Publish?
    ensures var t := Next(cfg, s, item); var key := KeyOfInfo(cfg, item.info);
            && (forall k :: Effective(cfg, t, k) == if k == key then item.state else Effective(cfg, s, k))
            && t.infos == s.infos[item.id := item.info]
  {
  }

  /** Retracting a known item resets the state of its key and no other. */
  lemma RetractEffect<C(!new)>(cfg: Config<C>, s: State<C>, item: Item<C>)
    requires SoundEquality(cfg) && item.Retract? && item.id in s.infos
    ensures var t := Next(cfg, s, item); var key := KeyOfInfo(cfg, s.infos[item.id]);
            && (forall k :: Effective(cfg, t, k) == if k == key then cfg.dflt else Effective(cfg, s, k))
            && t.infos == s.infos - {item.id}
  {
  }

  lemma CallEffect<C(!new)>(cfg: Config<C>, name: string, s: State<C>, c: Call<C>)
    requires SoundEquality(cfg) && Keyed(cfg, name, s)
    requires c.Foreign? ==> ':' !in name && ':' !in c.name && c.name != name
    ensures var t := Next(cfg, s, SeenItem(cfg, name, c));
            forall k :: Effective(cfg, t, k) ==
              if c.Own? && cfg.getKey(c.request.publisherNick, c.request.publishedNick) == k then c.request.state
              else Effective(cfg, s, k)
  {
    var item := SeenItem(cfg, name, c);
    match c
    case Foreign(other, key) =>
      if item.id in s.infos {
        IdsApart(name, KeyOfInfo(cfg, s.infos[item.id]), other, key);
      }
    case Own(r) =>
      var key := cfg.getKey(r.publisherNick, r.publishedNick);
      assert KeyOfInfo(cfg, Info(r.publisherNick, r.publishedNick)) == key;
      if item.Publish? {
        PublishEffect(cfg, s, item);
      } else if item.id in s.infos {
        KeyOfId(name, KeyOfInfo(cfg, s.infos[item.id]), key);
        RetractEffect(cfg, s, item);
      }
  }

  lemma CallKeepsKeyed<C(!new)>(cfg: Config<C>, name: string, s: State<C>, c: Call<C>)
    requires SoundEquality(cfg) && Keyed(cfg, name, s)
    requires c.Foreign? ==> ':' !in name && ':' !in c.name && c.name != name
    ensures Keyed(cfg, name, Next(cfg, s, SeenItem(cfg, name, c)))
  {
    var item := SeenItem(cfg, name, c);
    match c
    case Foreign(other, key) =>
      if item.id in s.infos {
        IdsApart(name, KeyOfInfo(cfg, s.infos[item.id]), other, key);
      }
    case Own(r) =>
      var key := cfg.getKey(r.publisherNick, r.publishedNick);
      assert KeyOfInfo(cfg, Info(r.publisherNick, r.publishedNick)) == key && item.id == ItemId(name, key);
      if item.Publish? {
        PublishTables(cfg, s, item);
        EntriesKeyed(cfg, name, s, Next(cfg, s, item), key);
      } else if item.id in s.infos {
        KeyOfId(name, KeyOfInfo(cfg, s.infos[item.id]), key);
        RetractTables(cfg, s, item);
        EntriesKeyed(cfg, name, s, Next(cfg, s, item), key);
      }
  }

  lemma EntriesKeyed<C>(cfg: Config<C>, name: string, s: State<C>, t: State<C>, key: string)
    requires Keyed(cfg, name, s)
    requires forall k :: k != key ==> Entry(t.states, k) == Entry(s.states, k)
    requires forall id :: id != ItemId(name, key) && id in s.infos ==> id in t.infos
    requires key in t.states ==> ItemId(name, key) in t.infos && Kept(cfg, t.states[key])
    ensures forall k :: k in t.states ==> ItemId(name, k) in t.infos && Kept(cfg, t.states[k])
  {
    hide Kept, ItemId;
    forall k | k in t.states ensures ItemId(name, k) in t.infos && Kept(cfg, t.states[k]) {
      if k != key {
        assert Entry(t.states, k) == Entry(s.states, k);
        if ItemId(name, k) == ItemId(name, key) {
          KeyOfId(name, k, key);
        }
      }
    }
  }

  lemma {:induction false} RunSnoc<C>(cfg: Config<C>, s: State<C>, items: seq<Item<C>>, item: Item<C>)
    ensures Run(cfg, s, items + [item]) == Next(cfg, Run(cfg, s, items), item)
    decreases items
  {
    hide Next;
    if items == [] {
      assert items + [item] == [item] && [item][1..] == [];
      assert Run(cfg, s, [item]) == Run(cfg, Next(cfg, s, item), []);
    } else {
      assert (items + [item])[1..] == items[1..] + [item];
      RunSnoc(cfg, Next(cfg, s, items[0]), items[1..], item);
    }
  }

  ghost predicate KindsApart<C>(name: string, cs: seq<Call<C>>) {
    forall i :: 0 <= i < |cs| && cs[i].Foreign? ==> ':' !in name && ':' !in cs[i].name && cs[i].name != name
  }

  /** Whatever is published on a node, of one kind of state and of others: in the end the
      state of each key is that of the last request for it, and the default if there was
      none. */
  lemma {:induction false} RequestsTakeEffect<C(!new)>(cfg: Config<C>, name: string, cs: seq<Call<C>>, k: string)
    requires SoundEquality(cfg) && KindsApart(name, cs)
    ensures var s := Run(cfg, Blank(), SeenItems(cfg, name, cs));
            Keyed(cfg, name, s) && Effective(cfg, s, k) == LastState(cfg, cs, k)
    decreases cs
  {
    hide Next, Keyed, SeenItem, SoundEquality;
    if cs == [] {
      NothingKeyed(cfg, name);
    } else {
      var n := |cs| - 1;
      var init, c := cs[..n], cs[n];
      RequestsTakeEffect(cfg, name, init, k);
      var s := Run(cfg, Blank(), SeenItems(cfg, name, init));
      assert SeenItems(cfg, name, cs) == SeenItems(cfg, name, init) + [SeenItem(cfg, name, c)];
      RunSnoc(cfg, Blank(), SeenItems(cfg, name, init), SeenItem(cfg, name, c));
      CallEffect(cfg, name, s, c);
      CallKeepsKeyed(cfg, name, s, c);
    }
  }

  function Owns<C>(rs: seq<Request<C>>): (cs: seq<Call<C>>)
    ensures |cs| == |rs| && forall i :: 0 <= i < |rs| ==> cs[i] == Own(rs[i])
  {
    seq(|rs|, i requires 0 <= i < |rs| => Own(rs[i]))
  }

  lemma {:induction false} RequestItemsSeen<C>(cfg: Config<C>, name: string, rs: seq<Request<C>>)
    ensures RequestItems(cfg, name, rs) == SeenItems(cfg, name, Owns(rs))
  {
    if rs != [] {
      RequestItemsSeen(cfg, name, rs[1..]);
      assert RequestItems(cfg, name, rs)[0] == SeenItem(cfg, name, Own(rs[0]));
    }
  }

  /** The same for requests of one kind alone. */
  lemma LastRequestTakesEffect<C(!new)>(cfg: Config<C>, name: string, rs: seq<Request<C>>, k: string)
    requires SoundEquality(cfg)
    ensures Effective(cfg, Run(cfg, Blank(), RequestItems(cfg, name, rs)), k) == LastState(cfg, Owns(rs), k)
  {
    RequestItemsSeen(cfg, name, rs);
    RequestsTakeEffect(cfg, name, Owns(rs), k);
  }

  lemma NothingKeyed<C>(cfg: Config<C>, name: string)
    ensures Keyed(cfg, name, Blank())
  {
  }

  // ---- presenters ----------------------------------------------------------------------

  /** The presenter state goes by the published nick, and no two states compare equal, so that
      every item is signalled. */
  function PresenterConfig(): Config<bool> {
    Config((publisher: string, published: string) => published, false, (x: bool, y: bool) => false)
  }

  /** The event that a call of the presenter's own `Publish` leads to: it never retracts. */
  function PresenterItem(r: Request<bool>): Item<bool> {
    Item.Publish(r.publishedNick, Info(r.publisherNick, r.publishedNick), r.state)
  }

  function PresenterItems(rs: seq<Request<bool>>): (items: seq<Item<bool>>)
    ensures |items| == |rs| && forall i :: 0 <= i < |rs| ==> items[i] == PresenterItem(rs[i])
  {
    seq(|rs|, i requires 0 <= i < |rs| => PresenterItem(rs[i]))
  }

  /** Presenters are kept apart by their item ids too, and joining late is as good as having
      been there. */
  lemma LateJoinOfPresenters(rs: seq<Request<bool>>, js: seq<Item<bool>>)
    requires Enumerates(js, Survivors(map[], PresenterItems(rs)))
    ensures Disciplined(PresenterConfig(), map[], PresenterItems(rs))
    ensures Run(PresenterConfig(), Blank(), js) == Run(PresenterConfig(), Blank(), PresenterItems(rs))
  {
    NamedItemsAreDisciplined(PresenterConfig(), (k: string) => k, map[], PresenterItems(rs));
    LateJoin(PresenterConfig(), PresenterItems(rs), js);
  }

  /** The last state that was published for a nick, or `false`. */
  function LastPresented(rs: seq<Request<bool>>, nick: string): bool {
    rs != [] &&
    if rs[|rs| - 1].publishedNick == nick then rs[|rs| - 1].state else LastPresented(rs[..|rs| - 1], nick)
  }

  /** In the end each nick presents exactly if the last item for it says so. */
  lemma {:induction false} PresentersTakeEffect(rs: seq<Request<bool>>, nick: string)
    ensures var cfg := PresenterConfig();
            Effective(cfg, Run(cfg, Blank(), PresenterItems(rs)), nick) == LastPresented(rs, nick)
  {
    var cfg := PresenterConfig();
    if rs != [] {
      var n := |rs| - 1;
      PresentersTakeEffect(rs[..n], nick);
      var s, item := Run(cfg, Blank(), PresenterItems(rs[..n])), PresenterItem(rs[n]);
      assert PresenterItems(rs) == PresenterItems(rs[..n]) + [item];
      RunSnoc(cfg, Blank(), PresenterItems(rs[..n]), item);
      PublishEffect(cfg, s, item);
    }
  }

  /** Each publish of a presenter is signalled with its nicks and its state, although the state
      may be the old one. */
  lemma {:induction false} EveryPresenterItemSignalled(s: State<bool>, rs: seq<Request<bool>>)
    ensures var log := Signals(PresenterConfig(), s, PresenterItems(rs));
            && |log| == |rs|
            && forall i :: 0 <= i < |rs| ==>
                 && log[i].key == rs[i].publishedNick && log[i].change.publisherNick == rs[i].publisherNick
                 && log[i].change.publishedNick == rs[i].publishedNick && log[i].change.newState == rs[i].state
    decreases rs
  {
    if rs != [] {
      assert PresenterItems(rs)[1..] == PresenterItems(rs[1..]);
      EveryPresenterItemSignalled(Next(PresenterConfig(), s, PresenterItem(rs[0])), rs[1..]);
    }
  }

  /** Without the discipline joining late differs: two live items share a key and one of them
      is retracted. */
  lemma SharedKeyBreaksLateJoin()
    ensures var cfg := Config((p: string, q: string) => q, 0, (x: int, y: int) => x == y);
            var a := Item.Publish("a", Info("", "n"), 1); var b := Item.Publish("b", Info("", "n"), 2);
            var h := [a, b, Retract("a")];
            && Enumerates([b], Survivors(map[], h))
            && Run(cfg, Blank(), [b]) != Run(cfg, Blank(), h)
  {
    var cfg := Config((p: string, q: string) => q, 0, (x: int, y: int) => x == y);
    var a, b := Item.Publish("a", Info("", "n"), 1), Item.Publish("b", Info("", "n"), 2);
    var h := [a, b, Retract("a")];
    assert h[1..] == [b, Retract("a")] && h[1..][1..] == [Retract("a")] && h[1..][1..][1..] == [];
    var m: map<string, Live<int>> := map[];
    assert Survivors(m, h) == Survivors(Track(Track(m, a), b), h[1..][1..]) == Track(Track(Track(m, a), b), h[2]);
    assert Survivors(m, h).Keys == {"b"};
    assert [b][1..] == [] && [b][0].id == "b";
    var s1 := Next(cfg, Blank(), a);
    var s2 := Next(cfg, s1, b);
    assert s2.infos["a"] == Info("", "n");
    assert "n" !in Next(cfg, s2, h[2]).states;
    assert Run(cfg, Blank(), h) == Run(cfg, s2, h[1..][1..]) == Next(cfg, s2, h[2]);
    assert "n" in Run(cfg, Blank(), [b]).states;
  }

  // ---- event messages ------------------------------------------------------------------

  /** A child of an event message's items element. */
  datatype EventElem<C> = ItemElem(item: Item<C>) | RetractElem(item: Item<C>) | OtherElem

  function Items<C>(doc: seq<EventElem<C>>): seq<Item<C>> {
    if doc == [] then [] else if doc[0].ItemElem? then [doc[0].item] + Items(doc[1..]) else Items(doc[1..])
  }

  function Retracts<C>(doc: seq<EventElem<C>>): seq<Item<C>> {
    if doc == [] then [] else if doc[0].RetractElem? then [doc[0].item] + Retracts(doc[1..]) else Retracts(doc[1..])
  }

  /** The events of a message in document order. */
  function InOrder<C>(doc: seq<EventElem<C>>): seq<Item<C>> {
    if doc == [] then [] else if doc[0].OtherElem? then InOrder(doc[1..]) else [doc[0].item] + InOrder(doc[1..])
  }

  /** Collects all item elements of a message and then all retract elements. */
  method ParseEventItemsElem<C>(doc: seq<EventElem<C>>) returns (items: seq<Item<C>>)
    ensures items == Items(doc) + Retracts(doc)
  {
    items := [];
    var i := 0;
    while i < |doc|
      invariant 0 <= i <= |doc|
      invariant items + Items(doc[i..]) == Items(doc)
    {
      assert doc[i..][1..] == doc[i + 1..];
      if doc[i].ItemElem? {
        ConcatAssoc(items, [doc[i].item], Items(doc[i + 1..]));
        items := items + [doc[i].item];
      }
      i := i + 1;
    }
    assert items == Items(doc);
    i := 0;
    while i < |doc|
      invariant 0 <= i <= |doc|
      invariant items + Retracts(doc[i..]) == Items(doc) + Retracts(doc)
    {
      assert doc[i..][1..] == doc[i + 1..];
      if doc[i].RetractElem? {
        ConcatAssoc(items, [doc[i].item], Retracts(doc[i + 1..]));
        items := items + [doc[i].item];
      }
      i := i + 1;
    }
    assert items + [] == items;
  }

  ghost predicate Independent<C>(cfg: Config<C>, s: State<C>, a: Item<C>, b: Item<C>) {
    a.id != b.id && (KeyOf(cfg, s, a).Some? ==> KeyOf(cfg, s, a) != KeyOf(cfg, s, b))
  }

  lemma SameEntries<K, V>(m: map<K, V>, n: map<K, V>)
    requires forall k :: Entry(m, k) == Entry(n, k)
    ensures m == n
  {
    forall k | k in m ensures k in n && m[k] == n[k] {
      assert Entry(m, k) == Entry(n, k);
    }
    forall k | k in n ensures k in m {
      assert Entry(m, k) == Entry(n, k);
    }
  }

  /** An event touches only its own item and its own key. */
  lemma StepElsewhere<C>(cfg: Config<C>, s: State<C>, a: Item<C>)
    ensures var t := Next(cfg, s, a);
            && (forall id :: id != a.id ==> Entry(t.infos, id) == Entry(s.infos, id))
            && (forall k :: KeyOf(cfg, s, a) != Some(k) ==> Entry(t.states, k) == Entry(s.states, k))
  {
  }

  /** What an event does there depends only on what is there. */
  lemma StepLocal<C>(cfg: Config<C>, s: State<C>, t: State<C>, a: Item<C>)
    requires Entry(s.infos, a.id) == Entry(t.infos, a.id)
    requires var k := KeyOf(cfg, s, a); k.Some? ==> Entry(s.states, k.value) == Entry(t.states, k.value)
    ensures var s1 := Next(cfg, s, a); var t1 := Next(cfg, t, a); var k := KeyOf(cfg, s, a);
            && KeyOf(cfg, t, a) == k
            && Entry(s1.infos, a.id) == Entry(t1.infos, a.id)
            && (k.Some? ==> Entry(s1.states, k.value) == Entry(t1.states, k.value))
  {
  }

  /** Events on different items and different keys commute, whatever the comparison. */
  lemma StepsCommute<C>(cfg: Config<C>, s: State<C>, a: Item<C>, b: Item<C>)
    requires Independent(cfg, s, a, b)
    ensures Next(cfg, Next(cfg, s, a), b) == Next(cfg, Next(cfg, s, b), a)
  {
    var l, r := Next(cfg, Next(cfg, s, a), b), Next(cfg, Next(cfg, s, b), a);
    forall id ensures Entry(l.infos, id) == Entry(r.infos, id) {
      CommuteAt(cfg, s, a, b, id, "");
    }
    SameEntries(l.infos, r.infos);
    forall k ensures Entry(l.states, k) == Entry(r.states, k) {
      CommuteAt(cfg, s, a, b, a.id, k);
    }
    SameEntries(l.states, r.states);
  }

  lemma CommuteAt<C>(cfg: Config<C>, s: State<C>, a: Item<C>, b: Item<C>, id: string, k: string)
    requires Independent(cfg, s, a, b)
    ensures var l := Next(cfg, Next(cfg, s, a), b); var r := Next(cfg, Next(cfg, s, b), a);
            Entry(l.infos, id) == Entry(r.infos, id) && Entry(l.states, k) == Entry(r.states, k)
  {
    SwapLeft(cfg, s, a, b);
    SwapLeft(cfg, s, b, a);
    StepElsewhere(cfg, s, a);
    StepElsewhere(cfg, s, b);
    StepElsewhere(cfg, Next(cfg, s, a), b);
    StepElsewhere(cfg, Next(cfg, s, b), a);
    KeyOfStable(cfg, s, a, b);
    KeyOfStable(cfg, s, b, a);
  }

  /** What `a` does to its own item and key is the same with or without `b` before it. */
  lemma SwapLeft<C>(cfg: Config<C>, s: State<C>, a: Item<C>, b: Item<C>)
    requires a.id != b.id && (KeyOf(cfg, s, a).Some? ==> KeyOf(cfg, s, a) != KeyOf(cfg, s, b))
    ensures var x := Next(cfg, s, a); var y := Next(cfg, Next(cfg, s, b), a); var k := KeyOf(cfg, s, a);
            && Entry(x.infos, a.id) == Entry(y.infos, a.id)
            && (k.Some? ==> Entry(x.states, k.value) == Entry(y.states, k.value))
  {
    StepElsewhere(cfg, s, b);
    StepLocal(cfg, s, Next(cfg, s, b), a);
  }

  lemma KeyOfStable<C>(cfg: Config<C>, s: State<C>, a: Item<C>, b: Item<C>)
    requires a.id != b.id
    ensures KeyOf(cfg, Next(cfg, s, a), b) == KeyOf(cfg, s, b)
  {
  }

  /** An event that is independent of others can be moved before them. */
  lemma {:induction false} MoveToFront<C>(cfg: Config<C>, s: State<C>, xs: seq<Item<C>>, d: Item<C>, ys: seq<Item<C>>)
    requires forall i :: 0 <= i < |xs| ==> Independent(cfg, s, xs[i], d)
    requires forall i, j :: 0 <= i < j < |xs| ==> xs[i].id != xs[j].id
    ensures Run(cfg, s, xs + ([d] + ys)) == Run(cfg, Next(cfg, s, d), xs + ys)
    decreases xs
  {
    if xs == [] {
      assert xs + ([d] + ys) == [d] + ys && ([d] + ys)[1..] == ys && xs + ys == ys;
    } else {
      var x, t := xs[0], Next(cfg, s, xs[0]);
      assert (xs + ([d] + ys))[1..] == xs[1..] + ([d] + ys) && (xs + ys)[1..] == xs[1..] + ys;
      forall i | 0 <= i < |xs[1..]| ensures Independent(cfg, t, xs[1..][i], d) {
        KeyOfStable(cfg, s, x, xs[i + 1]);
        KeyOfStable(cfg, s, x, d);
      }
      MoveToFront(cfg, t, xs[1..], d, ys);
      StepsCommute(cfg, s, x, d);
    }
  }

  /** The events of a message are about distinct items and distinct keys. */
  ghost predicate AllIndependent<C>(cfg: Config<C>, s: State<C>, items: seq<Item<C>>) {
    forall i, j :: 0 <= i < j < |items| ==>
      Independent(cfg, s, items[i], items[j]) && Independent(cfg, s, items[j], items[i])
  }

  lemma AllIndependentTail<C>(cfg: Config<C>, s: State<C>, items: seq<Item<C>>)
    requires items != [] && AllIndependent(cfg, s, items)
    ensures AllIndependent(cfg, Next(cfg, s, items[0]), items[1..])
  {
    var t := Next(cfg, s, items[0]);
    forall i | 0 < i < |items| ensures KeyOf(cfg, t, items[i]) == KeyOf(cfg, s, items[i]) {
      KeyOfStable(cfg, s, items[0], items[i]);
    }
    forall i, j | 0 <= i < j < |items[1..]|
      ensures Independent(cfg, t, items[1..][i], items[1..][j]) && Independent(cfg, t, items[1..][j], items[1..][i])
    {
      assert items[1..][i] == items[i + 1] && items[1..][j] == items[j + 1];
    }
  }

  /** The item events of a message are among its events, and distinct if those are. */
  lemma {:induction false} ItemsAmong<C>(doc: seq<EventElem<C>>)
    ensures forall i :: 0 <= i < |Items(doc)| ==> Items(doc)[i] in InOrder(doc)
    ensures forall i, j :: 0 <= i < j < |Items(doc)| && DistinctIds(InOrder(doc)) ==>
              Items(doc)[i].id != Items(doc)[j].id
  {
    if doc != [] {
      ItemsAmong(doc[1..]);
      var o, p := InOrder(doc), InOrder(doc[1..]);
      if !doc[0].OtherElem? {
        assert o == [doc[0].item] + p && o[1..] == p;
        assert DistinctIds(o) ==> DistinctIds(p) && forall x :: x in p ==> x.id != doc[0].item.id by {
          if DistinctIds(o) {
            forall i, j | 0 <= i < j < |p| ensures p[i].id != p[j].id { assert p[i] == o[i + 1] && p[j] == o[j + 1]; }
            forall x | x in p ensures x.id != doc[0].item.id {
              var i :| 0 <= i < |p| && p[i] == x;
              assert o[i + 1] == x && o[0] == doc[0].item;
            }
          }
        }
      }
    }
  }

  ghost predicate DistinctIds<C>(items: seq<Item<C>>) {
    forall i, j :: 0 <= i < j < |items| ==> items[i].id != items[j].id
  }

  /** Handling all items of a message before all its retracts ends in the same tables as
      handling them in document order. */
  lemma {:induction false} MessageOrderIrrelevant<C>(cfg: Config<C>, s: State<C>, doc: seq<EventElem<C>>)
    requires AllIndependent(cfg, s, InOrder(doc))
    ensures Run(cfg, s, Items(doc) + Retracts(doc)) == Run(cfg, s, InOrder(doc))
    decreases doc
  {
    if doc != [] {
      var rest := doc[1..];
      if doc[0].OtherElem? {
        MessageOrderIrrelevant(cfg, s, rest);
      } else {
        var o := InOrder(doc);
        assert o[0] == doc[0].item && o[1..] == InOrder(rest);
        AllIndependentTail(cfg, s, o);
        MessageOrderIrrelevant(cfg, Next(cfg, s, doc[0].item), rest);
        if doc[0].ItemElem? {
          ItemFirst(cfg, s, doc);
        } else {
          RetractFirst(cfg, s, doc);
        }
      }
    }
  }

  lemma ItemFirst<C>(cfg: Config<C>, s: State<C>, doc: seq<EventElem<C>>)
    requires doc != [] && doc[0].ItemElem?
    ensures var rest := doc[1..];
            Run(cfg, s, Items(doc) + Retracts(doc)) == Run(cfg, Next(cfg, s, doc[0].item), Items(rest) + Retracts(rest))
  {
    var all := Items(doc) + Retracts(doc);
    assert all[0] == doc[0].item && all[1..] == Items(doc[1..]) + Retracts(doc[1..]);
  }

  /** A retract that comes first in a message can be handled first. */
  lemma RetractFirst<C>(cfg: Config<C>, s: State<C>, doc: seq<EventElem<C>>)
    requires doc != [] && doc[0].RetractElem? && AllIndependent(cfg, s, InOrder(doc))
    ensures var rest := doc[1..];
            Run(cfg, s, Items(doc) + Retracts(doc)) == Run(cfg, Next(cfg, s, doc[0].item), Items(rest) + Retracts(rest))
  {
    var d, rest, o := doc[0].item, doc[1..], InOrder(doc);
    assert o[0] == d && o[1..] == InOrder(rest);
    ItemsAmong(rest);
    forall i | 0 <= i < |Items(rest)| ensures Independent(cfg, s, Items(rest)[i], d) {
      assert Items(rest)[i] in InOrder(rest);
      var j :| 0 <= j < |InOrder(rest)| && InOrder(rest)[j] == Items(rest)[i];
      assert o[j + 1] == Items(rest)[i];
    }
    forall i, j | 0 <= i < j < |o[1..]| ensures o[1..][i].id != o[1..][j].id {
      assert Independent(cfg, s, o[i + 1], o[j + 1]);
    }
    assert DistinctIds(InOrder(rest));
    MoveToFront(cfg, s, Items(rest), d, Retracts(rest));
  }

  // ---- the client ----------------------------------------------------------------------

  /** What a client asks of the server. */
  datatype Outgoing<C> = PublishItem(id: string, publishedNick: string, state: C) | RetractItem(id: string)

  class PubSubStateClient<C> {
    const cfg: Config<C>
    const publisherNick: string
    const stateName: string
    var infoByItemid: map<string, Info>
    var stateByKey: map<string, C>
    var signals: seq<Signal<C>>

    ghost function View(): State<C>
      reads this
    {
      State(infoByItemid, stateByKey)
    }

    constructor (cfg: Config<C>, publisherNick: string, stateName: string)
      ensures this.cfg == cfg && View() == Blank() && signals == []
    {
      this.cfg, this.publisherNick, this.stateName := cfg, publisherNick, stateName;
      infoByItemid, stateByKey, signals := map[], map[], [];
    }

    /** Chooses between publishing and retracting this client's own state. */
    method Publish(publishedNick: string, state: C) returns (out: Outgoing<C>)
      ensures var item := RequestItem(cfg, stateName, Request(publisherNick, publishedNick, state));
              match out
              case PublishItem(id, nick, st) => item == Item.Publish(id, Info(publisherNick, nick), st)
              case RetractItem(id) => item == Retract(id)
    {
      var id := stateName + ":" + cfg.getKey(publisherNick, publishedNick);
      if cfg.statesEqual(state, cfg.dflt) {
        out := RetractItem(id);
      } else {
        out := PublishItem(id, publishedNick, state);
      }
    }

    method OnItem(item: Item<C>)
      modifies this
      ensures View() == Next(cfg, old(View()), item)
      ensures signals == old(signals) + Emitted(cfg, old(View()), item)
    {
      var info, newState;
      var retracted := item.Retract?;
      if retracted {
        if item.id !in infoByItemid {
          return;
        }
        info := infoByItemid[item.id];
        infoByItemid := infoByItemid - {item.id};
        newState := cfg.dflt;
      } else {
        info, newState := item.info, item.state;
        infoByItemid := infoByItemid[item.id := info];
      }
      var key := cfg.getKey(info.publisherNick, info.publishedNick);
      var hasOldState := key in stateByKey;
      var oldState := if hasOldState then stateByKey[key] else cfg.dflt;
      if (retracted && !hasOldState) || cfg.statesEqual(newState, oldState) {
        return;
      }
      if retracted || cfg.statesEqual(newState, cfg.dflt) {
        stateByKey := stateByKey - {key};
      } else {
        stateByKey := stateByKey[key := newState];
      }
      var publisher := if retracted then "" else info.publisherNick;
      signals := signals + [Signal(key, Change(publisher, info.publishedNick, oldState, newState))];
    }

    method OnItems(items: seq<Item<C>>)
      modifies this
      ensures View() == Run(cfg, old(View()), items)
      ensures signals == old(signals) + Signals(cfg, old(View()), items)
    {
      var i := 0;
      while i < |items|
        invariant 0 <= i <= |items|
        invariant Run(cfg, View(), items[i..]) == Run(cfg, old(View()), items)
        invariant signals + Signals(cfg, View(), items[i..]) == old(signals) + Signals(cfg, old(View()), items)
      {
        assert items[i..][1..] == items[i + 1..];
        ghost var s := View();
        ConcatAssoc(signals, Emitted(cfg, s, items[i]), Signals(cfg, Next(cfg, s, items[i]), items[i + 1..]));
        OnItem(items[i]);
        i := i + 1;
      }
    }
  }
}
