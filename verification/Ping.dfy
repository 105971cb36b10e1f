/** The ping task: one timed step of a task that pings a server and waits for the reply. */
module Ping {
  import opened Xml

  const TWO32 := 0x1_0000_0000

  /** Milliseconds of a 32-bit clock. */
  type Millis = t: int | 0 <= t < TWO32

  datatype Config = Config(period: Millis, timeout: Millis)

  datatype Timer = Timer(nextPing: Millis, deadline: Millis)

  const FreshTimer := Timer(0, 0)

  /** What one run of the task does. */
  datatype Action = Rejected | TimedOut | Sent | Idle

  predicate Stops(a: Action) { a == Rejected || a == TimedOut }

  function Step(cfg: Config, t: Timer, reply: bool, now: Millis): (Timer, Action) {
    if cfg.period < cfg.timeout then (t, Rejected) else
      var u := if reply then t.(deadline := 0) else t;
      if u.deadline != 0 && now >= u.deadline then (u, TimedOut)
      else if now >= u.nextPing then
        (Timer((now + cfg.period) % TWO32, (now + cfg.timeout) % TWO32), Sent)
      else (u, Idle)
  }

  /** One wake-up of the task: whether a reply is queued, and the true time. */
  datatype Wake = Wake(reply: bool, now: nat)

  /** What a 32-bit clock shows. */
  function Reading(now: nat): Millis { now % TWO32 }

  /** How often the clock has wrapped around. */
  function Epoch(now: nat): nat { now / TWO32 }

  /** The actions of a run, in which the task sees the clock only; an action that ends the
      task is the last. */
  function Actions(cfg: Config, t: Timer, ws: seq<Wake>): (acts: seq<Action>)
    ensures |acts| <= |ws|
    decreases ws
  {
    if ws == [] then [] else
      var (u, a) := Step(cfg, t, ws[0].reply, Reading(ws[0].now));
      if Stops(a) then [a] else [a] + Actions(cfg, u, ws[1..])
  }

  // ---- what pinging is meant to do -----------------------------------------------------

  /** The last ping, and whether its reply is still awaited. */
  datatype Monitor = Monitor(lastPing: Option<nat>, awaiting: bool)

  const FreshMonitor := Monitor(None, false)

  /** An awaited reply is overdue at `w`. */
  predicate Overdue(cfg: Config, m: Monitor, w: Wake) {
    m.lastPing.Some? && m.awaiting && !w.reply && w.now >= m.lastPing.value + cfg.timeout
  }

  /** The task in terms of true time: give up when an awaited reply is overdue, otherwise
      ping when a period has passed. */
  function Ideal(cfg: Config, m: Monitor, w: Wake): (Monitor, Action) {
    var n := m.(awaiting := m.awaiting && !w.reply);
    if cfg.period < cfg.timeout then (m, Rejected)
    else if Overdue(cfg, m, w) then (n, TimedOut)
    else if m.lastPing.None? || w.now >= m.lastPing.value + cfg.period then (Monitor(Some(w.now), true), Sent)
    else (n, Idle)
  }

  function IdealActions(cfg: Config, m: Monitor, ws: seq<Wake>): (acts: seq<Action>)
    ensures |acts| <= |ws|
    decreases ws
  {
    if ws == [] then [] else
      var (n, a) := Ideal(cfg, m, ws[0]);
      if Stops(a) then [a] else [a] + IdealActions(cfg, n, ws[1..])
  }

  // ---- when the clock does what time does ----------------------------------------------

  /** The timer holds the readings of what the monitor says, with 0 for "no deadline". */
  ghost predicate Matches(cfg: Config, t: Timer, m: Monitor) {
    match m.lastPing
    case None => !m.awaiting && t == FreshTimer
    case Some(p) =>
      && t.nextPing == Reading(p + cfg.period)
      && t.deadline == (if m.awaiting then Reading(p + cfg.timeout) else 0)
  }

  /** Wake-ups in the order of time, none before the last ping. */
  ghost predicate Ordered(m: Monitor, ws: seq<Wake>) {
    && (m.lastPing.Some? && ws != [] ==> m.lastPing.value <= ws[0].now)
    && forall i :: 0 < i < |ws| ==> ws[i - 1].now <= ws[i].now
  }

  /** The clock cannot mislead the task at `w`: when the reply is overdue, or the next ping is
      due, the clock has not wrapped to before the reading of that time, and the deadline does
      not read like "none"; when nothing is due yet, no wrap lies between now and the next
      ping. */
  predicate Readable(cfg: Config, m: Monitor, w: Wake) {
    match m.lastPing
    case None => true
    case Some(p) =>
      if Overdue(cfg, m, w) then 0 < Reading(p + cfg.timeout) <= Reading(w.now)
      else if w.now >= p + cfg.period then Reading(p + cfg.period) <= Reading(w.now)
      else Epoch(w.now) == Epoch(p + cfg.period)
  }

  /** The clock misleads the task nowhere in the run; whatever comes after the end of the task
      does not matter. */
  predicate AllReadable(cfg: Config, m: Monitor, ws: seq<Wake>)
    decreases ws
  {
    ws == [] || cfg.period < cfg.timeout ||
    (Readable(cfg, m, ws[0]) &&
     var (n, a) := Ideal(cfg, m, ws[0]); (Stops(a) || AllReadable(cfg, n, ws[1..])))
  }

  /** One wake-up does what it should exactly when the clock does not mislead it. */
  lemma StepIsIdeal(cfg: Config, t: Timer, m: Monitor, w: Wake)
    requires Matches(cfg, t, m) && Ordered(m, [w]) && cfg.period >= cfg.timeout
    ensures var (u, a) := Step(cfg, t, w.reply, Reading(w.now)); var (n, b) := Ideal(cfg, m, w);
            && (a == b <==> Readable(cfg, m, w))
            && (a == b && !Stops(a) ==> Matches(cfg, u, n))
  {
    hide Reading, Epoch;
    Sum(w.now, cfg.period);
    Sum(w.now, cfg.timeout);
    if m.lastPing.Some? {
      var p := m.lastPing.value;
      if w.now < p + cfg.timeout {
        ReadingsOf(p, w.now, cfg.timeout);
      }
      if w.now < p + cfg.period {
        ReadingsOf(p, w.now, cfg.period);
      }
      if p + cfg.timeout > w.now && Epoch(w.now) == Epoch(p + cfg.period) {
        EpochGrows(p + cfg.timeout, p + cfg.period);
      }
    }
  }

  lemma EpochGrows(early: nat, later: nat)
    requires early <= later
    ensures Epoch(early) <= Epoch(later)
  {
    assert Reading(early) + TWO32 * Epoch(early) == early;
    assert Reading(later) + TWO32 * Epoch(later) == later;
  }

  /** A time within the next 2^32 milliseconds is compared rightly by its reading exactly
      when no wrap lies before it. */
  lemma ReadingsOf(p: nat, now: nat, wait: Millis)
    requires p <= now < p + wait
    ensures Reading(now) < Reading(p + wait) <==> Epoch(now) == Epoch(p + wait)
    ensures Epoch(now) <= Epoch(p + wait)
  {
    assert Reading(now) + TWO32 * Epoch(now) == now;
    assert Reading(p + wait) + TWO32 * Epoch(p + wait) == p + wait;
  }

  /** A run of the two timers and the zero sentinel is what pinging in true time does if and
      only if the clock misleads it nowhere. */
  lemma {:induction false} TimerIsIdeal(cfg: Config, t: Timer, m: Monitor, ws: seq<Wake>)
    requires Matches(cfg, t, m) && Ordered(m, ws)
    ensures Actions(cfg, t, ws) == IdealActions(cfg, m, ws) <==> AllReadable(cfg, m, ws)
    decreases ws
  {
    if ws != [] && cfg.period >= cfg.timeout {
      StepIsIdeal(cfg, t, m, ws[0]);
      var (u, a) := Step(cfg, t, ws[0].reply, Reading(ws[0].now));
      var (n, b) := Ideal(cfg, m, ws[0]);
      assert Actions(cfg, t, ws)[0] == a && IdealActions(cfg, m, ws)[0] == b;
      if a == b && !Stops(a) {
        assert Actions(cfg, t, ws)[1..] == Actions(cfg, u, ws[1..]);
        assert IdealActions(cfg, m, ws)[1..] == IdealActions(cfg, n, ws[1..]);
        assert forall i :: 0 < i < |ws[1..]| ==> ws[1..][i - 1] == ws[i] && ws[1..][i] == ws[i + 1];
        TimerIsIdeal(cfg, u, n, ws[1..]);
      }
    }
  }

  // ---- the condition in practice -------------------------------------------------------

  /** Nothing of the run, and no period after a wake-up of it, leaves one turn of the clock. */
  ghost predicate NoWrap(cfg: Config, ws: seq<Wake>) {
    forall i, j :: 0 <= i < |ws| && 0 <= j < |ws| ==> Epoch(ws[i].now) == Epoch(ws[j].now + cfg.period)
  }

  /** A run without wrap-around is never misled. */
  lemma {:induction false} NoWrapReadable(cfg: Config, m: Monitor, ws: seq<Wake>)
    requires NoWrap(cfg, ws) && Ordered(m, ws) && cfg.timeout > 0
    requires m.lastPing.Some? ==>
               var p := m.lastPing.value;
               forall i :: 0 <= i < |ws| ==> Epoch(ws[i].now) == Epoch(p) == Epoch(p + cfg.period)
    ensures AllReadable(cfg, m, ws)
    decreases ws
  {
    if ws != [] && cfg.period >= cfg.timeout {
      var (n, a) := Ideal(cfg, m, ws[0]);
      if m.lastPing.Some? {
        SameTurn(cfg, m, ws[0]);
      }
      if !Stops(a) {
        assert forall i :: 0 <= i < |ws[1..]| ==> ws[1..][i] == ws[i + 1];
        assert Epoch(ws[0].now) == Epoch(ws[0].now + cfg.period);
        assert Ordered(n, ws[1..]);
        NoWrapReadable(cfg, n, ws[1..]);
      }
    }
  }

  /** As long as the clock has not wrapped since the last ping, it misleads the task exactly
      when the period wraps, unless the reply is overdue and the timeout did not wrap. */
  lemma SameTurn(cfg: Config, m: Monitor, w: Wake)
    requires cfg.period >= cfg.timeout > 0 && m.lastPing.Some? && m.lastPing.value <= w.now
    requires Epoch(m.lastPing.value) == Epoch(w.now)
    ensures Readable(cfg, m, w) <==>
            || Reading(m.lastPing.value) + cfg.period < TWO32
            || (Overdue(cfg, m, w) && Reading(m.lastPing.value) + cfg.timeout < TWO32)
  {
    var p, now := m.lastPing.value, w.now;
    assert now == Reading(now) + TWO32 * Epoch(p) && p == Reading(p) + TWO32 * Epoch(p);
    Sum(p, cfg.period);
    Sum(p, cfg.timeout);
  }

  lemma Sum(p: nat, wait: Millis)
    ensures Reading(p) + wait < TWO32 ==> Epoch(p + wait) == Epoch(p) && Reading(p + wait) == Reading(p) + wait
    ensures Reading(p) + wait >= TWO32 ==>
              Epoch(p + wait) == Epoch(p) + 1 && Reading(p + wait) == Reading(p) + wait - TWO32
  {
    assert p == Reading(p) + TWO32 * Epoch(p);
  }

  // ---- safety --------------------------------------------------------------------------

  /** The wake-up before `i` at which the most recent ping was sent. */
  ghost function LastSent(acts: seq<Action>, i: nat): (r: Option<nat>)
    requires i <= |acts|
    ensures r.Some? ==> r.value < i
  {
    if i == 0 then None else if acts[i - 1] == Sent then Some(i - 1) else LastSent(acts, i - 1)
  }

  ghost predicate RepliedSince(ws: seq<Wake>, from: nat, to: nat)
    requires to < |ws|
  {
    exists k :: from < k <= to && ws[k].reply
  }

  /** What a run must look like at wake-up `i`: a ping is sent exactly when there was none, or
      its reply came and a period has passed; the task times out exactly when no reply came
      since the last ping and the timeout has passed. */
  ghost predicate SafeAt(cfg: Config, acts: seq<Action>, ws: seq<Wake>, i: nat)
    requires i < |acts| <= |ws|
  {
    var p := LastSent(acts, i);
    && acts[i] != Rejected
    && (acts[i] == Sent <==>
         p.None? || (RepliedSince(ws, p.value, i) && ws[i].now >= ws[p.value].now + cfg.period))
    && (acts[i] == TimedOut <==>
         p.Some? && !RepliedSince(ws, p.value, i) && ws[i].now >= ws[p.value].now + cfg.timeout)
  }

  ghost predicate Safe(cfg: Config, acts: seq<Action>, ws: seq<Wake>)
    requires |acts| <= |ws|
  {
    forall i :: 0 <= i < |acts| ==> SafeAt(cfg, acts, ws, i)
  }

  function MonitorAfter(cfg: Config, m: Monitor, ws: seq<Wake>): Monitor {
    if ws == [] then m
    else Ideal(cfg, MonitorAfter(cfg, m, ws[..|ws| - 1]), ws[|ws| - 1]).0
  }

  /** The actions of an ideal run, one by one. */
  lemma {:induction false} IdealAt(cfg: Config, m: Monitor, ws: seq<Wake>, i: nat)
    requires i < |IdealActions(cfg, m, ws)|
    ensures IdealActions(cfg, m, ws)[i] == Ideal(cfg, MonitorAfter(cfg, m, ws[..i]), ws[i]).1
    decreases ws
  {
    var (n, a) := Ideal(cfg, m, ws[0]);
    if !Stops(a) && |IdealActions(cfg, n, ws[1..])| > 0 {
      IdealAt(cfg, n, ws[1..], if i == 0 then 0 else i - 1);
    }
    if i > 0 {
      MonitorShift(cfg, m, ws[..i]);
      assert ws[..i][1..] == ws[1..][..i - 1] && ws[..i][0] == ws[0];
    }
  }

  lemma {:induction false} MonitorShift(cfg: Config, m: Monitor, ws: seq<Wake>)
    requires ws != []
    ensures MonitorAfter(cfg, m, ws) == MonitorAfter(cfg, Ideal(cfg, m, ws[0]).0, ws[1..])
    decreases ws
  {
    var n := |ws| - 1;
    if n > 0 {
      MonitorShift(cfg, m, ws[..n]);
      assert ws[..n][1..] == ws[1..][..n - 1];
    } else {
      assert ws[..0] == [] && ws[1..] == [];
    }
  }

  /** The monitor remembers the last ping and whether a reply came since. */
  lemma {:induction false} MonitorSpec(cfg: Config, ws: seq<Wake>, i: nat)
    requires cfg.period >= cfg.timeout && i < |IdealActions(cfg, FreshMonitor, ws)|
    ensures var acts := IdealActions(cfg, FreshMonitor, ws); var m := MonitorAfter(cfg, FreshMonitor, ws[..i]);
            var p := LastSent(acts, i);
            && (p.None? ==> m == FreshMonitor)
            && (p.Some? ==> m.lastPing == Some(ws[p.value].now)
                            && (m.awaiting <==> forall k :: p.value < k < i ==> !ws[k].reply))
    decreases i
  {
    if i > 0 {
      MonitorSpec(cfg, ws, i - 1);
      IdealAt(cfg, FreshMonitor, ws, i - 1);
      assert ws[..i][..i - 1] == ws[..i - 1];
      StopsOnlyLast(cfg, FreshMonitor, ws, i - 1);
    }
  }

  lemma {:induction false} StopsOnlyLast(cfg: Config, m: Monitor, ws: seq<Wake>, i: nat)
    requires i + 1 < |IdealActions(cfg, m, ws)|
    ensures !Stops(IdealActions(cfg, m, ws)[i])
    decreases ws
  {
    var (n, a) := Ideal(cfg, m, ws[0]);
    if i > 0 {
      StopsOnlyLast(cfg, n, ws[1..], i - 1);
    }
  }

  /** Pinging in true time is safe. */
  lemma IdealIsSafe(cfg: Config, ws: seq<Wake>)
    requires cfg.period >= cfg.timeout
    ensures Safe(cfg, IdealActions(cfg, FreshMonitor, ws), ws)
  {
    var acts := IdealActions(cfg, FreshMonitor, ws);
    forall i | 0 <= i < |acts| ensures SafeAt(cfg, acts, ws, i) {
      IdealAt(cfg, FreshMonitor, ws, i);
      MonitorSpec(cfg, ws, i);
      var p := LastSent(acts, i);
      var m := MonitorAfter(cfg, FreshMonitor, ws[..i]);
      if p.Some? {
        assert (m.awaiting && !ws[i].reply) <==> !RepliedSince(ws, p.value, i);
      }
    }
  }

  /** A run goes on until an action stops it or nothing wakes the task any more. */
  ghost predicate Complete(acts: seq<Action>, ws: seq<Wake>) {
    && |acts| <= |ws|
    && (forall i :: 0 <= i < |acts| - 1 ==> !Stops(acts[i]))
    && (|acts| < |ws| ==> acts != [] && Stops(acts[|acts| - 1]))
  }

  lemma {:induction false} RunComplete(cfg: Config, t: Timer, ws: seq<Wake>)
    ensures Complete(Actions(cfg, t, ws), ws)
    decreases ws
  {
    if ws != [] {
      var (u, a) := Step(cfg, t, ws[0].reply, Reading(ws[0].now));
      RunComplete(cfg, u, ws[1..]);
    }
  }

  lemma {:induction false} IdealComplete(cfg: Config, m: Monitor, ws: seq<Wake>)
    ensures Complete(IdealActions(cfg, m, ws), ws)
    decreases ws
  {
    if ws != [] {
      IdealComplete(cfg, Ideal(cfg, m, ws[0]).0, ws[1..]);
    }
  }

  lemma {:induction false} LastSentOfPrefix(acts: seq<Action>, other: seq<Action>, i: nat)
    requires i <= |acts| && i <= |other| && acts[..i] == other[..i]
    ensures LastSent(acts, i) == LastSent(other, i)
  {
    if i > 0 {
      assert acts[..i][..i - 1] == acts[..i - 1] && other[..i][..i - 1] == other[..i - 1];
      assert acts[i - 1] == acts[..i][i - 1] && other[i - 1] == other[..i][i - 1];
      LastSentOfPrefix(acts, other, i - 1);
    }
  }

  /** Safety leaves no choice: two safe runs agree as far as both go. */
  lemma {:induction false} SafeAgree(cfg: Config, acts: seq<Action>, other: seq<Action>, ws: seq<Wake>, i: nat)
    requires |acts| <= |ws| && |other| <= |ws| && Safe(cfg, acts, ws) && Safe(cfg, other, ws)
    requires i <= |acts| && i <= |other|
    ensures acts[..i] == other[..i]
    decreases i
  {
    if i > 0 {
      SafeAgree(cfg, acts, other, ws, i - 1);
      LastSentOfPrefix(acts, other, i - 1);
      assert SafeAt(cfg, acts, ws, i - 1) && SafeAt(cfg, other, ws, i - 1);
      assert acts[..i] == acts[..i - 1] + [acts[i - 1]] && other[..i] == other[..i - 1] + [other[i - 1]];
    }
  }

  lemma SafeUnique(cfg: Config, acts: seq<Action>, other: seq<Action>, ws: seq<Wake>)
    requires Complete(acts, ws) && Complete(other, ws) && Safe(cfg, acts, ws) && Safe(cfg, other, ws)
    ensures acts == other
  {
    var n := if |acts| <= |other| then |acts| else |other|;
    SafeAgree(cfg, acts, other, ws, n);
    assert forall k :: 0 <= k < n ==> acts[k] == acts[..n][k] && other[k] == other[..n][k];
    assert acts[..|acts|] == acts && other[..|other|] == other;
  }

  /** A run of the task is safe throughout if and only if the clock misleads it nowhere. */
  lemma PingsAreSafe(cfg: Config, ws: seq<Wake>)
    requires cfg.period >= cfg.timeout && Ordered(FreshMonitor, ws)
    ensures Safe(cfg, Actions(cfg, FreshTimer, ws), ws) <==> AllReadable(cfg, FreshMonitor, ws)
  {
    TimerIsIdeal(cfg, FreshTimer, FreshMonitor, ws);
    IdealIsSafe(cfg, ws);
    RunComplete(cfg, FreshTimer, ws);
    IdealComplete(cfg, FreshMonitor, ws);
    if Safe(cfg, Actions(cfg, FreshTimer, ws), ws) {
      SafeUnique(cfg, Actions(cfg, FreshTimer, ws), IdealActions(cfg, FreshMonitor, ws), ws);
    }
  }

  // ---- wrap-around ---------------------------------------------------------------------

  lemma TwoWakes(cfg: Config, t: Timer, m: Monitor, v: Wake, w: Wake)
    requires Step(cfg, t, v.reply, Reading(v.now)).1 == Sent && Ideal(cfg, m, v).1 == Sent
    ensures Actions(cfg, t, [v, w]) ==
            [Sent, Step(cfg, Step(cfg, t, v.reply, Reading(v.now)).0, w.reply, Reading(w.now)).1]
    ensures IdealActions(cfg, m, [v, w]) == [Sent, Ideal(cfg, Ideal(cfg, m, v).0, w).1]
  {
    var ws := [v, w];
    assert ws[1..] == [w] && [w][1..] == [];
  }

  /** When a sum wraps around to zero, the timeout is lost and the next ping goes out at once,
      although the reply is still awaited. */
  lemma WrapBreaksPacing()
    ensures var cfg := Config(10, 10);
            var ws := [Wake(false, 0xFFFF_FFF6), Wake(false, 0xFFFF_FFF7)];
            Actions(cfg, FreshTimer, ws) == [Sent, Sent] && IdealActions(cfg, FreshMonitor, ws) == [Sent, Idle]
  {
    TwoWakes(Config(10, 10), FreshTimer, FreshMonitor, Wake(false, 0xFFFF_FFF6), Wake(false, 0xFFFF_FFF7));
  }

  /** When the clock wraps between two wake-ups, a ping that is due is not sent. */
  lemma WrapDelaysPing()
    ensures var cfg := Config(50, 50);
            var ws := [Wake(false, TWO32 - 100), Wake(true, TWO32 + 1)];
            Actions(cfg, FreshTimer, ws) == [Sent, Idle] && IdealActions(cfg, FreshMonitor, ws) == [Sent, Sent]
  {
    TwoWakes(Config(50, 50), FreshTimer, FreshMonitor, Wake(false, TWO32 - 100), Wake(true, TWO32 + 1));
  }

  // ---- the task ------------------------------------------------------------------------

  class PingTask {
    const cfg: Config
    var nextPingTime: Millis
    var pingResponseDeadline: Millis

    constructor (cfg: Config)
      ensures this.cfg == cfg && Timer(nextPingTime, pingResponseDeadline) == FreshTimer
    {
      this.cfg := cfg;
      nextPingTime, pingResponseDeadline := 0, 0;
    }

    method ProcessStart(reply: bool, now: Millis) returns (a: Action)
      modifies this
      ensures (Timer(nextPingTime, pingResponseDeadline), a) ==
              Step(cfg, old(Timer(nextPingTime, pingResponseDeadline)), reply, now)
    {
      if cfg.period < cfg.timeout {
        return Rejected;
      }
      if reply {
        pingResponseDeadline := 0;
      }
      if pingResponseDeadline != 0 && now >= pingResponseDeadline {
        return TimedOut;
      }
      if now >= nextPingTime {
        pingResponseDeadline := (now + cfg.timeout) % TWO32;
        nextPingTime := (now + cfg.period) % TWO32;
        return Sent;
      }
      return Idle;
    }
  }
}
