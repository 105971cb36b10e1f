/** The chatroom module: entering and leaving a room, and following its members. */
module Chatroom {
  import opened Xml
  import opened Jids

  datatype RoomState = NotInRoom | RequestedEnter | InRoom | RequestedExit

  datatype TransitionType = NoCallback | EnterSuccess | EnterFailure | ExitVoluntarily | ExitInvoluntarily

  datatype Transition = Transition(from: RoomState, to: RoomState, byServer: bool, byClient: bool, kind: TransitionType)

  const Transitions: seq<Transition> := [
    Transition(NotInRoom, RequestedEnter, false, true, NoCallback),
    Transition(NotInRoom, InRoom, false, false, EnterSuccess),
    Transition(NotInRoom, RequestedExit, false, false, NoCallback),
    Transition(RequestedEnter, NotInRoom, true, false, EnterFailure),
    Transition(RequestedEnter, InRoom, true, false, EnterSuccess),
    Transition(RequestedEnter, RequestedExit, false, false, NoCallback),
    Transition(InRoom, NotInRoom, true, false, ExitInvoluntarily),
    Transition(InRoom, RequestedEnter, false, false, NoCallback),
    Transition(InRoom, RequestedExit, false, true, NoCallback),
    Transition(RequestedExit, NotInRoom, true, false, ExitVoluntarily),
    Transition(RequestedExit, RequestedEnter, false, false, NoCallback),
    Transition(RequestedExit, InRoom, false, false, NoCallback)
  ]

  /** What the handler is told; the failure codes of a presence are passed through. */
  datatype Callback =
    | EnteredSuccess
    | EnteredFailure(code: int)
    | Exited(requested: bool, code: int)
    | MessageReceived(body: string)
    | MemberEntered(jid: Jid)
    | MemberChanged(jid: Jid)
    | MemberExited(jid: Jid)

  datatype Availability = Available | Unavailable | ErrorPresence

  datatype Stanza =
    | PresenceStanza(from: Jid, hasType: bool, availability: Availability, code: int)
    | MessageStanza(from: Jid, body: string)
    | OtherStanza(from: Jid)

  datatype Status = Ok | BadState | BadArgument | SendFailed

  /** A room with a handler, and everything the handler has been told. */
  datatype Room = Room(state: RoomState, jid: Jid, nickname: string, members: map<Jid, Stanza>, log: seq<Callback>)

  const FreshRoom := Room(NotInRoom, EmptyJid, "", map[], [])

  function MemberJid(r: Room): Jid { Normalise(r.jid.node, r.jid.domain, r.nickname) }

  // ---- changing the own presence -------------------------------------------------------

  function FindTransition(from: RoomState, to: RoomState, n: nat): Option<Transition>
    requires n <= |Transitions|
    decreases |Transitions| - n
  {
    if n == |Transitions| then None
    else if Transitions[n].from == from && Transitions[n].to == to then Some(Transitions[n])
    else FindTransition(from, to, n + 1)
  }

  function CallbacksOf(kind: TransitionType, code: int): seq<Callback> {
    match kind
    case NoCallback => []
    case EnterSuccess => [EnteredSuccess]
    case EnterFailure => [EnteredFailure(code)]
    case ExitVoluntarily => [Exited(true, 0)]
    case ExitInvoluntarily => [Exited(false, code)]
  }

  function ChangePresence(r: Room, to: RoomState, isServer: bool, code: int): (Room, Status) {
    if r.state == to then (r, Ok) else
      match FindTransition(r.state, to, 0)
      case None => (r, BadState)
      case Some(t) =>
        if isServer && !t.byServer then (r, BadState)
        else if !isServer && !t.byClient then (r, BadArgument)
        else (r.(state := to, log := r.log + CallbacksOf(t.kind, code)), Ok)
  }

  // ---- operations ----------------------------------------------------------------------

  /** The calls and stanzas that drive a room; sending succeeds or not. */
  datatype Event =
    | SetChatroomJid(jid: Jid)
    | SetNickname(nickname: string)
    | RequestEnter(sent: bool)
    | RequestExit(sent: bool)
    | Incoming(stanza: Stanza)

  function MemberStep(r: Room, s: Stanza): Room
    requires s.PresenceStanza?
  {
    if s.from !in r.members then
      if s.availability == Available then r.(members := r.members[s.from := s], log := r.log + [MemberEntered(s.from)])
      else r
    else if s.availability == Available then
      r.(members := r.members[s.from := s], log := r.log + [MemberChanged(s.from)])
    else if s.availability == Unavailable then
      r.(members := r.members - {s.from}, log := r.log + [MemberExited(s.from)])
    else r
  }

  function HandleStanza(r: Room, s: Stanza): Room {
    if r.jid != BareJid(s.from) then r else
      match s
      case PresenceStanza(from, hasType, _, code) =>
        if from == MemberJid(r) then ChangePresence(r, if hasType then NotInRoom else InRoom, true, code).0
        else MemberStep(r, s)
      case MessageStanza(_, body) => r.(log := r.log + [MessageReceived(body)])
      case OtherStanza(_) => r
  }

  function Step(r: Room, e: Event): (Room, Status) {
    match e
    case SetChatroomJid(jid) =>
      if r.state != NotInRoom then (r, BadState)
      else if jid != BareJid(jid) then (r, BadArgument)
      else (r.(jid := jid), Ok)
    case SetNickname(nickname) =>
      if r.state != NotInRoom then (r, BadState) else (r.(nickname := nickname), Ok)
    case RequestEnter(sent) =>
      if r.state != NotInRoom || !r.jid.IsValid() || r.nickname == "" then (r, BadState)
      else if !sent then (r, SendFailed)
      else ChangePresence(r, RequestedEnter, false, 0)
    case RequestExit(sent) =>
      if !sent then (r, SendFailed)
      else if r.state == InRoom then ChangePresence(r, RequestedExit, false, 0)
      else (r, Ok)
    case Incoming(s) => (HandleStanza(r, s), Ok)
  }

  function Next(r: Room, e: Event): Room { Step(r, e).0 }

  function Run(r: Room, es: seq<Event>): Room
    decreases es
  {
    if es == [] then r else Run(Next(r, es[0]), es[1..])
  }

  // ---- entering and leaving alternate --------------------------------------------------

  predicate Inside(s: RoomState) { s == InRoom || s == RequestedExit }

  /** Successful entries and exits alternate, beginning with an entry; `inside` tells which
      of them came last. */
  ghost predicate Alternates(log: seq<Callback>, inside: bool) {
    if log == [] then !inside else
      var init, last := log[..|log| - 1], log[|log| - 1];
      if last.EnteredSuccess? then inside && Alternates(init, false)
      else if last.Exited? then !inside && Alternates(init, true)
      else Alternates(init, inside)
  }

  function Entries(log: seq<Callback>): nat {
    if log == [] then 0 else Entries(log[..|log| - 1]) + if log[|log| - 1].EnteredSuccess? then 1 else 0
  }

  function Exits(log: seq<Callback>): nat {
    if log == [] then 0 else Exits(log[..|log| - 1]) + if log[|log| - 1].Exited? then 1 else 0
  }

  lemma {:induction false} AlternatesCounts(log: seq<Callback>, inside: bool)
    requires Alternates(log, inside)
    ensures Entries(log) - Exits(log) == if inside then 1 else 0
  {
    if log != [] {
      var last := log[|log| - 1];
      AlternatesCounts(log[..|log| - 1], if last.EnteredSuccess? then false else if last.Exited? then true else inside);
    }
  }

  lemma AlternatesSnoc(log: seq<Callback>, c: Callback, inside: bool)
    requires Alternates(log, inside)
    ensures if c.EnteredSuccess? then Alternates(log + [c], true) <==> !inside
            else if c.Exited? then Alternates(log + [c], false) <==> inside
            else Alternates(log + [c], inside)
  {
    assert (log + [c])[..|log|] == log;
    AlternatesUnique(log, inside);
  }

  lemma {:induction false} AlternatesUnique(log: seq<Callback>, inside: bool)
    requires Alternates(log, inside)
    ensures !Alternates(log, !inside)
  {
    if log != [] && !log[|log| - 1].EnteredSuccess? && !log[|log| - 1].Exited? {
      AlternatesUnique(log[..|log| - 1], inside);
    }
  }

  ghost predicate Consistent(r: Room) { Alternates(r.log, Inside(r.state)) }

  /** What the table allows: which moves exist and what they report. */
  lemma AllowedMoves(from: RoomState, to: RoomState)
    requires from != to
    ensures var t := FindTransition(from, to, 0);
            && t.Some?
            && (t.value.byClient <==>
                 (from == NotInRoom && to == RequestedEnter) || (from == InRoom && to == RequestedExit))
            && (t.value.byServer <==>
                 (from == RequestedEnter && to == InRoom) || (from != NotInRoom && to == NotInRoom))
            && (t.value.byClient ==> t.value.kind == NoCallback)
            && (t.value.byServer && to == InRoom ==> t.value.kind == EnterSuccess)
            && (t.value.byServer && to == NotInRoom ==>
                 t.value.kind == match from
                                 case RequestedEnter => EnterFailure
                                 case InRoom => ExitInvoluntarily
                                 case _ => ExitVoluntarily)
  {
    FindAt(from, to, 0);
    FindAt(from, to, 3);
    FindAt(from, to, 6);
    FindAt(from, to, 9);
  }

  lemma FindAt(from: RoomState, to: RoomState, n: nat)
    requires n + 3 <= |Transitions|
    ensures FindTransition(from, to, n) ==
            if Transitions[n].from == from && Transitions[n].to == to then Some(Transitions[n])
            else if Transitions[n + 1].from == from && Transitions[n + 1].to == to then Some(Transitions[n + 1])
            else if Transitions[n + 2].from == from && Transitions[n + 2].to == to then Some(Transitions[n + 2])
            else FindTransition(from, to, n + 3)
  {
    assert FindTransition(from, to, n + 1) ==
           if Transitions[n + 1].from == from && Transitions[n + 1].to == to then Some(Transitions[n + 1])
           else FindTransition(from, to, n + 2);
  }

  lemma ChangeKeepsConsistent(r: Room, to: RoomState, isServer: bool, code: int)
    requires Consistent(r)
    requires isServer ==> to == InRoom || to == NotInRoom
    ensures Consistent(ChangePresence(r, to, isServer, code).0)
  {
    if r.state != to {
      AllowedMoves(r.state, to);
      var t := FindTransition(r.state, to, 0).value;
      var cs := CallbacksOf(t.kind, code);
      if cs == [] {
        assert r.log + cs == r.log;
      } else {
        AlternatesSnoc(r.log, cs[0], Inside(r.state));
      }
    }
  }

  lemma StepKeepsConsistent(r: Room, e: Event)
    requires Consistent(r)
    ensures Consistent(Next(r, e))
  {
    match e
    case SetChatroomJid(_) =>
    case SetNickname(_) =>
    case RequestEnter(_) => ChangeKeepsConsistent(r, RequestedEnter, false, 0);
    case RequestExit(_) => ChangeKeepsConsistent(r, RequestedExit, false, 0);
    case Incoming(s) =>
      if s.PresenceStanza? {
        ChangeKeepsConsistent(r, if s.hasType then NotInRoom else InRoom, true, s.code);
        AlternatesSnoc(r.log, MemberEntered(s.from), Inside(r.state));
        AlternatesSnoc(r.log, MemberChanged(s.from), Inside(r.state));
        AlternatesSnoc(r.log, MemberExited(s.from), Inside(r.state));
      } else if s.MessageStanza? {
        AlternatesSnoc(r.log, MessageReceived(s.body), Inside(r.state));
      }
  }

  /** In every run entries and exits alternate, and their difference says whether the client
      is in the room. */
  lemma {:induction false} RunConsistent(r: Room, es: seq<Event>)
    requires Consistent(r)
    ensures var q := Run(r, es);
            Consistent(q) && Entries(q.log) - Exits(q.log) == if Inside(q.state) then 1 else 0
    decreases es
  {
    if es == [] {
      AlternatesCounts(r.log, Inside(r.state));
    } else {
      StepKeepsConsistent(r, es[0]);
      RunConsistent(Next(r, es[0]), es[1..]);
    }
  }

  // ---- what is reported, and why -------------------------------------------------------

  /** A presence of the client itself in its room. */
  predicate OwnPresence(r: Room, e: Event) {
    e.Incoming? && e.stanza.PresenceStanza? && BareJid(e.stanza.from) == r.jid && e.stanza.from == MemberJid(r)
  }

  /** What one event should be reported as, without the table: being let in, being refused,
      being put out and having left; and what happens in the room. */
  function Expected(r: Room, e: Event): seq<Callback> {
    if !e.Incoming? || BareJid(e.stanza.from) != r.jid || e.stanza.OtherStanza? then []
    else if e.stanza.MessageStanza? then [MessageReceived(e.stanza.body)]
    else if e.stanza.from != MemberJid(r) then
      match e.stanza.availability
      case Available =>
        [if e.stanza.from in r.members then MemberChanged(e.stanza.from) else MemberEntered(e.stanza.from)]
      case Unavailable => if e.stanza.from in r.members then [MemberExited(e.stanza.from)] else []
      case ErrorPresence => []
    else
      match r.state
      case NotInRoom => []
      case RequestedEnter => [if e.stanza.hasType then EnteredFailure(e.stanza.code) else EnteredSuccess]
      case InRoom => if e.stanza.hasType then [Exited(false, e.stanza.code)] else []
      case RequestedExit => if e.stanza.hasType then [Exited(true, 0)] else []
  }

  /** Where one event should lead, without the table. */
  function ExpectedState(r: Room, e: Event): RoomState {
    match e
    case RequestEnter(sent) =>
      if sent && r.state == NotInRoom && r.jid.IsValid() && r.nickname != "" then RequestedEnter else r.state
    case RequestExit(sent) => if sent && r.state == InRoom then RequestedExit else r.state
    case Incoming(_) =>
      if !OwnPresence(r, e) then r.state
      else if e.stanza.hasType then NotInRoom
      else if r.state == RequestedEnter then InRoom
      else r.state
    case _ => r.state
  }

  /** The table search and its callbacks do what they should for every room and event. */
  lemma StepReports(r: Room, e: Event)
    ensures Next(r, e).log == r.log + Expected(r, e) && Next(r, e).state == ExpectedState(r, e)
  {
    hide FindTransition, BareJid, MemberJid;
    if r.state == NotInRoom {
      AllowedMoves(NotInRoom, RequestedEnter);
      AllowedMoves(NotInRoom, InRoom);
    } else {
      AllowedMoves(r.state, NotInRoom);
      if r.state != InRoom {
        AllowedMoves(r.state, InRoom);
      } else {
        AllowedMoves(InRoom, RequestedExit);
      }
    }
    assert r.log + [] == r.log;
  }

  ghost function RoomAt(es: seq<Event>, i: nat): Room
    requires i <= |es|
  {
    if i == 0 then FreshRoom else Next(RoomAt(es, i - 1), es[i - 1])
  }

  /** A client that has asked to leave did so from inside the room, and nothing came between. */
  lemma {:induction false} ExitWasRequested(es: seq<Event>, i: nat) returns (j: nat)
    requires i <= |es| && RoomAt(es, i).state == RequestedExit
    ensures j < i && es[j] == RequestExit(true) && RoomAt(es, j).state == InRoom
    ensures forall m :: j < m <= i ==> RoomAt(es, m).state == RequestedExit
  {
    hide Next;
    StepReports(RoomAt(es, i - 1), es[i - 1]);
    if RoomAt(es, i - 1).state == RequestedExit {
      j := ExitWasRequested(es, i - 1);
    } else {
      j := i - 1;
    }
  }

  /** In every run, leaving is reported as requested only after the client has asked to leave
      and has not entered since; being put out and being refused are reported with the code of
      the presence that says so. */
  lemma ReportsHaveCauses(es: seq<Event>, i: nat, c: Callback) returns (j: nat)
    requires i < |es| && RoomAt(es, i + 1).log == RoomAt(es, i).log + [c]
    ensures c.Exited? && c.requested ==>
              && j < i && es[j] == RequestExit(true) && RoomAt(es, j).state == InRoom
              && forall m :: j < m <= i ==> RoomAt(es, m).state == RequestedExit
    ensures c.Exited? && !c.requested ==>
              RoomAt(es, i).state == InRoom && OwnPresence(RoomAt(es, i), es[i]) && c.code == es[i].stanza.code
    ensures c.EnteredFailure? ==>
              RoomAt(es, i).state == RequestedEnter && OwnPresence(RoomAt(es, i), es[i]) && c.code == es[i].stanza.code
  {
    hide Next;
    j := 0;
    var r := RoomAt(es, i);
    StepReports(r, es[i]);
    assert Expected(r, es[i]) == [c] by {
      assert (r.log + Expected(r, es[i]))[|r.log|..] == Expected(r, es[i]);
      assert (r.log + [c])[|r.log|..] == [c];
    }
    if c.Exited? && c.requested {
      j := ExitWasRequested(es, i);
    }
  }

  /** Being kicked is reported as such. */
  lemma KickIsReported(r: Room, code: int)
    requires r.state == InRoom && BareJid(MemberJid(r)) == r.jid
    ensures var kick := PresenceStanza(MemberJid(r), true, Unavailable, code);
            Next(r, Incoming(kick)).log == r.log + [Exited(false, code)]
  {
    StepReports(r, Incoming(PresenceStanza(MemberJid(r), true, Unavailable, code)));
  }

  // ---- the own name in the room --------------------------------------------------------

  /** The run never passes through the state outside the room. */
  ghost predicate StaysEngaged(r: Room, es: seq<Event>)
    decreases es
  {
    r.state != NotInRoom && (es == [] || StaysEngaged(Next(r, es[0]), es[1..]))
  }

  lemma StepKeepsName(r: Room, e: Event)
    requires r.state != NotInRoom
    ensures Next(r, e).jid == r.jid && Next(r, e).nickname == r.nickname
  {
    hide FindTransition, MemberJid, BareJid;
  }

  /** From the request to enter until the client is out again, the room and the name the
      client has in it cannot change. */
  lemma {:induction false} NameIsFixed(r: Room, es: seq<Event>)
    requires StaysEngaged(r, es)
    ensures Run(r, es).jid == r.jid && Run(r, es).nickname == r.nickname && MemberJid(Run(r, es)) == MemberJid(r)
    decreases es
  {
    if es != [] {
      StepKeepsName(r, es[0]);
      NameIsFixed(Next(r, es[0]), es[1..]);
    }
  }

  // ---- members -------------------------------------------------------------------------

  /** What the handler was told about a member agrees with `present`: it enters only when
      absent, and changes and exits only when present. */
  ghost predicate MemberStory(log: seq<Callback>, jid: Jid, present: bool) {
    if log == [] then !present else
      var init, last := log[..|log| - 1], log[|log| - 1];
      if last == MemberEntered(jid) then present && MemberStory(init, jid, false)
      else if last == MemberExited(jid) then !present && MemberStory(init, jid, true)
      else MemberStory(init, jid, present) && (last == MemberChanged(jid) ==> present)
  }

  ghost predicate MembersTold(r: Room) {
    forall j :: MemberStory(r.log, j, j in r.members)
  }

  lemma MemberStorySnoc(log: seq<Callback>, c: Callback, jid: Jid, present: bool)
    requires MemberStory(log, jid, present)
    ensures c == MemberEntered(jid) && !present ==> MemberStory(log + [c], jid, true)
    ensures c == MemberExited(jid) && present ==> MemberStory(log + [c], jid, false)
    ensures c == MemberChanged(jid) && present ==> MemberStory(log + [c], jid, true)
    ensures c != MemberEntered(jid) && c != MemberExited(jid) && c != MemberChanged(jid) ==>
              MemberStory(log + [c], jid, present)
  {
    assert (log + [c])[..|log|] == log;
  }

  predicate AboutMember(c: Callback) { c.MemberEntered? || c.MemberChanged? || c.MemberExited? }

  /** A callback that is not about members leaves their story as it is. */
  lemma OtherCallback(r: Room, q: Room, c: Callback)
    requires MembersTold(r) && !AboutMember(c) && q.log == r.log + [c] && q.members == r.members
    ensures MembersTold(q)
  {
    forall j ensures MemberStory(q.log, j, j in q.members) {
      MemberStorySnoc(r.log, c, j, j in r.members);
    }
  }

  lemma ChangeTellsMembers(r: Room, to: RoomState, isServer: bool, code: int)
    requires MembersTold(r)
    ensures MembersTold(ChangePresence(r, to, isServer, code).0)
  {
    var q := ChangePresence(r, to, isServer, code).0;
    assert r.log + [] == r.log;
    if q.log != r.log {
      var t := FindTransition(r.state, to, 0).value;
      OtherCallback(r, q, CallbacksOf(t.kind, code)[0]);
    }
  }

  lemma MemberStepTells(r: Room, s: Stanza)
    requires MembersTold(r) && s.PresenceStanza?
    ensures MembersTold(MemberStep(r, s))
  {
    var q := MemberStep(r, s);
    if q.log != r.log {
      var c := q.log[|r.log|];
      assert q.log == r.log + [c];
      forall j ensures MemberStory(q.log, j, j in q.members) {
        MemberStorySnoc(r.log, c, j, j in r.members);
      }
    }
  }

  lemma StepTellsMembers(r: Room, e: Event)
    requires MembersTold(r)
    ensures MembersTold(Next(r, e))
  {
    match e
    case SetChatroomJid(_) =>
    case SetNickname(_) =>
    case RequestEnter(_) => ChangeTellsMembers(r, RequestedEnter, false, 0);
    case RequestExit(_) => ChangeTellsMembers(r, RequestedExit, false, 0);
    case Incoming(s) =>
      if r.jid == BareJid(s.from) {
        if s.PresenceStanza? {
          ChangeTellsMembers(r, if s.hasType then NotInRoom else InRoom, true, s.code);
          MemberStepTells(r, s);
        } else if s.MessageStanza? {
          OtherCallback(r, HandleStanza(r, s), MessageReceived(s.body));
        }
      }
  }

  /** In every run the handler can follow the member list from its callbacks alone. */
  lemma {:induction false} RunTellsMembers(r: Room, es: seq<Event>)
    requires MembersTold(r)
    ensures MembersTold(Run(r, es))
    decreases es
  {
    if es != [] {
      StepTellsMembers(r, es[0]);
      RunTellsMembers(Next(r, es[0]), es[1..]);
    }
  }

  /** Each listed member is listed with the last available presence that came from it. */
  lemma MembersHoldLatest(r: Room, e: Event, j: Jid)
    ensures var q := Next(r, e);
            var heard := e.Incoming? && e.stanza.PresenceStanza? && e.stanza.from == j
                         && BareJid(j) == r.jid && j != MemberJid(r);
            if heard && e.stanza.availability == Available then j in q.members && q.members[j] == e.stanza
            else if heard && e.stanza.availability == Unavailable then j !in q.members
            else (j in q.members <==> j in r.members) && (j in r.members ==> q.members[j] == r.members[j])
  {
    hide ChangePresence, BareJid, MemberJid;
    match e
    case RequestEnter(_) => ChangeKeepsMembers(r, RequestedEnter, false, 0);
    case RequestExit(_) => ChangeKeepsMembers(r, RequestedExit, false, 0);
    case Incoming(s) =>
      if s.PresenceStanza? {
        ChangeKeepsMembers(r, if s.hasType then NotInRoom else InRoom, true, s.code);
      }
    case _ =>
  }

  /** What the calls return, and that a call that is refused changes nothing. */
  lemma CallStatus(r: Room, e: Event)
    requires !e.Incoming?
    ensures Step(r, e).1 != Ok ==> Next(r, e) == r
    ensures Step(r, e).1 ==
            match e
            case SetChatroomJid(jid) =>
              if r.state != NotInRoom then BadState else if jid != BareJid(jid) then BadArgument else Ok
            case SetNickname(_) => if r.state != NotInRoom then BadState else Ok
            case RequestEnter(sent) =>
              if r.state != NotInRoom || r.jid.domain == "" || r.nickname == "" then BadState
              else if !sent then SendFailed else Ok
            case RequestExit(sent) => if sent then Ok else SendFailed
            case _ => Ok
    ensures Step(r, e).1 == Ok ==>
              && Next(r, e).jid == (if e.SetChatroomJid? then e.jid else r.jid)
              && Next(r, e).nickname == (if e.SetNickname? then e.nickname else r.nickname)
  {
    hide FindTransition, BareJid;
    AllowedMoves(NotInRoom, RequestedEnter);
    AllowedMoves(InRoom, RequestedExit);
  }

  // ---- members and rooms ---------------------------------------------------------------

  /** Every listed member is in the current room. */
  ghost predicate AllHere(r: Room) {
    forall j :: j in r.members ==> BareJid(j) == r.jid
  }

  /** The client goes to another room while members are listed. */
  predicate MovesAway(r: Room, e: Event) {
    e.SetChatroomJid? && Step(r, e).1 == Ok && e.jid != r.jid && r.members != map[]
  }

  /** The member list is not cleared when the client leaves a room, so one step keeps all
      members in the current room exactly if it does not move away from listed ones. */
  lemma StepKeepsHere(r: Room, e: Event)
    requires AllHere(r)
    ensures AllHere(Next(r, e)) <==> !MovesAway(r, e)
  {
    hide ChangePresence, MemberJid, BareJid, MemberStep;
    match e
    case SetChatroomJid(jid) =>
      if MovesAway(r, e) {
        var j :| j in r.members;
        assert BareJid(j) == r.jid != Next(r, e).jid;
      }
    case SetNickname(_) =>
    case RequestEnter(_) => ChangeKeepsMembers(r, RequestedEnter, false, 0);
    case RequestExit(_) => ChangeKeepsMembers(r, RequestedExit, false, 0);
    case Incoming(s) =>
      if s.PresenceStanza? && r.jid == BareJid(s.from) {
        ChangeKeepsMembers(r, if s.hasType then NotInRoom else InRoom, true, s.code);
        MemberStepStaysHere(r, s);
      }
  }

  lemma ChangeKeepsMembers(r: Room, to: RoomState, isServer: bool, code: int)
    ensures var q := ChangePresence(r, to, isServer, code).0; q.members == r.members && q.jid == r.jid
  {
    hide FindTransition;
  }

  lemma MemberStepStaysHere(r: Room, s: Stanza)
    requires AllHere(r) && s.PresenceStanza? && r.jid == BareJid(s.from)
    ensures AllHere(MemberStep(r, s))
  {
    hide BareJid;
  }

  /** A concrete run: a member is listed, the client enters and leaves the room, and goes to
      another room, where the member is still listed. */
  lemma MemberOfAnotherRoom()
    ensures var a, b, x := Jid("", "a", ""), Jid("", "b", ""), PresenceStanza(Jid("", "a", "x"), false, Available, 0);
            var me := Jid("", "a", "n");
            var es := [Event.SetChatroomJid(a), Event.SetNickname("n"), RequestEnter(true),
                       Incoming(PresenceStanza(me, false, Available, 0)), Incoming(x), RequestExit(true),
                       Incoming(PresenceStanza(me, true, Unavailable, 0)), Event.SetChatroomJid(b)];
            var r := Run(FreshRoom, es);
            && r.state == NotInRoom && r.jid == b && r.members == map[x.from := x] && !AllHere(r)
            && r.log == [EnteredSuccess, MemberEntered(x.from), Exited(true, 0)]
  {
    hide FindTransition, Normalise;
    var a, b, x := Jid("", "a", ""), Jid("", "b", ""), PresenceStanza(Jid("", "a", "x"), false, Available, 0);
    var me := Jid("", "a", "n");
    var inside, outside := PresenceStanza(me, false, Available, 0), PresenceStanza(me, true, Unavailable, 0);
    RoomNames("n");
    RoomNames("x");
    var r2 := Room(NotInRoom, a, "n", map[], []);
    assert Run(FreshRoom, [Event.SetChatroomJid(a), Event.SetNickname("n")]) == r2 by {
      RunTwo(FreshRoom, Event.SetChatroomJid(a), Event.SetNickname("n"));
    }
    var r4 := Room(InRoom, a, "n", map[], [EnteredSuccess]);
    EnterRun(r2, inside);
    assert [] + [EnteredSuccess] == [EnteredSuccess];
    var r5 := Room(InRoom, a, "n", map[x.from := x], [EnteredSuccess, MemberEntered(x.from)]);
    assert "x" != "n" by { assert "x"[0] != "n"[0]; }
    assert Next(r4, Incoming(x)) == r5 by {
      assert r4.log + [MemberEntered(x.from)] == r5.log;
      assert r4.members[x.from := x] == r5.members;
    }
    var r7 := r5.(state := NotInRoom, log := r5.log + [Exited(true, 0)]);
    ExitRun(r5, outside);
    assert r7.log == [EnteredSuccess, MemberEntered(x.from), Exited(true, 0)];
    var r8 := Next(r7, Event.SetChatroomJid(b));
    assert "a" != "b" by { assert "a"[0] != "b"[0]; }
    assert BareJid(x.from) == a && x.from in r8.members && r8.jid == b;
    var es := [Event.SetChatroomJid(a), Event.SetNickname("n"), RequestEnter(true), Incoming(inside), Incoming(x),
               RequestExit(true), Incoming(outside), Event.SetChatroomJid(b)];
    assert es[..2] == [es[0], es[1]] && es[2..4] == [es[2], es[3]] && es[5..7] == [es[5], es[6]];
    assert r8 == Next(r7, es[7]);
    hide Next, AllHere;
    RunEight(FreshRoom, es);
    assert Run(FreshRoom, es) == r8;
  }

  /** The names of a room whose domain is "a". */
  lemma RoomNames(nick: string)
    requires nick == "n" || nick == "x"
    ensures Normalise("", "a", nick) == Jid("", "a", nick) && Normalise("", "a", "") == Jid("", "a", "")
  {
    hide MapAll, PrepLabels;
    LongDomainIsLegal(0);
    MapAllFixed(NodeChar, "");
    assert MapResource(nick) == nick && MapResource("") == "";
  }

  lemma RunTwo(r: Room, d: Event, e: Event)
    ensures Run(r, [d, e]) == Next(Next(r, d), e)
  {
    hide Next;
    assert [d, e][1..] == [e] && [e][1..] == [];
    assert Run(r, [d, e]) == Run(Next(r, d), [e]) == Run(Next(Next(r, d), e), []);
  }

  lemma RunEight(r: Room, es: seq<Event>)
    requires |es| == 8
    ensures Run(r, es) == Next(Run(Next(Run(Run(r, es[..2]), es[2..4]), es[4]), es[5..7]), es[7])
  {
    hide Next;
    RunConcat(r, es[..2], es[2..]);
    RunConcat(Run(r, es[..2]), es[2..4], es[4..]);
    RunConcat(Next(Run(Run(r, es[..2]), es[2..4]), es[4]), es[5..7], [es[7]]);
    assert es == es[..2] + es[2..] && es[2..] == es[2..4] + es[4..] && es[4..][1..] == es[5..7] + [es[7]];
    assert [es[7]][1..] == [];
  }

  lemma {:induction false} RunConcat(r: Room, ds: seq<Event>, es: seq<Event>)
    ensures Run(r, ds + es) == Run(Run(r, ds), es)
    decreases ds
  {
    hide Next;
    if ds == [] {
      assert ds + es == es;
    } else {
      assert (ds + es)[1..] == ds[1..] + es;
      RunConcat(Next(r, ds[0]), ds[1..], es);
    }
  }

  /** Asking to enter, and the presence that lets the client in. */
  lemma EnterRun(r: Room, s: Stanza)
    requires r.state == NotInRoom && r.jid.IsValid() && r.nickname != ""
    requires s.PresenceStanza? && !s.hasType && s.from == MemberJid(r) && BareJid(s.from) == r.jid
    ensures Run(r, [RequestEnter(true), Incoming(s)]) == r.(state := InRoom, log := r.log + [EnteredSuccess])
  {
    hide MemberJid, BareJid, FindTransition;
    AllowedMoves(NotInRoom, RequestedEnter);
    AllowedMoves(RequestedEnter, InRoom);
    RunTwo(r, RequestEnter(true), Incoming(s));
    var q := r.(state := RequestedEnter);
    assert r.log + [] == r.log && Next(r, RequestEnter(true)) == q;
    SameName(r, q);
  }

  lemma SameName(r: Room, q: Room)
    requires q.jid == r.jid && q.nickname == r.nickname
    ensures MemberJid(q) == MemberJid(r)
  {
  }

  /** Asking to leave, and the presence that confirms it. */
  lemma ExitRun(r: Room, s: Stanza)
    requires r.state == InRoom && s.PresenceStanza? && s.hasType && s.from == MemberJid(r) && BareJid(s.from) == r.jid
    ensures Run(r, [RequestExit(true), Incoming(s)]) == r.(state := NotInRoom, log := r.log + [Exited(true, 0)])
  {
    hide MemberJid, BareJid;
    FindAt(RequestedExit, NotInRoom, 0);
    FindAt(RequestedExit, NotInRoom, 3);
    FindAt(RequestedExit, NotInRoom, 6);
    FindAt(RequestedExit, NotInRoom, 9);
    hide FindTransition;
    AllowedMoves(InRoom, RequestedExit);
    RunTwo(r, RequestExit(true), Incoming(s));
    var q := r.(state := RequestedExit);
    assert r.log + [] == r.log && Next(r, RequestExit(true)) == q;
    SameName(r, q);
  }

  ghost predicate AlwaysHere(r: Room, es: seq<Event>)
    decreases es
  {
    AllHere(r) && (es == [] || AlwaysHere(Next(r, es[0]), es[1..]))
  }

  predicate NeverMovesAway(r: Room, es: seq<Event>)
    decreases es
  {
    es == [] || (!MovesAway(r, es[0]) && NeverMovesAway(Next(r, es[0]), es[1..]))
  }

  /** Throughout a run every member is in the current room, if and only if the client never
      goes to another room while members are listed. */
  lemma {:induction false} RunKeepsHere(r: Room, es: seq<Event>)
    requires AllHere(r)
    ensures AlwaysHere(r, es) <==> NeverMovesAway(r, es)
    decreases es
  {
    if es != [] {
      StepKeepsHere(r, es[0]);
      if AllHere(Next(r, es[0])) {
        RunKeepsHere(Next(r, es[0]), es[1..]);
      }
    }
  }

  // ---- the module ----------------------------------------------------------------------

  class ChatroomModule {
    var state: RoomState
    var jid: Jid
    var nickname: string
    var members: map<Jid, Stanza>
    var log: seq<Callback>

    ghost function View(): Room
      reads this
    {
      Room(state, jid, nickname, members, log)
    }

    constructor ()
      ensures View() == FreshRoom
    {
      state, jid, nickname, members, log := NotInRoom, EmptyJid, "", map[], [];
    }

    method SetChatroomJid(j: Jid) returns (status: Status)
      modifies this`jid
      ensures (View(), status) == Step(old(View()), Event.SetChatroomJid(j))
    {
      if state != NotInRoom {
        return BadState;
      }
      if j != BareJid(j) {
        return BadArgument;
      }
      jid := j;
      return Ok;
    }

    method SetNickname(n: string) returns (status: Status)
      modifies this`nickname
      ensures (View(), status) == Step(old(View()), Event.SetNickname(n))
    {
      if state != NotInRoom {
        return BadState;
      }
      nickname := n;
      return Ok;
    }

    method RequestEnterChatroom(sent: bool) returns (status: Status)
      modifies this
      ensures (View(), status) == Step(old(View()), RequestEnter(sent))
    {
      if state != NotInRoom || !jid.IsValid() || nickname == "" {
        return BadState;
      }
      if !sent {
        return SendFailed;
      }
      status := ChangeMyPresence(RequestedEnter, false, 0);
    }

    method RequestExitChatroom(sent: bool) returns (status: Status)
      modifies this
      ensures (View(), status) == Step(old(View()), RequestExit(sent))
    {
      if !sent {
        return SendFailed;
      }
      if state == InRoom {
        status := ChangeMyPresence(RequestedExit, false, 0);
        return;
      }
      return Ok;
    }

    /** Looks the move up in the table, checks who may make it, and reports it. */
    method ChangeMyPresence(to: RoomState, isServer: bool, code: int) returns (status: Status)
      modifies this`state, this`log
      ensures (View(), status) == ChangePresence(old(View()), to, isServer, code)
    {
      if state == to {
        return Ok;
      }
      var i := 0;
      while i < |Transitions| && !(Transitions[i].from == state && Transitions[i].to == to)
        invariant 0 <= i <= |Transitions|
        invariant FindTransition(state, to, 0) == FindTransition(state, to, i)
      {
        i := i + 1;
      }
      if i == |Transitions| {
        return BadState;
      }
      if isServer {
        if !Transitions[i].byServer {
          return BadState;
        }
      } else if !Transitions[i].byClient {
        return BadArgument;
      }
      state := to;
      match Transitions[i].kind {
        case EnterSuccess => log := log + [EnteredSuccess];
        case EnterFailure => log := log + [EnteredFailure(code)];
        case ExitInvoluntarily => log := log + [Exited(false, code)];
        case ExitVoluntarily => log := log + [Exited(true, 0)];
        case NoCallback => assert log + [] == log;
      }
      return Ok;
    }

    method OnStanza(s: Stanza)
      modifies this
      ensures View() == HandleStanza(old(View()), s)
    {
      if jid != BareJid(s.from) {
        return;
      }
      match s {
        case PresenceStanza(from, hasType, _, code) =>
          if from == Normalise(jid.node, jid.domain, nickname) {
            var to := if hasType then NotInRoom else InRoom;
            var status := ChangeMyPresence(to, true, code);
          } else {
            OnOtherPresence(s);
          }
        case MessageStanza(_, body) => log := log + [MessageReceived(body)];
        case OtherStanza(_) =>
      }
    }

    method OnOtherPresence(s: Stanza)
      requires s.PresenceStanza?
      modifies this`members, this`log
      ensures View() == MemberStep(old(View()), s)
    {
      if s.from !in members {
        if s.availability == Available {
          members := members[s.from := s];
          log := log + [MemberEntered(s.from)];
        }
      } else if s.availability == Available {
        members := members[s.from := s];
        log := log + [MemberChanged(s.from)];
      } else if s.availability == Unavailable {
        members := members - {s.from};
        log := log + [MemberExited(s.from)];
      }
    }
  }
}
