/**
 * The two-thread datagram network of the DTLS PSK demo: one mutex, one condition variable and one buffer
 * for each direction, and one client and one server thread that call the four thread-safe callbacks.
 * An interleaving is a sequence of actions; waiting releases the mutex and blocks in one action.
 */
module Monitor {
  import opened Bytes
  import Datagram

  datatype Side = Client | Server

  /** What one send may pass: its length is a `uint32_t`. */
  type message = s: seq<byte> | |s| < 0x1_0000_0000

  function Other(s: Side): Side {
    if s == Client then Server else Client
  }

  /** Where a thread stands in its current callback. */
  datatype Pc =
    | Idle
    | SendEntry(data: message)    // about to take the mutex
    | SendLocked(data: message)   // holds the mutex, has not appended
    | SendAppended                  // holds the mutex, has appended, has not signalled
    | SendLeaving                   // holds the mutex, about to release it
    | RecvEntry(room: uint32)          // about to take the mutex, at first or after a wake-up
    | RecvTest(room: uint32)           // holds the mutex, about to test for an empty buffer
    | RecvBlocked(room: uint32)        // waits on its condition variable, not woken
    | RecvReady(room: uint32)          // holds the mutex, has found the buffer non-empty
    | RecvLeaving                   // holds the mutex, has read

  predicate InCriticalSection(pc: Pc) {
    pc.SendLocked? || pc.SendAppended? || pc.SendLeaving? || pc.RecvTest? || pc.RecvReady? || pc.RecvLeaving?
  }

  /** One successful receive: the room given, the datagrams pending, what the caller got and what was dropped. */
  datatype Receipt = Receipt(room: uint32, datagrams: seq<seq<byte>>, delivered: seq<byte>, dropped: seq<byte>)

  /**
   * One direction: its buffer, the non-empty datagrams ever sent, those sent since the last receive,
   * and the receives so far.
   */
  datatype Channel = Channel(buffer: Datagram.Buffer, sent: seq<seq<byte>>, pending: seq<seq<byte>>,
                             receipts: seq<Receipt>)

  /** `fromClient` is client_to_server, `fromServer` is server_to_client. */
  datatype State = State(holder: set<Side>, client: Pc, server: Pc, fromClient: Channel, fromServer: Channel)

  function PcOf(st: State, s: Side): Pc {
    if s == Client then st.client else st.server
  }

  function WithPc(st: State, s: Side, pc: Pc): State {
    if s == Client then st.(client := pc) else st.(server := pc)
  }

  /** The channel a side sends into. */
  function Outgoing(st: State, s: Side): Channel {
    if s == Client then st.fromClient else st.fromServer
  }

  /** The channel a side receives from. */
  function Incoming(st: State, s: Side): Channel {
    Outgoing(st, Other(s))
  }

  function WithOutgoing(st: State, s: Side, c: Channel): State {
    if s == Client then st.(fromClient := c) else st.(fromServer := c)
  }

  datatype Action =
    | CallSend(data: message)
    | CallRecv(room: uint32)
    | Lock
    | AppendData(granted: bool)
    | Signal
    | Test
    | WakeSpuriously
    | Read
    | Unlock

  /** A channel after a successful append; an empty datagram leaves no trace. */
  function AfterSend(c: Channel, data: message, granted: bool): Channel {
    var sends := if data == [] then [] else [data];
    c.(buffer := Datagram.Append(c.buffer, data, granted).0, sent := c.sent + sends, pending := c.pending + sends)
  }

  function AfterReceive(c: Channel, room: uint32): Channel {
    var got := Datagram.Delivered(c.buffer, room);
    var receipt := Receipt(room, c.pending, got, c.buffer.content[|got|..]);
    Channel(Datagram.AfterRead(c.buffer), c.sent, [], c.receipts + [receipt])
  }

  ghost predicate Enabled(st: State, s: Side, a: Action) {
    var pc := PcOf(st, s);
    match a
    case CallSend(_) => pc.Idle?
    case CallRecv(_) => pc.Idle?
    case Lock => (pc.SendEntry? || pc.RecvEntry?) && st.holder == {}
    case AppendData(granted) => pc.SendLocked? && Datagram.Safe(Outgoing(st, s).buffer, |pc.data|, granted)
    case Signal => pc.SendAppended?
    case Test => pc.RecvTest?
    case WakeSpuriously => pc.RecvBlocked?
    case Read => pc.RecvReady?
    case Unlock => pc.SendLeaving? || pc.RecvLeaving?
  }

  /** A thread leaves the wait: it must take the mutex again. */
  function Woken(pc: Pc): Pc {
    if pc.RecvBlocked? then RecvEntry(pc.room) else pc
  }

  ghost function Step(st: State, s: Side, a: Action): State
    requires Enabled(st, s, a)
  {
    var pc := PcOf(st, s);
    match a
    case CallSend(data) => WithPc(st, s, SendEntry(data))
    case CallRecv(room) => WithPc(st, s, RecvEntry(room))
    case Lock =>
      WithPc(st, s, if pc.SendEntry? then SendLocked(pc.data) else RecvTest(pc.room)).(holder := {s})
    case AppendData(granted) =>
      var c := Outgoing(st, s);
      if Datagram.Append(c.buffer, pc.data, granted).1 then
        WithOutgoing(WithPc(st, s, SendAppended), s, AfterSend(c, pc.data, granted))
      else WithPc(st, s, SendLeaving)
    case Signal =>
      // Only the other side ever waits for what this side sends.
      WithPc(WithPc(st, s, SendLeaving), Other(s), Woken(PcOf(st, Other(s))))
    case Test =>
      if Incoming(st, s).buffer.content == [] then WithPc(st, s, RecvBlocked(pc.room)).(holder := st.holder - {s})
      else WithPc(st, s, RecvReady(pc.room))
    case WakeSpuriously => WithPc(st, s, Woken(pc))
    case Read =>
      WithOutgoing(WithPc(st, s, RecvLeaving), Other(s), AfterReceive(Incoming(st, s), pc.room))
    case Unlock => WithPc(st, s, Idle).(holder := st.holder - {s})
  }

  const INIT: State :=
    State({}, Idle, Idle, Channel(Datagram.EMPTY, [], [], []), Channel(Datagram.EMPTY, [], [], []))

  /** The octets a sequence of receives has taken out, in order. */
  function Taken(receipts: seq<Receipt>): seq<byte> {
    if receipts == [] then []
    else
      var last := receipts[|receipts| - 1];
      Taken(receipts[..|receipts| - 1]) + (last.delivered + last.dropped)
  }

  /** The datagrams it has taken out, in order. */
  function Datagrams(receipts: seq<Receipt>): seq<seq<byte>> {
    if receipts == [] then []
    else Datagrams(receipts[..|receipts| - 1]) + receipts[|receipts| - 1].datagrams
  }

  /** The mutex is held by at most one thread. */
  ghost predicate Exclusive(st: State) {
    !(Client in st.holder && Server in st.holder)
  }

  /**
   * What holds of each thread. It is in the critical section exactly when it holds the mutex; when it is
   * blocked it has nothing to read, unless the sender is on its way to signal; past its test it has something.
   */
  ghost predicate ThreadInv(st: State, s: Side) {
    var pc, other, arrived := PcOf(st, s), PcOf(st, Other(s)), Incoming(st, s).buffer.content;
    && (s in st.holder <==> InCriticalSection(pc))
    && (pc.RecvBlocked? ==> arrived == [] || other.SendAppended?)
    && (pc.RecvReady? ==> arrived != [])
  }

  /** A receive found datagrams, run together, and split them at the room it was given. */
  ghost predicate Sound(r: Receipt) {
    var b := Datagram.EMPTY.(content := Datagram.Concat(r.datagrams));
    && r.datagrams != [] && Datagram.NoneEmpty(r.datagrams)
    && r.delivered == Datagram.Delivered(b, r.room) && r.dropped == b.content[|r.delivered|..]
  }

  /** Datagrams sent are, in order, those taken by the receives and then those pending, which fill the buffer. */
  ghost predicate Conserved(c: Channel) {
    && c.sent == Datagrams(c.receipts) + c.pending
    && c.buffer.content == Datagram.Concat(c.pending) && Datagram.NoneEmpty(c.pending)
    && (forall i :: 0 <= i < |c.receipts| ==> Sound(c.receipts[i]))
    && Datagram.Bounded(c.buffer)
  }

  ghost predicate Inv(st: State) {
    && Exclusive(st) && ThreadInv(st, Client) && ThreadInv(st, Server)
    && Conserved(st.fromClient) && Conserved(st.fromServer)
  }

  lemma AppendConserves(c: Channel, data: message, granted: bool)
    requires Conserved(c) && Datagram.Safe(c.buffer, |data|, granted)
    requires Datagram.Append(c.buffer, data, granted).1
    ensures Conserved(AfterSend(c, data, granted))
  {
    var op := Datagram.Put(data, granted);
    Datagram.StepKeepsBounded(c.buffer, op);
    Datagram.StepKeepsPending(c.buffer, c.pending, op);
    var sends := if data == [] then [] else [data];
    assert c.pending + sends == Datagram.NextPending(c.buffer, c.pending, op);
    assert Datagram.Step(c.buffer, op) == Datagram.Append(c.buffer, data, granted).0;
    hide Datagram.Append, Datagram.Bounded, Datagram.Safe, Datagram.Concat, Datagram.NoneEmpty, Datagram.NextPending;
    hide Sound, Datagrams, Datagram.Step;
    Associate(Datagrams(c.receipts), c.pending, sends);
  }

  lemma ReadConserves(c: Channel, room: uint32)
    requires Conserved(c) && c.buffer.content != []
    ensures Conserved(AfterReceive(c, room))
  {
    Datagram.StepKeepsBounded(c.buffer, Datagram.Take(room));
    var c' := AfterReceive(c, room);
    var n := |c.receipts|;
    assert c'.receipts[..n] == c.receipts;
    assert Sound(c'.receipts[n]);
    hide Sound;
    assert Datagrams(c'.receipts) == Datagrams(c.receipts) + c.pending;
    assert c'.sent == Datagrams(c'.receipts) + [];
  }

  lemma StepKeepsThreads(st: State, s: Side, a: Action)
    requires Exclusive(st) && ThreadInv(st, Client) && ThreadInv(st, Server) && Enabled(st, s, a)
    ensures var st' := Step(st, s, a);
      Exclusive(st') && ThreadInv(st', Client) && ThreadInv(st', Server)
  {
    hide Datagram.NewCapacity;
  }

  lemma StepKeepsChannels(st: State, s: Side, a: Action)
    requires Conserved(st.fromClient) && Conserved(st.fromServer) && Enabled(st, s, a)
    requires ThreadInv(st, s)
    ensures var st' := Step(st, s, a);
      Conserved(st'.fromClient) && Conserved(st'.fromServer)
  {
    hide Conserved, AfterSend, AfterReceive, Datagram.Safe;
    if a.AppendData? {
      var c := Outgoing(st, s);
      if Datagram.Append(c.buffer, PcOf(st, s).data, a.granted).1 {
        AppendConserves(c, PcOf(st, s).data, a.granted);
      }
    } else if a.Read? {
      ReadConserves(Incoming(st, s), PcOf(st, s).room);
    }
  }

  lemma StepKeepsInv(st: State, s: Side, a: Action)
    requires Inv(st) && Enabled(st, s, a)
    ensures Inv(Step(st, s, a))
  {
    hide Exclusive, ThreadInv, Conserved, Enabled, Step;
    StepKeepsThreads(st, s, a);
    StepKeepsChannels(st, s, a);
  }

  datatype Event = Event(side: Side, action: Action)

  /** An interleaving of the two threads. */
  ghost predicate Runs(st: State, events: seq<Event>, st': State)
    decreases |events|
  {
    if events == [] then st == st'
    else
      var e := events[0];
      Enabled(st, e.side, e.action) && Runs(Step(st, e.side, e.action), events[1..], st')
  }

  lemma {:induction false} RunKeepsInv(st: State, events: seq<Event>, st': State)
    requires Inv(st) && Runs(st, events, st')
    ensures Inv(st')
    decreases |events|
  {
    if events != [] {
      var e := events[0];
      StepKeepsInv(st, e.side, e.action);
      RunKeepsInv(Step(st, e.side, e.action), events[1..], st');
    }
  }

  lemma InitInv()
    ensures Inv(INIT)
  {
  }

  ghost predicate Reachable(st: State) {
    exists events :: Runs(INIT, events, st)
  }

  lemma ReachableInv(st: State)
    requires Reachable(st)
    ensures Inv(st)
  {
    var events :| Runs(INIT, events, st);
    InitInv();
    RunKeepsInv(INIT, events, st);
  }

  // ----- What every interleaving guarantees -----

  lemma MutualExclusion(st: State)
    requires Reachable(st)
    ensures !(InCriticalSection(st.client) && InCriticalSection(st.server))
  {
    ReachableInv(st);
  }

  /** In every state, a receiver that is blocked and not woken has an empty buffer, or its sender is about to signal. */
  lemma BlockedIsEmptyOrSignalled(st: State, s: Side)
    requires Reachable(st) && PcOf(st, s).RecvBlocked?
    ensures Incoming(st, s).buffer.content == [] || PcOf(st, Other(s)).SendAppended?
  {
    ReachableInv(st);
  }

  /** So whenever the mutex is free, a receiver that is blocked and not woken has an empty buffer. */
  lemma BlockedMeansEmpty(st: State, s: Side)
    requires Reachable(st) && st.holder == {} && PcOf(st, s).RecvBlocked?
    ensures Incoming(st, s).buffer.content == []
  {
    ReachableInv(st);
    BlockedIsEmptyOrSignalled(st, s);
    assert !InCriticalSection(PcOf(st, Other(s)));
  }

  /** If both threads are blocked, nothing is in flight: every datagram sent either way has been taken. */
  lemma BothBlockedMeansDrained(st: State)
    requires Reachable(st) && st.client.RecvBlocked? && st.server.RecvBlocked?
    ensures st.fromClient.sent == Datagrams(st.fromClient.receipts)
    ensures st.fromServer.sent == Datagrams(st.fromServer.receipts)
  {
    ReachableInv(st);
    assert PcOf(st, Client).RecvBlocked? && PcOf(st, Server).RecvBlocked?;
    NothingPending(st.fromClient);
    NothingPending(st.fromServer);
  }

  lemma NothingPending(c: Channel)
    requires Conserved(c) && c.buffer.content == []
    ensures c.sent == Datagrams(c.receipts)
  {
    if c.pending != [] {
      Datagram.ConcatAtLeast(c.pending, 0);
    }
  }

  /**
   * The holder of the mutex can always move on, unless it is a sender whose 32-bit total wraps round to one
   * that the capacity covers.
   */
  lemma HolderMovesOn(st: State, s: Side) returns (a: Action)
    requires Reachable(st) && s in st.holder
    requires PcOf(st, s).SendLocked? ==> Datagram.Safe(Outgoing(st, s).buffer, |PcOf(st, s).data|, false)
    ensures Enabled(st, s, a)
  {
    ReachableInv(st);
    assert InCriticalSection(PcOf(st, s));
    match PcOf(st, s) {
      case SendLocked(_) => a := AppendData(false);
      case SendAppended => a := Signal;
      case SendLeaving => a := Unlock;
      case RecvTest(_) => a := Test;
      case RecvReady(_) => a := Read;
      case RecvLeaving => a := Unlock;
    }
  }

  /** A thread outside the mutex moves on when the mutex is free, unless it is idle or blocked. */
  lemma WaiterMovesOn(st: State, s: Side)
    requires st.holder == {} && Inv(st) && !PcOf(st, s).Idle? && !PcOf(st, s).RecvBlocked?
    ensures Enabled(st, s, Lock)
  {
    assert !InCriticalSection(PcOf(st, s));
  }

  /** Is this action one that its thread takes of itself: neither a new call nor a spurious wake-up? */
  predicate Progress(a: Action) {
    !a.CallSend? && !a.CallRecv? && !a.WakeSpuriously?
  }

  /** A thread with nothing to do of itself: outside its callbacks, or waiting for a signal. */
  predicate Resting(pc: Pc) {
    pc.Idle? || pc.RecvBlocked?
  }

  /** Can some thread move on of itself? */
  ghost predicate CanProgress(st: State) {
    exists s, a :: Progress(a) && Enabled(st, s, a)
  }

  /**
   * No interleaving gets stuck: in every state, outside the same wrapped totals, some thread can move on of itself
   * exactly when some thread is neither idle nor blocked.
   */
  lemma NeverStuck(st: State)
    requires Reachable(st)
    requires forall s :: PcOf(st, s).SendLocked? ==>
                           Datagram.Safe(Outgoing(st, s).buffer, |PcOf(st, s).data|, false)
    ensures CanProgress(st) <==> !(Resting(st.client) && Resting(st.server))
  {
    hide Datagram.Safe, Conserved, Enabled;
    ReachableInv(st);
    if Resting(st.client) && Resting(st.server) {
      forall s, a | Progress(a) ensures !Enabled(st, s, a) {
        RestingWaits(st, s, a);
      }
    } else if s :| s in st.holder {
      var a := HolderMovesOn(st, s);
      HolderProgresses(st, s, a);
    } else if !Resting(st.client) {
      WaiterMovesOn(st, Client);
    } else {
      WaiterMovesOn(st, Server);
    }
  }

  lemma RestingWaits(st: State, s: Side, a: Action)
    requires Resting(PcOf(st, s)) && Progress(a)
    ensures !Enabled(st, s, a)
  {
    hide Datagram.Safe;
  }

  lemma HolderProgresses(st: State, s: Side, a: Action)
    requires s in st.holder && ThreadInv(st, s) && Enabled(st, s, a)
    ensures Progress(a) && !Resting(PcOf(st, s))
  {
    hide Datagram.Safe;
  }

  // ----- What the callers asked for -----

  /** The calls of one side: the data of the last send, the room of the last receive, those of all completed ones. */
  datatype Asked = Asked(data: message, room: uint32, sent: seq<seq<byte>>, rooms: seq<uint32>)

  const NOTHING: Asked := Asked([], 0, [], [])

  /** After one more event. It looks at calls and their completion, not at where the thread stands. */
  ghost function NextAsked(q: Asked, st: State, s: Side, e: Event): Asked {
    if e.side != s then q
    else
      match e.action
      case CallSend(data) => q.(data := data)
      case CallRecv(room) => q.(room := room)
      case AppendData(granted) =>
        var ok := Datagram.Append(Outgoing(st, s).buffer, q.data, granted).1;
        if ok && q.data != [] then q.(sent := q.sent + [q.data]) else q
      case Read => q.(rooms := q.rooms + [q.room])
      case _ => q
  }

  /** After a run. */
  ghost function AskedBy(q: Asked, st: State, s: Side, events: seq<Event>, st': State): Asked
    requires Runs(st, events, st')
    decreases |events|
  {
    if events == [] then q
    else
      var e := events[0];
      AskedBy(NextAsked(q, st, s, e), Step(st, e.side, e.action), s, events[1..], st')
  }

  function Rooms(receipts: seq<Receipt>): seq<uint32> {
    if receipts == [] then [] else Rooms(receipts[..|receipts| - 1]) + [receipts[|receipts| - 1].room]
  }

  /** What the side has sent and received, and is about to, is what it asked for. */
  ghost predicate Serves(st: State, s: Side, q: Asked) {
    var pc := PcOf(st, s);
    && Outgoing(st, s).sent == q.sent && Rooms(Incoming(st, s).receipts) == q.rooms
    && (pc.SendEntry? || pc.SendLocked? ==> pc.data == q.data)
    && (pc.RecvEntry? || pc.RecvTest? || pc.RecvBlocked? || pc.RecvReady? ==> pc.room == q.room)
  }

  lemma RoomsMore(receipts: seq<Receipt>, r: Receipt)
    ensures Rooms(receipts + [r]) == Rooms(receipts) + [r.room]
  {
    assert (receipts + [r])[..|receipts|] == receipts;
  }

  lemma StepServes(st: State, s: Side, q: Asked, e: Event)
    requires Serves(st, s, q) && Enabled(st, e.side, e.action)
    ensures Serves(Step(st, e.side, e.action), s, NextAsked(q, st, s, e))
  {
    hide Datagram.Append, Datagram.Safe, Datagram.Delivered, Datagram.AfterRead, Rooms;
    if e.action.Read? {
      var c := Incoming(st, e.side);
      var c' := AfterReceive(c, PcOf(st, e.side).room);
      RoomsMore(c.receipts, c'.receipts[|c.receipts|]);
    }
  }

  lemma {:induction false} RunServes(st: State, s: Side, q: Asked, events: seq<Event>, st': State)
    requires Serves(st, s, q) && Runs(st, events, st')
    ensures Serves(st', s, AskedBy(q, st, s, events, st'))
    decreases |events|
  {
    hide Serves, NextAsked;
    if events != [] {
      var e := events[0];
      StepServes(st, s, q, e);
      RunServes(Step(st, e.side, e.action), s, NextAsked(q, st, s, e), events[1..], st');
    }
  }

  /**
   * In every interleaving, each receive has the room that its caller passed, and what was sent is, in order, the
   * non-empty data that the callers passed whose append succeeded; and so for the calls under way.
   */
  lemma CallsAreServed(events: seq<Event>, st: State, s: Side)
    requires Runs(INIT, events, st)
    ensures Serves(st, s, AskedBy(NOTHING, INIT, s, events, st))
  {
    RunServes(INIT, s, NOTHING, events, st);
  }

  // ----- A datagram that is waited for -----

  lemma {:induction false} RunsJoin(st: State, first: seq<Event>, mid: State, second: seq<Event>, st': State)
    requires Runs(st, first, mid) && Runs(mid, second, st')
    ensures Runs(st, first + second, st')
    decreases |first|
  {
    if first == [] {
      assert first + second == second;
    } else {
      var e := first[0];
      assert (first + second)[1..] == first[1..] + second;
      RunsJoin(Step(st, e.side, e.action), first[1..], mid, second, st');
    }
  }

  /** One thread takes these actions, one after the other. */
  function By(s: Side, actions: seq<Action>): (events: seq<Event>)
    ensures |events| == |actions|
  {
    if actions == [] then [] else [Event(s, actions[0])] + By(s, actions[1..])
  }

  lemma RunsFirst(st: State, s: Side, a: Action, rest: seq<Action>, st': State)
    requires Enabled(st, s, a) && Runs(Step(st, s, a), By(s, rest), st')
    ensures Runs(st, By(s, [a] + rest), st')
  {
    hide Enabled, Step;
    assert ([a] + rest)[1..] == rest;
    assert By(s, [a] + rest)[1..] == By(s, rest);
  }

  lemma RunsThree(st: State, s: Side, a: Action, b: Action, c: Action)
    requires Enabled(st, s, a) && var st1 := Step(st, s, a);
      Enabled(st1, s, b) && var st2 := Step(st1, s, b);
      Enabled(st2, s, c)
    ensures Runs(st, By(s, [a, b, c]), Step(Step(Step(st, s, a), s, b), s, c))
  {
    hide Enabled, Step;
    var st1 := Step(st, s, a);
    var st2 := Step(st1, s, b);
    var st3 := Step(st2, s, c);
    assert Runs(st3, By(s, []), st3);
    hide By, Runs;
    RunsFirst(st2, s, c, [], st3);
    RunsFirst(st1, s, b, [c], st3);
    RunsFirst(st, s, a, [b, c], st3);
    assert [c] + [] == [c] && [b] + [c] == [b, c] && [a] + [b, c] == [a, b, c];
  }

  lemma RunsFour(st: State, s: Side, a: Action, b: Action, c: Action, d: Action)
    requires Enabled(st, s, a) && var st1 := Step(st, s, a);
      Enabled(st1, s, b) && var st2 := Step(st1, s, b);
      Enabled(st2, s, c) && var st3 := Step(st2, s, c);
      Enabled(st3, s, d)
    ensures Runs(st, By(s, [a, b, c, d]), Step(Step(Step(Step(st, s, a), s, b), s, c), s, d))
  {
    hide Enabled, Step, By, Runs;
    var st1 := Step(st, s, a);
    RunsThree(st1, s, b, c, d);
    RunsFirst(st, s, a, [b, c, d], Step(Step(Step(st1, s, b), s, c), s, d));
    assert [a] + [b, c, d] == [a, b, c, d];
  }

  /** A send runs through when the mutex is free, and wakes the other side if it is blocked. */
  lemma SendRuns(st: State, s: Side, data: message) returns (st': State)
    requires st.holder == {} && PcOf(st, s).Idle? && Datagram.Safe(Outgoing(st, s).buffer, |data|, true)
    ensures Runs(st, By(s, [CallSend(data), Lock, AppendData(true), Signal, Unlock]), st')
    ensures st'.holder == {} && PcOf(st', s).Idle? && PcOf(st', Other(s)) == Woken(PcOf(st, Other(s)))
    ensures Outgoing(st', s) == AfterSend(Outgoing(st, s), data, true) && Incoming(st', s) == Incoming(st, s)
  {
    hide Datagram.Safe, Datagram.NewCapacity, AfterSend, By, Runs;
    var called := Step(st, s, CallSend(data));
    st' := Step(Step(Step(Step(called, s, Lock), s, AppendData(true)), s, Signal), s, Unlock);
    RunsFour(called, s, Lock, AppendData(true), Signal, Unlock);
    RunsFirst(st, s, CallSend(data), [Lock, AppendData(true), Signal, Unlock], st');
    assert [CallSend(data)] + [Lock, AppendData(true), Signal, Unlock]
        == [CallSend(data), Lock, AppendData(true), Signal, Unlock];
  }

  /** So does a receive that has been woken, or has just been called, when there is something to read. */
  lemma ReceiveRuns(st: State, s: Side) returns (st': State)
    requires st.holder == {} && PcOf(st, s).RecvEntry? && Incoming(st, s).buffer.content != []
    ensures Runs(st, By(s, [Lock, Test, Read, Unlock]), st')
    ensures st'.holder == {} && PcOf(st', s).Idle? && PcOf(st', Other(s)) == PcOf(st, Other(s))
    ensures Incoming(st', s) == AfterReceive(Incoming(st, s), PcOf(st, s).room) && Outgoing(st', s) == Outgoing(st, s)
  {
    hide AfterReceive, By, Runs;
    st' := Step(Step(Step(Step(st, s, Lock), s, Test), s, Read), s, Unlock);
    RunsFour(st, s, Lock, Test, Read, Unlock);
  }

  /** A blocked receiver gets the datagram that is sent next: alone, and as much of it as it has room for. */
  lemma BlockedReceives(st: State, s: Side, data: message) returns (st': State)
    requires Reachable(st) && st.holder == {} && PcOf(st, s).RecvBlocked? && PcOf(st, Other(s)).Idle?
    requires 0 < |data| < Datagram.SAFE_TOTAL
    ensures var sends := By(Other(s), [CallSend(data), Lock, AppendData(true), Signal, Unlock]);
      Runs(st, sends + By(s, [Lock, Test, Read, Unlock]), st')
    ensures st'.holder == {} && st'.client.Idle? && st'.server.Idle?
    ensures var room := PcOf(st, s).room;
      var n := if |data| < room then |data| else room;
      Incoming(st', s).receipts == Incoming(st, s).receipts + [Receipt(room, [data], data[..n], data[n..])]
  {
    hide AfterSend, AfterReceive, Runs, By, Sound, Datagrams;
    ReachableInv(st);
    BlockedMeansEmpty(st, s);
    ReceiptOfOne(Incoming(st, s), data, PcOf(st, s).room);
    var mid := SendRuns(st, Other(s), data);
    st' := ReceiveRuns(mid, s);
    var sends := By(Other(s), [CallSend(data), Lock, AppendData(true), Signal, Unlock]);
    RunsJoin(st, sends, mid, By(s, [Lock, Test, Read, Unlock]), st');
  }

  lemma ReceiptOfOne(c: Channel, data: message, room: uint32)
    requires Conserved(c) && c.buffer.content == [] && data != []
    ensures var n := if |data| < room then |data| else room;
      var sent := AfterSend(c, data, true);
      && sent.buffer.content == data
      && AfterReceive(sent, room).receipts == c.receipts + [Receipt(room, [data], data[..n], data[n..])]
  {
    hide Sound, Datagrams;
    if c.pending != [] {
      Datagram.ConcatAtLeast(c.pending, 0);
    }
    assert [] + data == data && [] + [data] == [data] && data[..|data|] == data;
  }

  /** A spurious wake-up of a blocked receiver leads back to where it was. */
  lemma SpuriousIsHarmless(st: State, s: Side)
    requires Reachable(st) && st.holder == {} && PcOf(st, s).RecvBlocked?
    ensures Runs(st, By(s, [WakeSpuriously, Lock, Test]), st)
  {
    BlockedMeansEmpty(st, s);
    hide Datagram.Safe;
    assert Step(Step(Step(st, s, WakeSpuriously), s, Lock), s, Test) == st;
    RunsThree(st, s, WakeSpuriously, Lock, Test);
  }

  lemma {:induction false} ConcatJoin(a: seq<seq<byte>>, b: seq<seq<byte>>)
    ensures Datagram.Concat(a + b) == Datagram.Concat(a) + Datagram.Concat(b)
  {
    if b == [] {
      assert a + b == a;
    } else {
      assert (a + b)[..|a + b| - 1] == a + b[..|b| - 1];
      ConcatJoin(a, b[..|b| - 1]);
    }
  }

  lemma {:induction false} TakenIsConcat(receipts: seq<Receipt>)
    requires forall i :: 0 <= i < |receipts| ==> Sound(receipts[i])
    ensures Taken(receipts) == Datagram.Concat(Datagrams(receipts))
  {
    hide Sound, Datagram.Concat;
    if receipts == [] {
      NothingTaken();
    } else {
      var n := |receipts| - 1;
      TakenIsConcat(receipts[..n]);
      ConcatJoin(Datagrams(receipts[..n]), receipts[n].datagrams);
      SoundSplits(receipts[n]);
    }
  }

  lemma NothingTaken()
    ensures Taken([]) == Datagram.Concat(Datagrams([]))
  {
  }

  lemma SoundSplits(r: Receipt)
    requires Sound(r)
    ensures r.delivered + r.dropped == Datagram.Concat(r.datagrams)
  {
    hide Datagram.Concat, Datagram.NoneEmpty;
  }

  /** Octets sent are, in order, those delivered or dropped and then those still buffered, in every reachable state. */
  lemma SentIsTakenThenBuffered(st: State, s: Side)
    requires Reachable(st)
    ensures var c := Outgoing(st, s);
      Datagram.Concat(c.sent) == Taken(c.receipts) + c.buffer.content
  {
    ReachableInv(st);
    var c := Outgoing(st, s);
    assert Conserved(c);
    TakenIsConcat(c.receipts);
    ConcatJoin(Datagrams(c.receipts), c.pending);
  }

  /** A receive gets one whole datagram and drops nothing exactly when one alone was pending and had room. */
  lemma ReceiptIsWholeIff(st: State, s: Side, r: Receipt)
    requires Reachable(st) && r in Outgoing(st, s).receipts
    ensures r.delivered in r.datagrams && r.dropped == [] <==> |r.datagrams| == 1 && |r.datagrams[0]| <= r.room
  {
    ReachableInv(st);
    assert Conserved(Outgoing(st, s));
    assert Sound(r);
    var b := Datagram.EMPTY.(content := Datagram.Concat(r.datagrams));
    Datagram.ConcatAtLeast(r.datagrams, 0);
    Datagram.WholeDatagramIff(b, r.datagrams, r.room);
  }

  /** No datagram is lost, repeated or reordered on the way to the receives. */
  lemma DatagramsInOrder(st: State, s: Side)
    requires Reachable(st)
    ensures Outgoing(st, s).sent == Datagrams(Outgoing(st, s).receipts) + Outgoing(st, s).pending
  {
    ReachableInv(st);
  }
}
