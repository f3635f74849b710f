/**
  The motor data manager: a registry of named listeners, each with a
  bounded event queue and optional motor and event-type filters; the
  broadcast that fans an event out to every listener that wants it and has
  room; the connected/disconnected tracking driven by the monitor loop; and
  the graph listener's bounded plot series. Clocks are parameters; the
  monitor thread, its sleeps and the lock are left out.
*/
module DataManager {
  import opened Wrappers
  import opened Ddsm115Codec
  import opened Bounded

  /** `DataEventType`. */
  datatype EventType = MotorFeedback | MotorStatusChange | MotorError | MotorConnected | MotorDisconnected | CommandSent | CommandFailed

  /** An event's payload: the feedback record, a disconnection notice with the last time seen, or anything else. */
  datatype Payload = FeedbackData(feedback: Feedback) | Disconnected(lastSeen: int) | OtherData

  /** `DataEvent` (the source field is always the manager's). */
  datatype Event = Event(kind: EventType, motorId: int, timestamp: int, data: Payload)

  /**
    `MotorDataListener`. `capacity` is the queue's `maxsize`: zero or less
    means unbounded, as for Python's `queue.Queue`. A filter that is None or
    empty lets everything through.
  */
  datatype Listener = Listener(
    name: string,
    capacity: int,
    pending: seq<Event>,
    active: bool,
    motorFilter: Option<seq<int>>,
    kindFilter: Option<seq<EventType>>)

  /** A new listener: active, empty, unfiltered. The default capacity is 100. */
  function NewListener(name: string, capacity: int): (l: Listener)
    ensures l.active && l.pending == [] && l.name == name
  {
    Listener(name, capacity, [], true, None, None)
  }

  /** True when a filter is present and non-empty (a Python list is truthy). */
  predicate Restricts<T>(f: Option<seq<T>>) {
    f.Some? && |f.value| > 0
  }

  /** `should_receive_event`. */
  function ShouldReceive(l: Listener, e: Event): (r: bool)
    ensures r <==> (
      && l.active
      && (Restricts(l.motorFilter) ==> e.motorId in l.motorFilter.value)
      && (Restricts(l.kindFilter) ==> e.kind in l.kindFilter.value))
  {
    if !l.active then false
    else if Restricts(l.motorFilter) && e.motorId !in l.motorFilter.value then false
    else if Restricts(l.kindFilter) && e.kind !in l.kindFilter.value then false
    else true
  }

  /** An active listener whose filters are absent or empty receives every event. */
  lemma UnfilteredReceivesAll(l: Listener, e: Event)
    requires l.active
    requires l.motorFilter.None? || l.motorFilter == Some([])
    requires l.kindFilter.None? || l.kindFilter == Some([])
    ensures ShouldReceive(l, e)
  {
  }

  /** A listener filtered to some motors never receives an event about another motor. */
  lemma MotorFilterExcludes(l: Listener, e: Event, ids: seq<int>)
    requires l.motorFilter == Some(ids) && |ids| > 0 && e.motorId !in ids
    ensures !ShouldReceive(l, e)
  {
  }

  /** True when the listener's queue has no room. */
  predicate Full(l: Listener) {
    l.capacity > 0 && |l.pending| >= l.capacity
  }

  /** `put_event`: `put_nowait` succeeds exactly when there is room; it never blocks. */
  function PutEvent(l: Listener, e: Event): (r: (bool, Listener))
    ensures r.0 <==> !Full(l)
    ensures r.0 ==> r.1 == l.(pending := l.pending + [e])
    ensures !r.0 ==> r.1 == l
  {
    if Full(l) then (false, l) else (true, l.(pending := l.pending + [e]))
  }

  /** A bounded queue never holds more than its capacity, however many events are put. */
  lemma PutEventKeepsBound(l: Listener, e: Event)
    requires l.capacity > 0 && |l.pending| <= l.capacity
    ensures |PutEvent(l, e).1.pending| <= l.capacity
    ensures |l.pending| == l.capacity ==> !PutEvent(l, e).0
  {
  }

  /** True when the listener takes the event: it passes the filters and the queue has room. */
  predicate Accepts(l: Listener, e: Event) {
    ShouldReceive(l, e) && !Full(l)
  }

  // ---------------------------------------------------------------------
  // The manager
  // ---------------------------------------------------------------------

  /** One `connected_motors` entry. */
  datatype Presence = Presence(motorId: int, connected: bool)

  /** `events_distributed`, `commands_sent`, `feedback_received`, `errors`. */
  datatype Stats = Stats(eventsDistributed: nat, commandsSent: nat, feedbackReceived: nat, errors: nat)

  /**
    `MotorDataManager`. `listeners` and `presence` are the two dicts in
    insertion order; `status` and `lastSeen` are `motor_status` and
    `last_feedback_time`.
  */
  datatype Manager = Manager(
    listeners: seq<Listener>,
    presence: seq<Presence>,
    status: map<int, Feedback>,
    lastSeen: map<int, int>,
    stats: Stats)

  /** Listener names are the dict's keys, so they are distinct. */
  predicate UniqueNames(ls: seq<Listener>) {
    forall i, j :: 0 <= i < j < |ls| ==> ls[i].name != ls[j].name
  }

  /** A motor id appears at most once in `connected_motors`. */
  predicate UniqueIds(ps: seq<Presence>) {
    forall i, j :: 0 <= i < j < |ps| ==> ps[i].motorId != ps[j].motorId
  }

  predicate Inv(m: Manager) {
    UniqueNames(m.listeners) && UniqueIds(m.presence)
  }

  function Names(ls: seq<Listener>): (r: set<string>)
    ensures forall n :: n in r <==> exists i :: 0 <= i < |ls| && ls[i].name == n
  {
    set i | 0 <= i < |ls| :: ls[i].name
  }

  /** `register_listener`: a name already registered is refused; otherwise the listener is appended. */
  function Register(m: Manager, l: Listener): (r: (bool, Manager))
    ensures r.0 <==> l.name !in Names(m.listeners)
    ensures r.0 ==> r.1 == m.(listeners := m.listeners + [l])
    ensures !r.0 ==> r.1 == m
    ensures UniqueNames(m.listeners) ==> UniqueNames(r.1.listeners)
  {
    if l.name in Names(m.listeners) then (false, m)
    else (true, m.(listeners := m.listeners + [l]))
  }

  /** The position of the listener called `name`, or -1. */
  function FindListener(ls: seq<Listener>, name: string): (i: int)
    ensures -1 <= i < |ls|
    ensures i >= 0 ==> ls[i].name == name
    ensures i == -1 <==> name !in Names(ls)
    decreases |ls|
  {
    if |ls| == 0 then -1
    else if ls[0].name == name then 0
    else
      var j := FindListener(ls[1..], name);
      assert forall k :: 1 <= k < |ls| ==> ls[k] == ls[1..][k - 1];
      if j == -1 then -1 else j + 1
  }

  /**
    `unregister_listener`: an unknown name is refused; otherwise the
    listener is removed and returned, marked inactive (the caller's
    reference stops receiving).
  */
  function Unregister(m: Manager, name: string): (r: (bool, Manager, Option<Listener>))
    ensures r.0 <==> name in Names(m.listeners)
    ensures !r.0 ==> r.1 == m && r.2.None?
    ensures r.0 ==> r.2.Some? && !r.2.value.active && r.2.value.name == name
    ensures r.0 ==> |r.1.listeners| == |m.listeners| - 1
    ensures r.1 == m.(listeners := r.1.listeners)
    ensures forall l :: l in r.1.listeners ==> l in m.listeners
    ensures forall l :: l in m.listeners && l.name != name ==> l in r.1.listeners
  {
    var i := FindListener(m.listeners, name);
    if i == -1 then (false, m, None)
    else
      var ls := m.listeners[..i] + m.listeners[i + 1..];
      assert forall l :: l in m.listeners && l.name != name ==> l in ls by {
        forall l | l in m.listeners && l.name != name ensures l in ls {
          var k :| 0 <= k < |m.listeners| && m.listeners[k] == l;
          if k < i { assert ls[k] == l; } else { assert ls[k - 1] == l; }
        }
      }
      (true, m.(listeners := ls), Some(m.listeners[i].(active := false)))
  }

  /** Registering a new name and unregistering it again leaves the registry as it was. */
  lemma RegisterUnregisterRoundTrip(m: Manager, l: Listener)
    requires Inv(m) && l.name !in Names(m.listeners)
    ensures var r := Unregister(Register(m, l).1, l.name);
      r.0 && r.1 == m && r.2 == Some(l.(active := false))
  {
    var ls := m.listeners + [l];
    assert Register(m, l).1.listeners == ls;
    var i := FindListener(ls, l.name);
    assert ls[|m.listeners|].name == l.name;
    assert i == |m.listeners|;
    assert ls[..i] == m.listeners;
    assert ls[i + 1..] == [];
  }

  // ---------------------------------------------------------------------
  // Broadcasting
  // ---------------------------------------------------------------------

  /** The names of the listeners that take `e`, in registry order: the reference definition of a broadcast's reach. */
  function Receivers(ls: seq<Listener>, e: Event): (r: seq<string>)
    ensures |r| <= |ls|
    decreases |ls|
  {
    if |ls| == 0 then []
    else
      var rest := Receivers(ls[..|ls| - 1], e);
      if Accepts(ls[|ls| - 1], e) then rest + [ls[|ls| - 1].name] else rest
  }

  /** An inactive listener is never among the receivers. */
  lemma {:induction false} InactiveNeverReceives(ls: seq<Listener>, e: Event)
    requires UniqueNames(ls)
    ensures forall i :: 0 <= i < |ls| && !ls[i].active ==> ls[i].name !in Receivers(ls, e)
    decreases |ls|
  {
    if |ls| > 0 {
      var init := ls[..|ls| - 1];
      assert UniqueNames(init) by {
        forall a, b | 0 <= a < b < |init| ensures init[a].name != init[b].name {
          assert init[a] == ls[a] && init[b] == ls[b];
        }
      }
      InactiveNeverReceives(init, e);
      ReceiversAreNames(init, e);
      forall i | 0 <= i < |ls| && !ls[i].active ensures ls[i].name !in Receivers(ls, e) {
        if i < |ls| - 1 {
          assert init[i] == ls[i];
          if ls[i].name == ls[|ls| - 1].name {
            assert false;
          }
        }
      }
    }
  }

  /** Every receiver is the name of a listener that takes the event. */
  lemma {:induction false} ReceiversAreNames(ls: seq<Listener>, e: Event)
    ensures forall n :: n in Receivers(ls, e) ==> exists i :: 0 <= i < |ls| && ls[i].name == n && Accepts(ls[i], e)
    decreases |ls|
  {
    if |ls| > 0 {
      var init := ls[..|ls| - 1];
      ReceiversAreNames(init, e);
      forall n | n in Receivers(ls, e)
        ensures exists i :: 0 <= i < |ls| && ls[i].name == n && Accepts(ls[i], e)
      {
        if n in Receivers(init, e) {
          var i :| 0 <= i < |init| && init[i].name == n && Accepts(init[i], e);
          assert ls[i] == init[i];
        } else {
          assert ls[|ls| - 1].name == n && Accepts(ls[|ls| - 1], e);
        }
      }
    }
  }

  /** Extending the registry by one listener extends the receivers by that listener, if it takes the event. */
  lemma ReceiversStep(ls: seq<Listener>, i: nat, e: Event)
    requires i < |ls|
    ensures Receivers(ls[..i + 1], e) == Receivers(ls[..i], e) + (if Accepts(ls[i], e) then [ls[i].name] else [])
  {
    assert ls[..i + 1][..i] == ls[..i];
  }

  /** What one listener looks like after a broadcast of `e`. */
  function Delivered(l: Listener, e: Event): (r: Listener)
    ensures r == PutEvent(l, e).1 || !ShouldReceive(l, e)
    ensures r.pending == if Accepts(l, e) then l.pending + [e] else l.pending
    ensures r.name == l.name && r.active == l.active && r.capacity == l.capacity
  {
    if Accepts(l, e) then l.(pending := l.pending + [e]) else l
  }

  /** The registry after a broadcast of `e`: every listener delivered to, in order. */
  function DeliverAll(ls: seq<Listener>, e: Event): (r: seq<Listener>)
    ensures |r| == |ls|
    decreases |ls|
  {
    if |ls| == 0 then [] else DeliverAll(ls[..|ls| - 1], e) + [Delivered(ls[|ls| - 1], e)]
  }

  /** Delivering to one more listener appends that listener's delivery. */
  lemma DeliverAllStep(ls: seq<Listener>, i: nat, e: Event)
    requires i < |ls|
    ensures DeliverAll(ls[..i + 1], e) == DeliverAll(ls[..i], e) + [Delivered(ls[i], e)]
  {
    assert ls[..i + 1][..i] == ls[..i];
  }

  /** Position `k` of the delivered registry is listener `k` after delivery. */
  lemma {:induction false} DeliverAllAt(ls: seq<Listener>, e: Event)
    ensures forall k :: 0 <= k < |ls| ==> DeliverAll(ls, e)[k] == Delivered(ls[k], e)
    decreases |ls|
  {
    if |ls| > 0 {
      var init := ls[..|ls| - 1];
      DeliverAllAt(init, e);
      assert forall k :: 0 <= k < |init| ==> ls[k] == init[k];
    }
  }

  /**
    `_broadcast_event`: every listener that should receive the event and
    has room gets it, in registry order, and `events_distributed` grows by
    the number that took it.
  */
  method Broadcast(m: Manager, kind: EventType, motorId: int, now: int, data: Payload) returns (r: Manager, count: nat)
    ensures count == |Receivers(m.listeners, Event(kind, motorId, now, data))|
    ensures count <= |m.listeners|
    ensures |r.listeners| == |m.listeners|
    ensures r.listeners == DeliverAll(m.listeners, Event(kind, motorId, now, data))
    ensures forall i :: 0 <= i < |m.listeners| ==> r.listeners[i] == Delivered(m.listeners[i], Event(kind, motorId, now, data))
    ensures r == m.(listeners := r.listeners, stats := m.stats.(eventsDistributed := m.stats.eventsDistributed + count))
  {
    var e := Event(kind, motorId, now, data);
    var ls := m.listeners;
    var out: seq<Listener> := [];
    count := 0;
    var i := 0;
    while i < |ls|
      invariant 0 <= i <= |ls|
      invariant |out| == i
      invariant out == DeliverAll(ls[..i], e)
      invariant count == |Receivers(ls[..i], e)|
    {
      var l := ls[i];
      ReceiversStep(ls, i, e);
      DeliverAllStep(ls, i, e);
      var d := l;
      if ShouldReceive(l, e) {
        var (ok, l') := PutEvent(l, e);
        if ok {
          count := count + 1;
        }
        d := l';
      }
      assert d == Delivered(l, e);
      out := out + [d];
      i := i + 1;
    }
    assert ls[..|ls|] == ls;
    DeliverAllAt(ls, e);
    r := m.(listeners := out, stats := m.stats.(eventsDistributed := m.stats.eventsDistributed + count));
  }

  /** A broadcast keeps the names, so it keeps them distinct, and keeps every bounded queue within its capacity. */
  lemma DeliveredKeepsBounds(l: Listener, e: Event)
    requires l.capacity > 0 && |l.pending| <= l.capacity
    ensures |Delivered(l, e).pending| <= l.capacity
  {
  }

  // ---------------------------------------------------------------------
  // Connection tracking
  // ---------------------------------------------------------------------

  /** `connected_motors.get(id, False)`. */
  function IsConnected(ps: seq<Presence>, id: int): (r: bool)
    ensures r <==> exists i :: 0 <= i < |ps| && ps[i] == Presence(id, true)
    ensures UniqueIds(ps) ==> forall i :: 0 <= i < |ps| && ps[i].motorId == id ==> (r <==> ps[i].connected)
    decreases |ps|
  {
    if |ps| == 0 then false
    else if ps[0].motorId == id then
      assert UniqueIds(ps) ==> forall i :: 1 <= i < |ps| ==> ps[i].motorId != id;
      ps[0].connected
        || (!UniqueIds(ps) && IsConnected(ps[1..], id))
    else
      var r := IsConnected(ps[1..], id);
      assert forall i :: 1 <= i < |ps| ==> ps[i] == ps[1..][i - 1];
      assert UniqueIds(ps) ==> UniqueIds(ps[1..]);
      r
  }

  /** The position of motor `id`'s entry, or -1. */
  function FindId(ps: seq<Presence>, id: int): (i: int)
    ensures -1 <= i < |ps|
    ensures i >= 0 ==> ps[i].motorId == id
    ensures i == -1 ==> forall k :: 0 <= k < |ps| ==> ps[k].motorId != id
    decreases |ps|
  {
    if |ps| == 0 then -1
    else if ps[0].motorId == id then 0
    else
      var j := FindId(ps[1..], id);
      assert forall k :: 1 <= k < |ps| ==> ps[k] == ps[1..][k - 1];
      if j == -1 then -1 else j + 1
  }

  /** `connected_motors[id] = flag`: replaces the entry in place, or appends one. */
  function SetPresence(ps: seq<Presence>, id: int, flag: bool): (r: seq<Presence>)
    requires UniqueIds(ps)
    ensures UniqueIds(r)
    ensures Presence(id, flag) in r
    ensures forall p :: p in ps && p.motorId != id ==> p in r
    ensures forall p :: p in r && p.motorId != id ==> p in ps
  {
    var i := FindId(ps, id);
    if i >= 0 then
      var r := ps[i := Presence(id, flag)];
      assert r[i] == Presence(id, flag);
      assert forall a, b :: 0 <= a < b < |r| && a != i && b != i ==> r[a] == ps[a] && r[b] == ps[b];
      assert forall a :: 0 <= a < |r| && a != i ==> r[a].motorId != id;
      r
    else
      var r := ps + [Presence(id, flag)];
      assert r[|ps|] == Presence(id, flag);
      assert forall a :: 0 <= a < |ps| ==> r[a] == ps[a];
      r
  }

  /** `get_connected_motors`: the ids whose flag is True, in dict order. */
  function ConnectedMotors(ps: seq<Presence>): (r: seq<int>)
    ensures forall id :: id in r <==> IsConnected(ps, id)
    ensures |r| <= |ps|
    decreases |ps|
  {
    if |ps| == 0 then []
    else
      var rest := ConnectedMotors(ps[1..]);
      assert forall id :: IsConnected(ps, id) <==> ps[0] == Presence(id, true) || IsConnected(ps[1..], id) by {
        forall id ensures IsConnected(ps, id) <==> ps[0] == Presence(id, true) || IsConnected(ps[1..], id) {
          if IsConnected(ps[1..], id) {
            var i :| 0 <= i < |ps[1..]| && ps[1..][i] == Presence(id, true);
            assert ps[i + 1] == Presence(id, true);
          }
          if IsConnected(ps, id) && ps[0] != Presence(id, true) {
            var i :| 0 <= i < |ps| && ps[i] == Presence(id, true);
            assert ps[1..][i - 1] == Presence(id, true);
          }
        }
      }
      if ps[0].connected then [ps[0].motorId] + rest else rest
  }

  /** `get_connected_motors` on the manager. */
  function GetConnectedMotors(m: Manager): (r: seq<int>)
    ensures forall id :: id in r <==> IsConnected(m.presence, id)
  {
    ConnectedMotors(m.presence)
  }

  /** The time feedback was last seen, or 0. */
  function LastSeen(m: Manager, id: int): int {
    if id in m.lastSeen then m.lastSeen[id] else 0
  }

  /**
    `_handle_feedback`: the motor is marked connected, its feedback and the
    time stored, the feedback counted, and a MOTOR_FEEDBACK event carrying
    the feedback broadcast.
  */
  method HandleFeedback(m: Manager, id: int, fb: Feedback, now: int) returns (r: Manager)
    requires Inv(m)
    ensures Inv(r)
    ensures id in GetConnectedMotors(r)
    ensures forall other :: other != id ==> (other in GetConnectedMotors(r) <==> other in GetConnectedMotors(m))
    ensures r.status == m.status[id := fb] && r.lastSeen == m.lastSeen[id := now]
    ensures r.stats.feedbackReceived == m.stats.feedbackReceived + 1
    ensures r.stats.eventsDistributed == m.stats.eventsDistributed + |Receivers(m.listeners, Event(MotorFeedback, id, now, FeedbackData(fb)))|
    ensures |r.listeners| == |m.listeners|
    ensures forall i :: 0 <= i < |m.listeners| ==> r.listeners[i] == Delivered(m.listeners[i], Event(MotorFeedback, id, now, FeedbackData(fb)))
  {
    var ps := SetPresence(m.presence, id, true);
    PresenceChange(m.presence, id, true);
    var m1 := m.(presence := ps, status := m.status[id := fb], lastSeen := m.lastSeen[id := now],
                 stats := m.stats.(feedbackReceived := m.stats.feedbackReceived + 1));
    var count;
    r, count := Broadcast(m1, MotorFeedback, id, now, FeedbackData(fb));
    assert forall i :: 0 <= i < |m.listeners| ==> r.listeners[i].name == m.listeners[i].name;
  }

  /** Setting one motor's flag changes what `get_connected_motors` reports for that motor only. */
  lemma PresenceChange(ps: seq<Presence>, id: int, flag: bool)
    requires UniqueIds(ps)
    ensures IsConnected(SetPresence(ps, id, flag), id) == flag
    ensures forall other :: other != id ==> IsConnected(SetPresence(ps, id, flag), other) == IsConnected(ps, other)
  {
    var r := SetPresence(ps, id, flag);
    forall other | other != id ensures IsConnected(r, other) == IsConnected(ps, other) {
      if IsConnected(ps, other) {
        var i :| 0 <= i < |ps| && ps[i] == Presence(other, true);
        assert ps[i] in r;
      }
      if IsConnected(r, other) {
        var i :| 0 <= i < |r| && r[i] == Presence(other, true);
        assert r[i] in ps;
      }
    }
  }

  /**
    `_handle_no_response`: a motor that was connected is marked
    disconnected and a MOTOR_STATUS_CHANGE event with its last-seen time is
    broadcast; otherwise nothing happens.
  */
  method HandleNoResponse(m: Manager, id: int, now: int) returns (r: Manager)
    requires Inv(m)
    ensures Inv(r)
    ensures !IsConnected(m.presence, id) ==> r == m
    ensures id !in GetConnectedMotors(r)
    ensures forall other :: other != id ==> (other in GetConnectedMotors(r) <==> other in GetConnectedMotors(m))
    ensures IsConnected(m.presence, id) ==>
      r.stats.eventsDistributed == m.stats.eventsDistributed + |Receivers(m.listeners, Event(MotorStatusChange, id, now, Disconnected(LastSeen(m, id))))|
    ensures r.status == m.status && r.lastSeen == m.lastSeen
    ensures |r.listeners| == |m.listeners|
    ensures IsConnected(m.presence, id) ==>
      forall i :: 0 <= i < |m.listeners| ==>
        r.listeners[i] == Delivered(m.listeners[i], Event(MotorStatusChange, id, now, Disconnected(LastSeen(m, id))))
  {
    if IsConnected(m.presence, id) {
      PresenceChange(m.presence, id, false);
      var m1 := m.(presence := SetPresence(m.presence, id, false));
      var count;
      r, count := Broadcast(m1, MotorStatusChange, id, now, Disconnected(LastSeen(m, id)));
      assert forall i :: 0 <= i < |m.listeners| ==> r.listeners[i].name == m.listeners[i].name;
    } else {
      r := m;
    }
  }

  /**
    A status-change event goes out only on a connected-to-disconnected
    transition: a second silent poll of the same motor broadcasts nothing.
  */
  method NoResponseTwice(m: Manager, id: int, t1: int, t2: int) returns (r1: Manager, r2: Manager)
    requires Inv(m)
    ensures r2 == r1
    ensures r2.stats.eventsDistributed >= m.stats.eventsDistributed
    ensures !IsConnected(m.presence, id) ==> r1 == m
  {
    r1 := HandleNoResponse(m, id, t1);
    r2 := HandleNoResponse(r1, id, t2);
  }

  // ---------------------------------------------------------------------
  // The graph listener
  // ---------------------------------------------------------------------

  /** One plotted sample: time, velocity, position, torque, temperature. */
  datatype Point = Point(time: int, velocity: real, position: real, torque: real, temperature: int)

  /** `max_points`. */
  const MaxPoints: nat := 200

  /**
    `GraphDataListener`: a listener named "graph" with room for 200 events
    that takes only MOTOR_FEEDBACK, plus one series per motor. The five
    deques of a motor are always appended together, so they are one
    sequence of points here.
  */
  datatype Graph = Graph(listener: Listener, plot: map<int, seq<Point>>)

  function NewGraph(): (g: Graph)
    ensures g.listener.kindFilter == Some([MotorFeedback]) && g.listener.capacity == 200
    ensures g.plot == map[]
  {
    Graph(NewListener("graph", 200).(kindFilter := Some([MotorFeedback])), map[])
  }

  /** The graph listener receives exactly the MOTOR_FEEDBACK events (while active). */
  lemma GraphTakesOnlyFeedback(e: Event)
    ensures ShouldReceive(NewGraph().listener, e) <==> e.kind == MotorFeedback
  {
  }

  /** The sample an event contributes; a payload without feedback gives zeros (`data.get(..., 0)`). */
  function PointOf(e: Event): Point {
    match e.data
    case FeedbackData(fb) => Point(e.timestamp, fb.velocity, fb.position, fb.torque, fb.temperature)
    case _ => Point(e.timestamp, 0.0, 0.0, 0.0, 0)
  }

  /** The samples `events` contribute to motor `id`'s series, in order. */
  function PointsFor(events: seq<Event>, id: int): seq<Point>
    decreases |events|
  {
    if |events| == 0 then []
    else
      var last := events[|events| - 1];
      PointsFor(events[..|events| - 1], id) + (if last.kind == MotorFeedback && last.motorId == id then [PointOf(last)] else [])
  }

  function SeriesOf(plot: map<int, seq<Point>>, id: int): seq<Point> {
    if id in plot then plot[id] else []
  }

  predicate SeriesBounded(g: Graph) {
    forall id :: id in g.plot ==> |g.plot[id]| <= MaxPoints
  }

  /** Adding one event's sample to the series, when it is a feedback event. */
  function AddSample(plot: map<int, seq<Point>>, e: Event): map<int, seq<Point>>
    requires forall id :: id in plot ==> |plot[id]| <= MaxPoints
  {
    if e.kind == MotorFeedback then plot[e.motorId := Push(SeriesOf(plot, e.motorId), PointOf(e), MaxPoints)]
    else plot
  }

  /** `plot` is what processing `events` from `base` yields: bounded series holding the newest samples. */
  ghost predicate Tracks(base: map<int, seq<Point>>, plot: map<int, seq<Point>>, events: seq<Event>) {
    && (forall id :: id in plot ==> |plot[id]| <= MaxPoints)
    && (forall id :: SeriesOf(plot, id) == LastN(SeriesOf(base, id) + PointsFor(events, id), MaxPoints))
    && (forall id :: id in plot <==> id in base || |PointsFor(events, id)| > 0)
  }

  /** The samples of a prefix one event longer. */
  lemma PointsForStep(events: seq<Event>, i: nat, id: int)
    requires i < |events|
    ensures PointsFor(events[..i + 1], id) == PointsFor(events[..i], id)
      + (if events[i].kind == MotorFeedback && events[i].motorId == id then [PointOf(events[i])] else [])
  {
    assert events[..i + 1][..i] == events[..i];
  }

  /** Appending a sample to a series that holds the newest samples keeps it holding the newest samples. */
  lemma SampleStep(start: seq<Point>, series: seq<Point>, pts: seq<Point>, p: Point)
    requires |series| <= MaxPoints && series == LastN(start + pts, MaxPoints)
    ensures Push(series, p, MaxPoints) == LastN(start + (pts + [p]), MaxPoints)
  {
    PushKeepsNewest(series, p, MaxPoints);
    LastNOfLastN(start + pts, [p], MaxPoints);
    assert start + pts + [p] == start + (pts + [p]);
  }

  /** Processing one more event keeps one motor's series tracking the newest samples. */
  lemma AddSampleAt(base: map<int, seq<Point>>, plot: map<int, seq<Point>>, events: seq<Event>, i: nat, id: int)
    requires i < |events|
    requires forall m :: m in plot ==> |plot[m]| <= MaxPoints
    requires SeriesOf(plot, id) == LastN(SeriesOf(base, id) + PointsFor(events[..i], id), MaxPoints)
    requires id in plot <==> id in base || |PointsFor(events[..i], id)| > 0
    ensures SeriesOf(AddSample(plot, events[i]), id) == LastN(SeriesOf(base, id) + PointsFor(events[..i + 1], id), MaxPoints)
    ensures id in AddSample(plot, events[i]) <==> id in base || |PointsFor(events[..i + 1], id)| > 0
  {
    var e := events[i];
    PointsForStep(events, i, id);
    var series := SeriesOf(plot, id);
    if e.kind == MotorFeedback && e.motorId == id {
      SampleStep(SeriesOf(base, id), series, PointsFor(events[..i], id), PointOf(e));
    }
  }

  /** Processing one more event keeps `Tracks`. */
  lemma AddSampleTracks(base: map<int, seq<Point>>, plot: map<int, seq<Point>>, events: seq<Event>, i: nat)
    requires i < |events| && Tracks(base, plot, events[..i])
    ensures Tracks(base, AddSample(plot, events[i]), events[..i + 1])
  {
    forall id
      ensures SeriesOf(AddSample(plot, events[i]), id) == LastN(SeriesOf(base, id) + PointsFor(events[..i + 1], id), MaxPoints)
      ensures id in AddSample(plot, events[i]) <==> id in base || |PointsFor(events[..i + 1], id)| > 0
    {
      AddSampleAt(base, plot, events, i, id);
    }
  }

  /**
    `process_events`: drains the listener's queue and appends each feedback
    sample to its motor's series, keeping the newest 200. Afterwards each
    series is the newest 200 of the old series followed by that motor's new
    samples.
  */
  method ProcessEvents(g: Graph) returns (r: Graph)
    requires SeriesBounded(g)
    ensures SeriesBounded(r)
    ensures r.listener == g.listener.(pending := [])
    ensures forall id :: SeriesOf(r.plot, id) == LastN(SeriesOf(g.plot, id) + PointsFor(g.listener.pending, id), MaxPoints)
    ensures forall id :: id in r.plot <==> id in g.plot || |PointsFor(g.listener.pending, id)| > 0
  {
    var events := g.listener.pending;
    var plot := g.plot;
    var i := 0;
    assert events[..0] == [];
    while i < |events|
      invariant 0 <= i <= |events|
      invariant Tracks(g.plot, plot, events[..i])
    {
      var e := events[i];
      AddSampleTracks(g.plot, plot, events, i);
      if e.kind == MotorFeedback {
        plot := plot[e.motorId := Push(SeriesOf(plot, e.motorId), PointOf(e), MaxPoints)];
      }
      i := i + 1;
    }
    assert events[..|events|] == events;
    r := Graph(g.listener.(pending := []), plot);
  }
}
