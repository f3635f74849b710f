/**
  The command queue that serialises every motor command. Commands are
  coalesced per (motor, command type) so that only the newest of each is
  pending; commands of priority 3 or more are also put on a priority queue
  that the worker drains first. One worker iteration is one `Step`. The
  motor driver underneath is abstract: it records the calls it receives and
  an oracle says which calls report failure and which raise. Callbacks are
  recorded as notices in the order they would run. Threads, sleeps and the
  rate limiters are left out.
*/
module CommandQueue {
  import opened Wrappers
  import opened Ddsm115Codec

  /** `CommandType`. */
  datatype Kind = SetVelocity | SetCurrent | SetPosition | SetMode | RequestFeedback | Enable | Disable | Stop

  /** A command's type together with its value, so each command type carries a value of the right sort. */
  datatype Request =
    | VelocityReq(rpm: real)
    | CurrentReq(amps: real)
    | PositionReq(deg: real)
    | ModeReq(mode: Mode)
    | FeedbackReq
    | EnableReq
    | DisableReq
    | StopReq

  function KindOf(r: Request): Kind {
    match r
    case VelocityReq(_) => SetVelocity
    case CurrentReq(_) => SetCurrent
    case PositionReq(_) => SetPosition
    case ModeReq(_) => SetMode
    case FeedbackReq => RequestFeedback
    case EnableReq => Enable
    case DisableReq => Disable
    case StopReq => Stop
  }

  /**
    `MotorCommand`. The callback is represented by an identifier; the
    timestamp is a logical clock value.
  */
  datatype Command = Command(request: Request, motorId: int, callback: Option<nat>, priority: int, timestamp: int)

  /** The coalescing key `(motor_id, command_type)`. */
  datatype Key = Key(motorId: int, kind: Kind)

  function KeyOf(c: Command): Key {
    Key(c.motorId, KindOf(c.request))
  }

  /** The calls the queue makes on the motor driver. */
  datatype Call =
    | ModeCall(id: int, mode: Mode)
    | VelocityCall(id: int, rpm: real)
    | CurrentCall(id: int, amps: real)
    | PositionCall(id: int, deg: real)
    | EnableCall(id: int)
    | DisableCall(id: int)
    | FeedbackCall(id: int)
    | MotorIdCall(oldId: int, newId: int)

  /** What a driver call does: return a truth value, or raise. */
  datatype Outcome = Returned(value: bool) | Raised

  /**
    The abstract driver: its connection flag, the calls made so far, and an
    oracle over call numbers: call `n` raises when `n` is in `raises`, and
    otherwise returns False exactly when `n` is in `fails`.
  */
  datatype Driver = Driver(connected: bool, calls: seq<Call>, fails: set<nat>, raises: set<nat>)

  /** True when call number `n` returns True. */
  predicate Succeeds(d: Driver, n: nat) {
    n !in d.raises && n !in d.fails
  }

  /** One driver call: it is appended to the trace and its outcome read off the oracle. */
  function Invoke(d: Driver, c: Call): (r: (Outcome, Driver))
    ensures r.1 == d.(calls := d.calls + [c])
    ensures r.0 == Returned(true) <==> Succeeds(d, |d.calls|)
    ensures r.0 == Raised <==> |d.calls| in d.raises
  {
    var n := |d.calls|;
    (if n in d.raises then Raised else Returned(n !in d.fails), d.(calls := d.calls + [c]))
  }

  /** Callback invocations, in order: a command's callback with its result, `on_command_sent`, a feedback callback. */
  datatype Notice = Completed(callback: nat, success: bool) | CommandSent | FeedbackDelivered(callback: nat, motorId: int)

  /** `commands_processed`, `commands_failed`, `commands_dropped`, `feedback_count`. */
  datatype Counters = Counters(processed: nat, failed: nat, dropped: nat, feedbackCount: nat)

  /**
    The queue state. `latest` is `latest_commands` in dict order; `urgent`
    is the priority queue in the order it is drained; `currentMode` maps a
    motor to its tracked mode or to None (registered, mode unknown).
  */
  datatype Queue = Queue(
    latest: seq<Command>,
    urgent: seq<Command>,
    currentMode: map<int, Option<Mode>>,
    lastFeedback: map<int, Feedback>,
    counters: Counters,
    driver: Driver,
    notices: seq<Notice>)

  /** `current_mode.get(id)`: None both for an unregistered motor and for an unknown mode. */
  function ModeOf(q: Queue, id: int): Option<Mode> {
    if id in q.currentMode then q.currentMode[id] else None
  }

  // ---------------------------------------------------------------------
  // The coalesced store
  // ---------------------------------------------------------------------

  /** No two pending commands share a key. */
  predicate UniqueKeys(s: seq<Command>) {
    forall i, j :: 0 <= i < j < |s| ==> KeyOf(s[i]) != KeyOf(s[j])
  }

  /** True when some pending command has key `k`. */
  predicate HasKey(s: seq<Command>, k: Key) {
    exists i :: 0 <= i < |s| && KeyOf(s[i]) == k
  }

  /** The position of the command with key `k`, or -1. */
  function Find(s: seq<Command>, k: Key): (i: int)
    ensures -1 <= i < |s|
    ensures i >= 0 ==> KeyOf(s[i]) == k
    ensures i == -1 <==> !HasKey(s, k)
    ensures i >= 0 ==> forall j :: 0 <= j < i ==> KeyOf(s[j]) != k
    decreases |s|
  {
    if |s| == 0 then -1
    else if KeyOf(s[0]) == k then 0
    else
      var j := Find(s[1..], k);
      if j == -1 then
        assert forall i :: 1 <= i < |s| ==> s[i] == s[1..][i - 1];
        -1
      else j + 1
  }

  /** The set of keys pending. */
  function Keys(s: seq<Command>): (ks: set<Key>)
    ensures forall k :: k in ks <==> HasKey(s, k)
    decreases |s|
  {
    if |s| == 0 then {}
    else
      var rest := Keys(s[1..]);
      assert forall k :: HasKey(s, k) <==> KeyOf(s[0]) == k || HasKey(s[1..], k) by {
        forall k ensures HasKey(s, k) <==> KeyOf(s[0]) == k || HasKey(s[1..], k) {
          if HasKey(s[1..], k) {
            var i :| 0 <= i < |s[1..]| && KeyOf(s[1..][i]) == k;
            assert KeyOf(s[i + 1]) == k;
          }
          if HasKey(s, k) && KeyOf(s[0]) != k {
            var i :| 0 <= i < |s| && KeyOf(s[i]) == k;
            assert KeyOf(s[1..][i - 1]) == k;
          }
        }
      }
      {KeyOf(s[0])} + rest
  }

  /** With unique keys, the number of pending commands is the number of distinct keys. */
  lemma {:induction false} PendingIsDistinctKeys(s: seq<Command>)
    requires UniqueKeys(s)
    ensures |Keys(s)| == |s|
    decreases |s|
  {
    if |s| > 0 {
      assert UniqueKeys(s[1..]) by {
        forall i, j | 0 <= i < j < |s[1..]| ensures KeyOf(s[1..][i]) != KeyOf(s[1..][j]) {
          assert KeyOf(s[i + 1]) != KeyOf(s[j + 1]);
        }
      }
      PendingIsDistinctKeys(s[1..]);
      assert KeyOf(s[0]) !in Keys(s[1..]);
    }
  }

  // ---------------------------------------------------------------------
  // The priority queue
  // ---------------------------------------------------------------------

  /** The priority queue's order on `(-priority, timestamp)`: `a` is drained no later than `b`. */
  predicate Before(a: Command, b: Command) {
    a.priority > b.priority || (a.priority == b.priority && a.timestamp <= b.timestamp)
  }

  predicate Sorted(s: seq<Command>) {
    forall i, j :: 0 <= i < j < |s| ==> Before(s[i], s[j])
  }

  /** `command_queue.put`: the command goes after every entry that is drained no later than it. */
  function Insert(s: seq<Command>, c: Command): (r: seq<Command>)
    ensures multiset(r) == multiset(s) + multiset{c}
    ensures |r| == |s| + 1
    ensures forall x :: x in r <==> x == c || x in s
    decreases |s|
  {
    if |s| == 0 then [c]
    else if Before(s[0], c) then
      assert s == [s[0]] + s[1..];
      [s[0]] + Insert(s[1..], c)
    else
      [c] + s
  }

  /** Inserting keeps the priority queue in drain order. */
  lemma {:induction false} InsertKeepsSorted(s: seq<Command>, c: Command)
    requires Sorted(s)
    ensures Sorted(Insert(s, c))
    decreases |s|
  {
    if |s| > 0 {
      var t := s[1..];
      assert Sorted(t) by {
        forall i, j | 0 <= i < j < |t| ensures Before(t[i], t[j]) {
          assert t[i] == s[i + 1] && t[j] == s[j + 1];
        }
      }
      if Before(s[0], c) {
        InsertKeepsSorted(t, c);
        var rest := Insert(t, c);
        forall j | 0 <= j < |rest| ensures Before(s[0], rest[j]) {
          if rest[j] != c {
            assert rest[j] in t;
            var k :| 0 <= k < |t| && t[k] == rest[j];
            assert s[k + 1] == rest[j];
          }
        }
      } else {
        forall j | 0 <= j < |s| ensures Before(c, s[j]) {
          assert Before(s[0], s[j]) || j == 0;
        }
      }
    }
  }

  // ---------------------------------------------------------------------
  // Enqueueing
  // ---------------------------------------------------------------------

  /**
    `_queue_command`: the command replaces the pending one with its key in
    place (dict assignment keeps the key's position) and counts a drop, or
    is appended; a command of priority 3 or more is also put on the
    priority queue.
  */
  function Enqueue(q: Queue, c: Command): (r: Queue)
    ensures HasKey(q.latest, KeyOf(c)) ==> r.counters == q.counters.(dropped := q.counters.dropped + 1)
    ensures !HasKey(q.latest, KeyOf(c)) ==> r.counters == q.counters && r.latest == q.latest + [c]
    ensures HasKey(q.latest, KeyOf(c)) ==> (
      && |r.latest| == |q.latest|
      && r.latest[Find(q.latest, KeyOf(c))] == c
      && forall j :: 0 <= j < |q.latest| && j != Find(q.latest, KeyOf(c)) ==> r.latest[j] == q.latest[j])
    ensures c.priority >= 3 ==> multiset(r.urgent) == multiset(q.urgent) + multiset{c}
    ensures c.priority < 3 ==> r.urgent == q.urgent
    ensures Sorted(q.urgent) ==> Sorted(r.urgent)
    ensures r == q.(latest := r.latest, urgent := r.urgent, counters := r.counters)
  {
    var i := Find(q.latest, KeyOf(c));
    var latest := if i >= 0 then q.latest[i := c] else q.latest + [c];
    var dropped := q.counters.dropped + (if i >= 0 then 1 else 0);
    assert Sorted(q.urgent) ==> Sorted(Insert(q.urgent, c)) by {
      if Sorted(q.urgent) {
        InsertKeepsSorted(q.urgent, c);
      }
    }
    var urgent := if c.priority >= 3 then Insert(q.urgent, c) else q.urgent;
    q.(latest := latest, urgent := urgent, counters := q.counters.(dropped := dropped))
  }

  /** The queue invariant: one pending command per key, and the priority queue in drain order. */
  predicate Inv(q: Queue) {
    UniqueKeys(q.latest) && Sorted(q.urgent)
  }

  /** Enqueueing keeps the invariant. */
  lemma EnqueueKeepsInv(q: Queue, c: Command)
    requires Inv(q)
    ensures Inv(Enqueue(q, c))
  {
    var r := Enqueue(q, c);
    var i := Find(q.latest, KeyOf(c));
    if i >= 0 {
      forall a, b | 0 <= a < b < |r.latest| ensures KeyOf(r.latest[a]) != KeyOf(r.latest[b]) {
        if a == i {
          assert KeyOf(q.latest[b]) != KeyOf(q.latest[i]);
        } else if b == i {
          assert KeyOf(q.latest[a]) != KeyOf(q.latest[i]);
        }
      }
    } else {
      forall a, b | 0 <= a < b < |r.latest| ensures KeyOf(r.latest[a]) != KeyOf(r.latest[b]) {
        if b == |q.latest| {
          assert !HasKey(q.latest, KeyOf(c));
          assert r.latest[a] == q.latest[a];
        }
      }
    }
  }

  /**
    Only the command with the same key is replaced: after an enqueue, every
    pending command of another key is still pending, and the new command is
    the only one with its key.
  */
  lemma EnqueueReplacesOnlyItsKey(q: Queue, c: Command)
    requires Inv(q)
    ensures var r := Enqueue(q, c);
      && (forall x :: x in q.latest && KeyOf(x) != KeyOf(c) ==> x in r.latest)
      && c in r.latest
      && (forall x :: x in r.latest && KeyOf(x) == KeyOf(c) ==> x == c)
  {
    var r := Enqueue(q, c);
    EnqueueKeepsInv(q, c);
    var i := Find(q.latest, KeyOf(c));
    forall x | x in q.latest && KeyOf(x) != KeyOf(c) ensures x in r.latest {
      var j :| 0 <= j < |q.latest| && q.latest[j] == x;
      if i >= 0 {
        assert r.latest[j] == x;
      } else {
        assert r.latest[j] == x;
      }
    }
    var ci := if i >= 0 then i else |q.latest|;
    assert r.latest[ci] == c;
    forall x | x in r.latest && KeyOf(x) == KeyOf(c) ensures x == c {
      var j :| 0 <= j < |r.latest| && r.latest[j] == x;
    }
  }

  /** The priority the public methods give: 2 for `set_mode`, 1 for the rest. */
  function PriorityOf(req: Request): (p: int)
    ensures p == 1 || p == 2
    ensures p == 2 <==> req.ModeReq?
  {
    if req.ModeReq? then 2 else 1
  }

  /**
    The public command methods (`set_velocity`, `set_current`,
    `set_position`, `set_mode`, `enable`, `disable`): build the command,
    stamped with the clock value `now`, and enqueue it. None of them reaches
    the priority queue. A drop is counted exactly when a command of the same
    motor and kind was pending; afterwards the new command is the only
    pending one of its key, and every other pending command is still there.
  */
  function Submit(q: Queue, motorId: int, req: Request, callback: Option<nat>, now: int): (r: Queue)
    requires !req.FeedbackReq? && !req.StopReq?
    ensures r.urgent == q.urgent
    ensures r == Enqueue(q, Command(req, motorId, callback, PriorityOf(req), now))
    ensures HasKey(q.latest, Key(motorId, KindOf(req))) <==> r.counters.dropped == q.counters.dropped + 1
    ensures !HasKey(q.latest, Key(motorId, KindOf(req))) ==> r.counters == q.counters
    ensures Inv(q) ==> Inv(r) && Command(req, motorId, callback, PriorityOf(req), now) in r.latest
    ensures Inv(q) ==> forall x :: x in r.latest && KeyOf(x) == Key(motorId, KindOf(req)) ==> x == Command(req, motorId, callback, PriorityOf(req), now)
    ensures Inv(q) ==> forall x :: x in q.latest && KeyOf(x) != Key(motorId, KindOf(req)) ==> x in r.latest
  {
    var c := Command(req, motorId, callback, PriorityOf(req), now);
    assert Inv(q) ==> Inv(Enqueue(q, c)) by {
      if Inv(q) {
        EnqueueKeepsInv(q, c);
        EnqueueReplacesOnlyItsKey(q, c);
      }
    }
    Enqueue(q, c)
  }

  /**
    Three `set_velocity` calls for one motor with no velocity command pending
    leave a single pending velocity command for that motor, holding the last
    value, and count two drops.
  */
  lemma ThreeVelocitiesCoalesce(q: Queue, id: int, v1: real, v2: real, v3: real, t1: int, t2: int, t3: int)
    requires !HasKey(q.latest, Key(id, SetVelocity))
    ensures var r := Submit(Submit(Submit(q, id, VelocityReq(v1), None, t1), id, VelocityReq(v2), None, t2), id, VelocityReq(v3), None, t3);
      && r.counters.dropped == q.counters.dropped + 2
      && |r.latest| == |q.latest| + 1
      && r.latest[|q.latest|] == Command(VelocityReq(v3), id, None, 1, t3)
      && r.latest[..|q.latest|] == q.latest
  {
    var k := Key(id, SetVelocity);
    var q1 := Submit(q, id, VelocityReq(v1), None, t1);
    assert q1.latest == q.latest + [Command(VelocityReq(v1), id, None, 1, t1)];
    assert HasKey(q1.latest, k) by {
      assert KeyOf(q1.latest[|q.latest|]) == k;
    }
    assert Find(q1.latest, k) == |q.latest|;
    var q2 := Submit(q1, id, VelocityReq(v2), None, t2);
    assert HasKey(q2.latest, k) by {
      assert KeyOf(q2.latest[|q.latest|]) == k;
    }
    assert Find(q2.latest, k) == |q.latest| by {
      forall j | 0 <= j < |q.latest| ensures KeyOf(q2.latest[j]) != k {
        assert q2.latest[j] == q.latest[j];
        assert !HasKey(q.latest, k);
      }
    }
    var q3 := Submit(q2, id, VelocityReq(v3), None, t3);
    assert q3.latest[..|q.latest|] == q.latest;
  }

  /**
    Commands with distinct keys never coalesce: enqueueing them one after
    another into a store holding none of their keys adds one pending
    command each and counts no drop.
  */
  lemma {:induction false} DistinctKeysAccumulate(q: Queue, cs: seq<Command>)
    requires Inv(q)
    requires forall i :: 0 <= i < |cs| ==> cs[i].priority < 3 && !HasKey(q.latest, KeyOf(cs[i]))
    requires forall i, j :: 0 <= i < j < |cs| ==> KeyOf(cs[i]) != KeyOf(cs[j])
    ensures var r := EnqueueAll(q, cs);
      r.latest == q.latest + cs && r.counters == q.counters
    decreases |cs|
  {
    if |cs| > 0 {
      var q1 := Enqueue(q, cs[0]);
      EnqueueKeepsInv(q, cs[0]);
      forall i | 0 <= i < |cs[1..]| ensures !HasKey(q1.latest, KeyOf(cs[1..][i])) {
        assert cs[1..][i] == cs[i + 1];
      }
      DistinctKeysAccumulate(q1, cs[1..]);
      assert q.latest + cs == q1.latest + cs[1..];
    }
  }

  /** Enqueueing each of `cs` in order. */
  function EnqueueAll(q: Queue, cs: seq<Command>): (r: Queue)
    ensures Sorted(q.urgent) ==> Sorted(r.urgent)
    ensures |r.latest| >= |q.latest|
    decreases |cs|
  {
    if |cs| == 0 then q else EnqueueAll(Enqueue(q, cs[0]), cs[1..])
  }

  // ---------------------------------------------------------------------
  // The worker's selection
  // ---------------------------------------------------------------------

  /**
    `min(latest_commands, key=timestamp)`: the first pending command, in dict
    order, whose timestamp is minimal.
  */
  function OldestIndex(s: seq<Command>): (i: nat)
    requires |s| > 0
    ensures i < |s|
    ensures forall j :: 0 <= j < |s| ==> s[i].timestamp <= s[j].timestamp
    ensures forall j :: 0 <= j < i ==> s[j].timestamp > s[i].timestamp
    decreases |s|
  {
    if |s| == 1 then 0
    else
      var k := OldestIndex(s[..|s| - 1]);
      assert forall j :: 0 <= j < |s| - 1 ==> s[..|s| - 1][j] == s[j];
      if s[|s| - 1].timestamp < s[k].timestamp then |s| - 1 else k
  }

  /** Removing position `i`. */
  function RemoveAt(s: seq<Command>, i: nat): (r: seq<Command>)
    requires i < |s|
    ensures |r| == |s| - 1
    ensures forall j :: 0 <= j < i ==> r[j] == s[j]
    ensures forall j :: i <= j < |r| ==> r[j] == s[j + 1]
  {
    s[..i] + s[i + 1..]
  }

  /**
    The worker's choice: the head of the priority queue if there is one;
    otherwise the oldest pending command, popped from the store; otherwise
    nothing (the worker idles).
  */
  function Select(q: Queue): (r: Option<(Command, Queue)>)
    ensures r.None? <==> |q.urgent| == 0 && |q.latest| == 0
    ensures |q.urgent| > 0 ==> r == Some((q.urgent[0], q.(urgent := q.urgent[1..])))
    ensures |q.urgent| == 0 && |q.latest| > 0 ==> (
      && r.Some?
      && r.value.1 == q.(latest := r.value.1.latest)
      && |r.value.1.latest| == |q.latest| - 1
      && (exists i :: 0 <= i < |q.latest| && r.value.0 == q.latest[i] && r.value.1.latest == RemoveAt(q.latest, i)
            && (forall j :: 0 <= j < |q.latest| ==> q.latest[i].timestamp <= q.latest[j].timestamp)
            && (forall j :: 0 <= j < i ==> q.latest[j].timestamp > q.latest[i].timestamp)))
  {
    if |q.urgent| > 0 then Some((q.urgent[0], q.(urgent := q.urgent[1..])))
    else if |q.latest| > 0 then
      var i := OldestIndex(q.latest);
      Some((q.latest[i], q.(latest := RemoveAt(q.latest, i))))
    else None
  }

  /** Removing a command keeps keys unique, and dropping the head keeps the priority queue sorted. */
  lemma SelectKeepsInv(q: Queue)
    requires Inv(q)
    ensures Select(q).Some? ==> Inv(Select(q).value.1)
  {
    if |q.urgent| == 0 && |q.latest| > 0 {
      var i := OldestIndex(q.latest);
      var r := RemoveAt(q.latest, i);
      forall a, b | 0 <= a < b < |r| ensures KeyOf(r[a]) != KeyOf(r[b]) {
        var a' := if a < i then a else a + 1;
        var b' := if b < i then b else b + 1;
        assert r[a] == q.latest[a'] && r[b] == q.latest[b'];
      }
    }
  }

  // ---------------------------------------------------------------------
  // Executing commands
  // ---------------------------------------------------------------------

  /** `d'` is `d` after one or more further calls: only the call log changes, and it only grows. */
  predicate Extends(d: Driver, d': Driver) {
    d' == d.(calls := d'.calls) && |d.calls| < |d'.calls| && d'.calls[..|d.calls|] == d.calls
  }

  /** One driver call made by the queue. */
  function CallDriver(q: Queue, c: Call): (r: (Outcome, Queue))
    ensures r.1 == q.(driver := q.driver.(calls := q.driver.calls + [c]))
    ensures r.0 == Returned(true) <==> Succeeds(q.driver, |q.driver.calls|)
    ensures r.0 == Raised <==> |q.driver.calls| in q.driver.raises
  {
    var (o, d) := Invoke(q.driver, c);
    (o, q.(driver := d))
  }

  /**
    `_switch_mode_sync`: asks the driver to switch and records the new mode
    only when the driver returned True. A raise propagates to the caller,
    which treats it as failure.
  */
  function SwitchMode(q: Queue, id: int, mode: Mode): (r: (bool, Queue))
    ensures r.0 <==> Succeeds(q.driver, |q.driver.calls|)
    ensures r.1.driver.calls == q.driver.calls + [ModeCall(id, mode)]
    ensures r.1.currentMode == if r.0 then q.currentMode[id := Some(mode)] else q.currentMode
    ensures r.1 == q.(driver := r.1.driver, currentMode := r.1.currentMode)
    ensures Extends(q.driver, r.1.driver)
  {
    var (o, q1) := CallDriver(q, ModeCall(id, mode));
    if o == Returned(true) then (true, q1.(currentMode := q1.currentMode[id := Some(mode)]))
    else (false, q1)
  }

  /** A driver call whose raise is caught and reported as failure, as `_execute_command` does. */
  function Attempt(q: Queue, c: Call): (r: (bool, Queue))
    ensures r.0 <==> Succeeds(q.driver, |q.driver.calls|)
    ensures r.1 == q.(driver := q.driver.(calls := q.driver.calls + [c]))
    ensures Extends(q.driver, r.1.driver)
  {
    var (o, q1) := CallDriver(q, c);
    (o == Returned(true), q1)
  }

  /**
    A drive command in `mode` (SET_VELOCITY, SET_CURRENT): switch first when
    the tracked mode differs, fail without the drive call if the switch
    fails, then report the drive call's result.
  */
  function DriveIn(q: Queue, id: int, mode: Mode, drive: Call): (r: (bool, Queue))
    ensures var n := |q.driver.calls|;
      var needs := ModeOf(q, id) != Some(mode);
      && (r.0 <==> (needs ==> Succeeds(q.driver, n)) && Succeeds(q.driver, if needs then n + 1 else n))
      && r.1.driver.calls == q.driver.calls
           + (if needs then [ModeCall(id, mode)] else [])
           + (if needs && !Succeeds(q.driver, n) then [] else [drive])
      && (r.0 ==> ModeOf(r.1, id) == Some(mode))
      && r.1.currentMode == (if needs && Succeeds(q.driver, n) then q.currentMode[id := Some(mode)] else q.currentMode)
    ensures r.1 == q.(driver := r.1.driver, currentMode := r.1.currentMode)
    ensures Extends(q.driver, r.1.driver)
  {
    if ModeOf(q, id) != Some(mode) then
      var (ok, q1) := SwitchMode(q, id, mode);
      if !ok then (false, q1)
      else Attempt(q1, drive)
    else Attempt(q, drive)
  }

  /** True when the ramp to zero is needed before a position move: the last feedback shows |velocity| >= 10. */
  predicate Moving(q: Queue, id: int) {
    id in q.lastFeedback && (q.lastFeedback[id].velocity >= 10.0 || q.lastFeedback[id].velocity <= -10.0)
  }

  /**
    SET_POSITION. Already in position mode: the position is sent directly.
    In velocity or current mode with the motor moving: switch to velocity
    mode and command velocity 0 first (failing if either fails). Then
    switch to position mode and send the position. An unknown mode skips
    the ramp.
  */
  function ExecPosition(q: Queue, id: int, deg: real): (r: (bool, Queue))
    ensures ModeOf(q, id) == Some(Position) ==>
      r.0 == Succeeds(q.driver, |q.driver.calls|)
      && r.1.driver.calls == q.driver.calls + [PositionCall(id, deg)]
    ensures ModeOf(q, id) != Some(Position) && !(ModeOf(q, id).Some? && Moving(q, id)) ==>
      && (r.0 <==> Succeeds(q.driver, |q.driver.calls|) && Succeeds(q.driver, |q.driver.calls| + 1))
      && r.1.driver.calls == q.driver.calls + [ModeCall(id, Position)]
           + (if Succeeds(q.driver, |q.driver.calls|) then [PositionCall(id, deg)] else [])
    ensures r.0 ==> ModeOf(r.1, id) == Some(Position)
    ensures r.1 == q.(driver := r.1.driver, currentMode := r.1.currentMode)
    ensures Extends(q.driver, r.1.driver)
  {
    var mode := ModeOf(q, id);
    if mode == Some(Position) then Attempt(q, PositionCall(id, deg))
    else
      var (ramped, q1) :=
        if mode.Some? && Moving(q, id) then
          var (ok1, qa) := SwitchMode(q, id, Velocity);
          if !ok1 then (false, qa)
          else Attempt(qa, VelocityCall(id, 0.0))
        else (true, q);
      if !ramped then (false, q1)
      else
        var (ok2, q2) := SwitchMode(q1, id, Position);
        if !ok2 then (false, q2)
        else
          var (ok3, q3) := Attempt(q2, PositionCall(id, deg));
          (ok3, q3)
  }

  /** Appends a completion notice when the command has a callback. */
  function Notify(notices: seq<Notice>, callback: Option<nat>, success: bool): (r: seq<Notice>)
    ensures callback.None? ==> r == notices
    ensures callback.Some? ==> r == notices + [Completed(callback.value, success)]
  {
    if callback.Some? then notices + [Completed(callback.value, success)] else notices
  }

  /** The pending commands that are not for motor `id`, in order. */
  function Purge(s: seq<Command>, id: int): (r: seq<Command>)
    ensures |r| <= |s|
    ensures forall x :: x in r <==> x in s && x.motorId != id
    ensures forall i :: 0 <= i < |r| ==> r[i].motorId != id
    decreases |s|
  {
    if |s| == 0 then []
    else if s[0].motorId == id then Purge(s[1..], id)
    else [s[0]] + Purge(s[1..], id)
  }

  /** Purging keeps one pending command per key. */
  lemma {:induction false} PurgeKeepsUnique(s: seq<Command>, id: int)
    requires UniqueKeys(s)
    ensures UniqueKeys(Purge(s, id))
    decreases |s|
  {
    if |s| > 0 {
      var t := s[1..];
      assert UniqueKeys(t) by {
        forall i, j | 0 <= i < j < |t| ensures KeyOf(t[i]) != KeyOf(t[j]) {
          assert t[i] == s[i + 1] && t[j] == s[j + 1];
        }
      }
      PurgeKeepsUnique(t, id);
      if s[0].motorId != id {
        var p := Purge(t, id);
        forall j | 0 <= j < |p| ensures KeyOf(s[0]) != KeyOf(p[j]) {
          assert p[j] in t;
          var k :| 0 <= k < |t| && t[k] == p[j];
          assert s[k + 1] == p[j];
        }
      }
    }
  }

  /** Purging keeps the priority queue in drain order. */
  lemma {:induction false} PurgeKeepsSorted(s: seq<Command>, id: int)
    requires Sorted(s)
    ensures Sorted(Purge(s, id))
    decreases |s|
  {
    if |s| > 0 {
      var t := s[1..];
      assert Sorted(t) by {
        forall i, j | 0 <= i < j < |t| ensures Before(t[i], t[j]) {
          assert t[i] == s[i + 1] && t[j] == s[j + 1];
        }
      }
      PurgeKeepsSorted(t, id);
      if s[0].motorId != id {
        var p := Purge(t, id);
        forall j | 0 <= j < |p| ensures Before(s[0], p[j]) {
          assert p[j] in t;
          var k :| 0 <= k < |t| && t[k] == p[j];
          assert s[k + 1] == p[j];
        }
      }
    }
  }

  /**
    `_emergency_stop_direct` (and `stop`): purge every pending and priority
    command for motor `id`, counting one drop per command removed; then call
    the driver's `set_mode(VELOCITY)` and `set_velocity(0)` regardless of the
    first result. Success (both True) records velocity mode and counts a
    processed command; otherwise a failed one. The callback is notified once
    with the result. If a driver call raises, the failure is counted, the
    callback is not notified and the result is False.
  */
  function StopDirect(q: Queue, id: int, callback: Option<nat>): (r: (bool, Queue))
    ensures var n := |q.driver.calls|;
      r.0 <==> Succeeds(q.driver, n) && Succeeds(q.driver, n + 1)
    ensures r.1.latest == Purge(q.latest, id) && r.1.urgent == Purge(q.urgent, id)
    ensures r.1.counters.dropped == q.counters.dropped + (|q.latest| - |r.1.latest|) + (|q.urgent| - |r.1.urgent|)
    ensures r.1.counters.processed + r.1.counters.failed == q.counters.processed + q.counters.failed + 1
    ensures r.1.counters.processed == q.counters.processed + (if r.0 then 1 else 0)
    ensures r.1.counters.feedbackCount == q.counters.feedbackCount
    ensures var n := |q.driver.calls|;
      r.1.driver.calls == q.driver.calls + [ModeCall(id, Velocity)] + (if n in q.driver.raises then [] else [VelocityCall(id, 0.0)])
    ensures var n := |q.driver.calls|;
      r.1.notices == if n in q.driver.raises || n + 1 in q.driver.raises then q.notices else Notify(q.notices, callback, r.0)
    ensures r.1.currentMode == if r.0 then q.currentMode[id := Some(Velocity)] else q.currentMode
    ensures r.1.lastFeedback == q.lastFeedback
    ensures Extends(q.driver, r.1.driver)
  {
    var latest := Purge(q.latest, id);
    var urgent := Purge(q.urgent, id);
    var dropped := q.counters.dropped + (|q.latest| - |latest|) + (|q.urgent| - |urgent|);
    var q0 := q.(latest := latest, urgent := urgent, counters := q.counters.(dropped := dropped));
    var (o1, q1) := CallDriver(q0, ModeCall(id, Velocity));
    if o1 == Raised then (false, q1.(counters := q1.counters.(failed := q1.counters.failed + 1)))
    else
      var (o2, q2) := CallDriver(q1, VelocityCall(id, 0.0));
      if o2 == Raised then (false, q2.(counters := q2.counters.(failed := q2.counters.failed + 1)))
      else
        var success := o1.value && o2.value;
        var q3 :=
          if success then q2.(currentMode := q2.currentMode[id := Some(Velocity)],
                              counters := q2.counters.(processed := q2.counters.processed + 1))
          else q2.(counters := q2.counters.(failed := q2.counters.failed + 1));
        (success, q3.(notices := Notify(q3.notices, callback, success)))
  }

  /** A stop leaves every pending command for another motor pending, and none for the stopped motor. */
  lemma StopSparesOtherMotors(q: Queue, id: int, callback: Option<nat>)
    ensures var r := StopDirect(q, id, callback).1;
      && (forall x :: x in q.latest && x.motorId != id ==> x in r.latest)
      && (forall x :: x in q.urgent && x.motorId != id ==> x in r.urgent)
      && (forall x :: x in r.latest ==> x.motorId != id)
      && (forall x :: x in r.urgent ==> x.motorId != id)
      && (forall m :: m != id && m in q.currentMode ==> m in r.currentMode && r.currentMode[m] == q.currentMode[m])
  {
  }

  /** A stop keeps the queue invariant. */
  lemma StopKeepsInv(q: Queue, id: int, callback: Option<nat>)
    requires Inv(q)
    ensures Inv(StopDirect(q, id, callback).1)
  {
    PurgeKeepsUnique(q.latest, id);
    PurgeKeepsSorted(q.urgent, id);
  }

  /**
    `_execute_command`: the result of one command, with the driver calls it
    made. REQUEST_FEEDBACK does nothing and succeeds; STOP runs the direct
    stop (with the command's callback).
  */
  function Execute(q: Queue, c: Command): (r: (bool, Queue))
    ensures c.request.FeedbackReq? ==> r == (true, q)
    ensures c.request.ModeReq? ==> r == SwitchMode(q, c.motorId, c.request.mode)
    ensures c.request.StopReq? ==> r == StopDirect(q, c.motorId, c.callback)
    ensures c.request.EnableReq? ==> r == Attempt(q, EnableCall(c.motorId))
    ensures c.request.DisableReq? ==> r == Attempt(q, DisableCall(c.motorId))
    ensures c.request.VelocityReq? ==> r == DriveIn(q, c.motorId, Velocity, VelocityCall(c.motorId, c.request.rpm))
    ensures c.request.CurrentReq? ==> r == DriveIn(q, c.motorId, Current, CurrentCall(c.motorId, c.request.amps))
    ensures c.request.PositionReq? ==> r == ExecPosition(q, c.motorId, c.request.deg)
    ensures !c.request.StopReq? ==> r.1 == q.(driver := r.1.driver, currentMode := r.1.currentMode)
    ensures c.request.FeedbackReq? ==> r.1.driver == q.driver
    ensures !c.request.FeedbackReq? ==> Extends(q.driver, r.1.driver)
  {
    match c.request
    case VelocityReq(rpm) => DriveIn(q, c.motorId, Velocity, VelocityCall(c.motorId, rpm))
    case CurrentReq(amps) => DriveIn(q, c.motorId, Current, CurrentCall(c.motorId, amps))
    case PositionReq(deg) => ExecPosition(q, c.motorId, deg)
    case ModeReq(mode) => SwitchMode(q, c.motorId, mode)
    case FeedbackReq => (true, q)
    case StopReq => StopDirect(q, c.motorId, c.callback)
    case EnableReq => Attempt(q, EnableCall(c.motorId))
    case DisableReq => Attempt(q, DisableCall(c.motorId))
  }

  /** The mode a command leaves the motor tracked in when it succeeds, if any. */
  function ModeAfter(req: Request): Option<Mode> {
    match req
    case VelocityReq(_) => Some(Velocity)
    case CurrentReq(_) => Some(Current)
    case PositionReq(_) => Some(Position)
    case ModeReq(mode) => Some(mode)
    case StopReq => Some(Velocity)
    case _ => None
  }

  /**
    A successful command leaves its motor tracked in the mode it needs
    (a stop leaves velocity mode), and touches neither the tracked mode of
    any other motor nor the stored feedback.
  */
  lemma ExecuteTracksMode(q: Queue, c: Command)
    ensures var r := Execute(q, c);
      && (r.0 && ModeAfter(c.request).Some? ==> ModeOf(r.1, c.motorId) == ModeAfter(c.request))
      && (ModeAfter(c.request).None? ==> r.1.currentMode == q.currentMode)
      && (forall m :: m != c.motorId ==> ModeOf(r.1, m) == ModeOf(q, m))
      && r.1.lastFeedback == q.lastFeedback
  {
  }

  /**
    The position move with a ramp: from velocity or current mode with the
    motor moving, and every driver call succeeding, `set_position` makes
    exactly four calls: switch to velocity, velocity 0, switch to position,
    the position; and leaves the motor tracked in position mode.
  */
  lemma PositionRampScenario(q: Queue, id: int, deg: real)
    requires ModeOf(q, id) == Some(Velocity) || ModeOf(q, id) == Some(Current)
    requires Moving(q, id)
    requires Succeeds(q.driver, |q.driver.calls|) && Succeeds(q.driver, |q.driver.calls| + 1)
    requires Succeeds(q.driver, |q.driver.calls| + 2) && Succeeds(q.driver, |q.driver.calls| + 3)
    ensures var r := ExecPosition(q, id, deg);
      && r.0
      && r.1.driver.calls == q.driver.calls + [ModeCall(id, Velocity), VelocityCall(id, 0.0), ModeCall(id, Position), PositionCall(id, deg)]
      && ModeOf(r.1, id) == Some(Position)
  {
  }

  /** A failed ramp stops the position move: no position-mode switch and no position call is made. */
  lemma PositionRampFailureStops(q: Queue, id: int, deg: real)
    requires ModeOf(q, id) == Some(Velocity) || ModeOf(q, id) == Some(Current)
    requires Moving(q, id)
    requires !Succeeds(q.driver, |q.driver.calls|) || !Succeeds(q.driver, |q.driver.calls| + 1)
    ensures var r := ExecPosition(q, id, deg);
      && !r.0
      && ModeCall(id, Position) !in r.1.driver.calls[|q.driver.calls|..]
      && PositionCall(id, deg) !in r.1.driver.calls[|q.driver.calls|..]
  {
  }

  // ---------------------------------------------------------------------
  // One worker iteration
  // ---------------------------------------------------------------------

  /**
    One iteration of `_command_worker`: select a command (or idle), execute
    it, count it as processed (with an `on_command_sent` notice) or failed,
    and notify its callback with the result.
  */
  function Step(q: Queue): (r: Option<(Command, Queue)>)
    ensures r.None? <==> Select(q).None?
    ensures r.Some? ==> r.value.0 == Select(q).value.0
    ensures r.Some? && !r.value.0.request.StopReq? ==>
      var (c, s) := r.value;
      var ok := s.counters.processed == q.counters.processed + 1;
      && s.counters.processed + s.counters.failed == q.counters.processed + q.counters.failed + 1
      && s.counters.dropped == q.counters.dropped && s.counters.feedbackCount == q.counters.feedbackCount
      && s.notices == q.notices + (if ok then [CommandSent] else []) + (if c.callback.Some? then [Completed(c.callback.value, ok)] else [])
  {
    match Select(q)
    case None => None
    case Some((c, q1)) =>
      var (success, q2) := Execute(q1, c);
      var q3 :=
        if success then q2.(counters := q2.counters.(processed := q2.counters.processed + 1), notices := q2.notices + [CommandSent])
        else q2.(counters := q2.counters.(failed := q2.counters.failed + 1));
      Some((c, q3.(notices := Notify(q3.notices, c.callback, success))))
  }

  /** A worker iteration keeps the queue invariant. */
  lemma StepKeepsInv(q: Queue)
    requires Inv(q)
    ensures Step(q).Some? ==> Inv(Step(q).value.1)
  {
    SelectKeepsInv(q);
    match Select(q)
    case None =>
    case Some((c, q1)) =>
      if c.request.StopReq? {
        StopKeepsInv(q1, c.motorId, c.callback);
      } else {
        var q2 := Execute(q1, c).1;
        assert q2.latest == q1.latest && q2.urgent == q1.urgent;
      }
  }

  /**
    A worker iteration on a non-stop command reports the command's own
    result: it counts the command as processed exactly when executing it
    succeeded, and the driver and the tracked modes are those the execution
    left.
  */
  lemma StepReportsExecute(q: Queue)
    requires Step(q).Some? && !Step(q).value.0.request.StopReq?
    ensures var (c, q1) := Select(q).value;
      var e := Execute(q1, c);
      var s := Step(q).value.1;
      && (s.counters.processed == q.counters.processed + 1 <==> e.0)
      && s.driver == e.1.driver && s.currentMode == e.1.currentMode
  {
  }

  /**
    A STOP command that went through the queue is counted twice (once by the
    direct stop, once by the worker) and, when nothing raises, its callback
    is notified twice.
  */
  lemma QueuedStopCountsTwice(q: Queue, id: int, cb: nat, t: int)
    requires q.urgent == [] && q.latest == [Command(StopReq, id, Some(cb), 1, t)]
    requires |q.driver.calls| !in q.driver.raises && |q.driver.calls| + 1 !in q.driver.raises
    ensures var (c, r) := Step(q).value;
      && r.counters.processed + r.counters.failed == q.counters.processed + q.counters.failed + 2
      && |r.notices| >= |q.notices| + 2
      && r.notices[|r.notices| - 1].Completed? && r.notices[|r.notices| - 1].callback == cb
      && r.notices[|q.notices|].Completed? && r.notices[|q.notices|].callback == cb
  {
    var c := q.latest[0];
    assert OldestIndex(q.latest) == 0;
    var q1 := q.(latest := []);
    assert Select(q) == Some((c, q1));
  }

  /**
    A command of priority 3 or more is both put on the priority queue and
    kept as the pending command for its key, so on an otherwise empty queue
    the worker executes it twice.
  */
  lemma UrgentCommandRunsTwice(q: Queue, c: Command)
    requires q.latest == [] && q.urgent == [] && c.priority >= 3 && !c.request.StopReq?
    ensures var r1 := Step(Enqueue(q, c));
      && r1.Some? && r1.value.0 == c
      && Step(r1.value.1).Some? && Step(r1.value.1).value.0 == c
  {
    var e := Enqueue(q, c);
    assert e.urgent == [c] && e.latest == [c];
    assert e.urgent[1..] == [];
    assert Select(e) == Some((c, e.(urgent := [])));
    assert Execute(e.(urgent := []), c).1.latest == [c];
  }

  // ---------------------------------------------------------------------
  // Out-of-band operations
  // ---------------------------------------------------------------------

  /**
    Stop dominance: a velocity command queued before a stop never survives
    it. After `set_velocity(id, v1)`, `stop(id)` and `set_velocity(id, v2)`,
    the only command pending for the motor is the one carrying `v2`, nothing
    for it is on the priority queue, and the stop's two driver calls
    (velocity mode, velocity 0) were made.
  */
  lemma StopDominates(q: Queue, id: int, v1: real, v2: real, t1: int, t2: int, cb: Option<nat>)
    requires Inv(q)
    requires |q.driver.calls| !in q.driver.raises
    ensures var q1 := Submit(q, id, VelocityReq(v1), None, t1);
      var q2 := StopDirect(q1, id, cb).1;
      var q3 := Submit(q2, id, VelocityReq(v2), None, t2);
      && (forall x :: x in q3.latest && x.motorId == id ==> x == Command(VelocityReq(v2), id, None, 1, t2))
      && Command(VelocityReq(v2), id, None, 1, t2) in q3.latest
      && (forall x :: x in q3.urgent ==> x.motorId != id)
      && q3.driver.calls == q1.driver.calls + [ModeCall(id, Velocity), VelocityCall(id, 0.0)]
  {
    var q1 := Submit(q, id, VelocityReq(v1), None, t1);
    var q2 := StopDirect(q1, id, cb).1;
    StopSparesOtherMotors(q1, id, cb);
    assert forall x :: x in q2.latest ==> x.motorId != id;
    assert !HasKey(q2.latest, Key(id, SetVelocity));
    var c := Command(VelocityReq(v2), id, None, 1, t2);
    assert Submit(q2, id, VelocityReq(v2), None, t2).latest == q2.latest + [c];
  }

  /**
    `request_feedback`'s state update. `tooSoon` is the rate limiter's
    verdict; `answer` is what the driver's `request_feedback` returned
    (None also covers a raise). A reply is stored as the last feedback and
    counted; its raw byte 1, when it is a mode code 1..3, becomes the tracked
    mode; the callback is notified.
  */
  function RequestFeedbackNow(q: Queue, id: int, callback: Option<nat>, tooSoon: bool, answer: Option<Feedback>): (r: (Option<Feedback>, Queue))
    ensures tooSoon ==> r == (None, q)
    ensures r.0 == (if tooSoon then None else answer)
    ensures !tooSoon ==> r.1.driver.calls == q.driver.calls + [FeedbackCall(id)]
    ensures r.0.None? ==> r.1.counters == q.counters && r.1.lastFeedback == q.lastFeedback && r.1.currentMode == q.currentMode
    ensures r.0.Some? ==>
      && r.1.lastFeedback == q.lastFeedback[id := r.0.value]
      && r.1.counters == q.counters.(feedbackCount := q.counters.feedbackCount + 1)
      && (|r.0.value.raw| > 1 && ModeOfCode(r.0.value.raw[1]).Some? ==>
            r.1.currentMode == q.currentMode[id := ModeOfCode(r.0.value.raw[1])])
      && (!(|r.0.value.raw| > 1 && ModeOfCode(r.0.value.raw[1]).Some?) ==> r.1.currentMode == q.currentMode)
    ensures r.1.notices == if r.0.Some? && callback.Some? then q.notices + [FeedbackDelivered(callback.value, id)] else q.notices
    ensures r.1 == q.(driver := r.1.driver, lastFeedback := r.1.lastFeedback, counters := r.1.counters,
                      currentMode := r.1.currentMode, notices := r.1.notices)
    ensures r.1.latest == q.latest && r.1.urgent == q.urgent
  {
    if tooSoon then (None, q)
    else
      var q1 := q.(driver := q.driver.(calls := q.driver.calls + [FeedbackCall(id)]));
      match answer
      case None => (None, q1)
      case Some(fb) =>
        var q2 := q1.(lastFeedback := q1.lastFeedback[id := fb],
                      counters := q1.counters.(feedbackCount := q1.counters.feedbackCount + 1));
        var q3 :=
          if |fb.raw| > 1 && ModeOfCode(fb.raw[1]).Some? then q2.(currentMode := q2.currentMode[id := ModeOfCode(fb.raw[1])])
          else q2;
        var notices := if callback.Some? then q3.notices + [FeedbackDelivered(callback.value, id)] else q3.notices;
        (Some(fb), q3.(notices := notices))
  }

  /**
    `set_motor_id`: False without a call or a notice when disconnected;
    otherwise the driver's result (False when it raises), passed to the
    callback.
  */
  function SetMotorId(q: Queue, oldId: int, newId: int, callback: Option<nat>): (r: (bool, Queue))
    ensures !q.driver.connected ==> r == (false, q)
    ensures q.driver.connected ==>
      && (r.0 <==> Succeeds(q.driver, |q.driver.calls|))
      && r.1.driver.calls == q.driver.calls + [MotorIdCall(oldId, newId)]
      && r.1.notices == Notify(q.notices, callback, r.0)
    ensures r.1 == q.(driver := r.1.driver, notices := r.1.notices)
  {
    if !q.driver.connected then (false, q)
    else
      var (o, q1) := CallDriver(q, MotorIdCall(oldId, newId));
      var result := o == Returned(true);
      (result, q1.(notices := Notify(q1.notices, callback, result)))
  }

  /**
    The out-of-band operations leave the pending commands alone: a feedback
    request and a motor-id change keep the queue invariant and the store.
  */
  lemma OutOfBandKeepsQueue(q: Queue, id: int, oldId: int, newId: int, callback: Option<nat>, tooSoon: bool, answer: Option<Feedback>)
    requires Inv(q)
    ensures var f := RequestFeedbackNow(q, id, callback, tooSoon, answer).1;
      Inv(f) && f.latest == q.latest && f.urgent == q.urgent
    ensures var m := SetMotorId(q, oldId, newId, callback).1;
      && Inv(m) && m.latest == q.latest && m.urgent == q.urgent
      && m.counters == q.counters && m.currentMode == q.currentMode && m.lastFeedback == q.lastFeedback
  {
  }

  /** `scan_motors`'s registration: every found motor not yet tracked is registered with an unknown mode. */
  function RegisterScanned(q: Queue, found: seq<int>): (r: Queue)
    ensures r.currentMode.Keys == q.currentMode.Keys + (set x | x in found)
    ensures forall m :: m in q.currentMode ==> r.currentMode[m] == q.currentMode[m]
    ensures forall m :: m in r.currentMode && m !in q.currentMode ==> r.currentMode[m] == None
    ensures r == q.(currentMode := r.currentMode)
    decreases |found|
  {
    if |found| == 0 then q
    else
      var q1 := if found[0] in q.currentMode then q else q.(currentMode := q.currentMode[found[0] := None]);
      var r := RegisterScanned(q1, found[1..]);
      assert found == [found[0]] + found[1..];
      assert (set x | x in found) == {found[0]} + (set x | x in found[1..]);
      r
  }

  /** `get_stats`. */
  datatype Stats = Stats(processed: nat, failed: nat, dropped: nat, successRate: real, feedbackCount: nat, queueSize: nat, pending: nat)

  /**
    `get_stats`: the success rate is processed / (processed + failed) * 100,
    or 0 when nothing has completed; pending counts the coalesced store and
    queue size the priority queue.
  */
  function GetStats(q: Queue): (s: Stats)
    ensures 0.0 <= s.successRate <= 100.0
    ensures s.processed + s.failed == 0 ==> s.successRate == 0.0
    ensures s.processed + s.failed > 0 ==> s.successRate * (s.processed + s.failed) as real == s.processed as real * 100.0
    ensures s.pending == |q.latest| && s.queueSize == |q.urgent|
    ensures s.processed == q.counters.processed && s.failed == q.counters.failed
    ensures s.dropped == q.counters.dropped && s.feedbackCount == q.counters.feedbackCount
  {
    var c := q.counters;
    var total := c.processed + c.failed;
    var rate := if total > 0 then c.processed as real / total as real * 100.0 else 0.0;
    Stats(c.processed, c.failed, c.dropped, rate, c.feedbackCount, |q.urgent|, |q.latest|)
  }

  /** The success rate is 100 exactly when commands completed and none failed. */
  lemma SuccessRateFull(q: Queue)
    ensures GetStats(q).successRate == 100.0 <==> q.counters.processed > 0 && q.counters.failed == 0
  {
    var s := GetStats(q);
    var total := (s.processed + s.failed) as real;
    if s.processed + s.failed > 0 && s.successRate == 100.0 {
      assert 100.0 * total == s.processed as real * 100.0;
    }
  }

  /** Under the invariant, the reported pending count is the number of distinct keys pending. */
  lemma PendingCountsKeys(q: Queue)
    requires Inv(q)
    ensures GetStats(q).pending == |Keys(q.latest)|
  {
    PendingIsDistinctKeys(q.latest);
  }
}
