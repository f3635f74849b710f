/**
  The serial link as the drivers see it. Opening, timeouts and the operating
  system are abstracted into an oracle: every write attempt is numbered; the
  attempts listed in `failAt` raise an I/O error, and `replies[n]` holds the
  bytes the device sends back after attempt `n` (no entry: silence until the
  read timeout). `written` records every frame that went out, in order.
*/
module Link {
  import opened Bytes

  datatype Port = Port(attempts: nat, failAt: set<nat>, replies: map<nat, seq<byte>>, written: seq<seq<byte>>)

  /** The outcome of one write attempt. */
  datatype Wrote = Wrote(ok: bool, port: Port)

  /** True when `q` is `p` after some further write attempts: same oracle, longer trace. */
  predicate Later(p: Port, q: Port) {
    && q.failAt == p.failAt
    && q.replies == p.replies
    && q.attempts >= p.attempts
    && |q.written| >= |p.written|
    && q.written[..|p.written|] == p.written
  }

  /** `serial_port.write(frame)`: succeeds unless this attempt is one that raises. */
  function Write(p: Port, frame: seq<byte>): (r: Wrote)
    ensures Later(p, r.port) && r.port.attempts == p.attempts + 1
    ensures r.ok <==> p.attempts !in p.failAt
    ensures r.port.written == if r.ok then p.written + [frame] else p.written
  {
    var q := p.(attempts := p.attempts + 1);
    if p.attempts in p.failAt then Wrote(false, q)
    else Wrote(true, q.(written := p.written + [frame]))
  }

  /** `serial_port.read(10)` after attempt `n`: at most ten bytes of the reply. */
  function Read(p: Port, n: nat): (r: seq<byte>)
    ensures |r| <= 10
    ensures n in p.replies ==> r <= p.replies[n]
    ensures n !in p.replies ==> r == []
  {
    if n !in p.replies then []
    else if |p.replies[n]| <= 10 then p.replies[n]
    else p.replies[n][..10]
  }

  /** `Later` is transitive. */
  lemma LaterTrans(p: Port, q: Port, r: Port)
    requires Later(p, q) && Later(q, r)
    ensures Later(p, r)
  {
    assert r.written[..|p.written|] == r.written[..|q.written|][..|p.written|];
  }

  /** True when the write attempt numbered `n` goes through. */
  predicate Writes(p: Port, n: nat) {
    n !in p.failAt
  }

  /** True when the `count` consecutive write attempts from number `from` all go through. */
  predicate AllWrite(p: Port, from: nat, count: nat) {
    forall n :: from <= n < from + count ==> n !in p.failAt
  }

  /** All of `count + 1` attempts go through iff the first does and the remaining `count` do. */
  lemma AllWriteStep(p: Port, q: Port, count: nat)
    requires q.failAt == p.failAt && q.attempts == p.attempts + 1
    ensures AllWrite(p, p.attempts, count + 1) <==> Writes(p, p.attempts) && AllWrite(q, q.attempts, count)
  {
    if Writes(p, p.attempts) && AllWrite(q, q.attempts, count) {
      forall n | p.attempts <= n < p.attempts + count + 1
        ensures n !in p.failAt
      {
        if n > p.attempts {
          assert q.attempts <= n < q.attempts + count;
        }
      }
    }
  }

  /** Two consecutive attempts both go through. */
  lemma AllWriteTwo(p: Port)
    ensures AllWrite(p, p.attempts, 2) <==> Writes(p, p.attempts) && Writes(p, p.attempts + 1)
  {
  }
}
