/** The per-address admission limiter as a timed transition system.

  One call of `handleIncomingPacket` is one step: handlers run on a single
  thread, so a step is atomic. The steady clock is a parameter: a packet
  carries the reading taken by the block check and the reading taken when the
  packet is counted. */
module Limiter {
  import opened Arith

  /** One connection record: how many packets were counted, and when the last
    one was. */
  datatype Entry = Entry(count: int, stamp: int)

  type IpMap = map<string, Entry>

  datatype Config = Config(
    excludedIps: seq<string>,
    maxConnections: int,
    blockDurationMinutes: int,
    ticksPerSecond: Positive)
  {
    /** `duration_cast<seconds>`: truncates toward zero. */
    function Seconds(ticks: int): int {
      if ticks >= 0 then ticks / ticksPerSecond else -((-ticks) / ticksPerSecond)
    }

    /** The block duration is passed in seconds. */
    predicate Stale(now: int, e: Entry) {
      Seconds(now - e.stamp) > blockDurationMinutes * 60
    }

    /** The most packets one record can count: a new record counts its first
      packet whatever the configured maximum is. */
    function Cap(): int {
      if maxConnections > 1 then maxConnections else 1
    }
  }

  datatype Packet = Packet(ip: string, checkTime: int, addTime: int)

  datatype State = State(ipMap: IpMap, total: int)

  const EMPTY := State(map[], 0)

  datatype Outcome = Outcome(state: State, admitted: bool)

  /** The map without its stale records. */
  function Purge(c: Config, m: IpMap, now: int): IpMap {
    map k | k in m && !c.Stale(now, m[k]) :: m[k]
  }

  /** The records that a purge erases. */
  function Purged(c: Config, m: IpMap, now: int): IpMap {
    map k | k in m && c.Stale(now, m[k]) :: m[k]
  }

  function AfterCheck(c: Config, m: IpMap, ip: string, now: int): IpMap {
    if ip in c.excludedIps then m else Purge(c, m, now)
  }

  predicate Blocked(c: Config, m: IpMap, ip: string, now: int) {
    && ip !in c.excludedIps
    && ip in Purge(c, m, now)
    && m[ip].count >= c.maxConnections
  }

  function Add(c: Config, s: State, ip: string, now: int): State {
    if ip in c.excludedIps then s
    else if ip !in s.ipMap then State(s.ipMap[ip := Entry(1, now)], s.total + 1)
    else if s.ipMap[ip].count < c.maxConnections then
      State(s.ipMap[ip := Entry(s.ipMap[ip].count + 1, now)], s.total + 1)
    else s
  }

  /** What one packet does, and whether it is forwarded. */
  function Step(c: Config, s: State, p: Packet): Outcome {
    var checked := s.(ipMap := AfterCheck(c, s.ipMap, p.ip, p.checkTime));
    if Blocked(c, s.ipMap, p.ip, p.checkTime) then Outcome(checked, false)
    else Outcome(Add(c, checked, p.ip, p.addTime), true)
  }

  function Run(c: Config, s: State, ps: seq<Packet>): State
    decreases |ps|
  {
    if ps == [] then s else Run(c, Step(c, s, ps[0]).state, ps[1..])
  }

  /** The clock never runs backwards: no reading is earlier than `t` or than
    any reading before it. */
  predicate ClockFrom(t: int, ps: seq<Packet>)
    decreases |ps|
  {
    ps == [] || (t <= ps[0].checkTime <= ps[0].addTime && ClockFrom(ps[0].addTime, ps[1..]))
  }

  // ---------------------------------------------------------------- Invariant

  /** Every record counts between one packet and the cap, was stamped no later
    than `t`, and belongs to an address that is not excluded. */
  ghost predicate Inv(c: Config, t: int, s: State) {
    forall k :: k in s.ipMap ==>
      && k !in c.excludedIps
      && 1 <= s.ipMap[k].count <= c.Cap()
      && s.ipMap[k].stamp <= t
  }

  /** After a check of a non-excluded address, every remaining record was
    stamped less than the block duration and one second before. */
  ghost predicate AllFresh(c: Config, m: IpMap, now: int) {
    forall k :: k in m ==> now - m[k].stamp < (c.blockDurationMinutes * 60 + 1) * c.ticksPerSecond
  }

  /** For a reading not earlier than the stamp, stale means: one second more
    than the block duration old; with a negative block duration, always. */
  lemma StaleIff(c: Config, now: int, e: Entry)
    requires e.stamp <= now
    ensures c.Stale(now, e) <==> now - e.stamp >= (c.blockDurationMinutes * 60 + 1) * c.ticksPerSecond
  {
    MulDiv(now - e.stamp, c.blockDurationMinutes * 60 + 1, c.ticksPerSecond);
  }

  /** A stale record stays stale. */
  lemma StaleMonotone(c: Config, t: int, u: int, e: Entry)
    requires t <= u && c.Stale(t, e)
    ensures c.Stale(u, e)
  {
    var n, a, b := c.ticksPerSecond, t - e.stamp, u - e.stamp;
    MulDiv(b, a / n, n);
    MulDiv(a, a / n, n);
    MulDiv(-a, (-b) / n, n);
    MulDiv(-b, (-b) / n, n);
    MulDiv(b, 0, n);
    MulDiv(-a, 0, n);
  }

  lemma StepKeepsInv(c: Config, t: int, s: State, p: Packet)
    requires Inv(c, t, s) && t <= p.checkTime <= p.addTime
    ensures Inv(c, p.addTime, Step(c, s, p).state)
    ensures p.ip !in c.excludedIps ==>
              AllFresh(c, AfterCheck(c, s.ipMap, p.ip, p.checkTime), p.checkTime)
  {
    if p.ip !in c.excludedIps {
      var m := AfterCheck(c, s.ipMap, p.ip, p.checkTime);
      forall k | k in m
        ensures p.checkTime - m[k].stamp < (c.blockDurationMinutes * 60 + 1) * c.ticksPerSecond
      {
        StaleIff(c, p.checkTime, m[k]);
      }
    }
  }

  function ClockAfter(t: int, ps: seq<Packet>): int {
    if ps == [] then t else ps[|ps| - 1].addTime
  }

  /** The invariant holds in every state that any run reaches. */
  lemma {:induction false} RunKeepsInv(c: Config, t: int, s: State, ps: seq<Packet>)
    requires Inv(c, t, s) && ClockFrom(t, ps)
    ensures Inv(c, ClockAfter(t, ps), Run(c, s, ps))
    decreases |ps|
  {
    if ps != [] {
      StepKeepsInv(c, t, s, ps[0]);
      RunKeepsInv(c, ps[0].addTime, Step(c, s, ps[0]).state, ps[1..]);
    }
  }

  // ------------------------------------------------------------- Conservation

  ghost function Pick(m: IpMap): string
    requires m != map[]
    ensures Pick(m) in m
  {
    assert m.Keys != {};
    var k :| k in m;
    k
  }

  /** The sum of the counters of all records. */
  ghost function Sum(m: IpMap): int
    decreases |m|
  {
    if m == map[] then 0
    else
      var k := Pick(m);
      assert |m - {k}| < |m| by { assert (m - {k}).Keys == m.Keys - {k}; }
      m[k].count + Sum(m - {k})
  }

  lemma {:induction false} SumRemove(m: IpMap, k: string)
    requires k in m
    ensures Sum(m) == m[k].count + Sum(m - {k})
    decreases |m|
  {
    var j := Pick(m);
    if j != k {
      assert (m - {j}).Keys == m.Keys - {j};
      SumRemove(m - {j}, k);
      SumRemove(m - {k}, j);
      assert (m - {j}) - {k} == (m - {k}) - {j};
    }
  }

  lemma SumUpdate(m: IpMap, k: string, e: Entry)
    ensures Sum(m[k := e]) == Sum(m) + e.count - (if k in m then m[k].count else 0)
  {
    SumRemove(m[k := e], k);
    assert m[k := e] - {k} == m - {k};
    if k in m {
      SumRemove(m, k);
    } else {
      assert m - {k} == m;
    }
  }

  lemma PurgeWithout(c: Config, m: IpMap, k: string, now: int)
    ensures Purge(c, m - {k}, now) == Purge(c, m, now) - {k}
    ensures Purged(c, m - {k}, now) == Purged(c, m, now) - {k}
  {
  }

  /** A purge splits the sum: nothing is lost, nothing is counted twice. */
  lemma {:induction false} PurgeSplitsSum(c: Config, m: IpMap, now: int)
    ensures Sum(m) == Sum(Purge(c, m, now)) + Sum(Purged(c, m, now))
    decreases |m|
  {
    var kept, lost := Purge(c, m, now), Purged(c, m, now);
    if m == map[] {
      assert kept == map[] && lost == map[];
    } else {
      var k := Pick(m);
      assert (m - {k}).Keys == m.Keys - {k};
      PurgeSplitsSum(c, m - {k}, now);
      PurgeWithout(c, m, k, now);
      if c.Stale(now, m[k]) {
        SumRemove(lost, k);
        assert kept - {k} == kept;
      } else {
        SumRemove(kept, k);
        assert lost - {k} == lost;
      }
    }
  }

  /** How many packets from non-excluded addresses a run admits. */
  function AdmittedCount(c: Config, s: State, ps: seq<Packet>): int
    decreases |ps|
  {
    if ps == [] then 0
    else
      var o := Step(c, s, ps[0]);
      (if o.admitted && ps[0].ip !in c.excludedIps then 1 else 0) + AdmittedCount(c, o.state, ps[1..])
  }

  /** The counters of all the records that a run erases. */
  ghost function PurgedCount(c: Config, s: State, ps: seq<Packet>): int
    decreases |ps|
  {
    if ps == [] then 0
    else
      var p := ps[0];
      (if p.ip in c.excludedIps then 0 else Sum(Purged(c, s.ipMap, p.checkTime)))
      + PurgedCount(c, Step(c, s, p).state, ps[1..])
  }

  /** A packet that passes the check is always counted, and only then: the
    total and the counters move by exactly one together. */
  lemma StepConserves(c: Config, s: State, p: Packet)
    ensures var o := Step(c, s, p);
            var n := if o.admitted && p.ip !in c.excludedIps then 1 else 0;
            var lost := if p.ip in c.excludedIps then 0 else Sum(Purged(c, s.ipMap, p.checkTime));
            && o.state.total == s.total + n
            && Sum(o.state.ipMap) + lost == Sum(s.ipMap) + n
  {
    if p.ip !in c.excludedIps {
      PurgeSplitsSum(c, s.ipMap, p.checkTime);
      var m := Purge(c, s.ipMap, p.checkTime);
      SumUpdate(m, p.ip, Entry(if p.ip in m then m[p.ip].count + 1 else 1, p.addTime));
    }
  }

  lemma {:induction false} RunConserves(c: Config, s: State, ps: seq<Packet>)
    ensures Run(c, s, ps).total == s.total + AdmittedCount(c, s, ps)
    ensures Sum(Run(c, s, ps).ipMap) + PurgedCount(c, s, ps) == Sum(s.ipMap) + AdmittedCount(c, s, ps)
    decreases |ps|
  {
    if ps != [] {
      StepConserves(c, s, ps[0]);
      RunConserves(c, Step(c, s, ps[0]).state, ps[1..]);
    }
  }

  /** Conservation over whole runs from the empty map. */
  lemma Conservation(c: Config, ps: seq<Packet>)
    ensures Run(c, EMPTY, ps).total == AdmittedCount(c, EMPTY, ps)
    ensures Run(c, EMPTY, ps).total == Sum(Run(c, EMPTY, ps).ipMap) + PurgedCount(c, EMPTY, ps)
  {
    RunConserves(c, EMPTY, ps);
  }
}
