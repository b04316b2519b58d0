/** What the limiter promises over whole runs: addresses do not interfere, a
  decision depends only on the address's own admissions, blocks end, and the
  number of admissions in any window of time is bounded. */
module LimiterRuns {
  import opened Arith
  import opened Limiter

  // ------------------------------------- A limiter that knows one address only

  /** The record of a single address, with no map and no purge. */
  datatype Local = Absent | Present(e: Entry)

  datatype LocalOutcome = LocalOutcome(next: Local, admitted: bool)

  function LocalStep(c: Config, l: Local, p: Packet): LocalOutcome {
    if l.Absent? || c.Stale(p.checkTime, l.e) then LocalOutcome(Present(Entry(1, p.addTime)), true)
    else if l.e.count < c.maxConnections then LocalOutcome(Present(Entry(l.e.count + 1, p.addTime)), true)
    else LocalOutcome(l, false)
  }

  /** The packets that the single-address limiter admits. */
  function LocalAdmitted(c: Config, l: Local, ps: seq<Packet>): seq<Packet>
    decreases |ps|
  {
    if ps == [] then []
    else
      var o := LocalStep(c, l, ps[0]);
      (if o.admitted then [ps[0]] else []) + LocalAdmitted(c, o.next, ps[1..])
  }

  function LocalRun(c: Config, l: Local, ps: seq<Packet>): Local
    decreases |ps|
  {
    if ps == [] then l else LocalRun(c, LocalStep(c, l, ps[0]).next, ps[1..])
  }

  function LocalDecisions(c: Config, l: Local, ps: seq<Packet>): seq<bool>
    decreases |ps|
  {
    if ps == [] then []
    else
      var o := LocalStep(c, l, ps[0]);
      [o.admitted] + LocalDecisions(c, o.next, ps[1..])
  }

  // ------------------------------------------------- Projections of a full run

  /** The packets from one address. */
  function From(ps: seq<Packet>, ip: string): seq<Packet>
    decreases |ps|
  {
    if ps == [] then []
    else (if ps[0].ip == ip then [ps[0]] else []) + From(ps[1..], ip)
  }

  /** The decisions the full limiter takes on the packets from one address. */
  function DecisionsFor(c: Config, s: State, ps: seq<Packet>, ip: string): seq<bool>
    decreases |ps|
  {
    if ps == [] then []
    else
      var o := Step(c, s, ps[0]);
      (if ps[0].ip == ip then [o.admitted] else []) + DecisionsFor(c, o.state, ps[1..], ip)
  }

  /** The packets from one address that the full limiter admits. */
  function Admitted(c: Config, s: State, ps: seq<Packet>, ip: string): seq<Packet>
    decreases |ps|
  {
    if ps == [] then []
    else
      var o := Step(c, s, ps[0]);
      (if ps[0].ip == ip && o.admitted then [ps[0]] else []) + Admitted(c, o.state, ps[1..], ip)
  }

  // ---------------------------------------------------------- Non-interference

  /** The map and the single-address limiter agree on `ip`, where a stale record
    is as good as none. */
  predicate Agree(c: Config, t: int, m: IpMap, ip: string, l: Local) {
    if ip in m then l == Present(m[ip])
    else l.Absent? || c.Stale(t, l.e)
  }

  lemma OtherStepKeepsAgreement(c: Config, t: int, s: State, p: Packet, ip: string, l: Local)
    requires ip != p.ip && t <= p.checkTime <= p.addTime && Agree(c, t, s.ipMap, ip, l)
    ensures Agree(c, p.addTime, Step(c, s, p).state.ipMap, ip, l)
  {
    if l.Present? {
      if c.Stale(t, l.e) {
        StaleMonotone(c, t, p.addTime, l.e);
      }
      if c.Stale(p.checkTime, l.e) {
        StaleMonotone(c, p.checkTime, p.addTime, l.e);
      }
    }
  }

  lemma OwnStepKeepsAgreement(c: Config, t: int, s: State, p: Packet, l: Local)
    requires p.ip !in c.excludedIps && t <= p.checkTime <= p.addTime && Agree(c, t, s.ipMap, p.ip, l)
    ensures Step(c, s, p).admitted == LocalStep(c, l, p).admitted
    ensures Agree(c, p.addTime, Step(c, s, p).state.ipMap, p.ip, LocalStep(c, l, p).next)
  {
    if l.Present? && p.ip !in s.ipMap {
      StaleMonotone(c, t, p.checkTime, l.e);
    }
  }

  /** In any interleaving, the packets of a non-excluded address are decided as
    if no other address existed: the purges that other packets trigger never
    change an answer. */
  lemma {:induction false} NonInterference(c: Config, t: int, s: State, ps: seq<Packet>, ip: string, l: Local)
    requires ip !in c.excludedIps && ClockFrom(t, ps) && Agree(c, t, s.ipMap, ip, l)
    ensures DecisionsFor(c, s, ps, ip) == LocalDecisions(c, l, From(ps, ip))
    ensures Admitted(c, s, ps, ip) == LocalAdmitted(c, l, From(ps, ip))
    ensures Agree(c, ClockAfter(t, ps), Run(c, s, ps).ipMap, ip, LocalRun(c, l, From(ps, ip)))
    decreases |ps|
  {
    if ps != [] {
      var p := ps[0];
      var next := Step(c, s, p).state;
      if p.ip == ip {
        OwnStepKeepsAgreement(c, t, s, p, l);
        NonInterference(c, p.addTime, next, ps[1..], ip, LocalStep(c, l, p).next);
        assert From(ps, ip) == [p] + From(ps[1..], ip);
      } else {
        OtherStepKeepsAgreement(c, t, s, p, ip, l);
        NonInterference(c, p.addTime, next, ps[1..], ip, l);
        assert From(ps, ip) == From(ps[1..], ip);
      }
    }
  }

  lemma {:induction false} FromKeepsClock(t: int, ps: seq<Packet>, ip: string)
    requires ClockFrom(t, ps)
    ensures ClockFrom(t, From(ps, ip))
    decreases |ps|
  {
    if ps != [] {
      var rest := From(ps[1..], ip);
      FromKeepsClock(ps[0].addTime, ps[1..], ip);
      if ps[0].ip == ip {
        assert ([ps[0]] + rest)[1..] == rest;
      } else {
        assert From(ps, ip) == rest;
      }
    }
  }

  // ------------------------------------ Decisions are a function of admissions

  /** The time in ticks after which a record goes stale. */
  function Period(c: Config): int {
    (c.blockDurationMinutes * 60 + 1) * c.ticksPerSecond
  }

  /** The length of the last burst of admissions: those from the end backwards
    that each arrived less than a period after the previous one. */
  function Burst(h: seq<Packet>, period: int): nat
    decreases |h|
  {
    if |h| <= 1 then |h|
    else if h[|h| - 1].checkTime - h[|h| - 2].addTime >= period then 1
    else 1 + Burst(h[..|h| - 1], period)
  }

  /** The record that a history of admissions leaves. */
  function Recorded(c: Config, h: seq<Packet>): Local {
    if h == [] then Absent else Present(Entry(Burst(h, Period(c)), h[|h| - 1].addTime))
  }

  lemma LocalStepRecords(c: Config, h: seq<Packet>, p: Packet)
    requires h != [] ==> h[|h| - 1].addTime <= p.checkTime
    ensures LocalStep(c, Recorded(c, h), p).next
            == Recorded(c, if LocalStep(c, Recorded(c, h), p).admitted then h + [p] else h)
  {
    assert (h + [p])[..|h|] == h;
    if h != [] {
      StaleIff(c, p.checkTime, Recorded(c, h).e);
    }
  }

  lemma {:induction false} LocalRunRecords(c: Config, t: int, h: seq<Packet>, ps: seq<Packet>)
    requires ClockFrom(t, ps) && (h != [] ==> h[|h| - 1].addTime <= t)
    ensures LocalRun(c, Recorded(c, h), ps)
            == Recorded(c, h + LocalAdmitted(c, Recorded(c, h), ps))
    decreases |ps|
  {
    if ps == [] {
      assert h + [] == h;
    } else {
      var o := LocalStep(c, Recorded(c, h), ps[0]);
      LocalStepRecords(c, h, ps[0]);
      var g := if o.admitted then h + [ps[0]] else h;
      LocalRunRecords(c, ps[0].addTime, g, ps[1..]);
      assert g + LocalAdmitted(c, o.next, ps[1..]) == h + LocalAdmitted(c, Recorded(c, h), ps);
    }
  }

  /** The state in which a run from the empty map leaves a non-excluded address
    is the one its history of admissions records. */
  lemma RunAgrees(c: Config, t: int, ps: seq<Packet>, ip: string)
    requires ClockFrom(t, ps) && ip !in c.excludedIps
    ensures Agree(c, ClockAfter(t, ps), Run(c, EMPTY, ps).ipMap, ip, Recorded(c, Admitted(c, EMPTY, ps, ip)))
  {
    NonInterference(c, t, EMPTY, ps, ip, Absent);
    FromKeepsClock(t, ps, ip);
    LocalRunRecords(c, t, [], From(ps, ip));
    assert [] + Admitted(c, EMPTY, ps, ip) == Admitted(c, EMPTY, ps, ip);
  }

  lemma {:induction false} LastInThePast(c: Config, t: int, s: State, ps: seq<Packet>, ip: string)
    requires ClockFrom(t, ps)
    ensures var h := Admitted(c, s, ps, ip);
            h != [] ==> t <= h[|h| - 1].addTime <= ClockAfter(t, ps)
    ensures t <= ClockAfter(t, ps)
    decreases |ps|
  {
    if ps != [] {
      LastInThePast(c, ps[0].addTime, Step(c, s, ps[0]).state, ps[1..], ip);
    }
  }

  /** After any run from the empty map, the record of a non-excluded address, if
    there is one, counts the address's last burst of admissions and has the time
    of the last one; if there is none, the address was never admitted or its
    last admission is at least a period ago. */
  lemma RunRecords(c: Config, t: int, ps: seq<Packet>, ip: string)
    requires ClockFrom(t, ps) && ip !in c.excludedIps
    ensures var m := Run(c, EMPTY, ps).ipMap;
            var h := Admitted(c, EMPTY, ps, ip);
            var period := (c.blockDurationMinutes * 60 + 1) * c.ticksPerSecond;
            if ip in m then h != [] && m[ip] == Entry(Burst(h, period), h[|h| - 1].addTime)
            else h == [] || ClockAfter(t, ps) - h[|h| - 1].addTime >= period
  {
    RunAgrees(c, t, ps, ip);
    var h := Admitted(c, EMPTY, ps, ip);
    if h != [] {
      LastInThePast(c, t, EMPTY, ps, ip);
      StaleIff(c, ClockAfter(t, ps), Recorded(c, h).e);
    }
  }

  /** After any run from the empty map, a packet is rejected if and only if its
    address is not excluded, has been admitted before, its last admission is
    less than the block duration and one second ago, and the burst that this
    admission ends has used up the maximum. Nothing else matters: not the
    rejected packets in between, and not the other addresses. */
  lemma RejectedIff(c: Config, t: int, ps: seq<Packet>, p: Packet)
    requires ClockFrom(t, ps) && ClockAfter(t, ps) <= p.checkTime <= p.addTime
    ensures var h := Admitted(c, EMPTY, ps, p.ip);
            var period := (c.blockDurationMinutes * 60 + 1) * c.ticksPerSecond;
            !Step(c, Run(c, EMPTY, ps), p).admitted <==>
            && p.ip !in c.excludedIps
            && h != []
            && p.checkTime - h[|h| - 1].addTime < period
            && Burst(h, period) >= c.maxConnections
  {
    if p.ip !in c.excludedIps {
      var h := Admitted(c, EMPTY, ps, p.ip);
      RunAgrees(c, t, ps, p.ip);
      OwnStepKeepsAgreement(c, ClockAfter(t, ps), Run(c, EMPTY, ps), p, Recorded(c, h));
      if h != [] {
        LastInThePast(c, t, EMPTY, ps, p.ip);
        StaleIff(c, p.checkTime, Recorded(c, h).e);
      }
    }
  }

  /** Packets from excluded addresses pass and leave no trace. */
  lemma ExcludedPasses(c: Config, s: State, p: Packet)
    requires p.ip in c.excludedIps
    ensures Step(c, s, p) == Outcome(s, true)
  {
  }

  /** Blocks end: once the block duration and one second have passed since the
    address's last admission, the next packet is admitted, whatever was
    rejected in between. */
  lemma BlocksEnd(c: Config, t: int, ps: seq<Packet>, p: Packet)
    requires ClockFrom(t, ps) && ClockAfter(t, ps) <= p.checkTime <= p.addTime
    requires var h := Admitted(c, EMPTY, ps, p.ip);
             h != [] ==>
               p.checkTime - h[|h| - 1].addTime >= (c.blockDurationMinutes * 60 + 1) * c.ticksPerSecond
    ensures Step(c, Run(c, EMPTY, ps), p).admitted
  {
    RejectedIff(c, t, ps, p);
  }

  /** A rejected packet changes neither the record of its own address nor the
    total. */
  lemma RejectionLeavesRecord(c: Config, s: State, p: Packet)
    requires !Step(c, s, p).admitted
    ensures p.ip in s.ipMap && p.ip in Step(c, s, p).state.ipMap
    ensures Step(c, s, p).state.ipMap[p.ip] == s.ipMap[p.ip]
    ensures Step(c, s, p).state.total == s.total
  {
    assert p.ip in Purge(c, s.ipMap, p.checkTime);
  }

  // --------------------------------------------------------------- Rate bound

  /** How many of the packets were counted at a time between `lo` and `hi`. */
  function Within(ps: seq<Packet>, lo: int, hi: int): nat
    decreases |ps|
  {
    if ps == [] then 0
    else (if lo <= ps[0].addTime <= hi then 1 else 0) + Within(ps[1..], lo, hi)
  }

  lemma PeriodPositive(c: Config)
    requires c.blockDurationMinutes >= 0
    ensures Period(c) > 0
  {
    MulDiv(c.blockDurationMinutes * 60, 0, c.ticksPerSecond);
  }

  /** The admissions still possible up to `hi` when the last one is recorded in
    `e`: what is left of its burst, and one full burst for each whole period
    that fits after it. */
  function Budget(c: Config, e: Entry, hi: int): int
    requires Period(c) > 0
  {
    (c.Cap() - e.count) + c.Cap() * ((hi - e.stamp) / Period(c))
  }

  /** A shorter rest of the window never allows more full bursts. */
  lemma BurstsMonotone(c: Config, a: int, b: int)
    requires Period(c) > 0 && a <= b
    ensures c.Cap() * (a / Period(c)) <= c.Cap() * (b / Period(c))
  {
    DivMonotone(a, b, Period(c));
    var n, x, y := c.Cap(), a / Period(c), b / Period(c);
    assert n * (y - x) >= 0;
  }

  /** A fresh record costs one full period. */
  lemma PeriodCostsBurst(c: Config, a: int, b: int)
    requires Period(c) > 0 && a + Period(c) <= b
    ensures c.Cap() * (a / Period(c)) + c.Cap() <= c.Cap() * (b / Period(c))
  {
    var n := Period(c);
    MulDiv(b, a / n + 1, n);
    MulDiv(a, a / n, n);
    var x, y, m := a / n, b / n, c.Cap();
    assert m * (y - x - 1) >= 0;
  }

  ghost predicate LocalInv(c: Config, t: int, l: Local) {
    l.Present? ==> 1 <= l.e.count <= c.Cap() && l.e.stamp <= t
  }

  /** Once the last admission lies in the window, the budget bounds the rest. */
  lemma {:induction false} BudgetBounds(c: Config, t: int, l: Local, ps: seq<Packet>, lo: int, hi: int)
    requires c.blockDurationMinutes >= 0 && Period(c) > 0
    requires ClockFrom(t, ps) && LocalInv(c, t, l) && l.Present? && l.e.stamp <= hi
    ensures Within(LocalAdmitted(c, l, ps), lo, hi) <= Budget(c, l.e, hi)
    decreases |ps|
  {
    MulDiv(hi - l.e.stamp, 0, Period(c));
    if ps == [] {
      assert c.Cap() * ((hi - l.e.stamp) / Period(c)) >= 0;
    } else {
      var p := ps[0];
      var o := LocalStep(c, l, p);
      var rest := LocalAdmitted(c, o.next, ps[1..]);
      if !o.admitted {
        BudgetBounds(c, p.addTime, l, ps[1..], lo, hi);
        assert LocalAdmitted(c, l, ps) == rest;
      } else {
        assert ([p] + rest)[1..] == rest;
        if p.addTime > hi {
          LateOnes(c, p.addTime, o.next, ps[1..], lo, hi);
          assert c.Cap() * ((hi - l.e.stamp) / Period(c)) >= 0;
        } else {
          BudgetBounds(c, p.addTime, o.next, ps[1..], lo, hi);
          if c.Stale(p.checkTime, l.e) {
            StaleIff(c, p.checkTime, l.e);
            PeriodCostsBurst(c, hi - p.addTime, hi - l.e.stamp);
          } else {
            BurstsMonotone(c, hi - p.addTime, hi - l.e.stamp);
          }
        }
      }
    }
  }

  /** After the end of the window nothing counts any more. */
  lemma {:induction false} LateOnes(c: Config, t: int, l: Local, ps: seq<Packet>, lo: int, hi: int)
    requires ClockFrom(t, ps) && hi < t
    ensures Within(LocalAdmitted(c, l, ps), lo, hi) == 0
    decreases |ps|
  {
    if ps != [] {
      var o := LocalStep(c, l, ps[0]);
      var rest := LocalAdmitted(c, o.next, ps[1..]);
      LateOnes(c, ps[0].addTime, o.next, ps[1..], lo, hi);
      assert ([ps[0]] + rest)[1..] == rest;
      assert [] + rest == rest;
    }
  }

  /** From the first admission in the window on. */
  lemma FirstInWindow(c: Config, l: Local, ps: seq<Packet>, lo: int, w: nat)
    requires c.blockDurationMinutes >= 0 && Period(c) > 0
    requires l.Present? && 1 <= l.e.count <= c.Cap() && lo <= l.e.stamp <= lo + w
    requires ClockFrom(l.e.stamp, ps)
    ensures 1 + Within(LocalAdmitted(c, l, ps), lo, lo + w) <= c.Cap() * (w / Period(c) + 1)
  {
    BudgetBounds(c, l.e.stamp, l, ps, lo, lo + w);
    BurstsMonotone(c, lo + w - l.e.stamp, w);
    assert c.Cap() * (w / Period(c) + 1) == c.Cap() * (w / Period(c)) + c.Cap();
  }

  lemma {:induction false} LocalRateBound(c: Config, t: int, l: Local, ps: seq<Packet>, lo: int, w: nat)
    requires c.blockDurationMinutes >= 0 && Period(c) > 0
    requires ClockFrom(t, ps) && LocalInv(c, t, l)
    ensures Within(LocalAdmitted(c, l, ps), lo, lo + w) <= c.Cap() * (w / Period(c) + 1)
    decreases |ps|
  {
    if ps == [] {
      BurstsMonotone(c, 0, w);
    } else {
      var p := ps[0];
      var o := LocalStep(c, l, p);
      var rest := LocalAdmitted(c, o.next, ps[1..]);
      assert ([p] + rest)[1..] == rest;
      assert [] + rest == rest;
      if o.admitted && lo <= p.addTime <= lo + w {
        FirstInWindow(c, o.next, ps[1..], lo, w);
      } else {
        LocalRateBound(c, p.addTime, o.next, ps[1..], lo, w);
      }
    }
  }

  /** In any run from the empty map, in any window of `w` ticks, a non-excluded
    address has at most `max(1, maximum) * (w / period + 1)` packets admitted. */
  lemma RateBound(c: Config, t: int, ps: seq<Packet>, ip: string, lo: int, w: nat)
    requires c.blockDurationMinutes >= 0 && ip !in c.excludedIps && ClockFrom(t, ps)
    ensures var period := (c.blockDurationMinutes * 60 + 1) * c.ticksPerSecond;
            var cap := if c.maxConnections > 1 then c.maxConnections else 1;
            && period > 0
            && Within(Admitted(c, EMPTY, ps, ip), lo, lo + w) <= cap * (w / period + 1)
  {
    PeriodPositive(c);
    NonInterference(c, t, EMPTY, ps, ip, Absent);
    FromKeepsClock(t, ps, ip);
    LocalRateBound(c, t, Absent, From(ps, ip), lo, w);
  }

  // ------------------------------------------------- The rate bound is reached

  /** `k` packets at one moment. */
  function Volley(ip: string, t: int, k: nat): seq<Packet> {
    if k == 0 then [] else [Packet(ip, t, t)] + Volley(ip, t, k - 1)
  }

  /** `n` full bursts, one every period. */
  function Volleys(c: Config, ip: string, t: int, n: nat): seq<Packet>
    decreases n
  {
    if n == 0 then [] else Volley(ip, t, c.Cap()) + Volleys(c, ip, t + Period(c), n - 1)
  }

  /** Prefixing a volley to a run changes neither its order nor its window. */
  lemma {:induction false} VolleyFacts(ip: string, t: int, k: nat, rest: seq<Packet>, lo: int, hi: int)
    requires lo <= t <= hi && ClockFrom(t, rest)
    ensures ClockFrom(t, Volley(ip, t, k) + rest)
    ensures From(Volley(ip, t, k) + rest, ip) == Volley(ip, t, k) + From(rest, ip)
    ensures Within(Volley(ip, t, k) + rest, lo, hi) == k + Within(rest, lo, hi)
  {
    if k == 0 {
      assert [] + rest == rest && [] + From(rest, ip) == From(rest, ip);
    } else {
      VolleyFacts(ip, t, k - 1, rest, lo, hi);
      VolleyFirst(ip, t, k, rest);
      VolleyFirst(ip, t, k, From(rest, ip));
      assert (Volley(ip, t, k) + rest)[1..] == Volley(ip, t, k - 1) + rest;
    }
  }

  lemma BurstGoesOn(c: Config, ip: string, t: int, i: nat)
    requires c.blockDurationMinutes >= 0 && 1 <= i < c.Cap()
    ensures LocalStep(c, Present(Entry(i, t)), Packet(ip, t, t)) == LocalOutcome(Present(Entry(i + 1, t)), true)
  {
    MulDiv(0, 1, c.ticksPerSecond);
  }

  lemma FirstAdmitted(c: Config, l: Local, p: Packet, ps: seq<Packet>)
    requires LocalStep(c, l, p).admitted
    ensures LocalAdmitted(c, l, [p] + ps) == [p] + LocalAdmitted(c, LocalStep(c, l, p).next, ps)
  {
    assert ([p] + ps)[1..] == ps;
  }

  lemma VolleyFirst(ip: string, t: int, k: nat, rest: seq<Packet>)
    requires k > 0
    ensures Volley(ip, t, k) + rest == [Packet(ip, t, t)] + (Volley(ip, t, k - 1) + rest)
  {
  }

  /** A volley that still fits in the burst is admitted whole. */
  lemma {:induction false} VolleyAdmitted(c: Config, ip: string, t: int, i: nat, k: nat, rest: seq<Packet>)
    requires c.blockDurationMinutes >= 0 && 1 <= i && i + k <= c.Cap()
    ensures LocalAdmitted(c, Present(Entry(i, t)), Volley(ip, t, k) + rest)
            == Volley(ip, t, k) + LocalAdmitted(c, Present(Entry(i + k, t)), rest)
    decreases k
  {
    if k == 0 {
      assert [] + rest == rest;
    } else {
      VolleyFirst(ip, t, k, rest);
      VolleyFirst(ip, t, k, LocalAdmitted(c, Present(Entry(i + k, t)), rest));
      BurstGoesOn(c, ip, t, i);
      FirstAdmitted(c, Present(Entry(i, t)), Packet(ip, t, t), Volley(ip, t, k - 1) + rest);
      VolleyAdmitted(c, ip, t, i + 1, k - 1, rest);
    }
  }

  /** A full volley to a limiter without a live record is admitted whole. */
  lemma FullVolleyAdmitted(c: Config, ip: string, t: int, l: Local, rest: seq<Packet>)
    requires c.blockDurationMinutes >= 0 && (l.Absent? || c.Stale(t, l.e))
    ensures LocalAdmitted(c, l, Volley(ip, t, c.Cap()) + rest)
            == Volley(ip, t, c.Cap()) + LocalAdmitted(c, Present(Entry(c.Cap(), t)), rest)
  {
    var k := c.Cap();
    VolleyFirst(ip, t, k, rest);
    VolleyFirst(ip, t, k, LocalAdmitted(c, Present(Entry(k, t)), rest));
    FirstAdmitted(c, l, Packet(ip, t, t), Volley(ip, t, k - 1) + rest);
    VolleyAdmitted(c, ip, t, 1, k - 1, rest);
  }

  lemma StaleAfterPeriod(c: Config, t: int, e: Entry)
    requires c.blockDurationMinutes >= 0 && e.stamp == t
    ensures c.Stale(t + Period(c), e)
  {
    PeriodPositive(c);
    StaleIff(c, t + Period(c), e);
  }

  lemma {:induction false} VolleysAdmitted(c: Config, ip: string, t: int, n: nat, l: Local)
    requires c.blockDurationMinutes >= 0 && (l.Absent? || c.Stale(t, l.e))
    ensures LocalAdmitted(c, l, Volleys(c, ip, t, n)) == Volleys(c, ip, t, n)
    decreases n
  {
    if n > 0 {
      var full := Present(Entry(c.Cap(), t));
      FullVolleyAdmitted(c, ip, t, l, Volleys(c, ip, t + Period(c), n - 1));
      StaleAfterPeriod(c, t, full.e);
      VolleysAdmitted(c, ip, t + Period(c), n - 1, full);
    }
  }

  lemma {:induction false} VolleysFacts(c: Config, ip: string, t: int, n: nat, lo: int, hi: int)
    requires Period(c) > 0 && lo <= t && (n > 0 ==> t + (n - 1) * Period(c) <= hi)
    ensures ClockFrom(t, Volleys(c, ip, t, n))
    ensures From(Volleys(c, ip, t, n), ip) == Volleys(c, ip, t, n)
    ensures Within(Volleys(c, ip, t, n), lo, hi) == c.Cap() * n
    decreases n
  {
    if n > 0 {
      var rest := Volleys(c, ip, t + Period(c), n - 1);
      assert (n - 1) * Period(c) >= 0;
      if n > 1 {
        assert (n - 1) * Period(c) == (n - 2) * Period(c) + Period(c);
      }
      VolleysFacts(c, ip, t + Period(c), n - 1, lo, hi);
      assert ClockFrom(t, rest);
      VolleyFacts(ip, t, c.Cap(), rest, lo, hi);
      assert c.Cap() * n == c.Cap() + c.Cap() * (n - 1);
    }
  }

  lemma VolleysReachBound(c: Config, ip: string, t: int, w: nat, n: nat)
    requires c.blockDurationMinutes >= 0 && ip !in c.excludedIps
    requires Period(c) > 0 && n > 0 && (n - 1) * Period(c) <= w
    ensures ClockFrom(t, Volleys(c, ip, t, n))
    ensures Within(Admitted(c, EMPTY, Volleys(c, ip, t, n), ip), t, t + w) == c.Cap() * n
  {
    VolleysFacts(c, ip, t, n, t, t + w);
    VolleysAdmitted(c, ip, t, n, Absent);
    NonInterference(c, t, EMPTY, Volleys(c, ip, t, n), ip, Absent);
  }

  /** The bound is exact: for every configuration, window and address there is a
    run that reaches it. */
  lemma RateBoundReached(c: Config, ip: string, t: int, w: nat) returns (ps: seq<Packet>)
    requires c.blockDurationMinutes >= 0 && ip !in c.excludedIps
    ensures ClockFrom(t, ps)
    ensures var period := (c.blockDurationMinutes * 60 + 1) * c.ticksPerSecond;
            var cap := if c.maxConnections > 1 then c.maxConnections else 1;
            && period > 0
            && Within(Admitted(c, EMPTY, ps, ip), t, t + w) == cap * (w / period + 1)
  {
    PeriodPositive(c);
    var n := PeriodsIn(w, Period(c));
    ps := Volleys(c, ip, t, n);
    VolleysReachBound(c, ip, t, w, n);
  }

  lemma PeriodsIn(w: nat, period: Positive) returns (n: nat)
    ensures n == w / period + 1 && n > 0 && (n - 1) * period <= w
  {
    MulDiv(w, w / period, period);
    MulDiv(w, 0, period);
    n := w / period + 1;
  }
}
