/**
 bms/aggregator.py: figures of the whole battery bank from the packs heard
 from, in the order the cache lists them. Positive currents charge.
 */
module BankAggregator {
  import opened Wrappers

  datatype Pack = Pack(voltage: real, current: real, soc: real, remaining: real, nominal: real, soh: real, cycles: real)

  datatype Bank = Bank(
    voltageAvg: real, currentTotal: real, socAvg: real, socMin: real, socSpread: real, power: real,
    remaining: real, nominal: real, minSoh: real, maxCycles: real,
    powerCharging: real, powerDischarging: real,
    chargeCurrent: real, dischargeCurrent: real, chargePower: real, dischargePower: real)

  // ----- sums and extremes over the packs -----

  type Reading = Pack -> real

  function Total(f: Reading, ps: seq<Pack>): real {
    if ps == [] then 0.0 else f(ps[0]) + Total(f, ps[1..])
  }

  function Lowest(f: Reading, ps: seq<Pack>): real
    requires ps != []
  {
    if |ps| == 1 then f(ps[0])
    else var m := Lowest(f, ps[1..]); if f(ps[0]) <= m then f(ps[0]) else m
  }

  function Highest(f: Reading, ps: seq<Pack>): real
    requires ps != []
  {
    if |ps| == 1 then f(ps[0])
    else var m := Highest(f, ps[1..]); if f(ps[0]) >= m then f(ps[0]) else m
  }

  function Voltage(p: Pack): real { p.voltage }
  function Current(p: Pack): real { p.current }
  function Soc(p: Pack): real { p.soc }
  function Remaining(p: Pack): real { p.remaining }
  function Nominal(p: Pack): real { p.nominal }
  function Soh(p: Pack): real { p.soh }
  function Cycles(p: Pack): real { p.cycles }
  function Charging(p: Pack): real { if p.current > 0.0 then p.current else 0.0 }
  function Discharging(p: Pack): real { if p.current < 0.0 then -p.current else 0.0 }
  function ChargingPower(p: Pack): real { if p.current > 0.0 then p.voltage * p.current else 0.0 }
  function DischargingPower(p: Pack): real { if p.current < 0.0 then p.voltage * -p.current else 0.0 }

  function Average(f: Reading, ps: seq<Pack>): real
    requires ps != []
  {
    Total(f, ps) / |ps| as real
  }

  /** aggregate_bank on the PIA readings; None when no pack has one. */
  function Aggregate(ps: seq<Pack>): Option<Bank> {
    if ps == [] then None
    else
      var power := Average(Voltage, ps) * Total(Current, ps);
      Some(Bank(
        Average(Voltage, ps), Total(Current, ps), Average(Soc, ps),
        Lowest(Soc, ps), Highest(Soc, ps) - Lowest(Soc, ps), power,
        Total(Remaining, ps), Total(Nominal, ps), Lowest(Soh, ps), Highest(Cycles, ps),
        if power > 0.0 then power else 0.0, if power < 0.0 then -power else 0.0,
        Total(Charging, ps), Total(Discharging, ps), Total(ChargingPower, ps), Total(DischargingPower, ps)))
  }

  /** The hottest cell that reports a value, None if none does. */
  ghost predicate Hottest(pibs: seq<seq<Option<real>>>, hottest: Option<real>) {
    && (hottest == None <==> forall i, j :: 0 <= i < |pibs| && 0 <= j < |pibs[i]| ==> pibs[i][j] == None)
    && (hottest.Some? ==>
          && (exists i, j :: 0 <= i < |pibs| && 0 <= j < |pibs[i]| && pibs[i][j] == hottest)
          && forall i, j :: 0 <= i < |pibs| && 0 <= j < |pibs[i]| && pibs[i][j].Some? ==>
               pibs[i][j].value <= hottest.value)
  }

  /** The loop over the PIB readings. */
  method MaxCellTemp(pibs: seq<seq<Option<real>>>) returns (hottest: Option<real>)
    ensures Hottest(pibs, hottest)
  {
    hottest := None;
    for i := 0 to |pibs|
      invariant hottest == None <==> forall k, j :: 0 <= k < i && 0 <= j < |pibs[k]| ==> pibs[k][j] == None
      invariant hottest.Some? ==>
                  && (exists k, j :: 0 <= k < i && 0 <= j < |pibs[k]| && pibs[k][j] == hottest)
                  && forall k, j :: 0 <= k < i && 0 <= j < |pibs[k]| && pibs[k][j].Some? ==>
                       pibs[k][j].value <= hottest.value
    {
      for n := 0 to |pibs[i]|
        invariant hottest == None <==>
                    forall k, j :: 0 <= k <= i && 0 <= j < (if k < i then |pibs[k]| else n) ==> pibs[k][j] == None
        invariant hottest.Some? ==>
                    && (exists k, j ::
                          0 <= k <= i && 0 <= j < (if k < i then |pibs[k]| else n) && pibs[k][j] == hottest)
                    && forall k, j :: 0 <= k <= i && 0 <= j < (if k < i then |pibs[k]| else n) && pibs[k][j].Some? ==>
                         pibs[k][j].value <= hottest.value
      {
        var t := pibs[i][n];
        if t.Some? && (hottest == None || t.value > hottest.value) { hottest := t; }
      }
    }
  }

  // ----- every figure, from the packs' readings alone -----

  function Smaller(x: real, y: real): real {
    if x <= y then x else y
  }

  function Part(current: real, x: real): real {
    if current > 0.0 then x else 0.0
  }

  lemma AggregateOne(p: Pack)
    ensures Aggregate([]) == None
    ensures var b := Aggregate([p]);
            && b.Some? && b.value.voltageAvg == p.voltage && b.value.currentTotal == p.current
            && b.value.socAvg == b.value.socMin == p.soc && b.value.socSpread == 0.0
            && b.value.power == p.voltage * p.current
            && b.value.remaining == p.remaining && b.value.nominal == p.nominal
            && b.value.minSoh == p.soh && b.value.maxCycles == p.cycles
            && b.value.chargeCurrent == Part(p.current, p.current)
            && b.value.dischargeCurrent == Part(-p.current, -p.current)
            && b.value.chargePower == Part(p.current, p.voltage * p.current)
            && b.value.dischargePower == Part(-p.current, p.voltage * -p.current)
  {
    hide Total, Lowest, Highest;
    OnePack(Voltage, p);
    OnePack(Current, p);
    OnePack(Soc, p);
    OnePack(Remaining, p);
    OnePack(Nominal, p);
    OnePack(Soh, p);
    OnePack(Cycles, p);
    OnePack(Charging, p);
    OnePack(Discharging, p);
    OnePack(ChargingPower, p);
    OnePack(DischargingPower, p);
  }

  lemma OnePack(f: Reading, p: Pack)
    ensures Total(f, [p]) == f(p) && Lowest(f, [p]) == f(p) && Highest(f, [p]) == f(p)
  {
    assert [p][1..] == [] && Total(f, []) == 0.0;
  }

  /** What one more pack does to each figure. */
  lemma AggregateMore(p: Pack, ps: seq<Pack>)
    requires ps != []
    ensures var a, b, n := Aggregate(ps), Aggregate([p] + ps), |ps| as real;
            && a.Some? && b.Some?
            && (n + 1.0) * b.value.voltageAvg == p.voltage + n * a.value.voltageAvg
            && (n + 1.0) * b.value.socAvg == p.soc + n * a.value.socAvg
            && b.value.currentTotal == p.current + a.value.currentTotal
            && b.value.power == b.value.voltageAvg * b.value.currentTotal
            && b.value.socMin == Smaller(p.soc, a.value.socMin)
            && b.value.socMin + b.value.socSpread == -Smaller(-p.soc, -(a.value.socMin + a.value.socSpread))
            && b.value.remaining == p.remaining + a.value.remaining && b.value.nominal == p.nominal + a.value.nominal
            && b.value.minSoh == Smaller(p.soh, a.value.minSoh)
            && b.value.maxCycles == -Smaller(-p.cycles, -a.value.maxCycles)
            && b.value.chargeCurrent == Part(p.current, p.current) + a.value.chargeCurrent
            && b.value.dischargeCurrent == Part(-p.current, -p.current) + a.value.dischargeCurrent
            && b.value.chargePower == Part(p.current, p.voltage * p.current) + a.value.chargePower
            && b.value.dischargePower == Part(-p.current, p.voltage * -p.current) + a.value.dischargePower
  {
    hide Average, Total, Lowest, Highest;
    AverageTimesCount(Voltage, ps);
    AverageTimesCount(Voltage, [p] + ps);
    AverageTimesCount(Soc, ps);
    AverageTimesCount(Soc, [p] + ps);
    OneMorePack(Current, p, ps);
    OneMorePack(Voltage, p, ps);
    OneMorePack(Soc, p, ps);
    OneMorePack(Remaining, p, ps);
    OneMorePack(Nominal, p, ps);
    OneMorePack(Soh, p, ps);
    OneMorePack(Cycles, p, ps);
    OneMorePack(Charging, p, ps);
    OneMorePack(Discharging, p, ps);
    OneMorePack(ChargingPower, p, ps);
    OneMorePack(DischargingPower, p, ps);
  }

  lemma OneMorePack(f: Reading, p: Pack, ps: seq<Pack>)
    requires ps != []
    ensures Total(f, [p] + ps) == f(p) + Total(f, ps)
    ensures Lowest(f, [p] + ps) == Smaller(f(p), Lowest(f, ps))
    ensures Highest(f, [p] + ps) == -Smaller(-f(p), -Highest(f, ps))
  {
    assert ([p] + ps)[1..] == ps;
  }

  // ----- splits add up -----

  lemma {:induction false} CurrentSplit(ps: seq<Pack>)
    ensures Total(Charging, ps) - Total(Discharging, ps) == Total(Current, ps)
    ensures Total(Charging, ps) >= 0.0 && Total(Discharging, ps) >= 0.0
    decreases |ps|
  {
    if ps == [] {
    } else {
      CurrentSplit(ps[1..]);
    }
  }

  lemma SplitsAddUp(ps: seq<Pack>)
    requires ps != []
    ensures var b := Aggregate(ps).value;
            && b.chargeCurrent - b.dischargeCurrent == b.currentTotal
            && b.chargeCurrent >= 0.0 && b.dischargeCurrent >= 0.0
            && b.powerCharging - b.powerDischarging == b.power
            && b.powerCharging >= 0.0 && b.powerDischarging >= 0.0
            && (b.powerCharging == 0.0 || b.powerDischarging == 0.0)
  {
    CurrentSplit(ps);
  }

  // ----- averages lie between the extremes -----

  /** The extremes are read from some pack and bound all packs. */
  lemma {:induction false} Extremes(f: Reading, ps: seq<Pack>) returns (i: nat, j: nat)
    requires ps != []
    ensures i < |ps| && f(ps[i]) == Lowest(f, ps)
    ensures j < |ps| && f(ps[j]) == Highest(f, ps)
    ensures forall k :: 0 <= k < |ps| ==> Lowest(f, ps) <= f(ps[k]) <= Highest(f, ps)
    decreases |ps|
  {
    i, j := 0, 0;
    if |ps| == 1 {
    } else {
      var m, n := Extremes(f, ps[1..]);
      assert forall k :: 1 <= k < |ps| ==> ps[k] == ps[1..][k - 1];
      if f(ps[0]) > Lowest(f, ps[1..]) { i := m + 1; }
      if f(ps[0]) < Highest(f, ps[1..]) { j := n + 1; }
    }
  }

  lemma {:induction false} TotalBetween(f: Reading, ps: seq<Pack>, lo: real, hi: real)
    requires forall i :: 0 <= i < |ps| ==> lo <= f(ps[i]) <= hi
    ensures |ps| as real * lo <= Total(f, ps) <= |ps| as real * hi
    decreases |ps|
  {
    if ps == [] {
    } else {
      TotalBetween(f, ps[1..], lo, hi);
      var n := |ps| as real - 1.0;
      assert |ps| as real * lo == n * lo + lo && |ps| as real * hi == n * hi + hi;
    }
  }

  lemma AverageBetween(f: Reading, ps: seq<Pack>)
    requires ps != []
    ensures Lowest(f, ps) <= Average(f, ps) <= Highest(f, ps)
  {
    hide Total, Lowest, Highest, Average;
    var _, _ := Extremes(f, ps);
    TotalBetween(f, ps, Lowest(f, ps), Highest(f, ps));
    AverageTimesCount(f, ps);
    Cancel(|ps| as real, Lowest(f, ps), Average(f, ps));
    Cancel(|ps| as real, Average(f, ps), Highest(f, ps));
  }

  lemma AverageTimesCount(f: Reading, ps: seq<Pack>)
    requires ps != []
    ensures |ps| as real * Average(f, ps) == Total(f, ps)
  {
    hide Total;
  }

  lemma Cancel(n: real, x: real, y: real)
    requires n > 0.0 && n * x <= n * y
    ensures x <= y
  {
    assert n * (y - x) == n * y - n * x;
    SignOfProduct(n, y - x);
  }

  lemma SignOfProduct(n: real, x: real)
    requires n > 0.0
    ensures x < 0.0 ==> n * x < 0.0
  {}

  // ----- V_avg * I_total against the sum of the packs' powers -----

  function Net(p: Pack): real {
    ChargingPower(p) - DischargingPower(p)
  }

  function Flow(p: Pack): real {
    Charging(p) + Discharging(p)
  }

  lemma PackDeviation(p: Pack, avg: real, lo: real, hi: real)
    requires lo <= avg <= hi && lo <= p.voltage <= hi
    ensures -((hi - lo) * Flow(p)) <= avg * p.current - Net(p) <= (hi - lo) * Flow(p)
  {
    hide Net, Flow;
    NetAndFlow(p);
    Distribute(p.current, avg, -p.voltage);
    ProductBound(avg - p.voltage, p.current, hi - lo);
  }

  lemma ProductBound(d: real, c: real, m: real)
    requires -m <= d <= m
    ensures var size := if c >= 0.0 then c else -c; -(m * size) <= d * c <= m * size
  {
    if c >= 0.0 {
      Scale(d, m, c);
      Scale(-m, d, c);
    } else {
      Scale(d, m, -c);
      Scale(-m, d, -c);
    }
  }

  lemma NetAndFlow(p: Pack)
    ensures Net(p) == p.voltage * p.current
    ensures Flow(p) == (if p.current >= 0.0 then p.current else -p.current)
  {
    assert p.voltage * -p.current == -(p.voltage * p.current);
  }

  lemma Scale(x: real, y: real, m: real)
    requires x <= y && m >= 0.0
    ensures x * m <= y * m
  {}

  lemma {:induction false} TotalsOf(ps: seq<Pack>)
    ensures Total(Net, ps) == Total(ChargingPower, ps) - Total(DischargingPower, ps)
    ensures Total(Flow, ps) == Total(Charging, ps) + Total(Discharging, ps)
    decreases |ps|
  {
    if ps == [] {
    } else {
      TotalsOf(ps[1..]);
    }
  }

  lemma Distribute(x: real, y: real, z: real)
    ensures x * (y + z) == x * y + x * z
  {}

  lemma {:induction false} TotalDeviation(ps: seq<Pack>, avg: real, lo: real, hi: real)
    requires lo <= avg <= hi
    requires forall i :: 0 <= i < |ps| ==> lo <= ps[i].voltage <= hi
    ensures -((hi - lo) * Total(Flow, ps)) <= avg * Total(Current, ps) - Total(Net, ps) <= (hi - lo) * Total(Flow, ps)
    decreases |ps|
  {
    hide Net, Flow;
    if ps == [] {
    } else {
      TotalDeviation(ps[1..], avg, lo, hi);
      PackDeviation(ps[0], avg, lo, hi);
      Distribute(hi - lo, Flow(ps[0]), Total(Flow, ps[1..]));
      Distribute(avg, ps[0].current, Total(Current, ps[1..]));
    }
  }

  /** The firmware's bank power misses the packs' net power by at most the
      voltage spread times the current that flows. */
  lemma PowerDeviation(ps: seq<Pack>)
    requires ps != []
    ensures var b := Aggregate(ps).value;
            var bound := (Highest(Voltage, ps) - Lowest(Voltage, ps)) * (b.chargeCurrent + b.dischargeCurrent);
            -bound <= b.power - (b.chargePower - b.dischargePower) <= bound
  {
    hide Average, Total, Highest, Lowest;
    var _, _ := Extremes(Voltage, ps);
    AverageBetween(Voltage, ps);
    assert forall i :: 0 <= i < |ps| ==> Voltage(ps[i]) == ps[i].voltage;
    TotalDeviation(ps, Average(Voltage, ps), Lowest(Voltage, ps), Highest(Voltage, ps));
    TotalsOf(ps);
  }

  // ----- the order of the packs does not matter -----

  lemma {:induction false} TotalWithout(f: Reading, ps: seq<Pack>, k: nat)
    requires k < |ps|
    ensures Total(f, ps) == f(ps[k]) + Total(f, ps[..k] + ps[k + 1..])
    decreases k
  {
    var without := ps[..k] + ps[k + 1..];
    if k == 0 {
      assert without == ps[1..];
    } else {
      TotalWithout(f, ps[1..], k - 1);
      assert without[1..] == ps[1..][..k - 1] + ps[1..][k..];
    }
  }

  lemma MultisetWithout(ps: seq<Pack>, k: nat)
    requires k < |ps|
    ensures multiset(ps) == multiset{ps[k]} + multiset(ps[..k] + ps[k + 1..])
  {
    assert ps == ps[..k] + [ps[k]] + ps[k + 1..];
  }

  lemma {:induction false} TotalPermuted(f: Reading, a: seq<Pack>, b: seq<Pack>)
    requires multiset(a) == multiset(b)
    ensures Total(f, a) == Total(f, b)
    decreases |a|
  {
    hide Total;
    if a == [] {
      assert |b| == |multiset(b)| == 0;
    } else {
      var k := IndexIn(a, b);
      MultisetWithout(a, 0);
      MultisetWithout(b, k);
      TotalWithout(f, a, 0);
      TotalWithout(f, b, k);
      SumCancels(a[0], multiset(a[..0] + a[1..]), multiset(b[..k] + b[k + 1..]));
      TotalPermuted(f, a[..0] + a[1..], b[..k] + b[k + 1..]);
    }
  }

  lemma SumCancels(x: Pack, a: multiset<Pack>, b: multiset<Pack>)
    requires multiset{x} + a == multiset{x} + b
    ensures a == b
  {
    assert a == (multiset{x} + a) - multiset{x};
    assert b == (multiset{x} + b) - multiset{x};
  }

  lemma IndexIn(a: seq<Pack>, b: seq<Pack>) returns (k: nat)
    requires a != [] && multiset(a) == multiset(b)
    ensures k < |b| && b[k] == a[0]
  {
    assert a[0] in multiset(a);
    assert a[0] in b;
    k :| 0 <= k < |b| && b[k] == a[0];
  }

  lemma ExtremesOrdered(f: Reading, a: seq<Pack>, b: seq<Pack>)
    requires multiset(a) == multiset(b) && a != [] && b != []
    ensures Lowest(f, b) <= Lowest(f, a) && Highest(f, a) <= Highest(f, b)
  {
    hide Lowest, Highest;
    var i, j := Extremes(f, a);
    var _, _ := Extremes(f, b);
    assert a[i] in multiset(a) && a[j] in multiset(a);
    assert a[i] in b && a[j] in b;
  }

  lemma ReadingPermuted(f: Reading, a: seq<Pack>, b: seq<Pack>)
    requires multiset(a) == multiset(b) && a != [] && b != []
    ensures Total(f, a) == Total(f, b) && Average(f, a) == Average(f, b)
    ensures Lowest(f, a) == Lowest(f, b) && Highest(f, a) == Highest(f, b)
  {
    hide Total, Lowest, Highest;
    assert |a| == |multiset(a)| == |multiset(b)| == |b|;
    TotalPermuted(f, a, b);
    ExtremesOrdered(f, a, b);
    ExtremesOrdered(f, b, a);
  }

  lemma HottestOrdered(a: seq<seq<Option<real>>>, b: seq<seq<Option<real>>>, x: Option<real>, y: Option<real>)
    requires multiset(a) == multiset(b) && Hottest(a, x) && Hottest(b, y) && x.Some?
    ensures y.Some? && x.value <= y.value
  {
    var i, j :| 0 <= i < |a| && 0 <= j < |a[i]| && a[i][j] == x;
    assert a[i] in multiset(a);
    assert a[i] in b;
    var k :| 0 <= k < |b| && b[k] == a[i];
    assert b[k][j] == x;
  }

  /** The hottest cell does not depend on the order of the packs either. */
  lemma HottestUnique(a: seq<seq<Option<real>>>, b: seq<seq<Option<real>>>, x: Option<real>, y: Option<real>)
    requires multiset(a) == multiset(b) && Hottest(a, x) && Hottest(b, y)
    ensures x == y
  {
    if x.Some? { HottestOrdered(a, b, x, y); }
    if y.Some? { HottestOrdered(b, a, y, x); }
  }

  lemma OrderIrrelevant(a: seq<Pack>, b: seq<Pack>)
    requires multiset(a) == multiset(b)
    ensures Aggregate(a) == Aggregate(b)
  {
    hide Total, Lowest, Highest, Average;
    assert |a| == |multiset(a)| == |multiset(b)| == |b|;
    if a != [] {
      ReadingPermuted(Voltage, a, b);
      ReadingPermuted(Current, a, b);
      ReadingPermuted(Soc, a, b);
      ReadingPermuted(Remaining, a, b);
      ReadingPermuted(Nominal, a, b);
      ReadingPermuted(Soh, a, b);
      ReadingPermuted(Cycles, a, b);
      ReadingPermuted(Charging, a, b);
      ReadingPermuted(Discharging, a, b);
      ReadingPermuted(ChargingPower, a, b);
      ReadingPermuted(DischargingPower, a, b);
      assert Aggregate(a).Some? && Aggregate(b).Some?;
      assert Aggregate(a).value == Aggregate(b).value;
    }
  }
}
