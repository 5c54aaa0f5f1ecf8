/**
 energy_integrator.py: six watt-hour counters fed with sampled powers.
 Arithmetic is exact; a value a float could not hold as a finite number is a
 case of its own.
 */
module EnergyIntegrator {
  import opened AtomicFile
  import opened Wrappers

  datatype Key = BatteryIn | BatteryOut | Pv | Load | GridIn | GridOut

  const KEYS := [BatteryIn, BatteryOut, Pv, Load, GridIn, GridOut]

  const MAX_ELAPSED := 600.0

  /** The dictionary of the six keys. */
  datatype Six<T> = Six(batteryIn: T, batteryOut: T, pv: T, load: T, gridIn: T, gridOut: T) {
    function At(k: Key): T {
      match k
      case BatteryIn => batteryIn
      case BatteryOut => batteryOut
      case Pv => pv
      case Load => load
      case GridIn => gridIn
      case GridOut => gridOut
    }

    function With(k: Key, v: T): Six<T> {
      match k
      case BatteryIn => this.(batteryIn := v)
      case BatteryOut => this.(batteryOut := v)
      case Pv => this.(pv := v)
      case Load => this.(load := v)
      case GridIn => this.(gridIn := v)
      case GridOut => this.(gridOut := v)
    }
  }

  type Totals = Six<real>

  const ZERO := Six(0.0, 0.0, 0.0, 0.0, 0.0, 0.0)

  /** A value of the aggregate dictionary or of a JSON object. */
  datatype Scalar = Finite(value: real) | NonFinite | Bool(b: bool) | Other

  datatype Signal = BatteryPower | LoadPower | PvPower | GridPower

  /** What one call of update is given. */
  datatype Sample = Sample(powers: map<Signal, Scalar>, elapsed: Scalar)

  predicate Accepted(s: Sample) {
    s.elapsed.Finite? && 0.0 < s.elapsed.value <= MAX_ELAPSED
  }

  function Power(s: Sample, signal: Signal): real {
    if signal in s.powers && s.powers[signal].Finite? then s.powers[signal].value else 0.0
  }

  function Hours(s: Sample): real {
    if Accepted(s) then s.elapsed.value / 3600.0 else 0.0
  }

  function Positive(x: real): real {
    if x > 0.0 then x else 0.0
  }

  function WattHours(power: real, hours: real): real {
    power * hours
  }

  /** Energy that a power brings if it is the accepted sample's. */
  function Credit(s: Sample, power: real): real {
    Hours(s) * Positive(power)
  }

  /** Energy a sample brings to a counter: the part of the power that flows
      the counter's way, times the hours it is taken to have lasted. */
  function Gain(k: Key, s: Sample): real {
    match k
    case BatteryIn => Credit(s, Power(s, BatteryPower))
    case BatteryOut => Credit(s, -Power(s, BatteryPower))
    case Pv => Credit(s, Power(s, PvPower))
    case Load => Credit(s, Power(s, LoadPower))
    case GridIn => Credit(s, Power(s, GridPower))
    case GridOut => Credit(s, -Power(s, GridPower))
  }

  lemma CreditIs(s: Sample, power: real)
    ensures Accepted(s) && power > 0.0 ==> Credit(s, power) == WattHours(power, s.elapsed.value / 3600.0)
    ensures !Accepted(s) || power <= 0.0 ==> Credit(s, power) == 0.0
    ensures Credit(s, power) >= 0.0
  {}

  function Integrate(t: Totals, s: Sample): Totals {
    Six(t.batteryIn + Gain(BatteryIn, s), t.batteryOut + Gain(BatteryOut, s), t.pv + Gain(Pv, s),
        t.load + Gain(Load, s), t.gridIn + Gain(GridIn, s), t.gridOut + Gain(GridOut, s))
  }

  function IntegrateAll(t: Totals, samples: seq<Sample>): Totals {
    if samples == [] then t else Integrate(IntegrateAll(t, samples[..|samples| - 1]), samples[|samples| - 1])
  }

  // ----- publishing: kWh to three decimals, ties to even -----

  function Nearest(x: real): int {
    var below := x.Floor;
    var part := x - below as real;
    if part < 0.5 || (part == 0.5 && below % 2 == 0) then below else below + 1
  }

  /** round(wh / 1000, 3), in thousandths of a kWh. */
  function Published(wh: real): int {
    Nearest(wh)
  }

  function Snapshot(t: Totals): Six<int> {
    Six(Published(t.batteryIn), Published(t.batteryOut), Published(t.pv),
        Published(t.load), Published(t.gridIn), Published(t.gridOut))
  }

  lemma NearestIsNearest(x: real)
    ensures -0.5 <= Nearest(x) as real - x <= 0.5
    ensures x - Nearest(x) as real == 0.5 || Nearest(x) as real - x == 0.5 ==> Nearest(x) % 2 == 0
  {}

  lemma NearestMonotone(x: real, y: real)
    requires x <= y
    ensures Nearest(x) <= Nearest(y)
  {
    assert x.Floor <= y.Floor;
  }

  // ----- what every sample keeps -----

  predicate AtMost(a: Totals, b: Totals) {
    forall k: Key :: a.At(k) <= b.At(k)
  }

  predicate NonNegative(t: Totals) {
    AtMost(ZERO, t)
  }

  lemma GainNonNegative(k: Key, s: Sample)
    ensures Gain(k, s) >= 0.0
  {}

  /** A sample that is not accepted changes nothing, and of each in/out pair
      at most one side moves. */
  lemma OneDirection(t: Totals, s: Sample)
    ensures !Accepted(s) ==> Integrate(t, s) == t
    ensures Integrate(t, s).batteryIn == t.batteryIn || Integrate(t, s).batteryOut == t.batteryOut
    ensures Integrate(t, s).gridIn == t.gridIn || Integrate(t, s).gridOut == t.gridOut
    ensures AtMost(t, Integrate(t, s))
  {
    forall k: Key ensures Gain(k, s) >= 0.0 { GainNonNegative(k, s); }
  }

  /** Counters, and the published figures, only grow along a run. */
  lemma {:induction false} NeverDecrease(t: Totals, samples: seq<Sample>, n: nat)
    requires n <= |samples|
    ensures AtMost(IntegrateAll(t, samples[..n]), IntegrateAll(t, samples))
    ensures forall k: Key :: Snapshot(IntegrateAll(t, samples[..n])).At(k) <= Snapshot(IntegrateAll(t, samples)).At(k)
    decreases |samples|
  {
    hide Nearest, Gain;
    if n == |samples| {
      assert samples[..n] == samples;
    } else {
      var before := samples[..|samples| - 1];
      NeverDecrease(t, before, n);
      assert before[..n] == samples[..n];
      OneDirection(IntegrateAll(t, before), samples[|samples| - 1]);
    }
    forall k: Key
      ensures Snapshot(IntegrateAll(t, samples[..n])).At(k) <= Snapshot(IntegrateAll(t, samples)).At(k)
    {
      NearestMonotone(IntegrateAll(t, samples[..n]).At(k), IntegrateAll(t, samples).At(k));
    }
  }

  /** The integral of the signed power over the accepted samples. */
  function Net(signal: Signal, samples: seq<Sample>): real {
    if samples == [] then 0.0
    else
      var s := samples[|samples| - 1];
      Net(signal, samples[..|samples| - 1]) +
      if Accepted(s) then Power(s, signal) * s.elapsed.value / 3600.0 else 0.0
  }

  lemma SplitExact(x: real, h: real)
    ensures h * Positive(x) - h * Positive(-x) == h * x
  {}

  lemma GainsBalance(s: Sample)
    ensures Gain(BatteryIn, s) - Gain(BatteryOut, s) == Net(BatteryPower, [s])
    ensures Gain(GridIn, s) - Gain(GridOut, s) == Net(GridPower, [s])
  {
    SplitExact(Power(s, BatteryPower), Hours(s));
    SplitExact(Power(s, GridPower), Hours(s));
    assert Net(BatteryPower, []) == 0.0 && Net(GridPower, []) == 0.0;
  }

  /** in - out moves by exactly the signed integral, whatever the samples. */
  lemma {:induction false} EnergyConserved(t: Totals, samples: seq<Sample>)
    ensures var u := IntegrateAll(t, samples);
            && u.batteryIn - u.batteryOut == t.batteryIn - t.batteryOut + Net(BatteryPower, samples)
            && u.gridIn - u.gridOut == t.gridIn - t.gridOut + Net(GridPower, samples)
    decreases |samples|
  {
    hide Gain, Accepted, Power;
    if samples == [] {
    } else {
      var last := samples[|samples| - 1];
      EnergyConserved(t, samples[..|samples| - 1]);
      GainsBalance(last);
      assert [last][..0] == [] && Net(BatteryPower, []) == 0.0 && Net(GridPower, []) == 0.0;
    }
  }

  // ----- the counters, from the samples alone -----

  /** Watt-hours of the part of a power that has the given sign. */
  function Brought(s: Sample, signal: Signal, sign: real): real {
    if s.elapsed.Finite? && 0.0 < s.elapsed.value <= 600.0 &&
       signal in s.powers && s.powers[signal].Finite? && sign * s.powers[signal].value > 0.0
    then sign * s.powers[signal].value * (s.elapsed.value / 3600.0)
    else 0.0
  }

  function Integral(signal: Signal, sign: real, samples: seq<Sample>): real {
    if samples == [] then 0.0
    else Integral(signal, sign, samples[..|samples| - 1]) + Brought(samples[|samples| - 1], signal, sign)
  }

  lemma GainIs(s: Sample)
    ensures Gain(BatteryIn, s) == Brought(s, BatteryPower, 1.0) && Gain(BatteryOut, s) == Brought(s, BatteryPower, -1.0)
    ensures Gain(Pv, s) == Brought(s, PvPower, 1.0) && Gain(Load, s) == Brought(s, LoadPower, 1.0)
    ensures Gain(GridIn, s) == Brought(s, GridPower, 1.0) && Gain(GridOut, s) == Brought(s, GridPower, -1.0)
  {
    hide Credit, WattHours;
    forall signal: Signal
      ensures Credit(s, Power(s, signal)) == Brought(s, signal, 1.0)
      ensures Credit(s, -Power(s, signal)) == Brought(s, signal, -1.0)
    {
      CreditBrings(s, signal);
    }
  }

  lemma CreditBrings(s: Sample, signal: Signal)
    ensures Credit(s, Power(s, signal)) == Brought(s, signal, 1.0)
    ensures Credit(s, -Power(s, signal)) == Brought(s, signal, -1.0)
  {
    hide Credit;
    CreditIs(s, Power(s, signal));
    CreditIs(s, -Power(s, signal));
  }

  /** Each counter moves by the integral of its own signal, in its own direction. */
  lemma {:induction false} CountersExact(t: Totals, samples: seq<Sample>)
    ensures var u := IntegrateAll(t, samples);
            && u.batteryIn == t.batteryIn + Integral(BatteryPower, 1.0, samples)
            && u.batteryOut == t.batteryOut + Integral(BatteryPower, -1.0, samples)
            && u.pv == t.pv + Integral(PvPower, 1.0, samples)
            && u.load == t.load + Integral(LoadPower, 1.0, samples)
            && u.gridIn == t.gridIn + Integral(GridPower, 1.0, samples)
            && u.gridOut == t.gridOut + Integral(GridPower, -1.0, samples)
    decreases |samples|
  {
    hide Gain, Brought;
    if samples == [] {
    } else {
      CountersExact(t, samples[..|samples| - 1]);
      GainIs(samples[|samples| - 1]);
    }
  }

  /** A figure in thousandths of a kWh is nearest to its own counter in Wh. */
  predicate Rounds(figure: int, wh: real) {
    && -0.5 <= figure as real - wh <= 0.5
    && (figure as real - wh == 0.5 || wh - figure as real == 0.5 ==> figure % 2 == 0)
  }

  lemma SnapshotExact(t: Totals)
    ensures var kwh := Snapshot(t);
            && Rounds(kwh.batteryIn, t.batteryIn) && Rounds(kwh.batteryOut, t.batteryOut)
            && Rounds(kwh.pv, t.pv) && Rounds(kwh.load, t.load)
            && Rounds(kwh.gridIn, t.gridIn) && Rounds(kwh.gridOut, t.gridOut)
  {
    hide Nearest;
    forall k: Key { NearestIsNearest(t.At(k)); }
    assert t.At(BatteryIn) == t.batteryIn && t.At(BatteryOut) == t.batteryOut && t.At(Pv) == t.pv &&
           t.At(Load) == t.load && t.At(GridIn) == t.gridIn && t.At(GridOut) == t.gridOut;
  }

  // ----- persistence -----

  /** A field of the stored object; HugeInt is an integer float() refuses. */
  datatype Field = Plain(s: Scalar) | HugeInt

  /** Undecodable: json.loads raises something other than JSONDecodeError, for
      an integer literal of over 4300 digits or nesting too deep. */
  datatype Content =
    | NotUtf8
    | Undecodable
    | NotJson
    | NotObject
    | Object(version: Option<Field>, values: map<Key, Field>)

  /** Python's `version == 1`, which True also meets. */
  predicate CurrentVersion(version: Option<Field>) {
    version == Some(Plain(Finite(1.0))) || version == Some(Plain(Bool(true)))
  }

  function Stored(t: Totals): Content {
    Object(Some(Plain(Finite(1.0))), map[
      BatteryIn := Plain(Finite(t.batteryIn)), BatteryOut := Plain(Finite(t.batteryOut)),
      Pv := Plain(Finite(t.pv)), Load := Plain(Finite(t.load)),
      GridIn := Plain(Finite(t.gridIn)), GridOut := Plain(Finite(t.gridOut))])
  }

  function Counter(values: map<Key, Field>, k: Key): real {
    if k in values && values[k].Plain? && values[k].s.Finite? && values[k].s.value >= 0.0
    then values[k].s.value else 0.0
  }

  function Counters(values: map<Key, Field>): Totals {
    Six(Counter(values, BatteryIn), Counter(values, BatteryOut), Counter(values, Pv),
        Counter(values, Load), Counter(values, GridIn), Counter(values, GridOut))
  }

  /** What load makes of the file; None where it lets an exception out. */
  function Restored(file: Option<Content>): Option<Totals> {
    match file
    case None => Some(ZERO)
    case Some(NotUtf8) => None
    case Some(Undecodable) => None
    case Some(Object(version, values)) =>
      if !CurrentVersion(version) then Some(ZERO)
      else if exists k: Key :: k in values && values[k].HugeInt? then None
      else Some(Counters(values))
    case Some(_) => Some(ZERO)
  }

  /** Exactly these files make load raise. */
  lemma LoadRaises(file: Option<Content>)
    ensures Restored(file) == None <==>
              && file.Some?
              && (file.value.NotUtf8? || file.value.Undecodable? ||
                  (&& file.value.Object? && CurrentVersion(file.value.version)
                   && exists k: Key :: k in file.value.values && file.value.values[k].HugeInt?))
  {}

  /** What load's own description promises for a file: zeros for anything
      malformed or of another version, and zero for a value that is missing or
      no finite number. */
  function Described(file: Option<Content>): Totals {
    if file.Some? && file.value.Object? && file.value.version == Some(Plain(Finite(1.0)))
    then Counters(file.value.values)
    else ZERO
  }

  /** The description fails exactly for bytes that are not UTF-8 or that the
      decoder gives up on, for a current object with an integer that float()
      refuses, and for an object that has
      energy under the version `true`. */
  lemma DescribedExact(file: Option<Content>)
    ensures Restored(file) == Some(Described(file)) <==>
              !(&& file.Some?
                && (file.value.NotUtf8? || file.value.Undecodable? ||
                    (&& file.value.Object? && CurrentVersion(file.value.version)
                     && ((exists k: Key :: k in file.value.values && file.value.values[k].HugeInt?) ||
                         (file.value.version == Some(Plain(Bool(true))) && Counters(file.value.values) != ZERO)))))
  {
    LoadRaises(file);
  }

  /** One file of each kind. */
  lemma DescriptionFails()
    ensures Restored(Some(NotUtf8)) == None && Restored(Some(Undecodable)) == None
    ensures Restored(Some(Object(Some(Plain(Finite(1.0))), map[Pv := HugeInt]))) == None
    ensures Restored(Some(Object(Some(Plain(Bool(true))), map[Pv := Plain(Finite(5.0))]))) == Some(ZERO.(pv := 5.0))
    ensures Described(Some(Object(Some(Plain(Bool(true))), map[Pv := Plain(Finite(5.0))]))) == ZERO
  {
    var huge: map<Key, Field> := map[Pv := HugeInt];
    assert Pv in huge && huge[Pv].HugeInt?;
    var five: map<Key, Field> := map[Pv := Plain(Finite(5.0))];
    assert forall k: Key :: k in five ==> five[k] == Plain(Finite(5.0));
  }

  /** The number a field of a current object brings back. */
  predicate Kept(field: Field, x: real) {
    if field.Plain? && field.s.Finite? && field.s.value > 0.0 then x == field.s.value else x == 0.0
  }

  /** Field by field what a current object without a huge integer brings back. */
  lemma RestoredExact(version: Option<Field>, values: map<Key, Field>)
    requires version == Some(Plain(Finite(1.0))) || version == Some(Plain(Bool(true)))
    requires forall k: Key :: k in values ==> values[k].Plain?
    ensures var r := Restored(Some(Object(version, values)));
            && r.Some?
            && (if BatteryIn in values then Kept(values[BatteryIn], r.value.batteryIn) else r.value.batteryIn == 0.0)
            && (if BatteryOut in values then Kept(values[BatteryOut], r.value.batteryOut)
                else r.value.batteryOut == 0.0)
            && (if Pv in values then Kept(values[Pv], r.value.pv) else r.value.pv == 0.0)
            && (if Load in values then Kept(values[Load], r.value.load) else r.value.load == 0.0)
            && (if GridIn in values then Kept(values[GridIn], r.value.gridIn) else r.value.gridIn == 0.0)
            && (if GridOut in values then Kept(values[GridOut], r.value.gridOut) else r.value.gridOut == 0.0)
  {
    LoadRaises(Some(Object(version, values)));
  }

  lemma RestoredNonNegative(file: Option<Content>)
    ensures Restored(file).Some? ==> NonNegative(Restored(file).value)
  {}

  /** Loading what save wrote gives the counters back, iff none is negative. */
  lemma SaveLoad(t: Totals)
    ensures Restored(Some(Stored(t))) == Some(t) <==> NonNegative(t)
  {
    hide Counter;
    forall k: Key
      ensures k in Stored(t).values && Stored(t).values[k].Plain?
      ensures Counter(Stored(t).values, k) == Positive(t.At(k))
      ensures ZERO.At(k) == 0.0
    {
      StoredCounter(t, k);
    }
    if Restored(Some(Stored(t))) == Some(t) {
      RestoredNonNegative(Some(Stored(t)));
    }
  }

  lemma StoredCounter(t: Totals, k: Key)
    ensures k in Stored(t).values && Stored(t).values[k] == Plain(Finite(t.At(k)))
    ensures Counter(Stored(t).values, k) == Positive(t.At(k))
    ensures ZERO.At(k) == 0.0
  {}

  /** Counters of a new integrator; None when the constructor raises. */
  function BootTotals(file: Option<Content>, readable: bool): Option<Totals> {
    if file.Some? && !readable then Some(ZERO) else Restored(file)
  }

  /** The directory that holds the persist file and save's temporary files. */
  class Directory {
    var persist: Option<Content>
    var temps: map<nat, File<Content>>

    constructor ()
      ensures persist == None && temps == map[]
    {
      persist := None;
      temps := map[];
    }
  }

  class EnergyIntegrator {
    const dir: Option<Directory>
    var wh: Totals

    constructor (dir: Option<Directory>)
      ensures this.dir == dir && wh == ZERO
    {
      this.dir := dir;
      wh := ZERO;
    }

    method Update(s: Sample) returns (kwh: Six<int>)
      modifies `wh
      ensures wh == Integrate(old(wh), s)
      ensures kwh == Snapshot(wh)
    {
      hide Credit, WattHours, Published, Power;
      CreditIs(s, Power(s, BatteryPower));
      CreditIs(s, -Power(s, BatteryPower));
      CreditIs(s, Power(s, PvPower));
      CreditIs(s, Power(s, LoadPower));
      CreditIs(s, Power(s, GridPower));
      CreditIs(s, -Power(s, GridPower));
      if !s.elapsed.Finite? || s.elapsed.value <= 0.0 || s.elapsed.value > MAX_ELAPSED {
        kwh := Snapshot(wh);
        return;
      }
      var battery := Power(s, BatteryPower);
      var load := Power(s, LoadPower);
      var pv := Power(s, PvPower);
      var grid := Power(s, GridPower);
      var hours := s.elapsed.value / 3600.0;

      if battery > 0.0 {
        wh := wh.(batteryIn := wh.batteryIn + WattHours(battery, hours));
      } else if battery < 0.0 {
        wh := wh.(batteryOut := wh.batteryOut + WattHours(-battery, hours));
      }
      if pv > 0.0 {
        wh := wh.(pv := wh.pv + WattHours(pv, hours));
      }
      if load > 0.0 {
        wh := wh.(load := wh.load + WattHours(load, hours));
      }
      if grid > 0.0 {
        wh := wh.(gridIn := wh.gridIn + WattHours(grid, hours));
      } else if grid < 0.0 {
        wh := wh.(gridOut := wh.gridOut + WattHours(-grid, hours));
      }
      kwh := Snapshot(wh);
    }

    /** The persist file is untouched or holds the complete counters, also
        after a power loss, and only a stop, an interrupt or a failing unlink
        leaves a temporary file behind. */
    method Save(ending: Ending)
      modifies if dir.Some? then {dir.value} else {}
      ensures dir.Some? ==>
                dir.value.persist == if ending.steps >= 5 then Some(Stored(wh)) else old(dir.value.persist)
      ensures dir.Some? && (ending.steps <= 1 || ending.steps >= 5 || (ending.Raises? && !ending.unlinkFails)) ==>
                dir.value.temps == old(dir.value.temps)
    {
      if dir == None { return; }
      var d := dir.value;
      var tmp: Option<nat> := None;
      var payload := Stored(wh);
      if ending.steps > 1 {
        var name := FreshName(d.temps);
        d.temps := d.temps[name := File(NotJson, false)];
        tmp := Some(name);
        if ending.steps > 2 {
          d.temps := d.temps[name := File(payload, false)];
          if ending.steps > 3 {
            d.temps := d.temps[name := File(payload, true)];
            if ending.steps > 4 {
              d.persist := Some(AfterPowerLoss(d.temps[name], NotJson));
              d.temps := d.temps - {name};
              assert d.temps == old(d.temps);
              return;
            }
          }
        }
      }
      if ending.Raises? && tmp.Some? && !ending.unlinkFails {
        d.temps := d.temps - {tmp.value};
        assert d.temps == old(d.temps);
      }
    }

    method FreshName(temps: map<nat, File<Content>>) returns (n: nat)
      ensures n !in temps
    {
      n := 0;
      ghost var left := temps.Keys;
      while n in temps
        invariant forall m :: m in left <==> m in temps && m >= n
        decreases |left|
      {
        left := left - {n};
        n := n + 1;
      }
    }

    /** Whatever the file holds, load replaces the counters by what Restored
        makes of it; a file that cannot be read counts as malformed. */
    method LoadState(readable: bool) returns (raised: bool)
      modifies `wh
      ensures dir == None || dir.value.persist == None ==> !raised && wh == old(wh)
      ensures dir.Some? && dir.value.persist.Some? && !readable ==> !raised && wh == ZERO
      ensures dir.Some? && dir.value.persist.Some? && readable ==>
                && raised == Restored(dir.value.persist).None?
                && wh == if raised then old(wh) else Restored(dir.value.persist).value
    {
      raised := false;
      if dir == None { return; }
      var file := dir.value.persist;
      if file == None { return; }
      if !readable || file.value.NotJson? || file.value.NotObject? {
        wh := ZERO;
        return;
      }
      if file.value.NotUtf8? || file.value.Undecodable? {
        raised := true;
        return;
      }
      if !CurrentVersion(file.value.version) {
        wh := ZERO;
        return;
      }
      var values := file.value.values;
      var restored := ZERO;
      for i := 0 to |KEYS|
        invariant forall j :: 0 <= j < i ==>
                    && !(KEYS[j] in values && values[KEYS[j]].HugeInt?)
                    && restored.At(KEYS[j]) == Counter(values, KEYS[j])
      {
        var key := KEYS[i];
        var field := if key in values then values[key] else Plain(Finite(0.0));
        if field.HugeInt? {
          raised := true;
          return;
        }
        if !field.s.Finite? || field.s.value < 0.0 {
          restored := restored.With(key, 0.0);
        } else {
          restored := restored.With(key, field.s.value);
        }
      }
      EveryKey();
      assert forall k: Key :: restored.At(KEYS[Index(k)]) == Counter(values, k);
      assert forall k: Key :: restored.At(k) == Counter(values, k) && !(k in values && values[k].HugeInt?);
      wh := restored;
    }
  }

  /** The constructor as the source has it: zeros, then load if the file is there. */
  method Start(dir: Option<Directory>, readable: bool) returns (r: Option<EnergyIntegrator>)
    ensures var boot := BootTotals(if dir == None then None else dir.value.persist, readable);
            && (r.Some? <==> boot.Some?)
            && (r.Some? ==> fresh(r.value) && r.value.dir == dir && r.value.wh == boot.value)
  {
    var e := new EnergyIntegrator(dir);
    if dir.Some? && dir.value.persist.Some? {
      var raised := e.LoadState(readable);
      if raised { return None; }
    }
    r := Some(e);
  }

  function Index(k: Key): nat {
    match k
    case BatteryIn => 0
    case BatteryOut => 1
    case Pv => 2
    case Load => 3
    case GridIn => 4
    case GridOut => 5
  }

  lemma EveryKey()
    ensures forall k: Key :: Index(k) < |KEYS| && KEYS[Index(k)] == k
  {}
}
