/** The ACPI battery driver as a function of its events: what each handler makes of the
    device's fields, its published properties and the legacy dictionary. */
module Battery {
  import opened Wrappers

  const TWO32 := 0x1_0000_0000
  type UInt32 = n: nat | n < TWO32

  function Wrap(n: int): UInt32 {
    n % TWO32
  }

  /** The bit of value `bit` (a power of two) of `n`. */
  predicate Bit(n: nat, bit: nat)
    requires bit > 0
  {
    n / bit % 2 == 1
  }

  /** What an ACPI method answers: a package of numbers and other objects. */
  datatype Object = Number(value: UInt32) | Other
  type Package = seq<Object>

  /** `GetValueFromArray`. */
  function GetValue(p: Package, index: nat): UInt32 {
    if index < |p| && p[index].Number? then p[index].value else TWO32 - 1
  }

  const BIF_LAST_FULL_CAPACITY := 2
  const BIF_CYCLE_COUNT := 13
  const BST_STATUS := 0
  const BST_RATE := 1
  const BST_CAPACITY := 2
  const BST_VOLTAGE := 3

  /** The driver reads the first four objects of a _BST package as numbers, unchecked. */
  predicate IsBst(p: Package) {
    |p| >= 4 && forall i :: 0 <= i < 4 ==> p[i].Number?
  }

  datatype Properties = Properties(
    installed: bool, charging: bool, external: bool, chargeCapable: bool, fullyCharged: bool,
    current: UInt32, max: UInt32, voltage: UInt32, amperage: UInt32, cycles: UInt32,
    timeRemaining: UInt32, instantAmperage: Option<UInt32>)

  datatype Legacy = Legacy(
    acInstalled: bool, batteryInstalled: bool, charging: bool,
    current: UInt32, capacity: UInt32, voltage: UInt32, amperage: UInt32, cycles: UInt32)

  /** The legacy dictionary that the properties call for. */
  function LegacyOf(p: Properties): Legacy {
    Legacy(p.external, p.installed, p.charging, p.current, p.max, p.voltage, p.amperage, p.cycles)
  }

  /** `sta` is the manager's recorded _STA; the rest are fields of the device. */
  datatype Device = Device(
    sta: UInt32,
    batteryPresent: bool, acConnected: bool, acChargeCapable: bool,
    pollArmed: bool, readArmed: bool, pollingInterval: UInt32, overridden: bool,
    maxCapacity: UInt32, currentCapacity: UInt32, currentRate: UInt32, averageRate: UInt32,
    status: UInt32, cycleCount: UInt32,
    props: Properties, legacy: Legacy)

  const BLANK := Properties(false, false, false, false, false, 0, 0, 0, 0, 0, 0, None)

  /** A device as it is allocated. */
  const NEW_DEVICE := Device(0, false, false, false, false, false, 0, false, 0, 0, 0, 0, 0, 0, BLANK, LegacyOf(BLANK))

  // ----- the handlers of answers -----

  function Rebuilt(d: Device): Device {
    d.(legacy := LegacyOf(d.props))
  }

  function Cleared(d: Device): Device {
    Rebuilt(d.(batteryPresent := false, acConnected := false, acChargeCapable := false,
               props := d.props.(installed := false, charging := false, current := 0, max := 0, timeRemaining := 0,
                                 amperage := 0, voltage := 0, cycles := 0, instantAmperage := None)))
  }

  function WithSta(d: Device, sta: UInt32): Device {
    d.(sta := sta, batteryPresent := Bit(sta, 0x10), props := d.props.(installed := Bit(sta, 0x10)))
  }

  function WithBif(d: Device, bif: Package): Device {
    var max := GetValue(bif, BIF_LAST_FULL_CAPACITY);
    var cycles := if |bif| > 13 then GetValue(bif, BIF_CYCLE_COUNT) else 0;
    d.(maxCapacity := max, cycleCount := cycles, props := d.props.(max := max, cycles := cycles))
  }

  /** The rate that counts: a negative 16-bit rate is turned round, and for no rate half
      the capacity is taken. */
  function EffectiveRate(raw: UInt32, maxCapacity: UInt32): UInt32 {
    var rate := if Bit(raw, 0x8000) then Wrap(0xFFFF - raw) else raw;
    if rate == 0 then maxCapacity / 2 else rate
  }

  function Average(average: UInt32, rate: UInt32): UInt32 {
    if average != 0 then Wrap(average + rate) / 2 else rate
  }

  function TimeRemaining(capacity: int, rate: UInt32): UInt32 {
    if rate != 0 then Wrap(60 * capacity) / rate else 0xffff
  }

  /** The fields and rates that a _BST sample gives. */
  function Sampled(d: Device, bst: Package): Device
    requires IsBst(bst)
  {
    var rate := EffectiveRate(bst[BST_RATE].value, d.maxCapacity);
    var status := bst[BST_STATUS].value;
    d.(currentRate := rate, currentCapacity := bst[BST_CAPACITY].value, status := status,
       averageRate := if status != d.status then 0 else Average(d.averageRate, rate),
       props := d.props.(current := bst[BST_CAPACITY].value, voltage := bst[BST_VOLTAGE].value))
  }

  /** The properties by battery state. */
  function ByStatus(d: Device): Device {
    var p := d.props;
    if Bit(d.status, 1) && Bit(d.status, 2) then
      d.(acConnected := true, acChargeCapable := false,
         props := p.(fullyCharged := false, charging := false, external := true, chargeCapable := false,
                     amperage := 0, instantAmperage := Some(0), timeRemaining := 0))
    else if Bit(d.status, 1) then
      d.(acConnected := false, acChargeCapable := false,
         props := p.(fullyCharged := false, charging := false, external := false, chargeCapable := false,
                     amperage := Wrap(0 - d.averageRate as int), instantAmperage := Some(Wrap(0 - d.currentRate as int)),
                     timeRemaining := TimeRemaining(d.currentCapacity, d.averageRate)))
    else if Bit(d.status, 2) then
      d.(acConnected := true, acChargeCapable := true,
         props := p.(fullyCharged := false, charging := true, external := true, chargeCapable := true,
                     amperage := d.averageRate, instantAmperage := Some(d.currentRate),
                     timeRemaining := TimeRemaining(d.maxCapacity - d.currentCapacity, d.averageRate)))
    else
      d.(acConnected := true, acChargeCapable := true, currentCapacity := d.maxCapacity,
         props := p.(fullyCharged := true, charging := false, external := true, chargeCapable := true,
                     amperage := 0, instantAmperage := Some(0), timeRemaining := 0xffff, current := d.maxCapacity))
  }

  /** Quick polling for a battery below five per cent that is not discharging. */
  function Paced(d: Device): Device {
    if d.overridden || d.maxCapacity == 0 then d
    else d.(pollingInterval := if Wrap(100 * d.currentCapacity) / d.maxCapacity < 5 && d.acConnected then 1 else 0)
  }

  function WithBst(d: Device, bst: Package): Device
    requires IsBst(bst)
  {
    Rebuilt(Paced(ByStatus(Sampled(d, bst))).(readArmed := false))
  }

  // ----- polls and events -----

  /** The answers of one poll; None where the evaluation fails. */
  datatype Answers = Answers(sta: Option<UInt32>, bif: Option<Package>, bst: Option<Package>) {
    predicate Valid() {
      bst.Some? ==> IsBst(bst.value)
    }
  }

  function Asked(d: Device, sta: Option<UInt32>): Device {
    if sta.Some? then WithSta(d, sta.value) else d
  }

  function Informed(d: Device, bif: Option<Package>): Device {
    if bif.Some? then WithBif(d, bif.value) else d
  }

  /** `pollBatteryState` on the existing path. */
  function Polled(d: Device, a: Answers): Device
    requires a.Valid()
  {
    var asked := Asked(d, a.sta);
    var read :=
      if asked.batteryPresent then
        var informed := Informed(asked, a.bif);
        if a.bst.Some? then WithBst(informed, a.bst.value) else informed
      else Cleared(asked.(props := asked.props.(fullyCharged := false)));
    read.(pollArmed := true)
  }

  /** On the new path the timers are set anew first. */
  function PolledNew(d: Device, a: Answers): Device
    requires a.Valid()
  {
    Polled(d.(pollArmed := false, readArmed := true), a)
  }

  datatype Event =
    | PollTimeOut(a: Answers)
    | ReadTimeOut(a: Answers)
    | Message(sta: Option<UInt32>, a: Answers)  // a device notification; `sta` is the manager's own evaluation
    | PowerOn(a: Answers)
    | SetPolling(milliSeconds: int)

  predicate ValidEvent(e: Event) {
    e.SetPolling? || e.a.Valid()
  }

  function Started(override: Option<UInt32>, a: Answers): Device
    requires a.Valid()
  {
    var d := NEW_DEVICE.(pollingInterval := override.GetOr(0), overridden := override.Some?);
    PolledNew(Cleared(d), a)
  }

  /** A timer that runs out is no longer armed when its handler starts.  The handler of a
      removal does not touch the recorded _STA.  Waking takes the existing path: the
      number passed is 1, and the new path has number 2. */
  function Handled(d: Device, e: Event): Device
    requires ValidEvent(e)
  {
    match e
    case PollTimeOut(a) => Polled(d.(pollArmed := false), a)
    case ReadTimeOut(a) => Polled(d.(readArmed := false), a)
    case PowerOn(a) => Polled(d, a)
    case SetPolling(ms) => if ms > 0 && !d.overridden then d.(pollingInterval := 0) else d
    case Message(sta, a) =>
      if sta.None? then d
      else if sta.value == d.sta then Polled(d, a)
      else if Bit(sta.value, 0x10) then PolledNew(d, a)
      else Cleared(d)
  }

  // ----- what every run keeps -----

  predicate Paces(d: Device) {
    !d.overridden ==> d.pollingInterval in {0, 1}
  }

  /** Charging needs a battery and external power. */
  predicate Core(d: Device) {
    && Paces(d)
    && (d.batteryPresent ==> Bit(d.sta, 0x10))
    && (d.props.charging ==> d.props.external && d.acConnected && d.batteryPresent)
    && (d.acChargeCapable ==> d.acConnected)
  }

  /** And the poll timer is armed after each handler. */
  predicate Inv(d: Device) {
    Core(d) && d.pollArmed
  }

  /** What a finished reading leaves: the legacy dictionary agrees with the properties, and
      a full battery has its whole capacity. */
  predicate Settled(d: Device) {
    && d.legacy == LegacyOf(d.props)
    && (d.props.fullyCharged ==> d.props.current == d.props.max)
  }

  lemma ClearedCore(d: Device)
    requires Paces(d)
    ensures Core(Cleared(d)) && Settled(Cleared(d)) && Cleared(d).pollArmed == d.pollArmed
  {
  }

  lemma SampledFacts(d: Device, bst: Package)
    requires IsBst(bst)
    ensures var s := Sampled(d, bst);
            && s.sta == d.sta && s.batteryPresent == d.batteryPresent && s.overridden == d.overridden
            && s.pollingInterval == d.pollingInterval && s.maxCapacity == d.maxCapacity && s.props.max == d.props.max
  {
    hide EffectiveRate, Average;
  }

  lemma ByStatusFacts(d: Device)
    ensures var s := ByStatus(d);
            && s.sta == d.sta && s.batteryPresent == d.batteryPresent && s.overridden == d.overridden
            && s.pollingInterval == d.pollingInterval && s.maxCapacity == d.maxCapacity && s.props.max == d.props.max
            && (s.props.charging ==> s.props.external && s.acConnected) && (s.acChargeCapable ==> s.acConnected)
            && (s.props.fullyCharged ==> s.props.current == s.maxCapacity)
  {
    hide Bit, TimeRemaining, Wrap;
  }

  lemma PacedFacts(d: Device)
    ensures Paced(d) == d.(pollingInterval := Paced(d).pollingInterval) && (Paces(d) ==> Paces(Paced(d)))
  {
    hide Wrap;
  }

  lemma BstCore(d: Device, bst: Package)
    requires IsBst(bst) && Paces(d) && d.batteryPresent && Bit(d.sta, 0x10)
    ensures var d' := WithBst(d, bst);
            Core(d') && d'.sta == d.sta && d'.batteryPresent && !d'.readArmed
  {
    hide Bit, Sampled, ByStatus, Paced;
    SampledFacts(d, bst);
    ByStatusFacts(Sampled(d, bst));
    PacedFacts(ByStatus(Sampled(d, bst)));
  }

  /** The published capacity agrees with the field as soon as _BIF has been answered. */
  lemma BstSettles(d: Device, bst: Package)
    requires IsBst(bst) && d.props.max == d.maxCapacity
    ensures Settled(WithBst(d, bst))
  {
    hide Bit, Sampled, ByStatus, Paced;
    SampledFacts(d, bst);
    ByStatusFacts(Sampled(d, bst));
    PacedFacts(ByStatus(Sampled(d, bst)));
  }

  /** A poll leaves the timer armed; and if the battery is absent, or both packages were
      answered, it leaves the device settled. */
  lemma PolledInv(d: Device, a: Answers)
    requires a.Valid() && Core(d.(pollArmed := true))
    ensures Inv(Polled(d, a))
    ensures !Polled(d, a).batteryPresent || (a.bif.Some? && a.bst.Some?) ==> Settled(Polled(d, a))
  {
    hide Bit, WithBst;
    var asked := Asked(d, a.sta);
    if asked.batteryPresent {
      var informed := Informed(asked, a.bif);
      assert Bit(informed.sta, 0x10) && Paces(informed);
      if a.bst.Some? {
        BstCore(informed, a.bst.value);
        if a.bif.Some? {
          BstSettles(informed, a.bst.value);
        }
      }
    } else {
      ClearedCore(asked.(props := asked.props.(fullyCharged := false)));
    }
  }

  lemma HandledInv(d: Device, e: Event)
    requires Inv(d) && ValidEvent(e)
    ensures Inv(Handled(d, e))
  {
    match e
    case PollTimeOut(a) => PolledInv(d.(pollArmed := false), a);
    case ReadTimeOut(a) => PolledInv(d.(readArmed := false), a);
    case PowerOn(a) => PolledInv(d, a);
    case SetPolling(ms) =>
    case Message(sta, a) =>
      PolledInv(d, a);
      PolledInv(d.(pollArmed := false, readArmed := true), a);
      ClearedCore(d);
  }

  function Run(d: Device, es: seq<Event>): Device
    requires forall i :: 0 <= i < |es| ==> ValidEvent(es[i])
    decreases |es|
  {
    if es == [] then d else Run(Handled(d, es[0]), es[1..])
  }

  lemma {:induction false} RunInv(d: Device, es: seq<Event>)
    requires Inv(d) && forall i :: 0 <= i < |es| ==> ValidEvent(es[i])
    ensures Inv(Run(d, es))
    decreases |es|
  {
    if es != [] {
      HandledInv(d, es[0]);
      RunInv(Handled(d, es[0]), es[1..]);
    }
  }

  /** In every state that the driver reaches after its start. */
  lemma AllRunsHold(override: Option<UInt32>, a: Answers, es: seq<Event>)
    requires a.Valid() && forall i :: 0 <= i < |es| ==> ValidEvent(es[i])
    ensures Inv(Run(Started(override, a), es))
  {
    var d := NEW_DEVICE.(pollingInterval := override.GetOr(0), overridden := override.Some?);
    ClearedCore(d);
    PolledInv(Cleared(d).(pollArmed := false, readArmed := true), a);
    RunInv(Started(override, a), es);
  }

  predicate SameInfo(bif: Package, p: Properties) {
    && GetValue(bif, BIF_LAST_FULL_CAPACITY) == p.max
    && (if |bif| > 13 then GetValue(bif, BIF_CYCLE_COUNT) else 0) == p.cycles
  }

  lemma InformedProps(d: Device, bif: Option<Package>)
    ensures var n := Informed(d, bif);
            && n.legacy == d.legacy && n.props == d.props.(max := n.props.max, cycles := n.props.cycles)
            && (n.props.max == d.props.max && n.props.cycles == d.props.cycles
                <==> bif.Some? ==> SameInfo(bif.value, d.props))
  {
    hide GetValue;
  }

  lemma SameLegacy(p: Properties, installed: bool, max: UInt32, cycles: UInt32)
    ensures LegacyOf(p) == LegacyOf(p.(installed := installed, max := max, cycles := cycles))
       <==> p.installed == installed && p.max == max && p.cycles == cycles
  {
  }

  lemma RebuiltAgrees(d: Device)
    ensures Cleared(d).legacy == LegacyOf(Cleared(d).props)
  {
  }

  lemma BstAgrees(d: Device, bst: Package)
    requires IsBst(bst)
    ensures WithBst(d, bst).legacy == LegacyOf(WithBst(d, bst).props)
  {
    hide ByStatus, Paced, Sampled;
  }

  /** The legacy dictionary, in step before a poll, is in step after it if and only if the
      battery is absent, or _BST was answered, or nothing that the dictionary shows has
      changed: a battery that was there before, the same capacity and cycle count. */
  lemma HalfPolled(d: Device, a: Answers)
    requires a.Valid() && d.legacy == LegacyOf(d.props)
    ensures var d' := Polled(d, a);
            d'.legacy == LegacyOf(d'.props)
            <==> || !Asked(d, a.sta).batteryPresent || a.bst.Some?
                 || (&& (a.sta.Some? ==> d.props.installed)
                     && (a.bif.Some? ==> SameInfo(a.bif.value, d.props)))
  {
    hide Bit, WithBst, GetValue, IsBst, Informed, SameInfo;
    var asked := Asked(d, a.sta);
    if !asked.batteryPresent {
      hide Asked;
      RebuiltAgrees(asked.(props := asked.props.(fullyCharged := false)));
    } else if a.bst.Some? {
      hide Asked;
      BstAgrees(Informed(asked, a.bif), a.bst.value);
    } else {
      var n := Informed(asked, a.bif).props;
      InformedProps(asked, a.bif);
      SameLegacy(d.props, asked.props.installed, n.max, n.cycles);
    }
  }

  /** The published amperage read as a signed number. */
  function Signed(n: UInt32): int {
    if n < 0x8000_0000 then n else n - TWO32
  }

  lemma NegatedIsNegative(n: nat)
    requires n < 0x8000_0000
    ensures Signed(Wrap(0 - n as int)) == 0 - n as int
  {
  }

  /** The amperage has a direction: what flows out is negative, and only without external
      power; what flows in is not. */
  predicate Directed(d: Device) {
    && (Signed(d.props.amperage) < 0 ==> !d.props.external && !d.props.charging)
    && (d.props.charging ==> Signed(d.props.amperage) == d.averageRate)
    && (!d.props.external ==> Signed(d.props.amperage) == 0 - d.averageRate as int)
  }

  lemma ByStatusIsDirected(d: Device)
    requires d.averageRate < 0x8000_0000
    ensures Directed(ByStatus(d)) && ByStatus(d).averageRate == d.averageRate
  {
    hide Bit, TimeRemaining, Wrap;
    NegatedIsNegative(d.averageRate);
  }

  lemma AverageBound(average: UInt32, rate: UInt32)
    requires average < 0x8000_0000 && rate < 0x8000_0000
    ensures Average(average, rate) < 0x8000_0000
  {
  }

  /** After a sample with a 16-bit rate. */
  lemma AmperageHasDirection(d: Device, bst: Package)
    requires IsBst(bst) && ShortRate(bst) && d.averageRate < 0x8000_0000
    ensures Directed(WithBst(d, bst))
  {
    hide Bit, EffectiveRate, Average, ByStatus, Paced;
    EffectiveRateBound(bst[BST_RATE].value, d.maxCapacity);
    AverageBound(d.averageRate, EffectiveRate(bst[BST_RATE].value, d.maxCapacity));
    ByStatusIsDirected(Sampled(d, bst));
    PacedFacts(ByStatus(Sampled(d, bst)));
  }

  // ----- the average rate -----

  /** Rates that sixteen bits hold. */
  predicate ShortRate(bst: Package)
    requires IsBst(bst)
  {
    bst[BST_RATE].value < 0x1_0000
  }

  lemma EffectiveRateBound(raw: UInt32, maxCapacity: UInt32)
    requires raw < 0x1_0000
    ensures EffectiveRate(raw, maxCapacity) < 0x8000_0000
  {
  }

  /** The mean of two rates lies between them, if and only if their sum does not wrap. */
  lemma MeanIsBetween(average: UInt32, rate: UInt32)
    requires average != 0
    ensures var mean := Average(average, rate);
            (average <= mean <= rate || rate <= mean <= average) <==> average + rate < TWO32
  {
  }

  /** The average is zero, or lies between the least and the greatest of the rates seen
      since the battery last changed its status. */
  ghost predicate Bounded(average: UInt32, rates: seq<UInt32>) {
    && average < 0x8000_0000
    && (average != 0 ==> (exists r :: r in rates && r <= average) && (exists r :: r in rates && average <= r))
  }

  /** The rates seen since the last status change, after one more sample. */
  function RatesAfter(status: UInt32, maxCapacity: UInt32, rates: seq<UInt32>, bst: Package): seq<UInt32>
    requires IsBst(bst)
  {
    if bst[BST_STATUS].value != status then [] else rates + [EffectiveRate(bst[BST_RATE].value, maxCapacity)]
  }

  lemma FirstRate(rate: UInt32)
    ensures Average(0, rate) == rate
  {
  }

  lemma SampledRate(d: Device, bst: Package)
    requires IsBst(bst)
    ensures var rate := EffectiveRate(bst[BST_RATE].value, d.maxCapacity);
            Sampled(d, bst).averageRate == if bst[BST_STATUS].value != d.status then 0 else Average(d.averageRate, rate)
  {
    hide EffectiveRate, Average;
  }

  lemma LaterStepsKeepRate(d: Device)
    ensures ByStatus(d).averageRate == Paced(d).averageRate == d.averageRate
  {
    hide Bit, TimeRemaining, Wrap;
  }

  lemma SampleFields(d: Device, bst: Package)
    requires IsBst(bst)
    ensures var rate := EffectiveRate(bst[BST_RATE].value, d.maxCapacity);
            WithBst(d, bst).averageRate == if bst[BST_STATUS].value != d.status then 0 else Average(d.averageRate, rate)
  {
    hide Sampled, ByStatus, Paced, EffectiveRate, Average;
    SampledRate(d, bst);
    LaterStepsKeepRate(Sampled(d, bst));
    LaterStepsKeepRate(ByStatus(Sampled(d, bst)));
  }

  lemma SampleIsBounded(d: Device, rates: seq<UInt32>, bst: Package)
    requires IsBst(bst) && ShortRate(bst) && Bounded(d.averageRate, rates)
    ensures Bounded(WithBst(d, bst).averageRate, RatesAfter(d.status, d.maxCapacity, rates, bst))
  {
    hide Bit, EffectiveRate, Average, WithBst;
    SampleFields(d, bst);
    var rate := EffectiveRate(bst[BST_RATE].value, d.maxCapacity);
    var all := RatesAfter(d.status, d.maxCapacity, rates, bst);
    EffectiveRateBound(bst[BST_RATE].value, d.maxCapacity);
    if bst[BST_STATUS].value == d.status {
      assert rate in all;
      FirstRate(rate);
      if d.averageRate != 0 {
        MeanIsBetween(d.averageRate, rate);
        var low :| low in rates && low <= d.averageRate;
        var high :| high in rates && d.averageRate <= high;
        assert low in all && high in all;
      }
    }
  }

  /** The rates after a poll: it brings a sample if the battery is present and answers. */
  function RatesPolled(d: Device, a: Answers, rates: seq<UInt32>): seq<UInt32>
    requires a.Valid()
  {
    var present := if a.sta.Some? then Bit(a.sta.value, 0x10) else d.batteryPresent;
    var maxCapacity := if a.bif.Some? then GetValue(a.bif.value, BIF_LAST_FULL_CAPACITY) else d.maxCapacity;
    if present && a.bst.Some? then RatesAfter(d.status, maxCapacity, rates, a.bst.value) else rates
  }

  function RatesHandled(d: Device, e: Event, rates: seq<UInt32>): seq<UInt32>
    requires ValidEvent(e)
  {
    match e
    case SetPolling(_) => rates
    case Message(sta, a) =>
      if sta.Some? && (sta.value == d.sta || Bit(sta.value, 0x10)) then RatesPolled(d, a, rates) else rates
    case _ => RatesPolled(d, e.a, rates)
  }

  /** The rates seen since the last status change, over a run. */
  function RatesOver(d: Device, rates: seq<UInt32>, es: seq<Event>): seq<UInt32>
    requires forall i :: 0 <= i < |es| ==> ValidEvent(es[i])
    decreases |es|
  {
    if es == [] then rates
    else RatesOver(Handled(d, es[0]), RatesHandled(d, es[0], rates), es[1..])
  }

  predicate ShortEvent(e: Event) {
    ValidEvent(e) && (e.SetPolling? || (e.a.bst.Some? ==> ShortRate(e.a.bst.value)))
  }

  lemma PolledRate(d: Device, a: Answers, rates: seq<UInt32>)
    requires a.Valid() && (a.bst.Some? ==> ShortRate(a.bst.value)) && Bounded(d.averageRate, rates)
    ensures Bounded(Polled(d, a).averageRate, RatesPolled(d, a, rates))
  {
    hide Bit, EffectiveRate, WithBst, Bounded;
    var informed := Informed(Asked(d, a.sta), a.bif);
    if informed.batteryPresent && a.bst.Some? {
      SampleIsBounded(informed, rates, a.bst.value);
    }
  }

  /** The timers have no part in it. */
  lemma TimersDoNotCount(d: Device, p: bool, r: bool, a: Answers, rates: seq<UInt32>)
    requires a.Valid()
    ensures RatesPolled(d.(pollArmed := p, readArmed := r), a, rates) == RatesPolled(d, a, rates)
  {
    hide Bit, RatesAfter, GetValue, IsBst;
  }

  lemma HandledRate(d: Device, e: Event, rates: seq<UInt32>)
    requires ShortEvent(e) && Bounded(d.averageRate, rates)
    ensures Bounded(Handled(d, e).averageRate, RatesHandled(d, e, rates))
  {
    hide Polled, RatesPolled, Bounded, Bit;
    if !e.SetPolling? {
      var afresh := d.(pollArmed := false, readArmed := true);
      PolledRate(d, e.a, rates);
      PolledRate(afresh, e.a, rates);
      PolledRate(d.(pollArmed := false), e.a, rates);
      PolledRate(d.(readArmed := false), e.a, rates);
      TimersDoNotCount(d, false, true, e.a, rates);
      TimersDoNotCount(d, false, d.readArmed, e.a, rates);
      TimersDoNotCount(d, d.pollArmed, false, e.a, rates);
    }
  }

  /** Over every run of events whose samples have 16-bit rates. */
  lemma {:induction false} AverageOverRuns(d: Device, rates: seq<UInt32>, es: seq<Event>)
    requires forall i :: 0 <= i < |es| ==> ValidEvent(es[i]) && ShortEvent(es[i])
    requires Bounded(d.averageRate, rates)
    ensures Bounded(Run(d, es).averageRate, RatesOver(d, rates, es))
    decreases |es|
  {
    if es != [] {
      HandledRate(d, es[0], rates);
      AverageOverRuns(Handled(d, es[0]), RatesHandled(d, es[0], rates), es[1..]);
    }
  }
}
