/** What the battery driver publishes, in the numbers of the packages: the objects of _BIF
    and _BST by their places, the status by its bits. */
module BatteryLaws {
  import opened Wrappers
  import opened Battery

  /** Bit 0 of the battery state. */
  predicate Discharges(status: UInt32) {
    status % 2 == 1
  }

  /** Bit 1 of the battery state. */
  predicate Charges(status: UInt32) {
    status / 2 % 2 == 1
  }

  /** Bit 4 of _STA. */
  predicate IsThere(sta: UInt32) {
    sta / 16 % 2 == 1
  }

  // ----- a sample -----

  /** Neither the steps after the sample nor the branches change these. */
  lemma SampleStays(d: Device)
    ensures var s := ByStatus(d);
            && s.status == d.status && s.currentRate == d.currentRate && s.averageRate == d.averageRate
            && s.maxCapacity == d.maxCapacity && s.cycleCount == d.cycleCount && s.batteryPresent == d.batteryPresent
            && s.sta == d.sta && s.pollArmed == d.pollArmed && s.overridden == d.overridden
            && s.pollingInterval == d.pollingInterval
            && s.props.voltage == d.props.voltage && s.props.installed == d.props.installed
            && s.props.max == d.props.max && s.props.cycles == d.props.cycles
  {
    hide Bit, TimeRemaining, Wrap;
  }

  lemma PacedStays(d: Device)
    ensures Paced(d) == d.(pollingInterval := Paced(d).pollingInterval)
  {
    hide Wrap;
  }

  lemma SampledFields(d: Device, bst: Package)
    requires IsBst(bst)
    ensures var s := Sampled(d, bst);
            && s.status == bst[0].value && s.currentCapacity == bst[2].value
            && s.currentRate == EffectiveRate(bst[1].value, d.maxCapacity)
            && s.props == d.props.(current := bst[2].value, voltage := bst[3].value)
            && s.maxCapacity == d.maxCapacity && s.cycleCount == d.cycleCount && s.batteryPresent == d.batteryPresent
            && s.sta == d.sta && s.pollArmed == d.pollArmed && s.overridden == d.overridden
            && s.pollingInterval == d.pollingInterval
  {
    hide EffectiveRate, Average;
  }

  lemma StatusNumbers(d: Device)
    ensures var s := ByStatus(d);
            && s.props.current == (if d.status % 2 == 0 && d.status / 2 % 2 == 0 then d.maxCapacity else d.props.current)
            && s.currentCapacity == (if d.status % 2 == 0 && d.status / 2 % 2 == 0 then d.maxCapacity else d.currentCapacity)
  {
    hide TimeRemaining, Wrap;
  }

  lemma StatusTime(d: Device)
    ensures var t, out, into := ByStatus(d).props.timeRemaining, d.status % 2 == 1, d.status / 2 % 2 == 1;
            t == if out && into then 0
                 else if out then TimeRemaining(d.currentCapacity, d.averageRate)
                 else if into then TimeRemaining(d.maxCapacity - d.currentCapacity, d.averageRate)
                 else 0xffff
  {
    hide TimeRemaining, Wrap;
  }

  /** `WithBst` in two steps: what the status calls for, and the rest. */
  lemma Steps(d: Device, bst: Package)
    requires IsBst(bst)
    ensures var s := ByStatus(Sampled(d, bst));
            WithBst(d, bst) == s.(pollingInterval := Paced(s).pollingInterval, readArmed := false, legacy := LegacyOf(s.props))
  {
    hide Sampled, ByStatus, Paced;
    PacedStays(ByStatus(Sampled(d, bst)));
  }

  /** The battery state by its two bits: neither is a full battery, both are an error. */
  lemma StatusIsPublished(d: Device, bst: Package)
    requires IsBst(bst)
    ensures var p, out, into := WithBst(d, bst).props, Discharges(bst[0].value), Charges(bst[0].value);
            && (p.charging <==> into && !out)
            && (p.external <==> !out || into)
            && (p.chargeCapable <==> !out)
            && (p.fullyCharged <==> !out && !into)
            && WithBst(d, bst).acConnected == p.external && WithBst(d, bst).acChargeCapable == p.chargeCapable
  {
    hide Sampled, Paced, TimeRemaining, Wrap;
    Steps(d, bst);
    SampledFields(d, bst);
  }

  /** The numbers of the package, by their places. */
  lemma NumbersArePublished(d: Device, bst: Package)
    requires IsBst(bst)
    ensures var d', full := WithBst(d, bst), !Discharges(bst[0].value) && !Charges(bst[0].value);
            && d'.status == bst[0].value
            && d'.props.voltage == bst[3].value
            && d'.props.current == (if full then d.maxCapacity else bst[2].value)
            && d'.currentCapacity == d'.props.current
  {
    hide Sampled, Paced, ByStatus;
    Steps(d, bst);
    SampledFields(d, bst);
    SampleStays(Sampled(d, bst));
    StatusNumbers(Sampled(d, bst));
  }

  /** The rest of the state is not touched. */
  lemma RestIsKept(d: Device, bst: Package)
    requires IsBst(bst)
    ensures var d' := WithBst(d, bst);
            && d'.sta == d.sta && d'.batteryPresent == d.batteryPresent && d'.maxCapacity == d.maxCapacity
            && d'.cycleCount == d.cycleCount && d'.overridden == d.overridden && d'.pollArmed == d.pollArmed
            && d'.props.installed == d.props.installed && d'.props.max == d.props.max && d'.props.cycles == d.props.cycles
            && !d'.readArmed
  {
    hide Sampled, ByStatus, Paced;
    Steps(d, bst);
    SampledFields(d, bst);
    SampleStays(Sampled(d, bst));
  }

  /** The legacy dictionary, entry by entry. */
  lemma LegacyIsPublished(d: Device)
    ensures var p, l := d.props, Rebuilt(d).legacy;
            && l.acInstalled == p.external && l.batteryInstalled == p.installed && l.charging == p.charging
            && l.current == p.current && l.capacity == p.max && l.voltage == p.voltage
            && l.amperage == p.amperage && l.cycles == p.cycles
  {
  }

  lemma Negated(n: UInt32)
    ensures (Wrap(0 - n as int) + n) % 0x1_0000_0000 == 0
  {
  }

  /** The sign of the amperage is that of the direction: negative for a battery that
      discharges, and none at all when it does neither or both. */
  lemma AmperageIsPublished(d: Device, bst: Package)
    requires IsBst(bst)
    ensures var d', out, into := WithBst(d, bst), Discharges(bst[0].value), Charges(bst[0].value);
            && (out == into ==> d'.props.amperage == 0 && d'.props.instantAmperage == Some(0))
            && (into && !out ==> d'.props.amperage == d'.averageRate && d'.props.instantAmperage == Some(d'.currentRate))
            && (out && !into ==>
                  && (d'.props.amperage + d'.averageRate) % 0x1_0000_0000 == 0
                  && d'.props.instantAmperage.Some? && (d'.props.instantAmperage.value + d'.currentRate) % 0x1_0000_0000 == 0)
  {
    hide Sampled, Paced, TimeRemaining;
    Steps(d, bst);
    SampledFields(d, bst);
    Negated(Sampled(d, bst).averageRate);
    Negated(Sampled(d, bst).currentRate);
  }

  // ----- rates and times -----

  /** The rate that counts, for the 16-bit numbers that the firmware gives: a negative one
      is turned round, and for none at all half the capacity is taken. */
  lemma RateIsTaken(d: Device, bst: Package)
    requires IsBst(bst) && bst[1].value <= 0xFFFF
    ensures var raw, rate := bst[1].value, WithBst(d, bst).currentRate;
            rate == if raw == 0 || raw == 0xFFFF then d.maxCapacity / 2
                    else if raw < 0x8000 then raw
                    else 0xFFFF - raw
  {
    hide Sampled, ByStatus, Paced;
    Steps(d, bst);
    SampledFields(d, bst);
    SampleStays(Sampled(d, bst));
  }

  /** The average starts anew at zero when the status changes; from zero it takes the rate
      itself; and from then on it is the mean of the last average and the rate. */
  lemma AverageIsTaken(d: Device, bst: Package)
    requires IsBst(bst)
    ensures var d' := WithBst(d, bst);
            && (bst[0].value != d.status ==> d'.averageRate == 0)
            && (bst[0].value == d.status && d.averageRate == 0 ==> d'.averageRate == d'.currentRate)
            && (bst[0].value == d.status && d.averageRate != 0 && d.averageRate + d'.currentRate < 0x1_0000_0000 ==>
                  2 * d'.averageRate <= d.averageRate + d'.currentRate < 2 * d'.averageRate + 2)
  {
    hide ByStatus, Paced, EffectiveRate;
    Steps(d, bst);
    SampleStays(Sampled(d, bst));
  }

  lemma NotWrapped(n: nat)
    requires n < 0x1_0000_0000
    ensures Wrap(n) == n
  {
  }

  lemma Quotient(n: nat, r: nat)
    requires r > 0
    ensures n / r * r <= n < (n / r + 1) * r
  {
    assert n == n / r * r + n % r;
  }

  lemma TimeIsQuotient(capacity: int, rate: UInt32)
    ensures rate == 0 ==> TimeRemaining(capacity, rate) == 0xffff
    ensures rate != 0 && 0 <= 60 * capacity < 0x1_0000_0000 ==>
              TimeRemaining(capacity, rate) * rate <= 60 * capacity < (TimeRemaining(capacity, rate) + 1) * rate
  {
    if rate != 0 && 0 <= 60 * capacity < 0x1_0000_0000 {
      var n: nat := 60 * capacity;
      NotWrapped(n);
      assert TimeRemaining(capacity, rate) == n / rate;
      hide TimeRemaining, Wrap;
      Quotient(n, rate);
    }
  }

  /** The time remaining in minutes: the capacity that is left to lose or to gain, at the
      average rate, for an hour of 60; unknown (0xffff) without a rate or when full. */
  lemma TimeIsPublished(d: Device, bst: Package)
    requires IsBst(bst)
    ensures var d', out, into := WithBst(d, bst), Discharges(bst[0].value), Charges(bst[0].value);
            var t, rate := d'.props.timeRemaining, d'.averageRate;
            && (out && into ==> t == 0)
            && (!out && !into ==> t == 0xffff)
            && (out != into && rate == 0 ==> t == 0xffff)
            && (out && !into && rate != 0 && 60 * bst[2].value < 0x1_0000_0000 ==>
                  t * rate <= 60 * bst[2].value < (t + 1) * rate)
            && (into && !out && rate != 0 && bst[2].value <= d.maxCapacity && 60 * (d.maxCapacity - bst[2].value) < 0x1_0000_0000 ==>
                  t * rate <= 60 * (d.maxCapacity - bst[2].value) < (t + 1) * rate)
  {
    hide Sampled, Paced, TimeRemaining, ByStatus;
    var s := Sampled(d, bst);
    Steps(d, bst);
    SampledFields(d, bst);
    SampleStays(s);
    StatusTime(s);
    TimeIsQuotient(bst[2].value, s.averageRate);
    TimeIsQuotient(d.maxCapacity - bst[2].value, s.averageRate);
  }

  lemma MoreTimes(a: nat, b: nat, n: nat)
    requires a <= b
    ensures a * n <= b * n
  {
  }

  lemma BelowFivePerCent(current: nat, max: nat)
    requires max > 0
    ensures 100 * current / max < 5 <==> 100 * current < 5 * max
  {
    Quotient(100 * current, max);
    if 100 * current / max >= 5 {
      MoreTimes(5, 100 * current / max, max);
    } else {
      MoreTimes(100 * current / max + 1, 5, max);
    }
  }

  /** Quick polling, index 1, is for a battery below five per cent with external power. */
  lemma IntervalIsChosen(d: Device, bst: Package)
    requires IsBst(bst)
    ensures var d' := WithBst(d, bst);
            && (d.overridden || d.maxCapacity == 0 ==> d'.pollingInterval == d.pollingInterval)
            && (!d.overridden && d.maxCapacity != 0 && 100 * d'.props.current < 0x1_0000_0000 ==>
                  d'.pollingInterval == if 100 * d'.props.current < 5 * d.maxCapacity && d'.props.external then 1 else 0)
  {
    hide Sampled, ByStatus;
    Steps(d, bst);
    SampledFields(d, bst);
    SampleStays(Sampled(d, bst));
    StatusIsPublished(d, bst);
    NumbersArePublished(d, bst);
    if d.maxCapacity != 0 {
      BelowFivePerCent(WithBst(d, bst).props.current, d.maxCapacity);
    }
  }

  // ----- polls and notifications -----

  lemma AskedFields(d: Device, sta: Option<UInt32>)
    ensures var s := Asked(d, sta);
            && s.sta == sta.GetOr(d.sta) && s.batteryPresent == (if sta.Some? then IsThere(sta.value) else d.batteryPresent)
            && (sta.Some? ==> s.props.installed == IsThere(sta.value))
            && s == d.(sta := s.sta, batteryPresent := s.batteryPresent, props := d.props.(installed := s.props.installed))
  {
  }

  lemma BifNumbers(bif: Package)
    ensures |bif| > 2 && bif[2].Number? ==> GetValue(bif, BIF_LAST_FULL_CAPACITY) == bif[2].value
    ensures |bif| > 13 && bif[13].Number? ==> GetValue(bif, BIF_CYCLE_COUNT) == bif[13].value
  {
  }

  lemma InformedFields(d: Device, bif: Option<Package>)
    ensures var s := Informed(d, bif);
            && s == d.(maxCapacity := s.maxCapacity, cycleCount := s.cycleCount,
                       props := d.props.(max := s.props.max, cycles := s.props.cycles))
            && (bif.Some? && |bif.value| > 13 && bif.value[2].Number? && bif.value[13].Number? ==>
                  s.maxCapacity == s.props.max == bif.value[2].value && s.cycleCount == s.props.cycles == bif.value[13].value)
            && (bif.Some? && |bif.value| <= 13 ==> s.cycleCount == s.props.cycles == 0)
            && (bif.None? ==> s == d)
  {
    hide GetValue;
    if bif.Some? {
      BifNumbers(bif.value);
    }
  }

  lemma ClearedFields(d: Device)
    ensures var c := Cleared(d.(props := d.props.(fullyCharged := false)));
            && !c.batteryPresent && !c.props.installed && !c.props.charging && !c.props.fullyCharged && !c.acConnected
            && c.props.current == c.props.max == c.props.voltage == c.props.amperage == 0
            && c.props.cycles == c.props.timeRemaining == 0
            && c.sta == d.sta && c.readArmed == d.readArmed
  {
  }

  /** A poll that finds a battery takes over what is answered: objects 2 and 13 of _BIF are
      its last full capacity and its cycle count. */
  lemma PollReads(d: Device, a: Answers)
    requires a.Valid() && (if a.sta.Some? then IsThere(a.sta.value) else d.batteryPresent)
    ensures var d' := Polled(d, a);
            && d'.sta == a.sta.GetOr(d.sta) && d'.batteryPresent && d'.pollArmed
            && (a.sta.Some? ==> d'.props.installed)
            && (a.bif.Some? && |a.bif.value| > 13 && a.bif.value[2].Number? && a.bif.value[13].Number? ==>
                  && d'.maxCapacity == d'.props.max == a.bif.value[2].value
                  && d'.cycleCount == d'.props.cycles == a.bif.value[13].value)
            && (a.bif.Some? && |a.bif.value| <= 13 ==> d'.cycleCount == d'.props.cycles == 0)
            && (a.bif.None? ==> d'.maxCapacity == d.maxCapacity && d'.cycleCount == d.cycleCount)
            && d'.readArmed == (d.readArmed && a.bst.None?)
  {
    hide WithBst, IsBst, Asked, Informed;
    AskedFields(d, a.sta);
    InformedFields(Asked(d, a.sta), a.bif);
    if a.bst.Some? {
      RestIsKept(Informed(Asked(d, a.sta), a.bif), a.bst.value);
    }
  }

  /** A poll that finds none clears the state. */
  lemma PollClears(d: Device, a: Answers)
    requires a.Valid() && !(if a.sta.Some? then IsThere(a.sta.value) else d.batteryPresent)
    ensures var d' := Polled(d, a);
            && d'.sta == a.sta.GetOr(d.sta) && !d'.batteryPresent && d'.pollArmed && d'.readArmed == d.readArmed
            && !d'.props.installed && !d'.props.charging && !d'.props.fullyCharged && !d'.acConnected
            && d'.props.current == d'.props.max == d'.props.voltage == d'.props.amperage == 0
            && d'.props.cycles == d'.props.timeRemaining == 0
  {
    hide WithBst, IsBst, Asked, Informed, Cleared;
    AskedFields(d, a.sta);
    ClearedFields(Asked(d, a.sta));
  }

  /** A notification: nothing when _STA cannot be had; the same _STA is an alarm, and the
      battery is read; a new one with bit 4 has the battery read with both timers set anew;
      and one without it clears the state, but not the recorded _STA. */
  lemma NotificationIsHandled(d: Device, sta: UInt32, a: Answers)
    requires a.Valid()
    ensures Handled(d, Message(None, a)) == d
    ensures sta == d.sta ==> Handled(d, Message(Some(sta), a)) == Polled(d, a)
    ensures sta != d.sta && IsThere(sta) ==>
              Handled(d, Message(Some(sta), a)) == Polled(d.(pollArmed := false, readArmed := true), a)
    ensures sta != d.sta && !IsThere(sta) ==>
              var d' := Handled(d, Message(Some(sta), a));
              && d'.sta == d.sta && !d'.batteryPresent && !d'.props.installed && !d'.legacy.batteryInstalled
              && d'.pollArmed == d.pollArmed && d'.props.external == d.props.external
              && d'.props.fullyCharged == d.props.fullyCharged
  {
    hide Polled;
  }

  /** The battery that a poll sees. */
  predicate Found(d: Device, a: Answers) {
    if a.sta.Some? then IsThere(a.sta.value) else d.batteryPresent
  }

  /** Both timers and waking read the battery and arm the poll timer.  None of them sets the
      read timer: that of a reading under way runs on until _BST is answered. */
  lemma TimersAreHandled(d: Device, a: Answers, e: Event)
    requires a.Valid() && e in {PollTimeOut(a), ReadTimeOut(a), PowerOn(a)}
    ensures var d' := Handled(d, e);
            && d'.sta == a.sta.GetOr(d.sta) && d'.batteryPresent == Found(d, a) && d'.pollArmed
            && d'.readArmed == (d.readArmed && !e.ReadTimeOut? && !(Found(d, a) && a.bst.Some?))
  {
    hide Polled;
    var before := match e
      case PollTimeOut(_) => d.(pollArmed := false)
      case ReadTimeOut(_) => d.(readArmed := false)
      case _ => d;
    if Found(d, a) {
      PollReads(before, a);
    } else {
      PollClears(before, a);
    }
  }

  /** A new battery, and the start of the driver, set the read timer: it runs until _BST is
      answered. */
  lemma StartSetsTimer(override: Option<UInt32>, a: Answers)
    requires a.Valid()
    ensures var d := Started(override, a);
            d.pollArmed && (d.readArmed <==> !(a.sta.Some? && IsThere(a.sta.value) && a.bst.Some?))
  {
    hide Polled;
    var blank := Cleared(NEW_DEVICE.(pollingInterval := override.GetOr(0), overridden := override.Some?));
    var start := blank.(pollArmed := false, readArmed := true);
    if Found(start, a) {
      PollReads(start, a);
    } else {
      PollClears(start, a);
    }
  }

  /** An object that is missing, or no number, counts as the greatest 32-bit number. */
  lemma MissingNumber(bif: Package, index: nat)
    requires index >= |bif| || !bif[index].Number?
    ensures GetValue(bif, index) == 0xFFFF_FFFF
  {
  }

  /** The debug period overrides the polling interval, and from then on nothing sets it. */
  lemma OverrideIsKept(d: Device, override: Option<UInt32>, a: Answers, ms: int)
    requires a.Valid()
    ensures Started(override, a).overridden <==> override.Some?
    ensures override.Some? ==> Started(override, a).pollingInterval == override.value
    ensures Handled(d, SetPolling(ms)) == d.(pollingInterval := if ms > 0 && !d.overridden then 0 else d.pollingInterval)
  {
    hide WithBst, IsBst, Asked, Informed;
    var blank := NEW_DEVICE.(pollingInterval := override.GetOr(0), overridden := override.Some?);
    var start := Cleared(blank).(pollArmed := false, readArmed := true);
    AskedFields(start, a.sta);
    InformedFields(Asked(start, a.sta), a.bif);
    if a.bst.Some? {
      RestIsKept(Informed(Asked(start, a.sta), a.bif), a.bst.value);
      IntervalIsChosen(Informed(Asked(start, a.sta), a.bif), a.bst.value);
    }
  }
}
