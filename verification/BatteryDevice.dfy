/** The battery manager and its device, as an object whose handlers update its fields. */
module BatteryDriver {
  import opened Wrappers
  import opened Battery

  class BatteryDevice {
    // the manager
    var batterySTA: UInt32

    // the device
    var batteryPresent: bool
    var acConnected: bool
    var acChargeCapable: bool
    var pollTimerArmed: bool
    var readAllTimerArmed: bool
    var pollingInterval: UInt32
    var pollingOverridden: bool
    var maxCapacity: UInt32
    var currentCapacity: UInt32
    var currentRate: UInt32
    var averageRate: UInt32
    var status: UInt32
    var cycleCount: UInt32
    var properties: Properties
    var legacy: Legacy

    function State(): Device
      reads this
    {
      Device(batterySTA, batteryPresent, acConnected, acChargeCapable, pollTimerArmed, readAllTimerArmed,
             pollingInterval, pollingOverridden, maxCapacity, currentCapacity, currentRate, averageRate,
             status, cycleCount, properties, legacy)
    }

    /** `init` and `start`; `override` is the debug polling period. */
    constructor (override: Option<UInt32>, a: Answers)
      requires a.Valid()
      ensures State() == Started(override, a)
    {
      batterySTA, batteryPresent, acConnected, acChargeCapable := 0, false, false, false;
      pollTimerArmed, readAllTimerArmed := false, false;
      pollingInterval, pollingOverridden := override.GetOr(0), override.Some?;
      maxCapacity, currentCapacity, currentRate, averageRate, status, cycleCount := 0, 0, 0, 0, 0, 0;
      properties, legacy := BLANK, LegacyOf(BLANK);
      new;
      ClearBatteryState();
      PollBatteryState(true, a);
    }

    method RebuildLegacyIOBatteryInfo()
      modifies this
      ensures State() == Rebuilt(old(State()))
    {
      legacy := Legacy(properties.external, properties.installed, properties.charging, properties.current,
                       properties.max, properties.voltage, properties.amperage, properties.cycles);
    }

    method ClearBatteryState()
      modifies this
      ensures State() == Cleared(old(State()))
    {
      batteryPresent, acConnected, acChargeCapable := false, false, false;
      properties := properties.(installed := false, charging := false, current := 0, max := 0, timeRemaining := 0,
                                amperage := 0, voltage := 0, cycles := 0, instantAmperage := None);
      RebuildLegacyIOBatteryInfo();
    }

    /** `getBatterySTA` and `setBatterySTA`. */
    method SetBatterySTA(sta: UInt32)
      modifies this
      ensures State() == WithSta(old(State()), sta)
    {
      batterySTA := sta;
      if Bit(sta, 0x10) {
        batteryPresent := true;
      } else {
        batteryPresent := false;
      }
      properties := properties.(installed := batteryPresent);
    }

    method SetBatteryBIF(bif: Package)
      modifies this
      ensures State() == WithBif(old(State()), bif)
    {
      maxCapacity := GetValue(bif, BIF_LAST_FULL_CAPACITY);
      cycleCount := if |bif| > 13 then GetValue(bif, BIF_CYCLE_COUNT) else 0;
      properties := properties.(max := maxCapacity, cycles := cycleCount);
    }

    /** The first part of `setBatteryBST`: the sample and the moving average. */
    method TakeSample(bst: Package)
      requires IsBst(bst)
      modifies this
      ensures State() == Sampled(old(State()), bst)
    {
      hide Bit, Wrap, EffectiveRate, Average;
      var currentStatus := bst[BST_STATUS].value;
      currentCapacity := bst[BST_CAPACITY].value;
      properties := properties.(current := currentCapacity, voltage := bst[BST_VOLTAGE].value);
      TakeRate(bst[BST_RATE].value);
      if currentStatus != status {
        status, averageRate := currentStatus, 0;
      }
    }

    method TakeRate(raw: UInt32)
      modifies `currentRate, `averageRate
      ensures currentRate == EffectiveRate(raw, maxCapacity)
      ensures averageRate == Average(old(averageRate), currentRate)
    {
      hide Wrap;
      currentRate := raw;
      if Bit(currentRate, 0x8000) {
        currentRate := Wrap(0xFFFF - currentRate);
      }
      if currentRate == 0 {
        currentRate := maxCapacity / 2;
      }
      if averageRate != 0 {
        averageRate := Wrap(averageRate + currentRate) / 2;
      } else {
        averageRate := currentRate;
      }
    }

    /** The branches on the battery state. */
    method PublishStatus()
      modifies this
      ensures State() == ByStatus(old(State()))
    {
      hide Bit, TimeRemaining, Wrap;
      if Bit(status, 1) && Bit(status, 2) {
        properties := properties.(fullyCharged := false, charging := false);
        acConnected, acChargeCapable := true, false;
        properties := properties.(amperage := 0, instantAmperage := Some(0), timeRemaining := 0);
      } else if Bit(status, 1) {
        properties := properties.(fullyCharged := false, charging := false);
        acConnected, acChargeCapable := false, false;
        properties := properties.(amperage := Wrap(0 - averageRate as int), instantAmperage := Some(Wrap(0 - currentRate as int)),
                                  timeRemaining := TimeRemaining(currentCapacity, averageRate));
      } else if Bit(status, 2) {
        properties := properties.(fullyCharged := false, charging := true);
        acConnected, acChargeCapable := true, true;
        properties := properties.(amperage := averageRate, instantAmperage := Some(currentRate),
                                  timeRemaining := TimeRemaining(maxCapacity - currentCapacity, averageRate));
      } else {
        properties := properties.(fullyCharged := true, charging := false);
        acConnected, acChargeCapable := true, true;
        properties := properties.(amperage := 0, instantAmperage := Some(0), timeRemaining := 0xffff);
        currentCapacity := maxCapacity;
        properties := properties.(current := currentCapacity);
      }
      properties := properties.(external := acConnected, chargeCapable := acChargeCapable);
    }

    method SetBatteryBST(bst: Package)
      requires IsBst(bst)
      modifies this
      ensures State() == WithBst(old(State()), bst)
    {
      hide Sampled, ByStatus;
      TakeSample(bst);
      PublishStatus();
      if !pollingOverridden && maxCapacity != 0 {
        if Wrap(100 * currentCapacity) / maxCapacity < 5 && acConnected {
          pollingInterval := 1;
        } else {
          pollingInterval := 0;
        }
      }
      readAllTimerArmed := false;
      RebuildLegacyIOBatteryInfo();
    }

    /** `pollBatteryState`: on the new path the timers are set anew first. */
    method PollBatteryState(newPath: bool, a: Answers)
      requires a.Valid()
      modifies this
      ensures State() == if newPath then PolledNew(old(State()), a) else Polled(old(State()), a)
    {
      hide Polled;
      if newPath {
        pollTimerArmed := false;
        readAllTimerArmed := true;
      }
      PollExistingPath(a);
    }

    method PollExistingPath(a: Answers)
      requires a.Valid()
      modifies this
      ensures State() == Polled(old(State()), a)
    {
      hide WithSta, WithBif, WithBst, Cleared, IsBst;
      if a.sta.Some? {
        SetBatterySTA(a.sta.value);
      }
      if batteryPresent {
        ReadPackages(a);
      } else {
        properties := properties.(fullyCharged := false);
        ClearBatteryState();
      }
      pollTimerArmed := true;
    }

    method ReadPackages(a: Answers)
      requires a.Valid()
      modifies this
      ensures State() == var informed := Informed(old(State()), a.bif);
                         if a.bst.Some? then WithBst(informed, a.bst.value) else informed
    {
      hide WithBif, WithBst;
      if a.bif.Some? {
        SetBatteryBIF(a.bif.value);
      }
      if a.bst.Some? {
        SetBatteryBST(a.bst.value);
      }
    }

    method SetPollingInterval(milliSeconds: int)
      modifies this
      ensures State() == Handled(old(State()), SetPolling(milliSeconds))
    {
      if milliSeconds <= 0 {
        return;
      }
      if !pollingOverridden {
        pollingInterval := 0;
      }
    }

    method PollingTimeOut(a: Answers)
      requires a.Valid()
      modifies this
      ensures State() == Handled(old(State()), PollTimeOut(a))
    {
      hide Polled;
      pollTimerArmed := false;
      PollBatteryState(false, a);
    }

    method IncompleteReadTimeOut(a: Answers)
      requires a.Valid()
      modifies this
      ensures State() == Handled(old(State()), ReadTimeOut(a))
    {
      hide Polled;
      readAllTimerArmed := false;
      PollBatteryState(false, a);
    }

    method SetPowerStateOn(a: Answers)
      requires a.Valid()
      modifies this
      ensures State() == Handled(old(State()), PowerOn(a))
    {
      hide Polled;
      PollBatteryState(false, a);
    }

    /** `message`, for a device notification; `sta` is the manager's own evaluation. */
    method DeviceNotification(sta: Option<UInt32>, a: Answers)
      requires a.Valid()
      modifies this
      ensures State() == Handled(old(State()), Message(sta, a))
    {
      hide Polled, PolledNew, Cleared;
      if sta.Some? {
        if sta.value != batterySTA {
          if Bit(sta.value, 0x10) {
            PollBatteryState(true, a);
          } else {
            ClearBatteryState();
          }
        } else {
          PollBatteryState(false, a);
        }
      }
    }
  }
}
