/** `RbSDL2::PowerInfo`: the last power reading and its classification. */
module Power {
  import opened Wrappers

  /** The values of SDL's `SDL_PowerState`. */
  const POWERSTATE_UNKNOWN: int := 0
  const POWERSTATE_ON_BATTERY: int := 1
  const POWERSTATE_NO_BATTERY: int := 2
  const POWERSTATE_CHARGING: int := 3
  const POWERSTATE_CHARGED: int := 4

  /** What one `SDL_GetPowerInfo` call returns (`state`) and stores into the two
      int buffers (seconds and percent left, -1 when unknown). */
  datatype PowerReading = PowerReading(state: int, seconds: int, percent: int)

  class PowerInfo {
    var state: int
    /** The contents of the `@battery_time` buffer. */
    var batteryTime: int
    /** The contents of the `@battery_percentage` buffer. */
    var batteryPercentage: int

    /** `initialize`: allocates the buffers and calls `update` once. */
    constructor (reading: PowerReading)
      ensures state == reading.state
      ensures batteryTime == reading.seconds
      ensures batteryPercentage == reading.percent
    {
      new;
      var _ := Update(reading);
    }

    /** `update`: overwrites the state and both buffers with a fresh reading and
        returns `self`. */
    method Update(reading: PowerReading) returns (self: PowerInfo)
      modifies this
      ensures self == this
      ensures state == reading.state
      ensures batteryTime == reading.seconds
      ensures batteryPercentage == reading.percent
    {
      state := reading.state;
      batteryTime := reading.seconds;
      batteryPercentage := reading.percent;
      self := this;
    }

    /** `battery_percentage`: `nil` when the stored number is negative. */
    function BatteryPercentage(): (r: Option<nat>)
      reads this
      ensures r.Some? <==> batteryPercentage >= 0
      ensures r.Some? ==> r.value == batteryPercentage
    {
      if batteryPercentage >= 0 then Some(batteryPercentage) else None
    }

    /** `battery_time`: `nil` when the stored number is negative. */
    function BatteryTime(): (r: Option<nat>)
      reads this
      ensures r.Some? <==> batteryTime >= 0
      ensures r.Some? ==> r.value == batteryTime
    {
      if batteryTime >= 0 then Some(batteryTime) else None
    }

    /** `battery?` */
    predicate HasBattery()
      reads this
    {
      state in [POWERSTATE_CHARGING, POWERSTATE_CHARGED, POWERSTATE_ON_BATTERY]
    }

    /** `charged?` */
    predicate Charged()
      reads this
    {
      POWERSTATE_CHARGED == state
    }

    /** `charging?` */
    predicate Charging()
      reads this
    {
      POWERSTATE_CHARGING == state
    }

    /** `no_battery?` */
    predicate NoBattery()
      reads this
    {
      POWERSTATE_NO_BATTERY == state
    }

    /** `on_battery?` */
    predicate OnBattery()
      reads this
    {
      POWERSTATE_ON_BATTERY == state
    }

    /** `plugged_in?` */
    predicate PluggedIn()
      reads this
    {
      !OnBattery()
    }

    /** `unknown?` */
    predicate Unknown()
      reads this
    {
      POWERSTATE_UNKNOWN == state
    }
  }

  /** How many of the five single-state tests hold. */
  function StateTestsHolding(p: PowerInfo): nat
    reads p
  {
    (if p.Charged() then 1 else 0) + (if p.Charging() then 1 else 0) +
    (if p.NoBattery() then 1 else 0) + (if p.OnBattery() then 1 else 0) +
    (if p.Unknown() then 1 else 0)
  }

  /** The classification the predicates give: at most one single-state test holds,
      exactly one for each SDL power state, `battery?` is charging, charged or on
      battery, `plugged_in?` is the negation of `on_battery?`, and neither
      `no_battery?` nor `unknown?` goes with `battery?`. */
  lemma StateClassification(p: PowerInfo)
    ensures StateTestsHolding(p) <= 1
    ensures StateTestsHolding(p) == 1 <==> POWERSTATE_UNKNOWN <= p.state <= POWERSTATE_CHARGED
    ensures p.HasBattery() <==> p.Charging() || p.Charged() || p.OnBattery()
    ensures p.PluggedIn() <==> !p.OnBattery()
    ensures p.NoBattery() ==> !p.HasBattery()
    ensures p.Unknown() ==> !p.HasBattery()
  {
  }
}
