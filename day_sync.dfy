/** The DaySync component: a Unity behaviour that, once per frame, reads the
    local or the network clock, computes the sun's direction for its latitude
    and longitude, and turns the sun's transform toward it, either at once or
    by spherical interpolation. */
module Component {
  import opened Numerics
  import opened Calendar
  import Solar

  /** Which clock feeds the computation. */
  datatype TimeBased = Local | Reference

  /** A Unity rotation. The model never looks inside one. */
  datatype Quaternion = Quaternion(x: real, y: real, z: real, w: real)

  /** Quaternion.Euler and Quaternion.Slerp, which are Unity library code. */
  datatype Rotations = Rotations(
    euler: (Float, Float, Float) -> Quaternion,
    slerp: (Quaternion, Quaternion, real) -> Quaternion)

  /** The readings of DateTime.Now, Networking.GetNetworkDateTime() and
      Time.deltaTime at the moment of a call. */
  datatype Clocks = Clocks(now: DateTime, networkNow: DateTime, deltaTime: real)

  /** How far one frame's Slerp moves: Time.deltaTime * lerpSpeed. */
  function InterpolationFactor(deltaTime: real, lerpSpeed: real): (f: real)
    ensures deltaTime == 0.0 ==> f == 0.0
    ensures deltaTime >= 0.0 && lerpSpeed >= 0.0 ==> f >= 0.0
    ensures lerpSpeed > 0.0 && deltaTime >= 1.0 / lerpSpeed ==> f >= 1.0
  {
    deltaTime * lerpSpeed
  }

  /** The part of a Unity Transform that DaySync writes. */
  class Transform {
    var localRotation: Quaternion

    constructor (rotation: Quaternion)
      ensures localRotation == rotation
    {
      localRotation := rotation;
    }
  }

  class DaySync {
    var based: TimeBased
    var timeZone: int
    var lerp: bool
    var sun: Transform?
    var latitude: real
    var longitude: real
    var lerpSpeed: real
    /** MonoBehaviour.enabled: Unity stops calling Update once it is false. */
    var enabled: bool

    /** A freshly added component, with the field initialisers of DaySync.cs
        (Paris, interpolation on at speed 2, offset 0); the inspector assigns
        the clock and the sun. */
    constructor (based: TimeBased, sun: Transform?)
      ensures this.based == based && this.sun == sun && enabled
      ensures timeZone == 0 && lerp && lerpSpeed == 2.0
      ensures latitude == 48.8566 && longitude == 2.3522
    {
      this.based := based;
      this.sun := sun;
      timeZone := 0;
      lerp := true;
      latitude := 48.8566;
      longitude := 2.3522;
      lerpSpeed := 2.0;
      enabled := true;
    }

    /** Without a sun to turn, the component switches itself off; with one it
        changes nothing. (The error it logs is not modelled.) */
    method Awake()
      modifies this`enabled
      ensures sun == null ==> !enabled
      ensures sun != null ==> enabled == old(enabled)
    {
      if sun != null {
        return;
      }
      enabled := false;
    }

    /** The time the sun is computed for. Local mode takes the wall clock as
        it is and ignores timeZone; Reference mode takes the network clock
        moved by exactly timeZone hours, and fails (AddHours throws) when that
        leaves the years DateTime can hold. */
    function GetTime(clocks: Clocks): (t: Option<DateTime>)
      reads this
      requires Valid(clocks.now) && Valid(clocks.networkNow)
      ensures based == Local ==> t == Some(clocks.now)
      ensures t.Some? ==> Valid(t.value)
      ensures t.None? ==> based == Reference
      ensures based == Reference ==>
                (t.Some? <==> MIN_YEAR <= ShiftHours(clocks.networkNow, timeZone).date.year <= MAX_YEAR)
      ensures based == Reference && timeZone == 0 ==> t == Some(clocks.networkNow)
      ensures based == Reference && t.Some? ==>
                HourIndex(t.value) == HourIndex(clocks.networkNow) + timeZone
                && t.value.minute == clocks.networkNow.minute
                && t.value.second == clocks.networkNow.second
                && JulianDay(t.value) == JulianDay(clocks.networkNow) + timeZone as real / 24.0
    {
      match based
      case Local => Some(clocks.now)
      case Reference =>
        var shifted := AddHours(clocks.networkNow, timeZone);
        if shifted.Some? then AddHoursShift(clocks.networkNow, timeZone); shifted else None
    }

    /** The target rotation for a time: Quaternion.Euler(altitude, azimuth, 0),
        with an altitude in [-90, 90], an azimuth in [0, 360] or NaN, and no roll. */
    function CalculateSunPosition(trig: Solar.Trig, rotations: Rotations, dateTime: DateTime): (q: Quaternion)
      reads this
      requires WellFormed(dateTime)
      ensures exists altitude: real, azimuth: Float ::
                -90.0 <= altitude <= 90.0
                && (azimuth.NaN? || (azimuth.Num? && 0.0 <= azimuth.v <= 360.0))
                && q == rotations.euler(Num(altitude), azimuth, Num(0.0))
    {
      var h := Solar.SolarAngles(trig, dateTime, latitude, longitude);
      rotations.euler(Num(h.altitude), h.azimuth, Num(0.0))
    }

    /** One frame. Without a sun nothing happens. Otherwise the sun is set to
        the target rotation, or, with lerp on, slerped toward it by
        deltaTime * lerpSpeed. When GetTime throws, the frame is abandoned
        and nothing changes. */
    method Update(clocks: Clocks, trig: Solar.Trig, rotations: Rotations)
      requires Valid(clocks.now) && Valid(clocks.networkNow)
      modifies sun
      ensures sun == null ==> unchanged(this)
      ensures sun != null && GetTime(clocks).None? ==> unchanged(sun)
      ensures sun != null && GetTime(clocks).Some? && !lerp ==>
                sun.localRotation == CalculateSunPosition(trig, rotations, GetTime(clocks).value)
      ensures sun != null && GetTime(clocks).Some? && lerp ==>
                sun.localRotation == rotations.slerp(old(sun.localRotation),
                                                     CalculateSunPosition(trig, rotations, GetTime(clocks).value),
                                                     InterpolationFactor(clocks.deltaTime, lerpSpeed))
    {
      if sun == null {
        return;
      }
      var time := GetTime(clocks);
      if time.None? {
        return;
      }
      var sunRotation := CalculateSunPosition(trig, rotations, time.value);
      if lerp {
        sun.localRotation := rotations.slerp(sun.localRotation, sunRotation, InterpolationFactor(clocks.deltaTime, lerpSpeed));
      } else {
        sun.localRotation := sunRotation;
      }
    }
  }
}
