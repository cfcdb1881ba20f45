/** The effective time zone of a medicine sensor. */
module ZoneResolver {
  import opened Wrappers
  import opened Clock

  /** The time mode under which the zone follows an external sensor. */
  const LocalTimeMode := "local_time"

  /**
   * All four conditions under which the sensor-named zone is used: the mode is
   * "local_time", a zone sensor is configured, that sensor has a state other
   * than "unknown", and the zone database knows the name.
   */
  predicate FollowsSensor(mode: Option<string>, tzSensor: Option<string>, host: Host)
  {
    && mode == Some(LocalTimeMode)
    && tzSensor.Some? && tzSensor.value != ""
    && host.stateOf(tzSensor.value).Some?
    && host.stateOf(tzSensor.value).value != "unknown"
    && host.zoneNamed(host.stateOf(tzSensor.value).value).Some?
  }

  /**
   * `_get_current_timezone`: the zone named by the sensor's state when it
   * can be used, the host's default zone in every other case.  It has no
   * failure outcome: an unknown name falls back like the other cases.
   */
  function ResolveZone(mode: Option<string>, tzSensor: Option<string>, host: Host): (z: Zone)
    ensures FollowsSensor(mode, tzSensor, host) ==>
      Some(z) == host.zoneNamed(host.stateOf(tzSensor.value).value)
    ensures !FollowsSensor(mode, tzSensor, host) ==> z == host.defaultZone
  {
    if mode == Some(LocalTimeMode) && tzSensor.Some? && tzSensor.value != "" then
      match host.stateOf(tzSensor.value)
      case Some(state) =>
        if state != "unknown" then
          match host.zoneNamed(state)
          case Some(zone) => zone
          case None => host.defaultZone
        else host.defaultZone
      case None => host.defaultZone
    else host.defaultZone
  }
}
