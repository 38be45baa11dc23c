/** The prom countdown: the time left split into days, hours, minutes and
    seconds, and whether the event is active. Times are milliseconds since
    the epoch. */
module EventCountdown {

  import opened Schema

  /** A row of `event_settings`; `is_active` is nullable, `prom_date` is
      not. */
  datatype EventSettings = EventSettings(isActive: Option<bool>, promDate: int)

  datatype TimeLeft = TimeLeft(days: int, hours: int, minutes: int, seconds: int)

  const Zero := TimeLeft(0, 0, 0, 0)

  /** `calculateTimeLeft` on `difference = promDate - now`. For a positive
      difference the floating-point expressions `Math.floor((d / 3600000) % 24)`
      and the like equal integer floor division followed by the remainder,
      which is how they are written here. */
  function CalculateTimeLeft(difference: int): (t: TimeLeft)
    ensures difference <= 0 ==> t == Zero
    ensures difference > 0 ==>
      (&& t.days >= 0
       && 0 <= t.hours < 24 && 0 <= t.minutes < 60 && 0 <= t.seconds < 60
       && t.days * 86400 + t.hours * 3600 + t.minutes * 60 + t.seconds == difference / 1000)
  {
    if difference <= 0 then Zero
    else
      var t := TimeLeft(difference / 86400000, (difference / 3600000) % 24,
                        (difference / 60000) % 60, (difference / 1000) % 60);
      SplitSeconds(difference);
      t
  }

  /** Whole seconds split into days, hours, minutes and seconds. */
  lemma SplitSeconds(d: int)
    requires d > 0
    ensures var s := d / 1000;
            && d / 60000 == s / 60
            && d / 3600000 == s / 3600
            && d / 86400000 == s / 86400
            && (d / 86400000) * 86400 + ((d / 3600000) % 24) * 3600 + ((d / 60000) % 60) * 60 + s % 60 == s
  {
    var s := d / 1000;
    assert 1000 * s <= d < 1000 * s + 1000;
    var m := s / 60;
    assert 60 * m <= s < 60 * m + 60;
    assert d / 60000 == m;
    var h := m / 60;
    assert 60 * h <= m < 60 * h + 60;
    assert d / 3600000 == h;
    assert s / 3600 == h;
    var dd := h / 24;
    assert 24 * dd <= h < 24 * dd + 24;
    assert d / 86400000 == dd;
    assert s / 86400 == dd;
    assert s == 60 * m + s % 60;
    assert m == 60 * h + m % 60;
    assert h == 24 * dd + h % 24;
  }

  /** The countdown shown, if any: none without settings. */
  function TimeLeftFor(settings: Option<EventSettings>, now: int): (t: Option<TimeLeft>)
    ensures t.None? <==> settings.None?
    ensures t.Some? && settings.value.promDate <= now ==> t.value == Zero
  {
    if settings.None? then None else Some(CalculateTimeLeft(settings.value.promDate - now))
  }

  /** `isEventActive`: the flag is set and the prom is still ahead. */
  function IsEventActive(settings: Option<EventSettings>, now: int): (b: bool)
    ensures b <==> settings.Some? && settings.value.isActive == Some(true) && settings.value.promDate > now
  {
    settings.Some? && Truthy(settings.value.isActive) && settings.value.promDate > now
  }

  /** A nullable flag read as a condition: null counts as false. */
  predicate Truthy(flag: Option<bool>)
  {
    flag.Some? && flag.value
  }

  /** While the event is active and at least a second remains, the
      countdown is not all zeros; once the prom date has passed it is. */
  lemma ActiveCountdownRuns(settings: Option<EventSettings>, now: int)
    ensures IsEventActive(settings, now) && settings.value.promDate - now >= 1000 ==>
      TimeLeftFor(settings, now).value != Zero
    ensures settings.Some? && !(settings.value.promDate > now) ==> TimeLeftFor(settings, now) == Some(Zero)
  {
    if IsEventActive(settings, now) && settings.value.promDate - now >= 1000 {
      assert (settings.value.promDate - now) / 1000 >= 1;
    }
  }
}
