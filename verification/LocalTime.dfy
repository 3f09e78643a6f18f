/**
 Local time in a zone with two offsets one hour apart. The zone is what `Intl` reports: an offset
 for every instant, in milliseconds. Instants are milliseconds since the epoch.
 */
module LocalTime {
  import opened Gregorian

  /** `offset(t)` is local minus universal time at instant `t`: `std`, or one hour more. */
  datatype Zone = Zone(std: int, offset: int -> int)

  ghost predicate TwoOffsets(z: Zone) {
    forall t :: z.offset(t) == z.std || z.offset(t) == z.std + HOUR
  }

  predicate SwitchAt(z: Zone, t: int) {
    z.offset(t - 1) != z.offset(t)
  }

  /** Clocks change only when the old wall clock reaches 02:00. */
  ghost predicate SwitchesAtTwo(z: Zone) {
    forall t :: SwitchAt(z, t) ==> (t + z.offset(t - 1)) % DAY == 2 * HOUR
  }

  /** America/Denver: MST is UTC-7, MDT is UTC-6. */
  ghost predicate Mountain(z: Zone) {
    z.std == -7 * HOUR && TwoOffsets(z) && SwitchesAtTwo(z)
  }

  /** The wall clock at `t`, written as if it were universal time. */
  function Wall(z: Zone, t: int): int {
    t + z.offset(t)
  }

  /** The local calendar day of `t`, as a day number. */
  function DayOf(z: Zone, t: int): int {
    Wall(z, t) / DAY
  }

  /** The instant at which local day `n` begins. */
  function Midnight(z: Zone, n: int): int {
    var candidate := n * DAY - z.std;
    if z.offset(candidate) == z.std then candidate else candidate - HOUR
  }

  lemma SameDayMod(w: int, v: int)
    requires w % DAY == 2 * HOUR && (v == w - 1 || v == w + HOUR || v == w - HOUR)
    ensures v / DAY == w / DAY && v % DAY != 0
  {
    assert w == (w / DAY) * DAY + 2 * HOUR;
  }

  /** One millisecond later the local day is the same, or the next one and its midnight. */
  lemma DayStep(z: Zone, t: int)
    requires TwoOffsets(z) && SwitchesAtTwo(z)
    ensures DayOf(z, t - 1) <= DayOf(z, t)
    ensures DayOf(z, t - 1) < DayOf(z, t) <==> Wall(z, t) % DAY == 0
  {
    if SwitchAt(z, t) {
      SameDayMod(t + z.offset(t - 1), Wall(z, t - 1));
      SameDayMod(t + z.offset(t - 1), Wall(z, t));
    } else {
      assert Wall(z, t) == Wall(z, t - 1) + 1;
    }
  }

  /** Local days never run backwards. */
  lemma {:induction false} DaysAscend(z: Zone, s: int, t: int)
    requires TwoOffsets(z) && SwitchesAtTwo(z)
    requires s <= t
    ensures DayOf(z, s) <= DayOf(z, t)
    decreases t - s
  {
    if s < t {
      DaysAscend(z, s, t - 1);
      DayStep(z, t);
    }
  }

  lemma NoTwoNearMidnight(n: int, x: int)
    requires -2 * HOUR < x < 2 * HOUR
    ensures (n * DAY + x) % DAY != 2 * HOUR
  {
    if x < 0 {
      assert n * DAY + x == (n - 1) * DAY + (DAY + x);
    }
  }

  /** No clock change falls between 22:00 and 01:00, so the offset is steady around a midnight. */
  lemma {:induction false} SteadyAroundMidnight(z: Zone, n: int, s: int, t: int)
    requires TwoOffsets(z) && SwitchesAtTwo(z)
    requires n * DAY - z.std - 2 * HOUR <= s <= t <= n * DAY - z.std
    ensures z.offset(s) == z.offset(t)
    decreases t - s
  {
    if s < t {
      SteadyAroundMidnight(z, n, s, t - 1);
      if SwitchAt(z, t) {
        var x := t + z.offset(t - 1) - n * DAY;
        assert -2 * HOUR < x <= HOUR;
        assert (n * DAY + x) % DAY == 2 * HOUR;
        assert false by { NoTwoNearMidnight(n, x); }
      }
    }
  }

  /** Every local day has exactly one midnight. */
  lemma MidnightIsUnique(z: Zone, n: int, t: int)
    requires TwoOffsets(z) && SwitchesAtTwo(z)
    ensures Wall(z, t) == n * DAY <==> t == Midnight(z, n)
  {
    var late, early := n * DAY - z.std, n * DAY - z.std - HOUR;
    SteadyAroundMidnight(z, n, early, late);
    assert Wall(z, t) == n * DAY ==> t == late || t == early;
  }

  /** Day `n` has begun at `t` exactly when its midnight is not in the future. */
  lemma StartsAtMidnight(z: Zone, n: int, t: int)
    requires TwoOffsets(z) && SwitchesAtTwo(z)
    ensures n <= DayOf(z, t) <==> Midnight(z, n) <= t
  {
    var m := Midnight(z, n);
    MidnightIsUnique(z, n, m);
    assert DayOf(z, m) == n && Wall(z, m) % DAY == 0;
    if m <= t {
      DaysAscend(z, m, t);
    } else {
      DayStep(z, m);
      DaysAscend(z, t, m - 1);
    }
  }

  /** Day `n` is exactly the instants from its midnight up to the next one. */
  lemma DayIsInterval(z: Zone, n: int, t: int)
    requires TwoOffsets(z) && SwitchesAtTwo(z)
    ensures DayOf(z, t) == n <==> Midnight(z, n) <= t < Midnight(z, n + 1)
  {
    StartsAtMidnight(z, n, t);
    StartsAtMidnight(z, n + 1, t);
  }
}
