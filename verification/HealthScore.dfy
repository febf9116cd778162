/** A node's health status and score (`health_service.py`). Times are in seconds; floats are reals. */
module HealthScore {
  import opened Wrappers

  datatype Status = Healthy | Stale | Offline | Unknown

  datatype Settings = Settings(
    staleMinutes: int, offlineMinutes: int,
    stalenessWeight: int, failuresWeight: int, bootsWeight: int,
    alertOnStale: bool, alertOnOffline: bool, alertOnScoreBelow: int)

  /** What health is computed from. */
  datatype Vitals = Vitals(lastSeen: Option<real>, installAttempts: nat, bootCount: nat)

  function MinutesSince(lastSeen: real, now: real): real {
    (now - lastSeen) / 60.0
  }

  /** `determine_health_status`. */
  function StatusAt(v: Vitals, now: real, s: Settings): Status {
    if v.lastSeen.None? then Unknown
    else
      var minutes := MinutesSince(v.lastSeen.value, now);
      if minutes <= s.staleMinutes as real then Healthy
      else if minutes <= s.offlineMinutes as real then Stale
      else Offline
  }

  /** The status by the seconds since the node was seen. */
  lemma StatusBySeconds(v: Vitals, now: real, s: Settings)
    ensures StatusAt(v, now, s) == Unknown <==> v.lastSeen.None?
    ensures v.lastSeen.Some? ==>
      var seconds, stale, offline :=
        now - v.lastSeen.value, 60.0 * s.staleMinutes as real, 60.0 * s.offlineMinutes as real;
      && (StatusAt(v, now, s) == Healthy <==> seconds <= stale)
      && (StatusAt(v, now, s) == Stale <==> stale < seconds <= offline)
      && (StatusAt(v, now, s) == Offline <==> stale < seconds && offline < seconds)
  {
    if v.lastSeen.Some? {
      assert now - v.lastSeen.value == 60.0 * MinutesSince(v.lastSeen.value, now);
    }
  }

  /** A node seen right now is healthy, unless the stale threshold is negative. */
  lemma SeenIsHealthy(v: Vitals, now: real, s: Settings)
    requires v.lastSeen == Some(now)
    ensures StatusAt(v, now, s) == Healthy <==> s.staleMinutes >= 0
  {
    StatusBySeconds(v, now, s);
  }

  /** While a node is not seen its status only gets worse: from healthy over stale, if that comes before offline, to
      offline. */
  lemma StatusOnlyWorsens(v: Vitals, now: real, later: real, s: Settings)
    requires now <= later
    ensures StatusAt(v, later, s) == Healthy ==> StatusAt(v, now, s) == Healthy
    ensures StatusAt(v, now, s) == Offline ==> StatusAt(v, later, s) == Offline
    ensures StatusAt(v, now, s) == Stale ==> StatusAt(v, later, s) == Stale || StatusAt(v, later, s) == Offline
  {
    StatusBySeconds(v, now, s);
    StatusBySeconds(v, later, s);
    hide StatusAt;
  }

  /** `int(x)`: towards zero. */
  function Truncated(x: real): int {
    if x >= 0.0 then x.Floor else -((-x).Floor)
  }

  function Capped(ratio: real): real {
    if ratio <= 1.0 then ratio else 1.0
  }

  function Times(ratio: real, weight: int): real {
    ratio * weight as real
  }

  /** A share of a weight, taken off the score. */
  function Share(ratio: real, weight: int): int {
    Truncated(Times(Capped(ratio), weight))
  }

  function StalenessPenalty(v: Vitals, now: real, s: Settings): int
    requires s.offlineMinutes != 0
  {
    if v.lastSeen.None? then s.stalenessWeight
    else Share(MinutesSince(v.lastSeen.value, now) / s.offlineMinutes as real, s.stalenessWeight)
  }

  function FailuresPenalty(v: Vitals, s: Settings): int {
    if v.installAttempts > 0 then Share(v.installAttempts as real / 5.0, s.failuresWeight) else 0
  }

  function BootsPenalty(v: Vitals, s: Settings): int {
    if v.bootCount > 10 then Share((v.bootCount - 10) as real / 20.0, s.bootsWeight) else 0
  }

  function Clamped(score: int): int {
    if score < 0 then 0 else if score > 100 then 100 else score
  }

  function ScoreAt(v: Vitals, now: real, s: Settings): (score: int)
    requires s.offlineMinutes != 0
    ensures 0 <= score <= 100
  {
    Clamped(100 - StalenessPenalty(v, now, s) - FailuresPenalty(v, s) - BootsPenalty(v, s))
  }

  datatype Breakdown = Breakdown(staleness: int, installFailures: int, bootStability: int)

  /** `calculate_health_score`, filling in its breakdown. */
  method CalculateHealthScore(v: Vitals, now: real, s: Settings) returns (score: int, breakdown: Breakdown)
    requires s.offlineMinutes != 0
    ensures score == ScoreAt(v, now, s)
    ensures breakdown == Breakdown(-StalenessPenalty(v, now, s), -FailuresPenalty(v, s), -BootsPenalty(v, s))
  {
    hide Truncated, Times, Capped, Clamped, MinutesSince;
    breakdown := Breakdown(0, 0, 0);
    if v.lastSeen.None? {
      breakdown := breakdown.(staleness := -s.stalenessWeight);
    } else {
      var ratio := Capped(MinutesSince(v.lastSeen.value, now) / s.offlineMinutes as real);
      breakdown := breakdown.(staleness := -Truncated(Times(ratio, s.stalenessWeight)));
    }
    if v.installAttempts > 0 {
      var ratio := Capped(v.installAttempts as real / 5.0);
      breakdown := breakdown.(installFailures := -Truncated(Times(ratio, s.failuresWeight)));
    }
    if v.bootCount > 10 {
      var ratio := Capped((v.bootCount - 10) as real / 20.0);
      breakdown := breakdown.(bootStability := -Truncated(Times(ratio, s.bootsWeight)));
    }
    score := Clamped(100 + breakdown.staleness + breakdown.installFailures + breakdown.bootStability);
  }

  // ---------------------------------------------------------------- monotonicity

  predicate Sensible(s: Settings) {
    s.offlineMinutes > 0 && s.stalenessWeight >= 0 && s.failuresWeight >= 0 && s.bootsWeight >= 0
  }

  lemma ScaleMonotone(a: real, b: real, weight: int)
    requires a <= b && weight >= 0
    ensures Times(a, weight) <= Times(b, weight)
  {
  }

  lemma DivideMonotone(a: real, b: real, unit: real)
    requires a <= b && unit > 0.0
    ensures a / unit <= b / unit
  {
    var difference := (b - a) / unit;
    assert difference >= 0.0;
    assert b / unit == a / unit + difference;
  }

  lemma ShareMonotone(a: real, b: real, weight: int)
    requires a <= b && weight >= 0
    ensures Share(a, weight) <= Share(b, weight) <= weight
  {
    hide Truncated, Times;
    ScaleMonotone(Capped(a), Capped(b), weight);
    ScaleMonotone(Capped(b), 1.0, weight);
    TruncatedMonotone(Times(Capped(a), weight), Times(Capped(b), weight));
    TruncatedMonotone(Times(Capped(b), weight), Times(1.0, weight));
    TruncatedWhole(weight);
  }

  lemma TruncatedMonotone(x: real, y: real)
    requires x <= y
    ensures Truncated(x) <= Truncated(y)
  {
  }

  lemma TruncatedWhole(n: int)
    ensures Truncated(Times(1.0, n)) == n
  {
  }

  /** `w` at `later` is at least as stale, and has failed and booted at least as often, as `v` at `now`. */
  predicate NoBetter(v: Vitals, now: real, w: Vitals, later: real) {
    && v.installAttempts <= w.installAttempts
    && v.bootCount <= w.bootCount
    && (w.lastSeen.Some? ==> v.lastSeen.Some?)
    && (w.lastSeen.Some? ==> MinutesSince(v.lastSeen.value, now) <= MinutesSince(w.lastSeen.value, later))
  }

  /** The score never rises as staleness, install attempts or boots grow; never having been seen is the worst. */
  lemma ScoreMonotone(v: Vitals, now: real, w: Vitals, later: real, s: Settings)
    requires Sensible(s) && NoBetter(v, now, w, later)
    ensures ScoreAt(w, later, s) <= ScoreAt(v, now, s)
  {
    hide Share, MinutesSince;
    var minutes := s.offlineMinutes as real;
    if v.lastSeen.Some? {
      var a := MinutesSince(v.lastSeen.value, now);
      ShareMonotone(a / minutes, a / minutes, s.stalenessWeight);
      if w.lastSeen.Some? {
        var b := MinutesSince(w.lastSeen.value, later);
        DivideMonotone(a, b, minutes);
        ShareMonotone(a / minutes, b / minutes, s.stalenessWeight);
      }
    }
    PenaltiesMonotone(v, w, s);
  }

  lemma PenaltiesMonotone(v: Vitals, w: Vitals, s: Settings)
    requires Sensible(s) && v.installAttempts <= w.installAttempts && v.bootCount <= w.bootCount
    ensures FailuresPenalty(v, s) <= FailuresPenalty(w, s) && BootsPenalty(v, s) <= BootsPenalty(w, s)
  {
    hide Share;
    ShareOfNothing(s.failuresWeight);
    ShareOfNothing(s.bootsWeight);
    DivideMonotone(v.installAttempts as real, w.installAttempts as real, 5.0);
    ShareMonotone(v.installAttempts as real / 5.0, w.installAttempts as real / 5.0, s.failuresWeight);
    ShareMonotone(0.0, w.installAttempts as real / 5.0, s.failuresWeight);
    if w.bootCount > 10 {
      ShareMonotone(0.0, (w.bootCount - 10) as real / 20.0, s.bootsWeight);
      if v.bootCount > 10 {
        DivideMonotone((v.bootCount - 10) as real, (w.bootCount - 10) as real, 20.0);
        ShareMonotone((v.bootCount - 10) as real / 20.0, (w.bootCount - 10) as real / 20.0, s.bootsWeight);
      }
    }
  }

  lemma ShareOfNothing(weight: int)
    ensures Share(0.0, weight) == 0
  {
    assert Times(Capped(0.0), weight) == 0.0;
  }

  /** The whole weight is taken off exactly when the ratio reaches one. */
  lemma WholeShareIff(ratio: real, weight: int)
    requires weight > 0
    ensures Share(ratio, weight) == weight <==> ratio >= 1.0
  {
    if ratio < 1.0 {
      assert (1.0 - ratio) * weight as real > 0.0;
      assert Times(ratio, weight) < weight as real;
    } else {
      assert Times(Capped(ratio), weight) == weight as real;
    }
  }

  lemma AtLeastOneIff(a: real, unit: real)
    requires unit > 0.0
    ensures a / unit >= 1.0 <==> a >= unit
  {
    assert (a / unit) * unit == a;
    if a >= unit {
      DivideMonotone(unit, a, unit);
    } else {
      DivideMonotone(a, unit, unit);
      assert a / unit != 1.0;
    }
  }

  /** With weights that sum to 100 a score reaches zero exactly when a node is as bad as can be in all three. */
  lemma ZeroScoreIff(v: Vitals, now: real, s: Settings)
    requires s.offlineMinutes > 0 && s.stalenessWeight > 0 && s.failuresWeight > 0 && s.bootsWeight > 0
    requires s.stalenessWeight + s.failuresWeight + s.bootsWeight == 100
    ensures ScoreAt(v, now, s) == 0 <==>
              && (v.lastSeen.None? || MinutesSince(v.lastSeen.value, now) >= s.offlineMinutes as real)
              && v.installAttempts >= 5 && v.bootCount >= 30
  {
    hide Share, MinutesSince;
    if v.lastSeen.Some? {
      var ratio := MinutesSince(v.lastSeen.value, now) / s.offlineMinutes as real;
      AtLeastOneIff(MinutesSince(v.lastSeen.value, now), s.offlineMinutes as real);
      WholeShareIff(ratio, s.stalenessWeight);
      ShareMonotone(ratio, ratio, s.stalenessWeight);
    }
    WholeShareIff(v.installAttempts as real / 5.0, s.failuresWeight);
    ShareMonotone(v.installAttempts as real / 5.0, v.installAttempts as real / 5.0, s.failuresWeight);
    WholeShareIff((v.bootCount - 10) as real / 20.0, s.bootsWeight);
    ShareMonotone((v.bootCount - 10) as real / 20.0, (v.bootCount - 10) as real / 20.0, s.bootsWeight);
  }

  /** An offline node loses the whole staleness weight, and goes on losing it until it is seen again. */
  lemma OfflineLosesWeight(v: Vitals, now: real, later: real, s: Settings)
    requires Sensible(s) && now <= later && StatusAt(v, now, s) == Offline
    ensures StatusAt(v, later, s) == Offline
    ensures ScoreAt(v, later, s) <= 100 - Clamped(s.stalenessWeight)
  {
    hide Share;
    var ratio := MinutesSince(v.lastSeen.value, later) / s.offlineMinutes as real;
    DivideMonotone(now - v.lastSeen.value, later - v.lastSeen.value, 60.0);
    AtLeastOneIff(MinutesSince(v.lastSeen.value, later), s.offlineMinutes as real);
    if s.stalenessWeight > 0 {
      WholeShareIff(ratio, s.stalenessWeight);
    } else {
      ShareMonotone(ratio, ratio, 0);
      ShareOfNothing(0);
      ShareMonotone(0.0, ratio, 0);
    }
    PenaltiesMonotone(Vitals(v.lastSeen, 0, 0), v, s);
  }

  // ---------------------------------------------------------------- what the penalties are

  /** `part` is the integer part of `share / whole` times `weight`. */
  predicate IsPart(part: int, share: real, whole: real, weight: int) {
    part as real * whole <= share * weight as real < (part + 1) as real * whole
  }

  lemma ShareIsPart(share: real, whole: real, weight: int)
    requires 0.0 <= share <= whole && whole > 0.0 && weight >= 0
    ensures IsPart(Share(share / whole, weight), share, whole, weight)
  {
    var ratio := share / whole;
    assert share == ratio * whole;
    DivideMonotone(share, whole, whole);
    assert Capped(ratio) == ratio;
    ScaleMonotone(0.0, ratio, weight);
    var part := Truncated(Times(ratio, weight));
    assert part as real <= ratio * weight as real < (part + 1) as real;
    Scaled(part as real, ratio * weight as real, (part + 1) as real, whole);
    Exchange(ratio, weight as real, whole);
  }

  lemma Scaled(low: real, x: real, high: real, whole: real)
    requires low <= x < high && whole > 0.0
    ensures low * whole <= x * whole < high * whole
  {
    assert (x - low) * whole >= 0.0;
    assert (high - x) * whole > 0.0;
  }

  lemma Exchange(ratio: real, weight: real, whole: real)
    ensures (ratio * weight) * whole == (ratio * whole) * weight
  {
  }

  /** The staleness penalty grows in proportion to the time since the node was seen, up to the offline threshold. */
  lemma StalenessInProportion(v: Vitals, now: real, s: Settings)
    requires Sensible(s)
    ensures v.lastSeen.None? ==> StalenessPenalty(v, now, s) == s.stalenessWeight
    ensures v.lastSeen.Some? && 0.0 <= now - v.lastSeen.value <= 60.0 * s.offlineMinutes as real ==>
      IsPart(StalenessPenalty(v, now, s), (now - v.lastSeen.value) / 60.0, s.offlineMinutes as real, s.stalenessWeight)
    ensures v.lastSeen.Some? && now - v.lastSeen.value >= 60.0 * s.offlineMinutes as real ==>
      StalenessPenalty(v, now, s) == s.stalenessWeight
  {
    if v.lastSeen.Some? {
      var minutes, whole := MinutesSince(v.lastSeen.value, now), s.offlineMinutes as real;
      assert now - v.lastSeen.value == 60.0 * minutes;
      if 0.0 <= minutes <= whole {
        ShareIsPart(minutes, whole, s.stalenessWeight);
      }
      if minutes >= whole {
        AtLeastOneIff(minutes, whole);
        WholeShare(minutes / whole, s.stalenessWeight);
      }
    }
  }

  lemma WholeShare(ratio: real, weight: int)
    requires ratio >= 1.0
    ensures Share(ratio, weight) == weight
  {
    assert Times(1.0, weight) == weight as real;
  }

  /** The failures penalty grows by a fifth of its weight with each install attempt, up to the whole of it. */
  lemma FailuresInProportion(v: Vitals, s: Settings)
    requires Sensible(s)
    ensures v.installAttempts <= 5 ==>
      5 * FailuresPenalty(v, s) <= v.installAttempts * s.failuresWeight < 5 * FailuresPenalty(v, s) + 5
    ensures v.installAttempts >= 5 ==> FailuresPenalty(v, s) == s.failuresWeight
  {
    var attempts := v.installAttempts as real;
    if 0 < v.installAttempts <= 5 {
      ShareIsPart(attempts, 5.0, s.failuresWeight);
      ProductOfInts(v.installAttempts, s.failuresWeight);
    }
    if v.installAttempts >= 5 {
      AtLeastOneIff(attempts, 5.0);
      WholeShare(attempts / 5.0, s.failuresWeight);
    }
  }

  lemma ProductOfInts(m: int, n: int)
    ensures (m * n) as real == m as real * n as real
  {
  }

  /** The boots penalty starts after ten boots and reaches its whole weight at thirty. */
  lemma BootsInProportion(v: Vitals, s: Settings)
    requires Sensible(s)
    ensures v.bootCount <= 10 ==> BootsPenalty(v, s) == 0
    ensures 10 <= v.bootCount <= 30 ==>
      20 * BootsPenalty(v, s) <= (v.bootCount - 10) * s.bootsWeight < 20 * BootsPenalty(v, s) + 20
    ensures v.bootCount >= 30 ==> BootsPenalty(v, s) == s.bootsWeight
  {
    var extra := v.bootCount - 10;
    if 0 < extra <= 20 {
      ShareIsPart(extra as real, 20.0, s.bootsWeight);
      ProductOfInts(extra, s.bootsWeight);
    }
    if extra >= 20 {
      AtLeastOneIff(extra as real, 20.0);
      WholeShare(extra as real / 20.0, s.bootsWeight);
    }
  }

  /** A node seen right now that never failed and has booted at most ten times scores 100; from there the score is what
      the penalties leave of it, but never below 0. */
  lemma FreshScoresFull(v: Vitals, now: real, s: Settings)
    requires Sensible(s)
    ensures v == Vitals(Some(now), 0, v.bootCount) && v.bootCount <= 10 ==> ScoreAt(v, now, s) == 100
    ensures (v.lastSeen.Some? ==> v.lastSeen.value <= now) ==>
      var left := 100 - StalenessPenalty(v, now, s) - FailuresPenalty(v, s) - BootsPenalty(v, s);
      left <= 100 && ScoreAt(v, now, s) == if left < 0 then 0 else left
  {
    hide Share, MinutesSince;
    ShareOfNothing(s.stalenessWeight);
    ShareOfNothing(s.failuresWeight);
    ShareOfNothing(s.bootsWeight);
    if v.lastSeen.Some? {
      SameMoment(now);
      NotNegative(v, now, s);
    }
    PenaltiesMonotone(Vitals(None, 0, 0), v, s);
  }

  lemma SameMoment(now: real)
    ensures MinutesSince(now, now) == 0.0
  {
  }

  lemma NotNegative(v: Vitals, now: real, s: Settings)
    requires Sensible(s) && v.lastSeen.Some?
    ensures v.lastSeen.value <= now ==> StalenessPenalty(v, now, s) >= 0
    ensures v.lastSeen.value == now ==> StalenessPenalty(v, now, s) == 0
  {
    var whole := s.offlineMinutes as real;
    ShareOfNothing(s.stalenessWeight);
    assert 0.0 / whole == 0.0;
    if v.lastSeen.value <= now {
      var minutes := MinutesSince(v.lastSeen.value, now);
      DivideMonotone(0.0, minutes, whole);
      hide Share;
      ShareMonotone(0.0, minutes / whole, s.stalenessWeight);
    }
  }
}
