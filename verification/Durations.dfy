/**
 The duration arithmetic of the cache: days become nanoseconds in uint64, the
 product is reinterpreted as int64 (time.Duration), and thresholds are floored
 to whole seconds because the tables store Unix seconds.
 Instants are unbounded integers counting nanoseconds since the Unix epoch.
 */
module Durations {
  import opened Basics

  const SECOND: int := 1_000_000_000
  const HOUR: int := 3600 * SECOND
  const DAY: int := 24 * HOUR
  const TWO64: int := 0x1_0000_0000_0000_0000

  const DEFAULT_EXPIRATION: int := 90
  const PURGE_MULTIPLIER: int := 2

  /** The largest number of days whose nanoseconds fit in int64. */
  const MAX_DAYS: int := 106751

  function Wrap64(x: int): (r: int)
    ensures 0 <= r < TWO64
  {
    x % TWO64
  }

  function Int64(x: int): (r: int)
    ensures -TWO63 <= r < TWO63
    ensures -TWO63 <= x < TWO63 ==> r == x
  {
    var w := Wrap64(x);
    if w >= TWO63 then w - TWO64 else w
  }

  /** Whole seconds of an instant, rounded towards minus infinity. */
  function UnixSeconds(at: int): (s: int)
    ensures s * SECOND <= at < (s + 1) * SECOND
  {
    at / SECOND
  }

  /** How long offline login is allowed for a configuration of d days. */
  function ExpiryNanos(d: int): int {
    Int64(Wrap64(Wrap64(d) * 24) * HOUR)
  }

  /** How long an entry is kept by an opening configured with d days. */
  function PurgeNanos(d: int): int {
    var kept := if d < 0 then DEFAULT_EXPIRATION else d;
    Int64(Wrap64(Wrap64(Wrap64(kept) * PURGE_MULTIPLIER) * 24) * HOUR)
  }

  /** Rows strictly older than this second are purged by an opening at `now`. */
  function GoThreshold(now: int, d: int): int {
    UnixSeconds(now + Int64(-PurgeNanos(d)))
  }

  /** The NSS module always uses twice its built-in 90 days, without wrapping. */
  function NssThreshold(now: int): int {
    UnixSeconds(now - PURGE_MULTIPLIER * DEFAULT_EXPIRATION * DAY)
  }

  /** The offline check lets a user with this last online second through at `now`. */
  predicate Unexpired(now: int, last: int, d: int) {
    d >= 0 && (d == 0 || now <= last * SECOND + ExpiryNanos(d))
  }

  /** Opening at `now` with d days removes a user with this last online second. */
  predicate GoRemoves(now: int, last: int, d: int) {
    d != 0 && last < GoThreshold(now, d)
  }

  predicate NssRemoves(now: int, last: int) {
    last < NssThreshold(now)
  }

  /** Opening with d days keeps everybody the offline check would accept. */
  ghost predicate GoPurgeIsSafe(d: int) {
    forall now: int, last: int :: Unexpired(now, last, d) ==> !GoRemoves(now, last, d)
  }

  ghost predicate NssPurgeIsSafe(d: int) {
    forall now: int, last: int :: Unexpired(now, last, d) ==> !NssRemoves(now, last)
  }

  /** The expiry is d days exactly up to MAX_DAYS; beyond, the product has wrapped. */
  lemma ExpiryExactIff(d: int)
    requires d >= 0
    ensures ExpiryNanos(d) == d * DAY <==> d <= MAX_DAYS
  {
  }

  /** The purge duration is 2d days exactly for d up to half of MAX_DAYS. */
  lemma PurgeExactIff(d: int)
    requires d >= 0
    ensures PurgeNanos(d) == 2 * d * DAY <==> d <= MAX_DAYS / 2
  {
  }

  /** Past half of MAX_DAYS the purge duration turns negative: the threshold lies in the future. */
  lemma PurgeWrapsNegative(d: int)
    requires MAX_DAYS / 2 < d <= MAX_DAYS
    ensures PurgeNanos(d) <= -DAY && Int64(-PurgeNanos(d)) == -PurgeNanos(d) >= DAY
  {
    assert Wrap64(d) == d && Wrap64(d * PURGE_MULTIPLIER) == 2 * d && Wrap64(2 * d * 24) == 48 * d;
    assert TWO63 < 48 * d * HOUR < TWO64 - DAY;
  }

  /** The exact condition, on the two durations, for an opening to spare every acceptable user. */
  lemma GoPurgeSafeIff(d: int)
    requires d > 0
    ensures GoPurgeIsSafe(d) <==> ExpiryNanos(d) + Int64(-PurgeNanos(d)) < SECOND
  {
    var gap := ExpiryNanos(d) + Int64(-PurgeNanos(d));
    if gap >= SECOND {
      var now := ExpiryNanos(d);
      assert Unexpired(now, 0, d) && GoRemoves(now, 0, d);
    } else {
      forall now: int, last: int | Unexpired(now, last, d)
        ensures !GoRemoves(now, last, d)
      {
        assert now + Int64(-PurgeNanos(d)) <= last * SECOND + gap;
      }
    }
  }

  /** Among the days that fit, the purge spares everybody acceptable exactly up to 53375. */
  lemma GoPurgeSafeUpToHalf(d: int)
    requires d <= MAX_DAYS
    ensures GoPurgeIsSafe(d) <==> d <= 53375
  {
    if d > 0 {
      GoPurgeSafeIff(d);
      PurgeGap(d);
    } else if d < 0 {
      assert forall now: int, last: int :: !Unexpired(now, last, d);
    }
  }

  /** How far the offline period exceeds the purge period. */
  lemma PurgeGap(d: int)
    requires 0 < d <= MAX_DAYS
    ensures d <= MAX_DAYS / 2 ==> ExpiryNanos(d) + Int64(-PurgeNanos(d)) == -d * DAY < 0
    ensures d > MAX_DAYS / 2 ==> ExpiryNanos(d) + Int64(-PurgeNanos(d)) > d * DAY
  {
    ExpiryExactIff(d);
    if d <= MAX_DAYS / 2 {
      PurgeExactIff(d);
    } else {
      PurgeWrapsNegative(d);
    }
  }

  /** In the wrapped range an opening removes even a user refreshed at that very instant. */
  lemma WrappedPurgeRemovesFreshUser(d: int, now: int)
    requires MAX_DAYS / 2 < d <= MAX_DAYS
    ensures GoRemoves(now, UnixSeconds(now), d)
  {
    PurgeWrapsNegative(d);
  }

  /** Negative days: purge as for 90 days, nobody passes offline. Zero: nothing purged, nothing expires. */
  lemma NegativeAndZeroDays(d: int, now: int, last: int)
    ensures d < 0 ==> !Unexpired(now, last, d) && GoThreshold(now, d) == NssThreshold(now)
    ensures d == 0 ==> Unexpired(now, last, d) && !GoRemoves(now, last, d)
  {
  }

  /** The fixed NSS purge against the configured offline period: the general condition. */
  lemma NssPurgeSafeIff(d: int)
    ensures NssPurgeIsSafe(d) <==> d < 0 || (d > 0 && ExpiryNanos(d) - 180 * DAY < SECOND)
  {
    if d == 0 {
      assert Unexpired(181 * DAY, 0, 0) && NssRemoves(181 * DAY, 0);
    } else if d > 0 {
      var gap := ExpiryNanos(d) - 180 * DAY;
      if gap >= SECOND {
        assert Unexpired(ExpiryNanos(d), 0, d) && NssRemoves(ExpiryNanos(d), 0);
      } else {
        forall now: int, last: int | Unexpired(now, last, d)
          ensures !NssRemoves(now, last)
        {
          assert now - 180 * DAY <= last * SECOND + gap;
        }
      }
    }
  }

  /** For days that fit, the NSS module and PAM agree exactly when d < 0 or 1 <= d <= 180. */
  lemma NssPurgeSafeDays(d: int)
    requires d <= MAX_DAYS
    ensures NssPurgeIsSafe(d) <==> d < 0 || 1 <= d <= 180
  {
    NssPurgeSafeIff(d);
    if d > 0 {
      ExpiryExactIff(d);
    }
  }

  lemma JustRefreshed(at: int, d: int)
    requires 0 <= d <= MAX_DAYS
    ensures Unexpired(at, UnixSeconds(at), d)
  {
    ExpiryExactIff(d);
  }

  /** Exactly when a login is accepted at its own instant, whatever that is: the flooring takes up to a second. */
  lemma FreshAcceptedIff(d: int)
    ensures (forall at: int :: Unexpired(at, UnixSeconds(at), d)) <==>
      d == 0 || (d > 0 && ExpiryNanos(d) >= SECOND - 1)
  {
    if d > 0 && ExpiryNanos(d) < SECOND - 1 {
      assert !Unexpired(SECOND - 1, UnixSeconds(SECOND - 1), d);
    }
    if d < 0 {
      assert !Unexpired(0, UnixSeconds(0), d);
    }
  }

  /** Past MAX_DAYS the offline period is first negative: only a login dated in the future is accepted. */
  lemma ExpiryWrapsNegative(d: int, now: int, last: int)
    requires MAX_DAYS < d <= 2 * MAX_DAYS + 1
    ensures ExpiryNanos(d) < 0
    ensures last * SECOND <= now ==> !Unexpired(now, last, d)
  {
    assert Wrap64(d) == d && Wrap64(d * 24) == 24 * d;
    assert TWO63 <= 24 * d * HOUR < TWO64;
  }

  /** Neither the flooring nor a wrap ever lengthens the period: accepted means within the configured days. */
  lemma UnexpiredImpliesWithinDays(now: int, at: int, d: int)
    requires Unexpired(now, UnixSeconds(at), d)
    ensures d >= 0 && (d == 0 || now <= at + d * DAY)
  {
    if d <= MAX_DAYS {
      ExpiryExactIff(d);
    } else {
      assert ExpiryNanos(d) < TWO63 < d * DAY;
    }
  }

  /** The thresholds in plain numbers: twice the days back, 90 of them when negative, floored to a second. */
  lemma ThresholdsInSeconds(now: int, d: int)
    ensures d <= 53375 ==>
      GoThreshold(now, d) == (now - 2 * (if d < 0 then 90 else d) * 86_400_000_000_000) / 1_000_000_000
    ensures NssThreshold(now) == (now - 180 * 86_400_000_000_000) / 1_000_000_000
  {
    if 0 <= d <= 53375 {
      PurgeExactIff(d);
    }
  }
}
