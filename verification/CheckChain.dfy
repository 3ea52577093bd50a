/**
 When the next WHOIS check is due, and the chain of checks this produces for a fixed expiry date
 (src/whois/scheduler.py, src/config/limits.py). Times are seconds.
 */
module CheckChain {
  import opened Sequences

  const DAY: int := 86400

  /** The adaptive intervals, in days; the settings demand at least one day of each. */
  datatype Limits = Limits(far: int, mid: int, near: int, critical: int, afterExpiry: int)

  predicate Legal(l: Limits) {
    l.far >= 1 && l.mid >= 1 && l.near >= 1 && l.critical >= 1 && l.afterExpiry >= 1
  }

  const DEFAULT_LIMITS := Limits(30, 7, 2, 1, 45)

  /** `calculate_next_check`; None means that the domain is not checked any more. */
  function CalculateNextCheck(expires: Option<int>, now: int, l: Limits, wishlist: bool): (next: Option<int>)
    ensures wishlist || expires.None? ==> next == Some(now + DAY)
    ensures Legal(l) && next.Some? ==> next.value >= now + DAY
    ensures !wishlist && expires.Some? && expires.value <= now <= expires.value + l.afterExpiry * DAY ==>
              next == Some(now + DAY)
    ensures next == None
            <==> !wishlist && expires.Some? && now >= expires.value && now > expires.value + l.afterExpiry * DAY
  {
    if wishlist then Some(now + DAY)
    else if expires.None? then Some(now + DAY)
    else
      var left := expires.value - now;
      if left > 90 * DAY then Some(now + l.far * DAY)
      else if left > 30 * DAY then Some(now + l.mid * DAY)
      else if left > 7 * DAY then Some(now + l.near * DAY)
      else if left > 0 then Some(now + l.critical * DAY)
      else if left < -(l.afterExpiry * DAY) then None
      else Some(now + DAY)
  }

  /** `calculate_retry_after_failure`. */
  function RetryAfterFailure(failCount: int, now: int): (next: int)
    ensures now + 900 <= next <= now + DAY
  {
    var n := if failCount < 1 then 1 else failCount;
    now + if n == 1 then 900 else if n == 2 then 3600 else if n == 3 then 7200
          else if n == 4 then 6 * 3600 else if n == 5 then 12 * 3600 else DAY
  }

  /** The documented delays after one to five failures. */
  const RETRY_MINUTES := [15, 60, 120, 360, 720]

  /** More failures never bring the retry forward, the first five come as documented, any other after a whole day. */
  lemma RetriesSlowDown(fewer: int, more: int, now: int)
    requires fewer <= more
    ensures RetryAfterFailure(fewer, now) <= RetryAfterFailure(more, now)
    ensures RetryAfterFailure(more, now) == now + DAY <==> more >= 6
    ensures 1 <= more <= 5 ==> RetryAfterFailure(more, now) == now + 60 * RETRY_MINUTES[more - 1]
    ensures more <= 0 ==> RetryAfterFailure(more, now) == RetryAfterFailure(1, now)
  {
  }

  /** The moments at which a domain is checked, starting now, while its expiry date stays the same. */
  function Chain(expiry: int, now: int, l: Limits): (c: seq<int>)
    requires Legal(l)
    ensures c != [] && c[0] == now
    decreases if expiry + l.afterExpiry * DAY >= now then expiry + l.afterExpiry * DAY - now + 1 else 0
  {
    var next := CalculateNextCheck(Some(expiry), now, l, false);
    if next.None? then [now] else [now] + Chain(expiry, next.value, l)
  }

  /** The chain advances by at least a day each time and stops once the grace period is over. */
  lemma {:induction false} ChainAdvancesAndStops(expiry: int, now: int, l: Limits)
    requires Legal(l)
    ensures forall i :: 0 <= i < |Chain(expiry, now, l)| - 1 ==>
              && Chain(expiry, now, l)[i] + DAY <= Chain(expiry, now, l)[i + 1]
              && CalculateNextCheck(Some(expiry), Chain(expiry, now, l)[i], l, false)
                 == Some(Chain(expiry, now, l)[i + 1])
    ensures forall i :: 0 <= i < |Chain(expiry, now, l)| - 1 && Chain(expiry, now, l)[i] >= expiry ==>
              Chain(expiry, now, l)[i + 1] == Chain(expiry, now, l)[i] + DAY
    ensures CalculateNextCheck(Some(expiry), Chain(expiry, now, l)[|Chain(expiry, now, l)| - 1], l, false) == None
    ensures Chain(expiry, now, l)[|Chain(expiry, now, l)| - 1] > expiry + l.afterExpiry * DAY
    decreases if expiry + l.afterExpiry * DAY >= now then expiry + l.afterExpiry * DAY - now + 1 else 0
  {
    var next := CalculateNextCheck(Some(expiry), now, l, false);
    if next.Some? {
      ChainAdvancesAndStops(expiry, next.value, l);
    }
  }

  /** A check in the last 24 hours before the expiry date. */
  predicate HitsLastDay(expiry: int, c: seq<int>) {
    exists i :: 0 <= i < |c| && 0 < expiry - c[i] <= DAY
  }

  /** The intervals never jump over the expiry date from their own bucket. */
  predicate FitsBuckets(l: Limits) {
    l.far <= 90 && l.mid <= 30 && l.near <= 7 && l.critical <= 1
  }

  lemma {:induction false} FittingChainHitsLastDay(expiry: int, now: int, l: Limits)
    requires Legal(l) && FitsBuckets(l) && now < expiry
    ensures HitsLastDay(expiry, Chain(expiry, now, l))
    decreases expiry - now
  {
    var c := Chain(expiry, now, l);
    if expiry - now <= DAY {
      assert 0 < expiry - c[0] <= DAY;
    } else {
      var next := CalculateNextCheck(Some(expiry), now, l, false).value;
      FittingChainHitsLastDay(expiry, next, l);
      var rest := Chain(expiry, next, l);
      var i :| 0 <= i < |rest| && 0 < expiry - rest[i] <= DAY;
      assert c[i + 1] == rest[i];
    }
  }

  /** A first step that lands on the expiry date or behind it misses the last day. */
  lemma JumpMissesLastDay(expiry: int, now: int, l: Limits)
    requires Legal(l) && expiry - now > DAY
    requires CalculateNextCheck(Some(expiry), now, l, false).Some?
    requires CalculateNextCheck(Some(expiry), now, l, false).value >= expiry
    ensures !HitsLastDay(expiry, Chain(expiry, now, l))
  {
    var c := Chain(expiry, now, l);
    var next := CalculateNextCheck(Some(expiry), now, l, false).value;
    ChainGrows(expiry, next, l);
    var rest := Chain(expiry, next, l);
    forall i | 0 <= i < |c| ensures !(0 < expiry - c[i] <= DAY) {
      assert i > 0 ==> c[i] == rest[i - 1];
    }
  }

  lemma {:induction false} ChainGrows(expiry: int, now: int, l: Limits)
    requires Legal(l)
    ensures forall i :: 0 <= i < |Chain(expiry, now, l)| ==> Chain(expiry, now, l)[i] >= now
    decreases if expiry + l.afterExpiry * DAY >= now then expiry + l.afterExpiry * DAY - now + 1 else 0
  {
    var next := CalculateNextCheck(Some(expiry), now, l, false);
    if next.Some? {
      ChainGrows(expiry, next.value, l);
    }
  }

  /** A start from which limits that do not fit jump over the last day. */
  function MissingStart(l: Limits): int {
    if l.far > 90 then -(l.far * DAY)
    else if l.mid > 90 then -(90 * DAY) else if l.mid > 30 then -(l.mid * DAY)
    else if l.near > 30 then -(30 * DAY) else if l.near > 7 then -(l.near * DAY)
    else if l.critical > 7 then -(7 * DAY) else -(l.critical * DAY)
  }

  /** Exactly which limits give every chain started before expiry a check in the last 24 hours before it. */
  lemma CoversExpiryIff(l: Limits)
    requires Legal(l)
    ensures (forall expiry, now :: now < expiry ==> HitsLastDay(expiry, Chain(expiry, now, l))) <==> FitsBuckets(l)
  {
    if FitsBuckets(l) {
      forall expiry, now | now < expiry ensures HitsLastDay(expiry, Chain(expiry, now, l)) {
        FittingChainHitsLastDay(expiry, now, l);
      }
    } else {
      JumpMissesLastDay(0, MissingStart(l), l);
    }
  }

  lemma DefaultsCoverExpiry(expiry: int, now: int)
    requires now < expiry
    ensures HitsLastDay(expiry, Chain(expiry, now, DEFAULT_LIMITS))
  {
    FittingChainHitsLastDay(expiry, now, DEFAULT_LIMITS);
  }
}
