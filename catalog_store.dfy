/** The process-wide catalog and its periodic reload (`loadProductCatalog`). The goroutine
    that waits on the ticker is modelled as explicit calls, one per tick. */
module CatalogStore {
  import opened ProductModel
  import opened GoText
  import opened CatalogFiles

  /** `DEFAULT_RELOAD_INTERVAL`, in seconds. */
  const DefaultReloadInterval: int := 10

  /** `time.Second`: a `time.Duration` counts nanoseconds in an int64. */
  const NanosPerSecond: int := 1_000_000_000

  /** The largest number of seconds whose `time.Duration` fits in an int64. */
  const MaxDurationSeconds: int := MaxInt64 / NanosPerSecond

  /** The reload interval chosen from `PRODUCT_CATALOG_RELOAD_INTERVAL` (empty when unset):
      the default unless the setting parses, via `strconv.Atoi` with its error ignored, to a
      positive number. */
  function ResolveInterval(setting: string): (r: int)
    ensures 0 < r <= MaxInt64
    ensures setting != "" && Atoi(setting).value > 0 ==> r == Atoi(setting).value
    ensures setting == "" || Atoi(setting).value <= 0 ==> r == DefaultReloadInterval
  {
    if setting == "" then DefaultReloadInterval
    else
      var n := Atoi(setting).value;
      if n <= 0 then DefaultReloadInterval else n
  }

  /** An unset, zero or negative setting selects the default interval, and so does a
      malformed one unless its leading digits already overflow. */
  lemma IntervalDefaults(setting: string)
    requires setting == "" || (!IsIntegerSyntax(setting) && !DigitsOverflow(setting)) || Atoi(setting).value <= 0
    ensures ResolveInterval(setting) == DefaultReloadInterval
  {
  }

  /** Finding, as written: digits beyond the uint64 range select the int64 maximum as the
      interval, whatever follows them (say `18446744073709551616x`), and its period wraps
      to a negative one. */
  lemma OverflowingSettingPanics(digits: string, rest: string)
    requires IsDigits(digits) && DigitsValue(digits) > MaxUint64
    ensures ResolveInterval(digits + rest) == MaxInt64
    ensures TickerPeriod(ResolveInterval(digits + rest)) == -NanosPerSecond
  {
    AtoiOverflowIgnoresRest(digits, rest);
    MaxIntervalWraps();
  }

  /** The instance `2^64` followed by `x`. */
  lemma OverflowExample()
    ensures ResolveInterval(DecimalString(MaxUint64 + 1) + "x") == MaxInt64
  {
    DecimalRoundTrip(MaxUint64 + 1);
    OverflowingSettingPanics(DecimalString(MaxUint64 + 1), "x");
  }

  /** Finding, as written: a digit string past the int64 range but within uint64 (say
      `9223372036854775808`) is clamped to the int64 maximum, whose period wraps as well. */
  lemma ClampedSettingPanics(n: nat)
    requires MaxInt64 < n <= MaxUint64
    ensures ResolveInterval(DecimalString(n)) == MaxInt64
    ensures TickerPeriod(ResolveInterval(DecimalString(n))) == -NanosPerSecond
  {
    var s := DecimalString(n);
    AtoiClampsPastInt64(n);
    assert s != "" && Atoi(s).value == MaxInt64;
    MaxIntervalWraps();
  }

  /** A positive number written in decimal selects exactly that interval. */
  lemma IntervalParses(n: nat)
    requires 0 < n <= MaxInt64
    ensures ResolveInterval(DecimalString(n)) == n
  {
    AtoiOfDecimal(n);
  }

  /** Go's wrap-around of an integer into the int64 range. */
  function WrapInt64(x: int): (r: int)
    ensures MinInt64 <= r <= MaxInt64
    ensures MinInt64 <= x <= MaxInt64 ==> r == x
    ensures (r - x) % 0x1_0000_0000_0000_0000 == 0
  {
    (x - MinInt64) % 0x1_0000_0000_0000_0000 + MinInt64
  }

  /** `time.Duration(interval) * time.Second`, with int64 wrap-around. */
  function TickerPeriod(interval: int): (p: int)
    ensures MinInt64 <= p <= MaxInt64
    ensures (p - interval * NanosPerSecond) % 0x1_0000_0000_0000_0000 == 0
  {
    WrapInt64(interval * NanosPerSecond)
  }

  /** The int64 maximum as an interval wraps to a period of minus one second: the product is
      `2^63 * (10^9 + 1) - 10^9` above the int64 minimum, and `10^9 + 1` is odd. */
  lemma MaxIntervalWraps()
    ensures TickerPeriod(MaxInt64) == -NanosPerSecond
  {
    var x := MaxInt64 * NanosPerSecond;
    assert x - MinInt64 == 500_000_000 * 0x1_0000_0000_0000_0000 + (0x8000_0000_0000_0000 - NanosPerSecond);
    assert (x - MinInt64) % 0x1_0000_0000_0000_0000 == 0x8000_0000_0000_0000 - NanosPerSecond;
  }

  /** Any interval up to `MaxDurationSeconds` gives the ticker a positive period. */
  lemma PeriodPositive(interval: int)
    requires 0 < interval <= MaxDurationSeconds
    ensures TickerPeriod(interval) == interval * NanosPerSecond > 0
  {
  }

  /** Finding, as written: a setting beyond `MaxDurationSeconds` (up to twice it), from
      `9223372037` on, is accepted and gives a negative period, on which `time.NewTicker` panics. */
  lemma OverlongIntervalPanics(n: nat)
    requires MaxDurationSeconds < n <= 2 * MaxDurationSeconds
    ensures ResolveInterval(DecimalString(n)) == n
    ensures TickerPeriod(n) < 0
  {
    IntervalParses(n);
    var x := n * NanosPerSecond;
    assert 0x1_0000_0000_0000_0000 <= x - MinInt64 < 2 * 0x1_0000_0000_0000_0000;
    assert TickerPeriod(n) == x - 0x1_0000_0000_0000_0000;
  }

  /** Finding, corrected: a setting whose period would not fit a `time.Duration` is rejected
      like a non-positive one. */
  function ResolveIntervalBounded(setting: string): (r: int)
    ensures 0 < r <= MaxDurationSeconds
    ensures 0 < TickerPeriod(r)
    ensures ResolveInterval(setting) <= MaxDurationSeconds ==> r == ResolveInterval(setting)
  {
    var n := ResolveInterval(setting);
    PeriodPositive(DefaultReloadInterval);
    if n > MaxDurationSeconds then DefaultReloadInterval
    else
      PeriodPositive(n);
      n
  }

  /** The catalog the first load installs: the loaded products, or the empty catalog. */
  function FirstLoad(dir: Listing): (c: seq<Product>)
    ensures Load(dir).Ok? ==> c == Load(dir).value
    ensures Load(dir).Err? ==> c == []
  {
    match Load(dir)
    case Ok(ps) => ps
    case Err(_) => []
  }

  /** Finding, as written: what one tick leaves in `catalog`. The reload assigns the result of
      `readProductFiles` directly, so a failed reload leaves the nil (empty) catalog. */
  function ReloadAsWritten(current: seq<Product>, dir: Listing): (c: seq<Product>)
    ensures Load(dir).Ok? ==> c == Load(dir).value
    ensures Load(dir).Err? ==> c == []
  {
    FirstLoad(dir)
  }

  /** The discrepancy: a reload that fails discards a non-empty catalog. */
  lemma FailedReloadEmptiesCatalog(current: seq<Product>, dir: Listing)
    requires current != [] && Load(dir).Err?
    ensures ReloadAsWritten(current, dir) == []
    ensures ReloadAsWritten(current, dir) != current
  {
  }

  /** Finding, corrected: a failed reload keeps the current catalog. */
  function ReloadKeepingSnapshot(current: seq<Product>, dir: Listing): (c: seq<Product>)
    ensures Load(dir).Ok? ==> c == Load(dir).value
    ensures Load(dir).Err? ==> c == current
  {
    match Load(dir)
    case Ok(ps) => ps
    case Err(_) => current
  }

  /** The catalog after a run of ticks, as written: after at least one tick it depends on the
      last listing only. */
  function AfterReloads(initial: seq<Product>, dirs: seq<Listing>): (c: seq<Product>)
    ensures dirs == [] ==> c == initial
    ensures dirs != [] ==> c == FirstLoad(dirs[|dirs| - 1])
  {
    if dirs == [] then initial
    else ReloadAsWritten(AfterReloads(initial, dirs[..|dirs| - 1]), dirs[|dirs| - 1])
  }

  /** The catalog after a run of ticks, corrected. */
  function AfterReloadsKeepingSnapshot(initial: seq<Product>, dirs: seq<Listing>): seq<Product>
  {
    if dirs == [] then initial
    else ReloadKeepingSnapshot(AfterReloadsKeepingSnapshot(initial, dirs[..|dirs| - 1]), dirs[|dirs| - 1])
  }

  /** Every tick after the `i`th fails to load. */
  predicate LaterLoadsFail(dirs: seq<Listing>, i: nat)
  {
    forall j :: i < j < |dirs| ==> Load(dirs[j]).Err?
  }

  /** Corrected, the catalog is always the initial one or one complete successful load, never
      a mixture; the most recent successful load wins. */
  lemma {:induction false} SnapshotIsSomeCompleteLoad(initial: seq<Product>, dirs: seq<Listing>)
    ensures var c := AfterReloadsKeepingSnapshot(initial, dirs);
      c == initial || exists i :: 0 <= i < |dirs| && Load(dirs[i]) == Ok(c)
    ensures (forall i :: 0 <= i < |dirs| ==> Load(dirs[i]).Err?) ==>
      AfterReloadsKeepingSnapshot(initial, dirs) == initial
    ensures forall i :: 0 <= i < |dirs| && Load(dirs[i]).Ok? && LaterLoadsFail(dirs, i) ==>
      AfterReloadsKeepingSnapshot(initial, dirs) == Load(dirs[i]).value
  {
    if dirs != [] {
      var init := dirs[..|dirs| - 1];
      var last := |dirs| - 1;
      SnapshotIsSomeCompleteLoad(initial, init);
      assert forall i :: 0 <= i < |init| ==> init[i] == dirs[i];
      var prev := AfterReloadsKeepingSnapshot(initial, init);
      assert AfterReloadsKeepingSnapshot(initial, dirs) == ReloadKeepingSnapshot(prev, dirs[last]);
      if Load(dirs[last]).Err? {
        forall i | 0 <= i < |dirs| && Load(dirs[i]).Ok? && LaterLoadsFail(dirs, i)
          ensures i < last && LaterLoadsFail(init, i)
        {
        }
      }
    }
  }

  /** The global `catalog` together with the reload ticker `loadProductCatalog` may start. */
  class Store {
    var catalog: seq<Product>
    /** The reload interval in seconds once the ticker runs; None while no ticker exists. */
    var reloadInterval: Option<int>

    ghost predicate Valid()
      reads this
    {
      reloadInterval.Some? ==> 0 < TickerPeriod(reloadInterval.value)
    }

    /** The zero state of the globals: a nil catalog and no ticker. */
    constructor ()
      ensures Valid()
      ensures catalog == [] && reloadInterval == None
    {
      catalog := [];
      reloadInterval := None;
    }

    /** `loadProductCatalog`: load once; on failure install the empty catalog and start no
        ticker; on success choose the interval and start the ticker, which panics on a
        non-positive period (`panicked`, after which the process exits). */
    method LoadProductCatalog(dir: Listing, intervalSetting: string) returns (panicked: bool)
      requires Valid()
      modifies this
      ensures Valid()
      ensures catalog == FirstLoad(dir)
      ensures panicked <==> Load(dir).Ok? && TickerPeriod(ResolveInterval(intervalSetting)) <= 0
      ensures reloadInterval ==
        if Load(dir).Ok? && !panicked then Some(ResolveInterval(intervalSetting)) else old(reloadInterval)
    {
      var loaded := ReadProductFiles(dir);
      if loaded.Err? {
        catalog := [];
        return false;
      }
      catalog := loaded.value;
      var interval := ResolveInterval(intervalSetting);
      if TickerPeriod(interval) <= 0 {
        return true;
      }
      reloadInterval := Some(interval);
      return false;
    }

    /** One tick of the reload goroutine, as written: the result of `readProductFiles` is
        stored even when it is an error. */
    method Tick(dir: Listing)
      requires Valid() && reloadInterval.Some?
      modifies this`catalog
      ensures Valid() && reloadInterval == old(reloadInterval)
      ensures catalog == ReloadAsWritten(old(catalog), dir)
    {
      var loaded := ReadProductFiles(dir);
      catalog := if loaded.Ok? then loaded.value else [];
    }

    /** One tick with the correction: a failed load leaves the catalog in place. */
    method TickKeepingSnapshot(dir: Listing)
      requires Valid() && reloadInterval.Some?
      modifies this`catalog
      ensures Valid() && reloadInterval == old(reloadInterval)
      ensures catalog == ReloadKeepingSnapshot(old(catalog), dir)
    {
      var loaded := ReadProductFiles(dir);
      if loaded.Ok? {
        catalog := loaded.value;
      }
    }

    /** The reload goroutine's loop over a finite run of ticks, each reading the directory
        as it then is. */
    method ReloadLoop(dirs: seq<Listing>)
      requires Valid() && reloadInterval.Some?
      modifies this`catalog
      ensures Valid() && reloadInterval == old(reloadInterval)
      ensures catalog == AfterReloads(old(catalog), dirs)
    {
      var t := 0;
      while t < |dirs|
        invariant 0 <= t <= |dirs|
        invariant catalog == AfterReloads(old(catalog), dirs[..t])
      {
        assert dirs[..t + 1][..t] == dirs[..t];
        Tick(dirs[t]);
        t := t + 1;
      }
      assert dirs[..t] == dirs;
    }
  }
}
