/** The timed cache: look-ups that only check age, stores that now and then clean up, and
    invalidation. Clock readings are parameters. */
module TimedCache {
  import opened Wire

  datatype Option<+T> = None | Some(value: T)
  datatype Cached<+T> = Cached(data: T, fetchedAt: int)

  type Entries<T> = map<bytes, Cached<T>>

  predicate Young<T>(e: Cached<T>, validFor: int, now: int) {
    now - e.fetchedAt <= validFor
  }

  /** What the clean-up keeps. */
  function Kept<T>(entries: Entries<T>, validFor: int, now: int): Entries<T> {
    map k | k in entries && Young(entries[k], validFor, now) :: entries[k]
  }

  function Lookup<T>(entries: Entries<T>, validFor: int, key: bytes, now: int): Option<T> {
    if key in entries && Young(entries[key], validFor, now) then Some(entries[key].data) else None
  }

  class TimedCache<T> {
    const cacheScanInterval: int
    const cachedItemValidFor: int
    var lastCacheScan: int
    var cachedData: Entries<T>
    var totalCacheHits: nat
    var totalDataFetched: nat

    constructor (cacheScanInterval: int, cachedItemValidFor: int, now: int)
      ensures this.cacheScanInterval == cacheScanInterval && this.cachedItemValidFor == cachedItemValidFor
      ensures Now() == Contents(map[], now) && totalCacheHits == 0 && totalDataFetched == 0
    {
      this.cacheScanInterval, this.cachedItemValidFor := cacheScanInterval, cachedItemValidFor;
      lastCacheScan, cachedData := now, map[];
      totalCacheHits, totalDataFetched := 0, 0;
    }

    ghost function Now(): Contents<T>
      reads this
    {
      Contents(cachedData, lastCacheScan)
    }

    /** Erases while iterating: exactly the outdated entries go. */
    method CleanCache(now: int)
      modifies this`cachedData
      ensures cachedData == Kept(old(cachedData), cachedItemValidFor, now)
    {
      var left := cachedData.Keys;
      while left != {}
        invariant left <= cachedData.Keys <= old(cachedData).Keys
        invariant forall k :: k in cachedData ==> cachedData[k] == old(cachedData)[k]
        invariant forall k :: k in old(cachedData) && k !in left ==>
                    (k in cachedData <==> Young(old(cachedData)[k], cachedItemValidFor, now))
        decreases |left|
      {
        var current :| current in left;
        left := left - {current};
        if now - cachedData[current].fetchedAt > cachedItemValidFor {
          cachedData := cachedData - {current};
        }
      }
    }

    method GetCached(key: bytes, now: int) returns (r: Option<T>)
      modifies this`totalCacheHits, this`totalDataFetched
      ensures r == Lookup(cachedData, cachedItemValidFor, key, now)
      ensures totalDataFetched == old(totalDataFetched) + 1
      ensures totalCacheHits == old(totalCacheHits) + (if r.Some? then 1 else 0)
    {
      totalDataFetched := totalDataFetched + 1;
      if key in cachedData {
        var cached := cachedData[key];
        if now - cached.fetchedAt <= cachedItemValidFor {
          totalCacheHits := totalCacheHits + 1;
          return Some(cached.data);
        }
      }
      return None;
    }

    /** Stores, and cleans up when the last scan is long enough ago. The clean-up reads the clock
        again. */
    method Cache(key: bytes, datum: T, now: int, scanNow: int)
      modifies this`cachedData, this`lastCacheScan
      ensures Now() == Stored(old(Now()), cacheScanInterval, cachedItemValidFor, key, datum, now, scanNow)
    {
      cachedData := cachedData[key := Cached(datum, now)];
      if now - lastCacheScan > cacheScanInterval {
        lastCacheScan := now;
        CleanCache(scanNow);
      }
    }

    /** Looks first and only then erases. */
    method Invalidate(key: bytes)
      modifies this`cachedData
      ensures Now() == old(Now()).(entries := old(cachedData) - {key})
    {
      if key !in cachedData {
        assert cachedData - {key} == cachedData;
        return;
      }
      cachedData := cachedData - {key};
    }
  }

  // ----- every run -----

  datatype Contents<T> = Contents(entries: Entries<T>, lastScan: int)

  function Stored<T>(c: Contents<T>, interval: int, validFor: int, key: bytes, datum: T, now: int, scanNow: int): Contents<T> {
    var entries := c.entries[key := Cached(datum, now)];
    if now - c.lastScan > interval then Contents(Kept(entries, validFor, scanNow), now)
    else Contents(entries, c.lastScan)
  }

  datatype Event<T> =
    | Get(key: bytes, now: int)
    | Put(key: bytes, datum: T, now: int, scanNow: int)
    | Drop(key: bytes, now: int)

  function Ends<T>(e: Event<T>): int {
    if e.Put? then e.scanNow else e.now
  }

  /** The last clock reading of a history that started at `t0`. */
  function Clock<T>(t0: int, es: seq<Event<T>>): int {
    if es == [] then t0 else Ends(es[|es| - 1])
  }

  /** The clock never runs backwards. */
  predicate Ordered<T>(t0: int, es: seq<Event<T>>) {
    forall i :: 0 <= i < |es| ==> Clock(t0, es[..i]) <= es[i].now <= Ends(es[i])
  }

  /** The cache after a history. */
  function After<T>(t0: int, interval: int, validFor: int, es: seq<Event<T>>): Contents<T> {
    if es == [] then Contents(map[], t0)
    else
      var before := After(t0, interval, validFor, es[..|es| - 1]);
      match es[|es| - 1]
      case Get(_, _) => before
      case Put(key, datum, now, scanNow) => Stored(before, interval, validFor, key, datum, now, scanNow)
      case Drop(key, _) => before.(entries := before.entries - {key})
  }

  /** The latest store of a key, unless it has been invalidated since. */
  function Latest<T>(es: seq<Event<T>>, key: bytes): Option<Cached<T>> {
    if es == [] then None
    else
      match es[|es| - 1]
      case Put(k, datum, now, _) => if k == key then Some(Cached(datum, now)) else Latest(es[..|es| - 1], key)
      case Drop(k, _) => if k == key then None else Latest(es[..|es| - 1], key)
      case Get(_, _) => Latest(es[..|es| - 1], key)
  }

  /** Every entry is its key's latest store, and a latest store that is missing has expired. */
  ghost predicate Faithful<T(!new)>(entries: Entries<T>, es: seq<Event<T>>, validFor: int, clock: int) {
    forall k: bytes ::
      if k in entries then Latest(es, k) == Some(entries[k])
      else Latest(es, k).Some? ==> !Young(Latest(es, k).value, validFor, clock)
  }

  lemma {:induction false} HistoryFaithful<T(!new)>(t0: int, interval: int, validFor: int, es: seq<Event<T>>)
    requires Ordered(t0, es)
    ensures Faithful(After(t0, interval, validFor, es).entries, es, validFor, Clock(t0, es))
  {
    if es != [] {
      var front, e := es[..|es| - 1], es[|es| - 1];
      assert forall i :: 0 <= i < |front| ==> front[..i] == es[..i];
      HistoryFaithful(t0, interval, validFor, front);
      assert Clock(t0, es[..|es| - 1]) <= e.now <= Ends(e);
      forall k: bytes
        ensures var entries := After(t0, interval, validFor, es).entries;
                if k in entries then Latest(es, k) == Some(entries[k])
                else Latest(es, k).Some? ==> !Young(Latest(es, k).value, validFor, Clock(t0, es))
      {
        assert k in After(t0, interval, validFor, front).entries || Latest(front, k).None? ||
               !Young(Latest(front, k).value, validFor, Clock(t0, front));
      }
    }
  }

  /** For every history with a clock that never runs backwards, the periodic clean-up is
      invisible: each look-up answers with the key's latest uninvalidated store if that is no
      older than the validity period, and with nothing otherwise. */
  lemma CleanUpInvisible<T(!new)>(t0: int, interval: int, validFor: int, es: seq<Event<T>>, key: bytes, now: int)
    requires Ordered(t0, es) && Clock(t0, es) <= now
    ensures Lookup(After(t0, interval, validFor, es).entries, validFor, key, now) ==
            match Latest(es, key)
            case Some(e) => if now - e.fetchedAt <= validFor then Some(e.data) else None
            case None => None
  {
    HistoryFaithful(t0, interval, validFor, es);
    var entries := After(t0, interval, validFor, es).entries;
    assert key in entries || Latest(es, key).None? || !Young(Latest(es, key).value, validFor, Clock(t0, es));
  }

  /** Nothing stored is older than the last scan could have kept. */
  lemma {:induction false} ScanBound<T(!new)>(t0: int, interval: int, validFor: int, es: seq<Event<T>>)
    requires Ordered(t0, es) && 0 <= validFor
    ensures var c := After(t0, interval, validFor, es);
            c.lastScan <= Clock(t0, es) && forall k :: k in c.entries ==> c.lastScan - c.entries[k].fetchedAt <= validFor
  {
    if es != [] {
      var front, e := es[..|es| - 1], es[|es| - 1];
      assert forall i :: 0 <= i < |front| ==> front[..i] == es[..i];
      ScanBound(t0, interval, validFor, front);
      assert Clock(t0, es[..|es| - 1]) <= e.now <= Ends(e);
    }
  }

  /** After every store, no entry is older than the scan interval plus the validity period. */
  lemma StoredAge<T(!new)>(t0: int, interval: int, validFor: int, es: seq<Event<T>>, key: bytes)
    requires Ordered(t0, es) && 0 <= validFor && 0 <= interval
    requires es != [] && es[|es| - 1].Put?
    requires key in After(t0, interval, validFor, es).entries
    ensures es[|es| - 1].now - After(t0, interval, validFor, es).entries[key].fetchedAt <= interval + validFor
  {
    var front, e := es[..|es| - 1], es[|es| - 1];
    assert forall i :: 0 <= i < |front| ==> front[..i] == es[..i];
    ScanBound(t0, interval, validFor, front);
    assert Clock(t0, es[..|es| - 1]) <= e.now <= Ends(e);
  }

  /** A store always keeps its own value unless it is already outdated; between scans nothing else is
      dropped, and a scan happens exactly when the last one is longer ago than the interval. */
  lemma ScansAreApart<T>(c: Contents<T>, interval: int, validFor: int, key: bytes, datum: T, now: int, scanNow: int)
    ensures var d := Stored(c, interval, validFor, key, datum, now, scanNow);
            && (d.lastScan != c.lastScan ==> d.lastScan == now && now - c.lastScan > interval)
            && (now - c.lastScan <= interval ==> d.lastScan == c.lastScan && d.entries == c.entries[key := Cached(datum, now)])
            && (now - c.lastScan > interval ==>
                forall k :: k in d.entries <==>
                  if k == key then scanNow - now <= validFor else k in c.entries && scanNow - c.entries[k].fetchedAt <= validFor)
            && (forall k :: k in d.entries ==> if k == key then d.entries[k] == Cached(datum, now) else k in c.entries && d.entries[k] == c.entries[k])
  {
  }

  // ----- statistics under concurrency -----

  /** The two counters, how many look-ups have counted themselves but not yet decided on a hit,
      and what each statistics reader has loaded so far. */
  datatype Counters = Counters(fetched: nat, hits: nat, undecided: nat, loaded: map<nat, nat>, reports: seq<(nat, nat)>)

  datatype CounterStep = Count | Hit | Miss | LoadHits(reader: nat) | LoadFetched(reader: nat)

  ghost predicate CounterNext(s: Counters, step: CounterStep, t: Counters) {
    match step
    case Count => t == s.(fetched := s.fetched + 1, undecided := s.undecided + 1)
    case Hit => s.undecided > 0 && t == s.(hits := s.hits + 1, undecided := s.undecided - 1)
    case Miss => s.undecided > 0 && t == s.(undecided := s.undecided - 1)
    case LoadHits(r) => t == s.(loaded := s.loaded[r := s.hits])
    case LoadFetched(r) =>
      r in s.loaded && t == s.(loaded := s.loaded - {r}, reports := s.reports + [(s.loaded[r], s.fetched)])
  }

  /** Hits are loaded first, so a report may miss hits but never shows more hits than look-ups. */
  lemma {:induction false} ReportsConsistent(states: seq<Counters>, steps: seq<CounterStep>, i: nat)
    requires |states| == |steps| + 1 && i < |states|
    requires states[0] == Counters(0, 0, 0, map[], [])
    requires forall j :: 0 <= j < |steps| ==> CounterNext(states[j], steps[j], states[j + 1])
    ensures var s := states[i];
            && s.hits + s.undecided <= s.fetched
            && (forall r :: r in s.loaded ==> s.loaded[r] <= s.hits)
            && forall p :: p in s.reports ==> p.0 <= p.1
  {
    if i > 0 {
      ReportsConsistent(states, steps, i - 1);
      assert CounterNext(states[i - 1], steps[i - 1], states[i]);
    }
  }
}
