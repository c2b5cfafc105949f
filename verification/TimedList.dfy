/**
 The timed cache seen as a recency list of stamped values. Times are microseconds since the epoch;
 stamps and the expiration are whole seconds.
 */
module TimedList {
  import opened Wrappers
  import opened Sequences
  import opened RecencyList
  import opened OrderedSets

  datatype CacheValue<V> = CacheValue(timestamp: nat, value: V)

  type Timed<K, V> = Entry<K, CacheValue<V>>

  const MICROS: nat := 1_000_000

  function Stamp(now: nat): nat {
    now / MICROS
  }

  /** Expiration 0 means never. */
  predicate Expired(now: nat, expiration: nat, timestamp: nat) {
    expiration != 0 && now >= (timestamp + expiration) * MICROS
  }

  /** A stamp made at `put` stays live for more than `expiration - 1` and less than `expiration` seconds. */
  lemma Lifetime(put: nat, now: nat, expiration: nat)
    ensures expiration == 0 ==> !Expired(now, expiration, Stamp(put))
    ensures expiration > 0 ==> (Expired(now, expiration, Stamp(put)) <==> now / MICROS >= put / MICROS + expiration)
    ensures expiration > 0 && !Expired(now, expiration, Stamp(put)) ==> now < put + expiration * MICROS
    ensures Expired(now, expiration, Stamp(put)) ==> now > put + (expiration - 1) * MICROS
  {
  }

  // ---------------------------------------------------------------------------------------------
  // Comparing stamped values
  // ---------------------------------------------------------------------------------------------

  /** Equal values are told apart by their timestamps. */
  function ValueLess<V(==)>(less: (V, V) -> bool): (CacheValue<V>, CacheValue<V>) -> bool {
    (a: CacheValue<V>, b: CacheValue<V>) =>
      if a.value == b.value then a.timestamp < b.timestamp else less(a.value, b.value)
  }

  lemma ValueLessIsTotal<V(!new)>(less: (V, V) -> bool)
    requires StrictTotalOrder(less)
    ensures StrictTotalOrder(ValueLess(less))
  {
    var stamped := ValueLess(less);
    forall a, b ensures !stamped(a, a) && (stamped(a, b) || stamped(b, a) || a == b) {
      assert less(a.value, b.value) || less(b.value, a.value) || a.value == b.value;
    }
    forall a, b, c | stamped(a, b) && stamped(b, c) ensures stamped(a, c) {
      assert less(a.value, b.value) && less(b.value, c.value) ==> less(a.value, c.value);
      assert !less(a.value, a.value);
    }
  }

  // ---------------------------------------------------------------------------------------------
  // Timed operations at one clock reading
  // ---------------------------------------------------------------------------------------------

  datatype Outcome<K, V, R> = Outcome(list: seq<Timed<K, V>>, result: Option<R>)

  /** Only the key's least recently used entry is looked at; if it has expired it is dropped. */
  function GetTimed<K(==), V(==)>(list: seq<Timed<K, V>>, k: K, now: nat, expiration: nat): Outcome<K, V, V> {
    match LruOf(list, k)
    case None => Outcome(list, None)
    case Some(x) =>
      if Expired(now, expiration, x.value.timestamp) then Outcome(Without(list, x), None)
      else Outcome(Touch(list, x), Some(x.value.value))
  }

  function PopTimed<K(==), V(==)>(list: seq<Timed<K, V>>, k: K, now: nat, expiration: nat): Outcome<K, V, V> {
    match LruOf(list, k)
    case None => Outcome(list, None)
    case Some(x) =>
      Outcome(Without(list, x),
              if Expired(now, expiration, x.value.timestamp) then None else Some(x.value.value))
  }

  function LacksValue<K, V(==)>(v: V): Timed<K, V> -> bool {
    (x: Timed<K, V>) => x.value.value != v
  }

  function LacksPair<K(==), V(==)>(k: K, v: V): Timed<K, V> -> bool {
    (x: Timed<K, V>) => x.key != k || x.value.value != v
  }

  /** All entries of `k` and `v` are gone, whatever their stamps. */
  function WithoutPair<K(==), V(==)>(list: seq<Timed<K, V>>, k: K, v: V): seq<Timed<K, V>> {
    Filter(LacksPair(k, v), list)
  }

  /** Dropping what was just moved to the back is dropping it where it was. */
  lemma DropAfterTouch<K(!new), V(!new)>(list: seq<Entry<K, V>>, x: Entry<K, V>)
    ensures Without(Touch(list, x), x) == Without(list, x)
  {
    FilterConcat(Differs(x), Without(list, x), [x]);
    FilterMembers(Differs(x), list);
    FilterNone(Differs(x), [x]);
    WithoutMembers(list, x);
    FilterAll(Differs(x), Without(list, x));
  }

  // ---------------------------------------------------------------------------------------------
  // Reverse lookup
  // ---------------------------------------------------------------------------------------------

  /**
   What a reverse lookup of `v` may do while the clock moves from `start` to `end`: it scans the
   first `cut` entries, drops exactly the entries of `v` among them, all of them expired by `end`,
   and stops at an entry of `v` that was live when the lookup started.
   */
  ghost predicate LookupUpTo<K, V>(list: seq<Timed<K, V>>, v: V, expiration: nat, start: nat, end: nat,
                                   cut: nat, result: Option<K>, after: seq<Timed<K, V>>)
  {
    && cut <= |list|
    && after == Filter(LacksValue(v), list[..cut]) + list[cut..]
    && (forall i :: 0 <= i < cut && list[i].value.value == v ==> Expired(end, expiration, list[i].value.timestamp))
    && (cut == |list| ==> result == None)
    && (cut < |list| ==>
          && list[cut].value.value == v
          && !Expired(start, expiration, list[cut].value.timestamp)
          && result == Some(list[cut].key))
  }

  ghost predicate LookupOutcome<K, V>(list: seq<Timed<K, V>>, v: V, expiration: nat, start: nat, end: nat,
                                      result: Option<K>, after: seq<Timed<K, V>>)
  {
    exists cut: nat :: LookupUpTo(list, v, expiration, start, end, cut, result, after)
  }

  /** Holds of the entries with value `v` that are live at `now`. */
  function LiveWith<K, V(==)>(v: V, now: nat, expiration: nat): Timed<K, V> -> bool {
    (x: Timed<K, V>) => x.value.value == v && !Expired(now, expiration, x.value.timestamp)
  }

  /**
   Main result: at a fixed clock the lookup returns the key of the first live entry with the value,
   or nothing when there is none. It drops exactly the expired entries with the value that precede
   it, so after an unsuccessful lookup no entry with the value is left.
   */
  lemma LookupFindsFirstLive<K(!new), V(!new)>(list: seq<Timed<K, V>>, v: V, expiration: nat, now: nat,
                                   result: Option<K>, after: seq<Timed<K, V>>)
    requires LookupOutcome(list, v, expiration, now, now, result, after)
    ensures var i := FirstWhere(LiveWith<K, V>(v, now, expiration), list);
            && result == (if i == |list| then None else Some(list[i].key))
            && after == Filter(LacksValue<K, V>(v), list[..i]) + list[i..]
    ensures result.None? ==> forall i :: 0 <= i < |after| ==> after[i].value.value != v
  {
    var cut: nat :| LookupUpTo(list, v, expiration, now, now, cut, result, after);
    var i := FirstWhere(LiveWith<K, V>(v, now, expiration), list);
    assert i == cut;
    FilterAt(LacksValue<K, V>(v), list[..cut]);
  }

  // ---------------------------------------------------------------------------------------------
  // Retrying a get
  // ---------------------------------------------------------------------------------------------

  /** The list after `n` timed gets of `k` at the same clock reading. */
  function Retry<K(==), V(==)>(list: seq<Timed<K, V>>, k: K, now: nat, expiration: nat, n: nat): seq<Timed<K, V>>
    decreases n
  {
    if n == 0 then list else Retry(GetTimed(list, k, now, expiration).list, k, now, expiration, n - 1)
  }

  function ExpiredAt<K, V>(now: nat, expiration: nat): Timed<K, V> -> bool {
    (x: Timed<K, V>) => Expired(now, expiration, x.value.timestamp)
  }

  /** How many of the key's first entries have expired. */
  function LeadingExpired<K, V>(mine: seq<Timed<K, V>>, now: nat, expiration: nat): (n: nat)
    ensures n <= |mine|
    ensures forall i :: 0 <= i < n ==> Expired(now, expiration, mine[i].value.timestamp)
    ensures n < |mine| ==> !Expired(now, expiration, mine[n].value.timestamp)
  {
    if mine != [] && Expired(now, expiration, mine[0].value.timestamp) then
      1 + LeadingExpired(mine[1..], now, expiration)
    else 0
  }

  /**
   A `get` (and likewise a `pop`) can return nothing although the key has a live value: exactly when
   the key's least recently used entry has expired and not all of its entries have.
   */
  lemma GetMissesLiveValueExactly<K(!new), V(!new)>(list: seq<Timed<K, V>>, k: K, now: nat, expiration: nat)
    ensures var mine := OfKey(list, k);
            var live := exists i :: 0 <= i < |mine| && !Expired(now, expiration, mine[i].value.timestamp);
            var missed := 0 < LeadingExpired(mine, now, expiration) < |mine|;
            && (GetTimed(list, k, now, expiration).result.None? && live <==> missed)
            && (PopTimed(list, k, now, expiration).result.None? && live <==> missed)
  {
  }

  /** An unsuccessful get of a present key drops exactly one entry: the key's first, which has expired. */
  lemma FailedGetDropsOne<K(!new), V(!new)>(list: seq<Timed<K, V>>, k: K, now: nat, expiration: nat)
    requires NoDuplicates(list)
    requires LruOf(list, k).Some? && GetTimed(list, k, now, expiration).result.None?
    ensures var after := GetTimed(list, k, now, expiration).list;
            && NoDuplicates(after) && |after| == |list| - 1
            && Expired(now, expiration, OfKey(list, k)[0].value.timestamp)
            && OfKey(after, k) == OfKey(list, k)[1..]
            && NotOfKey(after, k) == NotOfKey(list, k)
  {
    var x := LruOf(list, k).value;
    LruOfIsFirst(list, k);
    DropFirstOfKey(list, k, IndexOf(list, x));
  }

  /**
   At a fixed clock, after as many failing gets as the key has leading expired entries, the next get
   returns the key's first live value in line, or the key is gone. Nothing else is touched on the way.
   */
  ghost predicate RetriesUntilLive<K, V>(list: seq<Timed<K, V>>, k: K, now: nat, expiration: nat) {
    var mine := OfKey(list, k);
    var n := LeadingExpired(mine, now, expiration);
    && n <= |Filter(ExpiredAt<K, V>(now, expiration), mine)|
    && (forall i :: 0 <= i < n ==> GetTimed(Retry(list, k, now, expiration, i), k, now, expiration).result.None?)
    && OfKey(Retry(list, k, now, expiration, n), k) == mine[n..]
    && NotOfKey(Retry(list, k, now, expiration, n), k) == NotOfKey(list, k)
    && GetTimed(Retry(list, k, now, expiration, n), k, now, expiration).result ==
         (if n < |mine| then Some(mine[n].value.value) else None)
  }

  lemma NothingToRetry<K(!new), V(!new)>(list: seq<Timed<K, V>>, k: K, now: nat, expiration: nat)
    requires LeadingExpired(OfKey(list, k), now, expiration) == 0
    ensures RetriesUntilLive(list, k, now, expiration)
  {
    hide Filter, OfKey, NotOfKey;
  }

  lemma LeadingExpiredRest<K(!new), V(!new)>(mine: seq<Timed<K, V>>, now: nat, expiration: nat)
    requires mine != [] && Expired(now, expiration, mine[0].value.timestamp)
    ensures LeadingExpired(mine, now, expiration) == 1 + LeadingExpired(mine[1..], now, expiration)
    ensures |Filter(ExpiredAt<K, V>(now, expiration), mine)| ==
            1 + |Filter(ExpiredAt<K, V>(now, expiration), mine[1..])|
    ensures forall n :: 0 <= n <= |mine| - 1 ==> mine[1..][n..] == mine[n + 1..]
  {
  }

  lemma RetryOnce<K(!new), V(!new)>(list: seq<Timed<K, V>>, after: seq<Timed<K, V>>, k: K, now: nat, expiration: nat)
    requires GetTimed(list, k, now, expiration) == Outcome(after, None)
    requires OfKey(list, k) != [] && Expired(now, expiration, OfKey(list, k)[0].value.timestamp)
    requires OfKey(after, k) == OfKey(list, k)[1..] && NotOfKey(after, k) == NotOfKey(list, k)
    requires RetriesUntilLive(after, k, now, expiration)
    ensures RetriesUntilLive(list, k, now, expiration)
  {
    hide Filter, OfKey, NotOfKey, GetTimed, LeadingExpired, Expired;
    var n := LeadingExpired(OfKey(list, k), now, expiration);
    LeadingExpiredRest(OfKey(list, k), now, expiration);
    forall i | 0 <= i < n ensures GetTimed(Retry(list, k, now, expiration, i), k, now, expiration).result.None? {
      if i > 0 {
        assert Retry(list, k, now, expiration, i) == Retry(after, k, now, expiration, i - 1);
      }
    }
  }

  /** Main result: retrying a get gets past the expired entries, whatever the list. */
  lemma {:induction false} RetryProgress<K(!new), V(!new)>(list: seq<Timed<K, V>>, k: K, now: nat, expiration: nat)
    requires NoDuplicates(list)
    ensures RetriesUntilLive(list, k, now, expiration)
    decreases |OfKey(list, k)|
  {
    hide Filter, RetriesUntilLive, NotOfKey;
    if LeadingExpired(OfKey(list, k), now, expiration) == 0 {
      NothingToRetry(list, k, now, expiration);
    } else {
      var after := GetTimed(list, k, now, expiration).list;
      FailedGetDropsOne(list, k, now, expiration);
      RetryProgress(after, k, now, expiration);
      RetryOnce(list, after, k, now, expiration);
    }
  }

  // ---------------------------------------------------------------------------------------------
  // What get and pop take and return
  // ---------------------------------------------------------------------------------------------

  function LiveValue<K, V>(x: Timed<K, V>, now: nat, expiration: nat): Option<V> {
    if Expired(now, expiration, x.value.timestamp) then None else Some(x.value.value)
  }

  /** A get of a live entry returns it and moves it behind all others; nothing else changes its place. */
  lemma GetServesLive<K(!new), V(!new)>(list: seq<Timed<K, V>>, k: K, now: nat, expiration: nat)
    requires NoDuplicates(list)
    requires OfKey(list, k) != [] && !Expired(now, expiration, OfKey(list, k)[0].value.timestamp)
    ensures var mine, o := OfKey(list, k), GetTimed(list, k, now, expiration);
            && o.result == Some(mine[0].value.value)
            && NoDuplicates(o.list) && |o.list| == |list| && o.list[|list| - 1] == mine[0]
            && OfKey(o.list, k) == mine[1..] + [mine[0]]
            && NotOfKey(o.list, k) == NotOfKey(list, k)
  {
    GetMovesTheFirst(list, k);
  }

  /** A pop takes the key's first entry out, live or expired, and returns its value if it is live. */
  lemma PopTakesFirst<K(!new), V(!new)>(list: seq<Timed<K, V>>, k: K, now: nat, expiration: nat)
    requires NoDuplicates(list)
    ensures var mine, o := OfKey(list, k), PopTimed(list, k, now, expiration);
            && NotOfKey(o.list, k) == NotOfKey(list, k)
            && (mine == [] ==> o.list == list && o.result == None)
            && (mine != [] ==>
                  && NoDuplicates(o.list) && |o.list| == |list| - 1
                  && OfKey(o.list, k) == mine[1..]
                  && o.result == LiveValue(mine[0], now, expiration))
  {
    PopTakesTheFirst(list, k);
  }

  /** The list after one pop of `k` at each of the clock readings. */
  function PopEach<K(==), V(==)>(list: seq<Timed<K, V>>, k: K, readings: seq<nat>, expiration: nat): seq<Timed<K, V>>
    decreases |readings|
  {
    if readings == [] then list
    else PopEach(PopTimed(list, k, readings[0], expiration).list, k, readings[1..], expiration)
  }

  /** What these pops return. */
  function Popped<K(==), V(==)>(list: seq<Timed<K, V>>, k: K, readings: seq<nat>, expiration: nat): seq<Option<V>>
    decreases |readings|
  {
    if readings == [] then []
    else
      var o := PopTimed(list, k, readings[0], expiration);
      [o.result] + Popped(o.list, k, readings[1..], expiration)
  }

  /**
   Main result: as many pops as the key has entries, at whatever times, return the values of those
   that are live when their turn comes, least recently used first, and leave the key absent and the
   other keys alone.
   */
  lemma {:induction false} PopsDrainTheKey<K(!new), V(!new)>(list: seq<Timed<K, V>>, k: K, readings: seq<nat>,
                                                             expiration: nat)
    requires NoDuplicates(list) && |readings| == |OfKey(list, k)|
    ensures var after := PopEach(list, k, readings, expiration);
            OfKey(after, k) == [] && NotOfKey(after, k) == NotOfKey(list, k)
    ensures |Popped(list, k, readings, expiration)| == |readings|
    ensures forall i :: 0 <= i < |readings| ==>
              Popped(list, k, readings, expiration)[i] == LiveValue(OfKey(list, k)[i], readings[i], expiration)
    decreases |readings|
  {
    hide OfKey, NotOfKey, PopTimed, NoDuplicates, LiveValue;
    if readings != [] {
      PopTakesFirst(list, k, readings[0], expiration);
      PopsDrainTheKey(PopTimed(list, k, readings[0], expiration).list, k, readings[1..], expiration);
    }
  }
}
