/**
 * The bounded `functools.lru_cache(maxsize=100)` wrapper that decorates both
 * recommendation methods: a table from call keys to results plus a recency
 * list, updated on every call, evicting the least recently used key when full.
 */
module Memo {
  import opened Outcomes
  import opened SeqFacts

  /**
   * `order` with `key` taken out. The other keys keep their relative order;
   * `WithoutIncreasing` states what that order preserves.
   */
  function Without<K(==)>(order: seq<K>, key: K): (r: seq<K>)
    ensures Elems(r) == Elems(order) - {key}
    ensures Distinct(order) ==> Distinct(r)
    ensures Distinct(order) && key in order ==> |r| == |order| - 1
    ensures key !in order ==> r == order
  {
    if order == [] then []
    else
      var w := Without(order[1..], key);
      assert order == [order[0]] + order[1..];
      DistinctCons(order[0], order[1..]);
      if order[0] == key then w
      else
        DistinctCons(order[0], w);
        [order[0]] + w
  }

  /** The recency list after a hit on `key`: the key moves to the most recent end. */
  function Touch<K(==)>(order: seq<K>, key: K): (r: seq<K>)
    ensures |r| >= 1 && r[|r| - 1] == key
    ensures Elems(r) == Elems(order) + {key}
  {
    var w := Without(order, key);
    assert Elems(w + [key]) == Elems(w) + {key};
    w + [key]
  }

  /** A hit keeps the same keys, still each once, and makes `key` the most recent. */
  lemma TouchKeepsKeys<K>(order: seq<K>, key: K)
    requires Distinct(order) && key in order
    ensures |Touch(order, key)| == |order|
    ensures Distinct(Touch(order, key))
    ensures Touch(order, key)[|order| - 1] == key
    ensures Elems(Touch(order, key)) == Elems(order)
  {
    var w := Without(order, key);
    assert key !in Elems(w);
    assert Elems(w + [key]) == Elems(w) + {key};
    forall i, j | 0 <= i < j < |w| + 1 ensures (w + [key])[i] != (w + [key])[j] {
      if j < |w| {
        assert (w + [key])[i] == w[i] && (w + [key])[j] == w[j];
      }
    }
  }

  /** Time stamps strictly increase along `order`: earlier means used longer ago. */
  predicate Increasing<K>(order: seq<K>, stamp: map<K, nat>)
    requires forall x :: x in order ==> x in stamp
  {
    forall i, j :: 0 <= i < j < |order| ==> stamp[order[i]] < stamp[order[j]]
  }

  /** The tail of a list ordered by last use is ordered too, and every key in it was used after the head. */
  lemma IncreasingTail<K>(order: seq<K>, stamp: map<K, nat>)
    requires order != [] && forall x :: x in order ==> x in stamp
    requires Increasing(order, stamp)
    ensures forall x :: x in order[1..] ==> x in stamp
    ensures Increasing(order[1..], stamp)
    ensures forall x :: x in order[1..] ==> stamp[order[0]] < stamp[x]
  {
    var rest := order[1..];
    forall i, j | 0 <= i < j < |rest| ensures stamp[rest[i]] < stamp[rest[j]] {
      assert rest[i] == order[i + 1] && rest[j] == order[j + 1];
    }
    forall x | x in rest ensures stamp[order[0]] < stamp[x] {
      var p :| 0 <= p < |rest| && rest[p] == x;
      assert rest[p] == order[p + 1];
    }
  }

  /** A key used before every key of an ordered list can go in front of it. */
  lemma ConsIncreasing<K>(h: K, w: seq<K>, stamp: map<K, nat>)
    requires h in stamp && forall x :: x in w ==> x in stamp
    requires Increasing(w, stamp)
    requires forall x :: x in w ==> stamp[h] < stamp[x]
    ensures forall x :: x in [h] + w ==> x in stamp
    ensures Increasing([h] + w, stamp)
  {
    var r := [h] + w;
    forall i, j | 0 <= i < j < |r| ensures stamp[r[i]] < stamp[r[j]] {
      assert r[j] == w[j - 1] && r[j] in w;
      if i > 0 {
        assert r[i] == w[i - 1];
      }
    }
  }

  /** Taking a key out of a list ordered by last use leaves it ordered by last use. */
  lemma {:induction false} WithoutIncreasing<K>(order: seq<K>, key: K, stamp: map<K, nat>)
    requires forall x :: x in order ==> x in stamp
    requires Increasing(order, stamp)
    ensures forall x :: x in Without(order, key) ==> x in stamp
    ensures Increasing(Without(order, key), stamp)
  {
    if order != [] {
      var rest := order[1..];
      IncreasingTail(order, stamp);
      WithoutIncreasing(rest, key, stamp);
      var w := Without(rest, key);
      if order[0] != key {
        assert Without(order, key) == [order[0]] + w;
        forall x | x in w ensures stamp[order[0]] < stamp[x] {
          assert x in Elems(w);
        }
        ConsIncreasing(order[0], w, stamp);
      }
    }
  }

  /** Being ordered by last use depends only on the stamps of the listed keys. */
  lemma IncreasingAgree<K>(order: seq<K>, s1: map<K, nat>, s2: map<K, nat>)
    requires forall x :: x in order ==> x in s1 && x in s2 && s1[x] == s2[x]
    requires Increasing(order, s1)
    ensures Increasing(order, s2)
  {
    forall i, j | 0 <= i < j < |order| ensures s2[order[i]] < s2[order[j]] {
      assert order[i] in order && order[j] in order;
    }
  }

  /** Appending a key stamped later than all others keeps the list distinct and ordered by last use. */
  lemma AppendNewest<K>(kept: seq<K>, key: K, stamp: map<K, nat>, now: nat)
    requires Distinct(kept) && key !in kept
    requires forall x :: x in kept ==> x in stamp && stamp[x] < now
    requires Increasing(kept, stamp)
    ensures Distinct(kept + [key])
    ensures forall x :: x in kept + [key] ==> x in stamp[key := now]
    ensures Increasing(kept + [key], stamp[key := now])
  {
    var t, st := kept + [key], stamp[key := now];
    forall i, j | 0 <= i < j < |t| ensures t[i] != t[j] && st[t[i]] < st[t[j]] {
      assert t[i] == kept[i] && t[i] in kept;
      if j < |kept| {
        assert t[j] == kept[j];
      }
    }
  }

  /** The head of a list ordered by last use is the least recently used key; the rest stays ordered. */
  lemma OldestFirst<K>(order: seq<K>, stamp: map<K, nat>)
    requires order != [] && Distinct(order)
    requires forall x :: x in order ==> x in stamp
    requires Increasing(order, stamp)
    ensures Distinct(order[1..]) && Elems(order[1..]) == Elems(order) - {order[0]}
    ensures Increasing(order[1..], stamp)
    ensures forall x :: x in order ==> stamp[order[0]] <= stamp[x]
  {
    assert order == [order[0]] + order[1..];
    DistinctCons(order[0], order[1..]);
    assert Without(order, order[0]) == order[1..];
    WithoutIncreasing(order, order[0], stamp);
    forall x | x in order ensures stamp[order[0]] <= stamp[x] {
      var i :| 0 <= i < |order| && order[i] == x;
    }
  }

  /**
   * The table invariant on plain values: the recency list holds each cached
   * key once, no more than `capacity` of them, and lists them in the order of
   * their last use, every use stamped before `clock`.
   */
  ghost predicate Inv<K, V>(capacity: nat, order: seq<K>, entries: map<K, V>, stamp: map<K, nat>, clock: nat) {
    && 0 < capacity
    && Distinct(order)
    && |order| <= capacity
    && Elems(order) == entries.Keys
    && stamp.Keys == entries.Keys
    && Increasing(order, stamp)
    && (forall x :: x in stamp ==> stamp[x] < clock)
  }

  /** A hit moves the key to the most recent end and keeps the invariant. */
  lemma InvTouch<K, V>(capacity: nat, order: seq<K>, entries: map<K, V>, stamp: map<K, nat>, clock: nat, key: K)
    requires Inv(capacity, order, entries, stamp, clock) && key in entries
    ensures Inv(capacity, Touch(order, key), entries, stamp[key := clock], clock + 1)
  {
    TouchKeepsKeys(order, key);
    WithoutIncreasing(order, key, stamp);
    AppendNewest(Without(order, key), key, stamp, clock);
  }

  /** Storing a new key while there is room keeps the invariant. */
  lemma InvAppend<K, V>(capacity: nat, order: seq<K>, entries: map<K, V>, stamp: map<K, nat>, clock: nat, key: K, value: V)
    requires Inv(capacity, order, entries, stamp, clock) && key !in entries && |order| < capacity
    ensures Inv(capacity, order + [key], entries[key := value], stamp[key := clock], clock + 1)
  {
    assert key !in Elems(order);
    AppendNewest(order, key, stamp, clock);
    assert Elems(order + [key]) == Elems(order) + {key};
  }

  /**
   * Storing a new key in a full table evicts the head of the recency list,
   * which is a key whose last use is no later than any other's, and keeps the
   * invariant.
   */
  lemma InvEvict<K, V>(capacity: nat, order: seq<K>, entries: map<K, V>, stamp: map<K, nat>, clock: nat, key: K, value: V)
    requires Inv(capacity, order, entries, stamp, clock) && key !in entries && |order| == capacity
    ensures order[0] in entries
    ensures forall x :: x in entries ==> stamp[order[0]] <= stamp[x]
    ensures Inv(capacity, order[1..] + [key], (entries - {order[0]})[key := value],
                (stamp - {order[0]})[key := clock], clock + 1)
  {
    var oldest, kept := order[0], order[1..];
    assert key !in Elems(order);
    OldestFirst(order, stamp);
    AppendNewest(kept, key, stamp, clock);
    var stamped := stamp[key := clock];
    assert (stamp - {oldest})[key := clock] == stamped - {oldest};
    assert Elems(kept + [key]) == Elems(kept) + {key};
    assert oldest !in kept + [key];
    IncreasingAgree(kept + [key], stamped, stamped - {oldest});
  }

  /**
   * One lru_cache table. `entries` is the cache dictionary, `order` its
   * linked list from least to most recently used, `hits` and `misses` the
   * counters behind `cache_info()`. The ghost `lastUse` records when each
   * key was last used, so that "least recently used" is checked against time
   * rather than read off the position in `order`.
   */
  class LruCache<K(==), V> {
    const capacity: nat
    var entries: map<K, V>
    var order: seq<K>
    var hits: nat
    var misses: nat
    ghost var lastUse: map<K, nat>
    ghost var clock: nat

    ghost predicate Valid()
      reads this
    {
      Inv(capacity, order, entries, lastUse, clock)
    }

    /** `cache_info().currsize`: never more than `maxsize`. */
    function CurrentSize(): (n: nat)
      reads this
      requires Valid()
      ensures n == |entries| && n <= capacity
    {
      KeysMatchLength(order, entries);
      |order|
    }

    constructor (capacity: nat)
      requires 0 < capacity
      ensures Valid() && this.capacity == capacity
      ensures entries == map[] && order == [] && hits == 0 && misses == 0
    {
      this.capacity := capacity;
      entries, order := map[], [];
      hits, misses := 0, 0;
      lastUse, clock := map[], 0;
    }

    /** The lookup at the start of every call; a hit makes the key the most recent. */
    method Lookup(key: K) returns (found: Option<V>)
      requires Valid()
      modifies this
      ensures Valid() && entries == old(entries)
      ensures key in old(entries) ==>
        && found == Some(old(entries)[key])
        && order == Touch(old(order), key)
        && lastUse == old(lastUse)[key := old(clock)]
        && hits == old(hits) + 1 && misses == old(misses)
      ensures key !in old(entries) ==>
        && found == None
        && order == old(order) && lastUse == old(lastUse)
        && hits == old(hits) && misses == old(misses) + 1
    {
      if key in entries {
        found := Some(entries[key]);
        InvTouch(capacity, order, entries, lastUse, clock, key);
        order := Touch(order, key);
        lastUse := lastUse[key := clock];
        clock := clock + 1;
        hits := hits + 1;
      } else {
        found := None;
        misses := misses + 1;
      }
    }

    /** Adds a new key as the most recent one while the table has room. */
    method Append(key: K, value: V)
      requires Valid() && key !in entries && |order| < capacity
      modifies this
      ensures Valid()
      ensures entries == old(entries)[key := value] && order == old(order) + [key]
      ensures lastUse == old(lastUse)[key := old(clock)]
      ensures hits == old(hits) && misses == old(misses)
    {
      InvAppend(capacity, order, entries, lastUse, clock, key, value);
      entries := entries[key := value];
      order := order + [key];
      lastUse := lastUse[key := clock];
      clock := clock + 1;
    }

    /** In a full table, evicts the least recently used key and adds the new one as the most recent. */
    method ReplaceOldest(key: K, value: V) returns (oldest: K)
      requires Valid() && key !in entries && |order| == capacity
      modifies this
      ensures Valid()
      ensures oldest == old(order)[0] && oldest in old(entries)
      ensures forall x :: x in old(entries) ==> old(lastUse)[oldest] <= old(lastUse)[x]
      ensures entries == (old(entries) - {oldest})[key := value]
      ensures order == old(order)[1..] + [key]
      ensures hits == old(hits) && misses == old(misses)
    {
      oldest := order[0];
      InvEvict(capacity, order, entries, lastUse, clock, key, value);
      entries := (entries - {oldest})[key := value];
      order := order[1..] + [key];
      lastUse := (lastUse - {oldest})[key := clock];
      clock := clock + 1;
    }

    /**
     * Stores the result of a call that missed. A key that is somehow present
     * already is left alone; when the table is full the least recently used
     * key is evicted and every other entry is kept.
     */
    method Store(key: K, value: V) returns (evicted: Option<K>)
      requires Valid()
      modifies this
      ensures Valid()
      ensures hits == old(hits) && misses == old(misses)
      ensures key in old(entries) ==>
        evicted == None && entries == old(entries) && order == old(order)
      ensures key !in old(entries) && |old(order)| < capacity ==>
        && evicted == None
        && entries == old(entries)[key := value]
        && order == old(order) + [key]
      ensures key !in old(entries) && |old(order)| == capacity ==>
        && evicted == Some(old(order)[0])
        && entries == (old(entries) - {old(order)[0]})[key := value]
        && order == old(order)[1..] + [key]
      ensures evicted.Some? ==>
        && evicted.value in old(entries)
        && forall x :: x in old(entries) ==> old(lastUse)[evicted.value] <= old(lastUse)[x]
    {
      if key in entries {
        evicted := None;
      } else if |order| < capacity {
        evicted := None;
        Append(key, value);
      } else {
        var oldest := ReplaceOldest(key, value);
        evicted := Some(oldest);
      }
    }

    /**
     * The wrapper around one decorated method: a hit returns the stored
     * result without running `body`; a miss runs it once and stores the
     * result unless the call raised (exceptions are never cached).
     */
    method Call<E>(key: K, body: K -> Result<V, E>) returns (r: Result<V, E>)
      requires Valid()
      modifies this
      ensures Valid()
      ensures key in old(entries) ==>
        && r == Ok(old(entries)[key])
        && entries == old(entries) && order == Touch(old(order), key)
        && hits == old(hits) + 1 && misses == old(misses)
      ensures key !in old(entries) ==>
        r == body(key) && hits == old(hits) && misses == old(misses) + 1
      ensures key !in old(entries) && r.Err? ==>
        entries == old(entries) && order == old(order)
      ensures key !in old(entries) && r.Ok? && |old(order)| < capacity ==>
        entries == old(entries)[key := r.value] && order == old(order) + [key]
      ensures key !in old(entries) && r.Ok? && |old(order)| == capacity ==>
        && entries == (old(entries) - {old(order)[0]})[key := r.value]
        && order == old(order)[1..] + [key]
      ensures forall x :: x in entries ==>
        (x == key && r.Ok? && entries[x] == r.value) || (x in old(entries) && entries[x] == old(entries)[x])
    {
      var found := Lookup(key);
      if found.Some? {
        r := Ok(found.value);
        return;
      }
      r := body(key);
      if r.Ok? {
        var _ := Store(key, r.value);
      }
    }
  }
}
