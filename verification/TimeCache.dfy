/** The time-to-live caches of time_cache.hpp. Time is a parameter that never goes back. */
module TimeCaches {
  import opened Common

  /** What a cache should hold: for every live key the moment it expires. */
  type Deadlines<!K> = map<K, int>

  /** Dropping by age, looked at entry by entry. */
  function Live<K>(d: Deadlines<K>, now: int): Deadlines<K> {
    map k | k in d && d[k] > now :: d[k]
  }

  function Touched<K>(d: Deadlines<K>, key: K, now: int, ttl: nat): Deadlines<K> {
    var live := Live(d, now);
    if key in live then live else live[key := now + ttl]
  }

  /** An entry with the nearest deadline. */
  ghost predicate IsOldest<K(!new)>(d: Deadlines<K>, k: K) {
    k in d && forall j :: j in d ==> d[k] <= d[j]
  }

  // ---- The expiry queue ----------------------------------------------------

  function Queued<K>(q: seq<(int, K)>): Deadlines<K> {
    if q == [] then map[] else Queued(q[..|q| - 1])[q[|q| - 1].1 := q[|q| - 1].0]
  }

  /** Oldest first, no key twice. */
  ghost predicate Ordered<K>(q: seq<(int, K)>) {
    forall i, j :: 0 <= i < j < |q| ==> q[i].0 <= q[j].0 && q[i].1 != q[j].1
  }

  lemma {:induction false} QueuedAt<K>(q: seq<(int, K)>, i: nat)
    requires Ordered(q) && i < |q|
    ensures q[i].1 in Queued(q) && Queued(q)[q[i].1] == q[i].0
  {
    if i < |q| - 1 { QueuedAt(q[..|q| - 1], i); }
  }

  lemma {:induction false} QueuedFrom<K>(q: seq<(int, K)>, k: K) returns (i: nat)
    requires k in Queued(q)
    ensures i < |q| && q[i].1 == k
  {
    if q[|q| - 1].1 == k { i := |q| - 1; } else { i := QueuedFrom(q[..|q| - 1], k); }
  }

  /** Taking the oldest entry off the queue removes exactly its key. */
  lemma DropFirst<K>(q: seq<(int, K)>)
    requires Ordered(q) && q != []
    ensures Ordered(q[1..]) && q[0].1 in Queued(q) && Queued(q[1..]) == Queued(q) - {q[0].1}
  {
    forall k | k in Queued(q) && k != q[0].1 ensures k in Queued(q[1..]) && Queued(q[1..])[k] == Queued(q)[k] {
      var i := QueuedFrom(q, k);
      QueuedAt(q, i);
      QueuedAt(q[1..], i - 1);
    }
    forall k | k in Queued(q[1..]) ensures k in Queued(q) && k != q[0].1 {
      var i := QueuedFrom(q[1..], k);
      QueuedAt(q, i + 1);
    }
    QueuedAt(q, 0);
  }

  /** Once the oldest entry is young enough, so are all. */
  lemma {:induction false} AllLive<K>(q: seq<(int, K)>, now: int)
    requires Ordered(q) && (q == [] || q[0].0 > now)
    ensures Live(Queued(q), now) == Queued(q)
  {
    forall k | k in Queued(q) ensures Queued(q)[k] > now {
      var i := QueuedFrom(q, k);
      QueuedAt(q, i);
    }
  }

  lemma {:induction false} KeyAbsent<K>(q: seq<(int, K)>, k: K, i: nat)
    requires Ordered(q) && k !in Queued(q) && i < |q|
    ensures q[i].1 != k
  {
    QueuedAt(q, i);
  }

  lemma AppendLast<K>(q: seq<(int, K)>, t: int, k: K)
    requires Ordered(q) && k !in Queued(q) && (q == [] || q[|q| - 1].0 <= t)
    ensures Ordered(q + [(t, k)])
  {
    forall i | 0 <= i < |q| ensures q[i].1 != k && q[i].0 <= t {
      KeyAbsent(q, k, i);
      LastIsLatest(q, i);
      hide *;
    }
    hide *;
    OrderedMore(q, (t, k));
  }

  lemma LastIsLatest<K>(q: seq<(int, K)>, i: nat)
    requires Ordered(q) && i < |q|
    ensures q[i].0 <= q[|q| - 1].0
  {
  }

  lemma OrderedMore<K>(q: seq<(int, K)>, e: (int, K))
    requires Ordered(q) && forall i :: 0 <= i < |q| ==> q[i].1 != e.1 && q[i].0 <= e.0
    ensures Ordered(q + [e])
  {
  }

  lemma QueuedLast<K>(q: seq<(int, K)>, t: int, k: K)
    ensures Queued(q + [(t, k)]) == Queued(q)[k := t]
  {
  }

  /** Popping an expired entry changes nothing among the live ones. */
  lemma DropExpired<K>(q: seq<(int, K)>, now: int)
    requires Ordered(q) && q != [] && q[0].0 <= now
    ensures Ordered(q[1..]) && Queued(q[1..]) == Queued(q) - {q[0].1}
    ensures Live(Queued(q[1..]), now) == Live(Queued(q), now)
    ensures q[1..] != [] ==> q[1..][|q| - 2] == q[|q| - 1]
  {
    DropFirst(q);
    QueuedAt(q, 0);
    hide Queued, Ordered;
  }

  /** `m` is `before` without some of its keys. */
  ghost predicate Narrowed<K(!new), V>(before: map<K, V>, m: map<K, V>) {
    m == map k | k in before && k in m :: before[k]
  }

  lemma NarrowedStart<K(!new), V>(m: map<K, V>)
    ensures Narrowed(m, m)
  {
  }

  lemma NarrowedMore<K(!new), V>(before: map<K, V>, m: map<K, V>, k: K)
    requires Narrowed(before, m)
    ensures Narrowed(before, m - {k})
  {
  }

  class TimeCache<K(==, !new), V(==)> {
    const ttl: nat
    var entries: map<K, V>
    var expirations: seq<(int, K)>

    /** The queue names every entry once, in order of expiry, none later than `now + ttl`. */
    ghost predicate Valid(now: int)
      reads this
    {
      && Ordered(expirations) && entries.Keys == View().Keys
      && (expirations != [] ==> expirations[|expirations| - 1].0 <= now + ttl)
    }

    ghost function View(): Deadlines<K>
      reads this
    {
      Queued(expirations)
    }

    constructor (ttl: nat)
      ensures forall now :: Valid(now)
      ensures this.ttl == ttl && entries == map[] && View() == map[]
    {
      this.ttl := ttl;
      entries, expirations := map[], [];
    }

    predicate Contains(key: K)
      reads this
    {
      key in entries
    }

    /** The queue gives the same answer as looking at the age of every entry. */
    method ClearExpired(now: int, ghost was: int)
      requires Valid(was) && was <= now
      modifies this`entries, this`expirations
      ensures Valid(now) && View() == Live(old(View()), now)
      ensures entries == map k | k in old(entries) && k in View() :: old(entries)[k]
    {
      ghost var before := entries;
      NarrowedStart(before);
      while expirations != [] && expirations[0].0 <= now
        invariant Valid(was) && Live(View(), now) == Live(old(View()), now) && Narrowed(before, entries)
        decreases |expirations|
      {
        DropExpired(expirations, now);
        NarrowedMore(before, entries, expirations[0].1);
        hide Queued, Ordered, Live, Narrowed;
        entries := entries - {expirations[0].1};
        expirations := expirations[1..];
      }
      AllLive(expirations, now);
      hide Queued, Ordered, Live;
    }

    method GetOrDefault(key: K, default: V, now: int, ghost was: int) returns (v: V)
      requires Valid(was) && was <= now
      modifies this`entries, this`expirations
      ensures Valid(now) && View() == Touched(old(View()), key, now, ttl)
      ensures key in entries && v == entries[key]
      ensures v == if key in Live(old(View()), now) then old(entries)[key] else default
      ensures forall k :: k in entries && k != key ==> k in old(entries) && entries[k] == old(entries)[k]
    {
      ClearExpired(now, was);
      hide Ordered, Queued, Live;
      if key !in entries {
        Append(key, default, now);
      }
      v := entries[key];
    }

    method Append(key: K, value: V, now: int)
      requires Valid(now) && key !in entries
      modifies this`entries, this`expirations
      ensures Valid(now) && View() == old(View())[key := now + ttl] && entries == old(entries)[key := value]
    {
      AppendLast(expirations, now + ttl, key);
      QueuedLast(expirations, now + ttl, key);
      hide Ordered, Queued;
      entries := entries[key := value];
      expirations := expirations + [(now + ttl, key)];
    }

    /** Removes the entry nearest to expiry; the source throws when there is none. */
    method PopFront(ghost now: int)
      requires Valid(now) && expirations != []
      modifies this`entries, this`expirations
      ensures Valid(now) && |entries| == |old(entries)| - 1
      ensures exists k :: IsOldest(old(View()), k) && View() == old(View()) - {k}
    {
      var k := expirations[0].1;
      DropFirst(expirations);
      forall j | j in View() ensures View()[k] <= View()[j] {
        var i := QueuedFrom(expirations, j);
        QueuedAt(expirations, i);
        QueuedAt(expirations, 0);
      }
      assert IsOldest(View(), k);
      entries := entries - {k};
      expirations := expirations[1..];
    }
  }

  // ---- Duplicate suppression -----------------------------------------------

  class DuplicateCache<K(==, !new)> {
    const cache: TimeCache<K, ()>

    constructor (ttl: nat)
      ensures fresh(cache) && cache.ttl == ttl && cache.View() == map[] && forall now :: cache.Valid(now)
    {
      cache := new TimeCache(ttl);
    }

    predicate Contains(key: K)
      reads cache
    {
      cache.Contains(key)
    }

    /** Two clock readings: one to expire, one to stamp the new entry. */
    method Insert(key: K, now: int, later: int, ghost was: int) returns (added: bool)
      requires cache.Valid(was) && was <= now <= later
      modifies cache
      ensures cache.Valid(later)
      ensures added == (key !in Live(old(cache.View()), now))
      ensures cache.View() == Inserted(old(cache.View()), key, now, later, cache.ttl)
    {
      cache.ClearExpired(now, was);
      if cache.Contains(key) {
        return false;
      }
      var _ := cache.GetOrDefault(key, (), later, now);
      added := true;
      assert Live(Live(old(cache.View()), now), later) == Live(old(cache.View()), later);
    }
  }

  function Inserted<K>(d: Deadlines<K>, key: K, now: int, later: int, ttl: nat): Deadlines<K> {
    if key in Live(d, now) then Live(d, now) else Live(d, later)[key := later + ttl]
  }

  /** One call of `insert`, with its two clock readings. */
  datatype Call<K> = Call(key: K, now: int, later: int)

  /** A run of the duplicate cache under a clock that never goes back. */
  ghost predicate IsRun<K>(ttl: nat, states: seq<Deadlines<K>>, calls: seq<Call<K>>) {
    && |states| == |calls| + 1 && states[0] == map[]
    && (forall i :: 0 <= i < |calls| ==> calls[i].now <= calls[i].later)
    && (forall i, j :: 0 <= i < j < |calls| ==> calls[i].later <= calls[j].now)
    && (forall i :: 0 <= i < |calls| ==>
          states[i + 1] == Inserted(states[i], calls[i].key, calls[i].now, calls[i].later, ttl))
  }

  ghost predicate Accepted<K>(states: seq<Deadlines<K>>, calls: seq<Call<K>>, i: nat)
    requires i < |calls| && i < |states|
  {
    calls[i].key !in Live(states[i], calls[i].now)
  }

  lemma {:induction false} RemembersUntil<K>(ttl: nat, states: seq<Deadlines<K>>, calls: seq<Call<K>>, i: nat, j: nat)
    requires IsRun(ttl, states, calls) && i < j < |calls| && Accepted(states, calls, i)
    requires calls[j].now < calls[i].later + ttl
    ensures calls[i].key in states[j] && states[j][calls[i].key] == calls[i].later + ttl
    decreases j
  {
    if i + 1 < j {
      assert calls[j - 1].now <= calls[j - 1].later <= calls[j].now;
      RemembersUntil(ttl, states, calls, i, j - 1);
      assert states[j - 1 + 1] == Inserted(states[j - 1], calls[j - 1].key, calls[j - 1].now, calls[j - 1].later, ttl);
    } else {
      assert states[i + 1] == Inserted(states[i], calls[i].key, calls[i].now, calls[i].later, ttl);
    }
  }

  /** Main result: a message id is accepted again only after the full cache time. */
  lemma AcceptedApart<K>(ttl: nat, states: seq<Deadlines<K>>, calls: seq<Call<K>>, i: nat, j: nat)
    requires IsRun(ttl, states, calls) && i < j < |calls|
    requires calls[i].key == calls[j].key && Accepted(states, calls, i) && Accepted(states, calls, j)
    ensures calls[j].now >= calls[i].later + ttl
  {
    if calls[j].now < calls[i].later + ttl {
      RemembersUntil(ttl, states, calls, i, j);
      assert false;
    }
  }

  lemma {:induction false} NoLater<K>(ttl: nat, states: seq<Deadlines<K>>, calls: seq<Call<K>>, i: nat, j: nat)
    requires IsRun(ttl, states, calls) && i < j <= |calls| && Accepted(states, calls, i)
    requires forall k :: i < k < j && calls[k].key == calls[i].key ==> !Accepted(states, calls, k)
    ensures calls[i].key in states[j] ==> states[j][calls[i].key] == calls[i].later + ttl
    decreases j
  {
    assert states[j - 1 + 1] == Inserted(states[j - 1], calls[j - 1].key, calls[j - 1].now, calls[j - 1].later, ttl);
    if i + 1 < j {
      NoLater(ttl, states, calls, i, j - 1);
      assert calls[j - 1].key == calls[i].key ==> !Accepted(states, calls, j - 1);
    }
  }

  /** And as soon as it is over: the next acceptance is the first call at or after the deadline. */
  lemma AcceptedAgainIff<K>(ttl: nat, states: seq<Deadlines<K>>, calls: seq<Call<K>>, i: nat, j: nat)
    requires IsRun(ttl, states, calls) && i < j < |calls| && calls[i].key == calls[j].key && Accepted(states, calls, i)
    requires forall k :: i < k < j && calls[k].key == calls[i].key ==> !Accepted(states, calls, k)
    ensures Accepted(states, calls, j) <==> calls[j].now >= calls[i].later + ttl
  {
    if Accepted(states, calls, j) { AcceptedApart(ttl, states, calls, i, j); }
    NoLater(ttl, states, calls, i, j);
    hide IsRun;
  }

  // ---- IDONTWANT -----------------------------------------------------------

  const CAPACITY: nat := 10000
  const IDONTWANT_TTL: nat := 3000

  class IDontWantCache<K(==, !new)> {
    const cache: TimeCache<K, ()>

    ghost predicate Valid(now: int)
      reads this, cache
    {
      cache.Valid(now) && cache.ttl == IDONTWANT_TTL && |cache.entries| <= CAPACITY
    }

    constructor ()
      ensures fresh(cache) && cache.View() == map[] && forall now :: Valid(now)
    {
      cache := new TimeCache(IDONTWANT_TTL);
    }

    /** The key is there afterwards, and the cache stays within its capacity. */
    method Insert(key: K, now: int, ghost was: int)
      requires Valid(was) && was <= now
      modifies cache
      ensures key in cache.entries && Valid(now)
      ensures old(key in cache.entries) ==> cache.View() == old(cache.View())
      ensures old(key !in cache.entries && |cache.entries| < CAPACITY) ==>
                cache.View() == Touched(old(cache.View()), key, now, IDONTWANT_TTL)
      ensures old(key !in cache.entries && |cache.entries| >= CAPACITY) ==>
                exists oldest :: IsOldest(old(cache.View()), oldest) &&
                  cache.View() == Touched(old(cache.View()) - {oldest}, key, now, IDONTWANT_TTL)
    {
      if cache.Contains(key) {
        LaterValid(cache, was, now);
        return;
      }
      if |cache.entries| >= CAPACITY {
        NonEmptyQueue(cache, was);
        cache.PopFront(was);
      }
      ghost var before := cache.entries.Keys;
      var _ := cache.GetOrDefault(key, (), now, was);
      SubsetSize(cache.entries.Keys, before + {key});
    }
  }

  lemma LaterValid<K(!new), V>(c: TimeCache<K, V>, was: int, now: int)
    requires c.Valid(was) && was <= now
    ensures c.Valid(now)
  {
  }

  lemma NonEmptyQueue<K(!new), V>(c: TimeCache<K, V>, now: int)
    requires c.Valid(now) && |c.entries| > 0
    ensures c.expirations != []
  {
  }
}
