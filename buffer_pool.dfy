/** The LRU buffer pool of src/buffer_pool.rs.

    `pool` maps page ids to cached page handles and `lruQueue` orders the
    cached ids from most recently used (front) to least recently used (back).
    The mutex around the two and the one around the storage engine are not
    modelled: each operation runs atomically. The queue bookkeeping is stated by
    the functions `Touch`, `Evict` and `Admit`, which the methods are proved
    to follow, and the lemmas about those functions give the pool's
    invariants. */
module BufferPool {
  import opened Wrappers
  import opened Storage

  predicate NoDuplicates<T(==)>(q: seq<T>) {
    forall i, j | 0 <= i < j < |q| :: q[i] != q[j]
  }

  /** The queue holds each cached id exactly once, and nothing else. */
  ghost predicate QueueMatches<V>(pool: map<U32, V>, q: seq<U32>) {
    NoDuplicates(q) && (forall id :: id in pool <==> id in q)
  }

  /** `Iterator::position`: the first index holding id. */
  function IndexOf(q: seq<U32>, id: U32): (r: Option<nat>)
    ensures r.Some? ==> r.value < |q| && q[r.value] == id
    ensures r.Some? ==> forall j | 0 <= j < r.value :: q[j] != id
    ensures r.None? <==> id !in q
  {
    if q == [] then None
    else if q[0] == id then Some(0)
    else match IndexOf(q[1..], id)
      case None => None
      case Some(i) => Some(i + 1)
  }

  /** A hit: the first occurrence of id is removed and id is pushed to the front. */
  function Touch(q: seq<U32>, id: U32): seq<U32> {
    match IndexOf(q, id)
    case None => [id] + q
    case Some(i) => [id] + (q[..i] + q[i + 1..])
  }

  /** Before an insertion: when the pool is at or over capacity, the id at the
      back of the queue is popped and dropped from the pool. */
  function Evict<V>(pool: map<U32, V>, q: seq<U32>, capacity: nat): (map<U32, V>, seq<U32>) {
    if |pool| >= capacity && q != [] then (pool - {q[|q| - 1]}, q[..|q| - 1])
    else (pool, q)
  }

  /** A miss load or an allocation: evict, then cache page under id at the front. */
  function Admit<V>(pool: map<U32, V>, q: seq<U32>, id: U32, page: V, capacity: nat): (map<U32, V>, seq<U32>) {
    var (p, q') := Evict(pool, q, capacity);
    (p[id := page], [id] + q')
  }

  lemma {:induction false} DistinctCardinality(q: seq<U32>)
    requires NoDuplicates(q)
    ensures |set id: U32 | id in q| == |q|
  {
    if q != [] {
      var tail := q[1..];
      assert NoDuplicates(tail) by {
        forall a, b | 0 <= a < b < |tail| ensures tail[a] != tail[b] {
          assert tail[a] == q[a + 1] && tail[b] == q[b + 1];
        }
      }
      DistinctCardinality(tail);
      var elems := set id: U32 | id in tail;
      assert (set id: U32 | id in q) == elems + {q[0]};
      assert |elems + {q[0]}| == |elems| + 1;
    }
  }

  /** A matching queue is exactly as long as the pool is large. */
  lemma QueueLength<V>(pool: map<U32, V>, q: seq<U32>)
    requires QueueMatches(pool, q)
    ensures |q| == |pool|
  {
    DistinctCardinality(q);
    assert pool.Keys == set id: U32 | id in q;
  }

  /** A hit keeps the queue matched to the pool and moves id to the front,
      keeping the order of the other ids. */
  lemma TouchKeepsQueue<V>(pool: map<U32, V>, q: seq<U32>, id: U32)
    requires QueueMatches(pool, q) && id in pool
    ensures QueueMatches(pool, Touch(q, id))
    ensures Touch(q, id)[0] == id && |Touch(q, id)| == |q|
    ensures Touch(q, id)[1..] == Without(q, id)
  {
    var i := IndexOf(q, id).value;
    WithoutIsRemoval(q, id, i);
    var w := Without(q, id);
    assert Touch(q, id) == [id] + w;
    WithoutKeepsDistinct(q, id);
    PushFresh(id, w);
    assert ([id] + w)[1..] == w;
  }

  /** Pushing an id that is not in a duplicate-free queue keeps it duplicate-free. */
  lemma PushFresh(id: U32, q: seq<U32>)
    requires NoDuplicates(q) && id !in q
    ensures NoDuplicates([id] + q)
  {
    var t := [id] + q;
    forall a, b | 0 <= a < b < |t| ensures t[a] != t[b] {
      assert t[b] == q[b - 1];
      if a > 0 {
        assert t[a] == q[a - 1];
      }
    }
  }

  /** Filtering keeps a queue duplicate-free. */
  lemma {:induction false} WithoutKeepsDistinct(q: seq<U32>, id: U32)
    requires NoDuplicates(q)
    ensures NoDuplicates(Without(q, id))
  {
    if q != [] {
      var tail := q[1..];
      assert NoDuplicates(tail) by {
        forall a, b | 0 <= a < b < |tail| ensures tail[a] != tail[b] {
          assert tail[a] == q[a + 1] && tail[b] == q[b + 1];
        }
      }
      WithoutKeepsDistinct(tail, id);
      if q[0] != id {
        assert q[0] !in tail;
        PushFresh(q[0], Without(tail, id));
      }
    }
  }

  /** q with the occurrences of id filtered out. */
  function Without(q: seq<U32>, id: U32): (r: seq<U32>)
    ensures forall x :: x in r <==> x in q && x != id
  {
    if q == [] then []
    else if q[0] == id then Without(q[1..], id)
    else [q[0]] + Without(q[1..], id)
  }

  lemma {:induction false} WithoutIsRemoval(q: seq<U32>, id: U32, i: nat)
    requires NoDuplicates(q) && i < |q| && q[i] == id
    ensures Without(q, id) == q[..i] + q[i + 1..]
  {
    if i == 0 {
      WithoutAbsent(q[1..], id);
    } else {
      WithoutIsRemoval(q[1..], id, i - 1);
      assert q[1..][..i - 1] + q[1..][i..] == (q[..i] + q[i + 1..])[1..];
    }
  }

  lemma {:induction false} WithoutAbsent(q: seq<U32>, id: U32)
    requires id !in q
    ensures Without(q, id) == q
  {
    if q != [] {
      WithoutAbsent(q[1..], id);
      assert q == [q[0]] + q[1..];
    }
  }

  /** Eviction drops the least recently used id, the back of the queue, from
      both the pool and the queue, and only when the pool is full. */
  lemma EvictDropsBack<V>(pool: map<U32, V>, q: seq<U32>, capacity: nat)
    requires QueueMatches(pool, q)
    ensures QueueMatches(Evict(pool, q, capacity).0, Evict(pool, q, capacity).1)
    ensures |pool| >= capacity && q != [] ==>
      Evict(pool, q, capacity).0.Keys == pool.Keys - {q[|q| - 1]} &&
      Evict(pool, q, capacity).1 + [q[|q| - 1]] == q
    ensures |pool| < capacity ==> Evict(pool, q, capacity) == (pool, q)
  {
    if |pool| >= capacity && q != [] {
      var last := q[|q| - 1];
      var q' := q[..|q| - 1];
      forall x ensures x in pool - {last} <==> x in q' {
        if x in q && x != last {
          var j :| 0 <= j < |q| && q[j] == x;
          assert j < |q| - 1;
          assert q'[j] == x;
        }
        if x in q' {
          var j :| 0 <= j < |q'| && q'[j] == x;
          assert q[j] == x;
        }
      }
    }
  }

  /** Admitting an id that is not cached keeps the queue matched; the id is
      at the front and maps to the given handle. */
  lemma AdmitKeepsQueue<V>(pool: map<U32, V>, q: seq<U32>, id: U32, page: V, capacity: nat)
    requires QueueMatches(pool, q) && id !in pool
    ensures var (p', q') := Admit(pool, q, id, page, capacity);
      QueueMatches(p', q') && q'[0] == id && id in p' && p'[id] == page
  {
    EvictDropsBack(pool, q, capacity);
    var (p, e) := Evict(pool, q, capacity);
    assert id !in e;
    PushFresh(id, e);
  }

  /** With room for at least one page, admitting an uncached id never takes
      the pool over capacity. */
  lemma AdmitWithinCapacity<V>(pool: map<U32, V>, q: seq<U32>, id: U32, page: V, capacity: nat)
    requires capacity >= 1
    requires QueueMatches(pool, q) && |pool| <= capacity && id !in pool
    ensures |Admit(pool, q, id, page, capacity).0| <= capacity
  {
    QueueLength(pool, q);
    EvictDropsBack(pool, q, capacity);
    var (p, e) := Evict(pool, q, capacity);
    if |pool| >= capacity {
      assert p.Keys == pool.Keys - {q[|q| - 1]};
      assert |p.Keys| == |pool.Keys| - 1;
    }
    assert id !in p;
    assert p[id := page].Keys == p.Keys + {id};
  }

  /** Admitting an id that is already cached while there is room leaves it
      twice in the queue: the queue no longer matches the pool. */
  lemma AdmitCachedIdDuplicates<V>(pool: map<U32, V>, q: seq<U32>, id: U32, page: V, capacity: nat)
    requires QueueMatches(pool, q) && id in pool && |pool| < capacity
    ensures !QueueMatches(Admit(pool, q, id, page, capacity).0, Admit(pool, q, id, page, capacity).1)
  {
    var q' := Admit(pool, q, id, page, capacity).1;
    assert q' == [id] + q;
    var j :| 0 <= j < |q| && q[j] == id;
    assert q'[0] == q'[j + 1];
  }

  class BufferPool {
    const capacity: nat
    var pool: map<U32, Page>
    var lruQueue: seq<U32>
    const storage: StorageEngine

    /** The pool invariant: the queue matches the pool and the pool is
        within capacity. */
    ghost predicate Matched()
      reads this
    {
      QueueMatches(pool, lruQueue) && |pool| <= capacity
    }

    /** `BufferPool::new`: an empty pool over the given storage engine. */
    constructor (capacity: nat, storage: StorageEngine)
      ensures this.capacity == capacity && this.storage == storage
      ensures pool == map[] && lruQueue == [] && Matched()
    {
      this.capacity := capacity;
      this.storage := storage;
      pool := map[];
      lruQueue := [];
    }

    /** `lru_queue.iter().position(|&id| id == page_id)`. */
    method Position(pageId: U32) returns (pos: Option<nat>)
      ensures pos == IndexOf(lruQueue, pageId)
    {
      var i := 0;
      while i < |lruQueue|
        invariant 0 <= i <= |lruQueue|
        invariant forall j | 0 <= j < i :: lruQueue[j] != pageId
      {
        if lruQueue[i] == pageId {
          return Some(i);
        }
        i := i + 1;
      }
      return None;
    }

    /** Admitting an uncached id keeps the pool invariant. */
    lemma AdmitKeeps(id: U32, page: Page)
      ensures Matched() && capacity >= 1 && id !in pool ==>
        var (p, q) := Admit(pool, lruQueue, id, page, capacity);
        QueueMatches(p, q) && |p| <= capacity
    {
      if Matched() && capacity >= 1 && id !in pool {
        AdmitKeepsQueue(pool, lruQueue, id, page, capacity);
        AdmitWithinCapacity(pool, lruQueue, id, page, capacity);
      }
    }

    /** The insertion block shared by `get_page` and `allocate_page`. */
    method InsertPage(pageId: U32, page: Page)
      modifies this`pool, this`lruQueue
      ensures (pool, lruQueue) == Admit(old(pool), old(lruQueue), pageId, page, capacity)
    {
      if |pool| >= capacity {
        if |lruQueue| > 0 {
          var oldId := lruQueue[|lruQueue| - 1];
          lruQueue := lruQueue[..|lruQueue| - 1];
          pool := pool - {oldId};
        }
      }
      pool := pool[pageId := page];
      lruQueue := [pageId] + lruQueue;
    }

    /** `get_page`: a hit returns the cached handle and refreshes its place in
        the queue; a miss reads the page from storage and caches it under the
        id stored in the page; a storage error changes nothing. */
    method GetPage(pageId: U32) returns (r: Result<Page, IoError>)
      modifies this`pool, this`lruQueue
      ensures pageId in old(pool) ==>
        r == Success(old(pool)[pageId]) && pool == old(pool) && lruQueue == Touch(old(lruQueue), pageId)
      ensures pageId !in old(pool) && ReadSlot(storage.file, storage.codec, pageId).Failure? ==>
        r == Failure(ReadSlot(storage.file, storage.codec, pageId).error) &&
        pool == old(pool) && lruQueue == old(lruQueue)
      ensures pageId !in old(pool) && ReadSlot(storage.file, storage.codec, pageId).Success? ==>
        r.Success? && fresh(r.value) && r.value.data == ReadSlot(storage.file, storage.codec, pageId).value &&
        (pool, lruQueue) == Admit(old(pool), old(lruQueue), r.value.data.id, r.value, capacity)
      ensures old(Matched()) && capacity >= 1 ==>
        (pageId in old(pool) || r.Failure? || r.value.data.id !in old(pool) ==> Matched())
    {
      if pageId in pool {
        if Matched() {
          TouchKeepsQueue(pool, lruQueue, pageId);
        }
        var page := pool[pageId];
        var pos := Position(pageId);
        if pos.Some? {
          lruQueue := lruQueue[..pos.value] + lruQueue[pos.value + 1..];
        }
        lruQueue := [pageId] + lruQueue;
        return Success(page);
      }
      var read := storage.ReadPage(pageId);
      if read.Failure? {
        return Failure(read.error);
      }
      var pageData := read.value;
      var page := new Page.FromData(pageData);
      AdmitKeeps(pageData.id, page);
      InsertPage(pageData.id, page);
      r := Success(page);
    }

    /** `write_page`: writes the page's data to storage; the cache is untouched. */
    method WritePage(page: Page) returns (r: Result<(), IoError>)
      modifies storage`file
      ensures pool == old(pool) && lruQueue == old(lruQueue)
      ensures StoreSlot(old(storage.file), storage.codec, page.data).Failure? ==>
        r == Failure(StoreSlot(old(storage.file), storage.codec, page.data).error) &&
        storage.file == old(storage.file)
      ensures StoreSlot(old(storage.file), storage.codec, page.data).Success? ==>
        r == Success(()) && storage.file == StoreSlot(old(storage.file), storage.codec, page.data).value
    {
      r := storage.WritePage(page.data);
    }

    /** `allocate_page`: allocates a page in storage and caches it; a storage
        error changes nothing. */
    method AllocatePage(nodeType: NodeType) returns (r: Result<Page, IoError>)
      modifies this`pool, this`lruQueue, storage`file
      ensures AllocateSlot(old(storage.file), storage.codec, nodeType).Failure? ==>
        r == Failure(AllocateSlot(old(storage.file), storage.codec, nodeType).error) &&
        pool == old(pool) && lruQueue == old(lruQueue) && storage.file == old(storage.file)
      ensures AllocateSlot(old(storage.file), storage.codec, nodeType).Success? ==>
        r.Success? && fresh(r.value) &&
        r.value.data == AllocateSlot(old(storage.file), storage.codec, nodeType).value.0 &&
        storage.file == AllocateSlot(old(storage.file), storage.codec, nodeType).value.1 &&
        (pool, lruQueue) == Admit(old(pool), old(lruQueue), r.value.data.id, r.value, capacity)
      ensures old(Matched()) && capacity >= 1 && (r.Failure? || r.value.data.id !in old(pool)) ==> Matched()
    {
      var outcome := storage.AllocatePage(nodeType);
      if outcome.Failure? {
        return Failure(outcome.error);
      }
      var pageData := outcome.value;
      var page := new Page.FromData(pageData);
      AdmitKeeps(pageData.id, page);
      InsertPage(pageData.id, page);
      r := Success(page);
    }
  }
}
