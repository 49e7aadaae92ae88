/**
 The bounded replay cache of service-auth tokens: a map from keys to entries
 and a binary min-heap of the same entries by expiry, each entry knowing its
 heap position.  Times are integers of one unit.
 */
module ReplaySpec {
  // The cache as a value: the expiry remembered for each key.
  type Cache = map<string, int>

  function Purged(m: Cache, now: int): Cache {
    map k | k in m && m[k] > now :: m[k]
  }

  predicate Earliest(m: Cache, victim: string) {
    victim in m && forall k | k in m :: m[victim] <= m[k]
  }

  lemma PurgedWithout(m: Cache, k: string, now: int)
    requires k in m && m[k] <= now
    ensures Purged(m - {k}, now) == Purged(m, now)
  {
  }

  lemma NothingToPurge(m: Cache, k: string, now: int)
    requires Earliest(m, k) && m[k] > now
    ensures Purged(m, now) == m
  {
  }

  // What one check may do: expired entries go; a known key changes nothing else; a
  // new key is added, at capacity in place of some entry of least expiry.
  ghost predicate CheckStep(m: Cache, m': Cache, key: string, expiresAt: int, now: int, capacity: nat, fresh': bool) {
    var live := Purged(m, now);
    && fresh' == (key !in live)
    && (!fresh' ==> m' == live)
    && (fresh' && |live| < capacity ==> m' == live[key := expiresAt])
    && (fresh' && |live| >= capacity ==>
        exists victim :: Earliest(live, victim) && m' == (live - {victim})[key := expiresAt])
  }

  lemma SizeOfKeys(m: Cache, n: Cache)
    requires m.Keys <= n.Keys
    ensures |m| <= |n|
  {
    SubsetSize(m.Keys, n.Keys);
    assert |m| == |m.Keys| && |n| == |n.Keys|;
  }

  lemma {:induction false} SubsetSize<T>(a: set<T>, b: set<T>)
    requires a <= b
    ensures |a| <= |b|
  {
    if a != {} {
      var x :| x in a;
      SubsetSize(a - {x}, b - {x});
    }
  }

  // While there is room, a check forgets nothing that has not run out.
  lemma CheckKeepsLive(m: Cache, m': Cache, key: string, expiresAt: int, now: int, capacity: nat, fresh': bool)
    requires CheckStep(m, m', key, expiresAt, now, capacity, fresh')
    requires fresh' ==> |Purged(m, now)| < capacity
    ensures forall k | k in m && m[k] > now :: k in m' && m'[k] == m[k]
    ensures fresh' ==> key in m' && m'[key] == expiresAt
  {
    var live := Purged(m, now);
    assert forall k | k in m && m[k] > now :: k in live && live[k] == m[k];
  }

  // Nothing but the new key is ever added.
  lemma CheckAddsOnly(m: Cache, m': Cache, key: string, expiresAt: int, now: int, capacity: nat, fresh': bool)
    requires CheckStep(m, m', key, expiresAt, now, capacity, fresh')
    ensures forall k | k in m' :: (k in m && m'[k] == m[k]) || (fresh' && k == key && m'[k] == expiresAt)
  {
    var live := Purged(m, now);
    if fresh' && |live| >= capacity {
      var victim :| Earliest(live, victim) && m' == (live - {victim})[key := expiresAt];
    }
  }

  // Every key's expiry is kept, or gone because it passed, or gone because it was least at capacity.
  lemma CheckKeepsBound(m: Cache, m': Cache, key: string, expiresAt: int, now: int, capacity: nat, fresh': bool)
    requires capacity > 0 && |m| <= capacity
    requires CheckStep(m, m', key, expiresAt, now, capacity, fresh')
    ensures |m'| <= capacity
    ensures fresh' ==> key in m' && m'[key] == expiresAt
    ensures forall k | k in m' :: (k in m && m'[k] == m[k] && m[k] > now) || (fresh' && k == key)
    ensures forall k | k in m && m[k] > now && k !in m' ::
            fresh' && |Purged(m, now)| >= capacity && Earliest(Purged(m, now), k)
  {
    var live := Purged(m, now);
    SizeOfKeys(live, m);
    if fresh' && |live| >= capacity {
      var victim :| Earliest(live, victim) && m' == (live - {victim})[key := expiresAt];
      var kept := live - {victim};
      assert kept.Keys == live.Keys - {victim};
      assert |kept| == |kept.Keys| == |live| - 1;
      assert m'.Keys == kept.Keys + {key};
    } else if fresh' {
      assert m'.Keys == live.Keys + {key};
    }
  }
}

module JtiCache {
  import opened ReplaySpec

  class JtiEntry {
    const key: string
    const expiresAt: int
    var heapIdx: int

    constructor (key: string, expiresAt: int)
      ensures this.key == key && this.expiresAt == expiresAt
    {
      this.key, this.expiresAt := key, expiresAt;
      heapIdx := 0;
    }
  }

  function Parent(j: nat): nat
    requires j > 0
  {
    (j - 1) / 2
  }

  predicate Ordered(h: seq<JtiEntry>, n: nat)
    requires n <= |h|
  {
    forall j {:trigger h[j]} | 0 < j < n :: h[Parent(j)].expiresAt <= h[j].expiresAt
  }

  lemma {:induction false} TopIsEarliest(h: seq<JtiEntry>, i: nat)
    requires i < |h| && Ordered(h, |h|)
    ensures h[0].expiresAt <= h[i].expiresAt
  {
    if i > 0 {
      TopIsEarliest(h, Parent(i));
    }
  }

  function Swapped(h: seq<JtiEntry>, i: nat, j: nat): (h': seq<JtiEntry>)
    requires i < |h| && j < |h|
    ensures |h'| == |h|
  {
    h[i := h[j]][j := h[i]]
  }

  // Ordered but for the entry at `j`, which may be too small for its parent.
  ghost predicate RisingAt(h: seq<JtiEntry>, j: nat)
    requires j < |h|
  {
    && (forall m {:trigger h[m]} | 0 < m < |h| && m != j :: h[Parent(m)].expiresAt <= h[m].expiresAt)
    && (j > 0 ==> forall m {:trigger h[m]} | 0 < m < |h| && Parent(m) == j :: h[Parent(j)].expiresAt <= h[m].expiresAt)
  }

  lemma RiseStep(h: seq<JtiEntry>, j: nat)
    requires 0 < j < |h| && RisingAt(h, j) && h[j].expiresAt < h[Parent(j)].expiresAt
    ensures RisingAt(Swapped(h, Parent(j), j), Parent(j))
  {
    var i := Parent(j);
    var h' := Swapped(h, i, j);
    assert h'[i] == h[j] && h'[j] == h[i];
    forall m | 0 < m < |h'| && m != i ensures h'[Parent(m)].expiresAt <= h'[m].expiresAt {
      assert m != j ==> h'[m] == h[m];
      assert Parent(m) != i && Parent(m) != j ==> h'[Parent(m)] == h[Parent(m)];
    }
    if i > 0 {
      forall m | 0 < m < |h'| && Parent(m) == i ensures h'[Parent(i)].expiresAt <= h'[m].expiresAt {
        assert h'[Parent(i)] == h[Parent(i)] && h[Parent(i)].expiresAt <= h[i].expiresAt;
        assert m != j ==> h'[m] == h[m] && h[i].expiresAt <= h[m].expiresAt;
      }
    }
  }

  // The first n entries are ordered but for the entry at `i`, which may be too large for its children.
  ghost predicate SinkingAt(h: seq<JtiEntry>, n: nat, i: nat)
    requires i < n <= |h|
  {
    && (forall m {:trigger h[m]} | 0 < m < n && Parent(m) != i :: h[Parent(m)].expiresAt <= h[m].expiresAt)
    && (i > 0 ==> forall m {:trigger h[m]} | 0 < m < n && Parent(m) == i :: h[Parent(i)].expiresAt <= h[m].expiresAt)
  }

  // `j` is a child of `i` no larger than the other child.
  predicate LesserChild(h: seq<JtiEntry>, n: nat, i: nat, j: nat)
    requires i < n <= |h|
  {
    && 0 < j < n && Parent(j) == i
    && (2 * i + 1 < n ==> h[j].expiresAt <= h[2 * i + 1].expiresAt)
    && (2 * i + 2 < n ==> h[j].expiresAt <= h[2 * i + 2].expiresAt)
  }

  // After exchanging `i` with its lesser child `j`, the pairs elsewhere are ordered.
  lemma SinkElsewhere(h: seq<JtiEntry>, n: nat, i: nat, j: nat, m: nat)
    requires i < n <= |h| && SinkingAt(h, n, i) && LesserChild(h, n, i, j) && h[j].expiresAt < h[i].expiresAt
    requires 0 < m < n && Parent(m) != j
    ensures Swapped(h, i, j)[Parent(m)].expiresAt <= Swapped(h, i, j)[m].expiresAt
  {
    if Parent(m) == i {
      assert m == 2 * i + 1 || m == 2 * i + 2;
    } else if m == i {
      assert h[Parent(i)].expiresAt <= h[j].expiresAt;
    } else {
      assert h[Parent(m)].expiresAt <= h[m].expiresAt;
    }
  }

  // And the children of `j` are no smaller than what now stands above it.
  lemma SinkBelow(h: seq<JtiEntry>, n: nat, i: nat, j: nat, m: nat)
    requires i < n <= |h| && SinkingAt(h, n, i) && LesserChild(h, n, i, j) && h[j].expiresAt < h[i].expiresAt
    requires 0 < m < n && Parent(m) == j
    ensures Swapped(h, i, j)[i].expiresAt <= Swapped(h, i, j)[m].expiresAt
  {
    assert h[Parent(m)].expiresAt <= h[m].expiresAt;
  }

  lemma SinkStep(h: seq<JtiEntry>, n: nat, i: nat, j: nat)
    requires i < n <= |h| && SinkingAt(h, n, i) && LesserChild(h, n, i, j) && h[j].expiresAt < h[i].expiresAt
    ensures SinkingAt(Swapped(h, i, j), n, j)
  {
    var h' := Swapped(h, i, j);
    forall m | 0 < m < n && Parent(m) != j ensures h'[Parent(m)].expiresAt <= h'[m].expiresAt {
      SinkElsewhere(h, n, i, j, m);
    }
    forall m | 0 < m < n && Parent(m) == j ensures h'[Parent(j)].expiresAt <= h'[m].expiresAt {
      SinkBelow(h, n, i, j, m);
    }
  }

  lemma SinkEnds(h: seq<JtiEntry>, n: nat, i: nat)
    requires i < n <= |h| && SinkingAt(h, n, i)
    requires 2 * i + 1 < n ==> h[i].expiresAt <= h[2 * i + 1].expiresAt
    requires 2 * i + 2 < n ==> h[i].expiresAt <= h[2 * i + 2].expiresAt
    ensures Ordered(h, n)
  {
    forall m | 0 < m < n ensures h[Parent(m)].expiresAt <= h[m].expiresAt {
      if Parent(m) == i {
        assert m == 2 * i + 1 || m == 2 * i + 2;
      }
    }
  }

  // The first n entries in another order, and the others as they were.
  ghost predicate Rearranged(a: seq<JtiEntry>, b: seq<JtiEntry>, n: nat) {
    && n <= |a| == |b| && a[n..] == b[n..]
    && (forall e | e in a[..n] :: e in b[..n]) && (forall e | e in b[..n] :: e in a[..n])
    && (forall e | e in a :: e in b)
  }

  lemma RearrangedAgain(a: seq<JtiEntry>, b: seq<JtiEntry>, c: seq<JtiEntry>, n: nat)
    requires Rearranged(a, b, n) && Rearranged(b, c, n)
    ensures Rearranged(a, c, n)
  {
  }

  lemma SwapKeeps(h: seq<JtiEntry>, i: nat, j: nat, n: nat)
    requires i < n && j < n <= |h|
    ensures Rearranged(Swapped(h, i, j), h, n)
  {
    var h' := Swapped(h, i, j);
    forall e ensures e in h[..n] <==> e in h'[..n] {
      if e in h[..n] {
        var k :| 0 <= k < n && h[k] == e;
        var k' := if k == i then j else if k == j then i else k;
        assert h'[..n][k'] == e;
      }
      if e in h'[..n] {
        var k :| 0 <= k < n && h'[k] == e;
        var k' := if k == j then i else if k == i then j else k;
        assert h[..n][k'] == e;
      }
    }
  }

  // The map and the heap hold the same entries.
  ghost predicate Agree(m: map<string, JtiEntry>, h: seq<JtiEntry>) {
    && (forall k | k in m :: m[k].key == k && m[k] in h)
    && (forall e | e in h :: e.key in m && m[e.key] == e)
  }

  function Expiries(m: map<string, JtiEntry>): (c: Cache)
    ensures c.Keys == m.Keys && |c| == |m|
  {
    var c := map k | k in m :: m[k].expiresAt;
    assert |c| == |c.Keys| && |m| == |m.Keys| && c.Keys == m.Keys;
    c
  }

  lemma NoneTogether(m: map<string, JtiEntry>, h: seq<JtiEntry>)
    requires Agree(m, h)
    ensures h == [] <==> m == map[]
  {
    if h != [] {
      assert h[0] in h;
    }
    if k :| k in m {
      assert m[k] in h;
    }
  }

  lemma TopIsLeast(m: map<string, JtiEntry>, h: seq<JtiEntry>)
    requires Agree(m, h) && h != [] && Ordered(h, |h|)
    ensures Earliest(Expiries(m), h[0].key) && Expiries(m)[h[0].key] == h[0].expiresAt
  {
    assert h[0] in h;
    forall k | k in m ensures h[0].expiresAt <= m[k].expiresAt {
      var i :| 0 <= i < |h| && h[i] == m[k];
      TopIsEarliest(h, i);
    }
  }

  lemma AgreeWithout(m: map<string, JtiEntry>, h: seq<JtiEntry>, h': seq<JtiEntry>, e: JtiEntry)
    requires Agree(m, h) && e in h
    requires forall x :: x in h' <==> x != e && x in h
    ensures Agree(m - {e.key}, h') && Expiries(m - {e.key}) == Expiries(m) - {e.key}
    ensures |m - {e.key}| == |m| - 1
  {
    var m' := m - {e.key};
    assert m.Keys == m'.Keys + {e.key} && |m| == |m.Keys| && |m'| == |m'.Keys|;
    forall x | x in h' ensures x.key in m' && m'[x.key] == x {
      assert x.key in m && m[x.key] == x && m[e.key] == e;
    }
  }

  lemma AgreeWith(m: map<string, JtiEntry>, h: seq<JtiEntry>, h': seq<JtiEntry>, e: JtiEntry)
    requires Agree(m, h) && e.key !in m
    requires forall x :: x in h' <==> x == e || x in h
    ensures Agree(m[e.key := e], h') && Expiries(m[e.key := e]) == Expiries(m)[e.key := e.expiresAt]
    ensures |m[e.key := e]| == |m| + 1
  {
    var m' := m[e.key := e];
    assert m'.Keys == m.Keys + {e.key} && |m| == |m.Keys| && |m'| == |m'.Keys|;
  }

  class JtiReplayCache {
    var entries: map<string, JtiEntry>
    var heap: seq<JtiEntry>
    const capacity: nat

    // Every entry stands where its heapIdx says; so no entry stands twice.
    ghost predicate Indexed()
      reads this, heap
    {
      forall i | 0 <= i < |heap| :: heap[i].heapIdx == i
    }

    ghost predicate Valid()
      reads this, heap
    {
      capacity > 0 && |entries| <= capacity && Indexed() && Ordered(heap, |heap|) && Agree(entries, heap)
    }

    ghost function Model(): Cache
      reads this
    {
      Expiries(entries)
    }

    constructor (capacity: nat)
      requires capacity > 0
      ensures Valid() && Model() == map[] && this.capacity == capacity && fresh(this) && heap == []
    {
      entries, heap := map[], [];
      this.capacity := capacity;
    }

    predicate Less(i: nat, j: nat)
      requires i < |heap| && j < |heap|
      reads this
    {
      heap[i].expiresAt < heap[j].expiresAt
    }

    method Swap(i: nat, j: nat)
      requires i < |heap| && j < |heap| && Indexed()
      modifies this`heap, heap[i], heap[j]
      ensures heap == Swapped(old(heap), i, j) && Indexed()
    {
      heap := heap[i := heap[j]][j := heap[i]];
      heap[i].heapIdx := i;
      heap[j].heapIdx := j;
    }

    // container/heap up: sift the entry at j0 towards the root.
    method Up(j0: nat)
      requires j0 < |heap| && Indexed() && RisingAt(heap, j0)
      modifies this`heap, set e | e in heap
      ensures Indexed() && |heap| == |old(heap)| && Ordered(heap, |heap|)
      ensures forall e :: e in heap <==> e in old(heap)
    {
      var j: nat := j0;
      while true
        invariant j < |heap| == |old(heap)| && Indexed() && RisingAt(heap, j)
        invariant forall e :: e in heap <==> e in old(heap)
        decreases j
      {
        var i := if j == 0 then 0 else Parent(j);
        if i == j || !Less(j, i) {
          break;
        }
        RiseStep(heap, j);
        SwapKeeps(heap, i, j, |heap|);
        assert heap[..|heap|] == heap && Swapped(heap, i, j)[..|heap|] == Swapped(heap, i, j);
        Swap(i, j);
        j := i;
      }
    }

    // container/heap down: sift the entry at i0 away from the root, within the first n entries.
    method Down(i0: nat, n: nat)
      requires i0 < n <= |heap| && Indexed() && SinkingAt(heap, n, i0)
      modifies this`heap, set e | e in heap
      ensures Indexed() && Rearranged(heap, old(heap), n) && Ordered(heap, n)
    {
      var i: nat := i0;
      while true
        invariant i < n <= |heap| && Indexed() && SinkingAt(heap, n, i)
        invariant Rearranged(heap, old(heap), n)
        decreases n - i
      {
        if 2 * i + 1 >= n {
          SinkEnds(heap, n, i);
          break;
        }
        var j := LesserOf(i, n);
        if !Less(j, i) {
          SinkEnds(heap, n, i);
          break;
        }
        ghost var before := heap;
        Sink(i, j, n);
        RearrangedAgain(heap, before, old(heap), n);
        i := j;
      }
    }

    method LesserOf(i: nat, n: nat) returns (j: nat)
      requires 2 * i + 1 < n <= |heap|
      ensures LesserChild(heap, n, i, j)
    {
      j := 2 * i + 1;
      if j + 1 < n && Less(j + 1, j) {
        j := j + 1;
      }
    }

    // One exchange with the lesser child.
    method Sink(i: nat, j: nat, n: nat)
      requires i < n <= |heap| && Indexed() && SinkingAt(heap, n, i)
      requires LesserChild(heap, n, i, j) && heap[j].expiresAt < heap[i].expiresAt
      modifies this`heap, heap[i], heap[j]
      ensures Indexed() && n <= |heap| && SinkingAt(heap, n, j) && Rearranged(heap, old(heap), n)
    {
      SinkStep(heap, n, i, j);
      SwapKeeps(heap, i, j, n);
      Swap(i, j);
    }

    // heap.Push: append, note the position, sift up.
    method Push(e: JtiEntry)
      requires Indexed() && Ordered(heap, |heap|) && e !in heap
      modifies this`heap, e, set x | x in heap
      ensures Indexed() && Ordered(heap, |heap|)
      ensures forall x :: x in heap <==> x == e || x in old(heap)
    {
      e.heapIdx := |heap|;
      heap := heap + [e];
      assert RisingAt(heap, |heap| - 1) by {
        forall m | 0 < m < |heap| - 1 ensures heap[Parent(m)].expiresAt <= heap[m].expiresAt {
          assert heap[m] == old(heap)[m] && heap[Parent(m)] == old(heap)[Parent(m)];
        }
      }
      Up(|heap| - 1);
    }

    // heap.Pop: swap the root with the last entry, sift down the rest, drop the last.
    method Pop() returns (e: JtiEntry)
      requires |heap| > 0 && Indexed() && Ordered(heap, |heap|)
      modifies this`heap, set x | x in heap
      ensures Indexed() && Ordered(heap, |heap|)
      ensures e == old(heap)[0] && e.heapIdx == -1
      ensures forall x :: x in heap <==> x != e && x in old(heap)
    {
      ghost var before := heap;
      var n := |heap| - 1;
      Swap(0, n);
      ghost var swapped := heap;
      if n > 0 {
        assert SinkingAt(heap, n, 0) by {
          forall m | 0 < m < n && Parent(m) != 0 ensures heap[Parent(m)].expiresAt <= heap[m].expiresAt {
            assert heap[m] == before[m] && heap[Parent(m)] == before[Parent(m)];
          }
        }
        Down(0, n);
      }
      assert heap[n..] == swapped[n..] && swapped[n] == before[0];
      assert heap[n] == heap[n..][0] == before[0];
      e := heap[n];
      PopMembers(before, swapped, heap, n);
      heap := heap[..n];
      e.heapIdx := -1;
    }

    static lemma PopMembers(before: seq<JtiEntry>, swapped: seq<JtiEntry>, after: seq<JtiEntry>, n: nat)
      requires |before| == |swapped| == |after| == n + 1 && swapped == Swapped(before, 0, n)
      requires forall i, j | 0 <= i < j <= n :: before[i] != before[j]
      requires forall x :: x in after[..n] <==> x in swapped[..n]
      ensures forall x :: x in after[..n] <==> x != before[0] && x in before
    {
      forall x ensures x in swapped[..n] <==> x != before[0] && x in before {
        if x in swapped[..n] {
          var k :| 0 <= k < n && swapped[k] == x;
          assert x == before[if k == 0 then n else k];
        }
        if x != before[0] && x in before {
          var k :| 0 <= k <= n && before[k] == x;
          assert swapped[..n][if k == n then 0 else k] == x;
        }
      }
    }

    // Pop the earliest entry and forget its key.
    method DropEarliest() returns (key: string)
      requires Valid() && |heap| > 0
      modifies this, set x | x in heap
      ensures Valid() && |entries| == |old(entries)| - 1
      ensures forall x | x in heap :: x in old(heap)
      ensures Earliest(old(Model()), key) && old(Model())[key] == old(heap[0].expiresAt)
      ensures Model() == old(Model()) - {key}
    {
      ghost var m, h := entries, heap;
      TopIsLeast(m, h);
      var top := Pop();
      key := top.key;
      entries := entries - {key};
      AgreeWithout(m, h, heap, top);
    }

    // The lazy purge: drop entries while the earliest has expired.
    method PurgeExpired(now: int)
      requires Valid()
      modifies this, set x | x in heap
      ensures Valid() && forall x | x in heap :: x in old(heap)
      ensures Model() == Purged(old(Model()), now)
    {
      ghost var m := Model();
      while |heap| > 0 && heap[0].expiresAt <= now
        invariant Valid()
        invariant forall x | x in heap :: x in old(heap)
        invariant Purged(Model(), now) == Purged(m, now)
        decreases |entries|
      {
        ghost var before := Model();
        var dropped := DropEarliest();
        PurgedWithout(before, dropped, now);
      }
      if |heap| > 0 {
        TopIsLeast(entries, heap);
        NothingToPurge(Model(), heap[0].key, now);
      } else {
        NoneTogether(entries, heap);
      }
    }

    method Insert(key: string, expiresAt: int)
      requires Valid() && key !in entries && |entries| < capacity
      modifies this, set x | x in heap
      ensures Valid() && Model() == old(Model())[key := expiresAt]
      ensures fresh((set x | x in heap) - old(set x | x in heap))
    {
      var entry := new JtiEntry(key, expiresAt);
      ghost var m, h := entries, heap;
      entries := entries[key := entry];
      Push(entry);
      AgreeWith(m, h, heap, entry);
    }

    // checkAndSet under its lock.
    method CheckAndSet(key: string, expiresAt: int, now: int) returns (isNew: bool)
      requires Valid()
      modifies this, set x | x in heap
      ensures Valid() && CheckStep(old(Model()), Model(), key, expiresAt, now, capacity, isNew)
      ensures fresh((set x | x in heap) - old(set x | x in heap))
    {
      PurgeExpired(now);
      if key in entries {
        return false;
      }
      ghost var live := Model();
      if |entries| >= capacity {
        NoneTogether(entries, heap);
        if |heap| > 0 {
          var victim := DropEarliest();
        }
      }
      Insert(key, expiresAt);
      isNew := true;
    }

    // size: the entry count under the lock.
    method Size() returns (n: nat)
      requires Valid()
      ensures n == |Model()| && n <= capacity
    {
      n := |entries|;
    }
  }
}
