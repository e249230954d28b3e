/**
 The kernel heap as a list of chunks in address order, and what `malloc` and `free`
 do to that list. The pointer-level allocator in module MemoryManagement refines it.
 */
module HeapModel {

  /** Size of a MemoryChunk header on i386: next, prev, allocated (padded) and size. */
  const HEADER := 16

  datatype Chunk = Chunk(addr: int, size: int, used: bool) {
    function Payload(): int {
      addr + HEADER
    }

    function End(): int {
      addr + HEADER + size
    }
  }

  /** A block handed out to a caller: its pointer and its usable size. */
  datatype Block = Block(ptr: int, size: int)

  /** The chunks, in list order, cover [lo, hi) without gap or overlap. */
  ghost predicate Tiles(h: seq<Chunk>, lo: int, hi: int) {
    && (if h == [] then lo == hi else h[0].addr == lo && h[|h| - 1].End() == hi)
    && (forall i :: 0 <= i < |h| ==> 0 <= h[i].size)
    && (forall i :: 0 < i < |h| ==> Adjoins(h, i))
  }

  ghost predicate Adjoins(h: seq<Chunk>, i: nat)
    requires 0 < i < |h|
  {
    h[i].addr == h[i - 1].End()
  }

  ghost predicate NoAdjacentFree(h: seq<Chunk>) {
    forall i :: 0 < i < |h| ==> NotBothFree(h, i)
  }

  ghost predicate NotBothFree(h: seq<Chunk>, i: nat)
    requires 0 < i < |h|
  {
    h[i - 1].used || h[i].used
  }

  ghost predicate HeapInv(h: seq<Chunk>, lo: int, hi: int) {
    Tiles(h, lo, hi) && NoAdjacentFree(h)
  }

  ghost function LiveBlocks(h: seq<Chunk>): set<Block> {
    set i | 0 <= i < |h| && h[i].used :: Block(h[i].Payload(), h[i].size)
  }

  // ----- the operations -----

  predicate Fits(c: Chunk, n: int) {
    c.size > n && !c.used
  }

  /** Index of the lowest-addressed chunk that can hold n bytes, or |h|. */
  function FirstFit(h: seq<Chunk>, n: int): (k: nat)
    ensures k <= |h|
    ensures k < |h| ==> Fits(h[k], n)
    ensures forall j :: 0 <= j < k ==> !Fits(h[j], n)
  {
    if h == [] then 0
    else if Fits(h[0], n) then 0
    else
      assert forall j :: 0 < j < |h| ==> h[j] == h[1..][j - 1];
      1 + FirstFit(h[1..], n)
  }

  /** The one or two chunks a chunk becomes when n bytes of it are handed out. */
  function Carve(c: Chunk, n: int): seq<Chunk> {
    if c.size >= n + HEADER + 1 then
      [Chunk(c.addr, n, true), Chunk(c.addr + HEADER + n, c.size - n - HEADER, false)]
    else
      [c.(used := true)]
  }

  function Take(h: seq<Chunk>, n: int): seq<Chunk> {
    var k := FirstFit(h, n);
    if k == |h| then h else h[..k] + Carve(h[k], n) + h[k + 1..]
  }

  /** The pointer `malloc(n)` returns; 0 is the null pointer. */
  function TakePtr(h: seq<Chunk>, n: int): int {
    var k := FirstFit(h, n);
    if k == |h| then 0 else h[k].Payload()
  }

  /** First and one-past-last index of the chunks merged when chunk i is freed. */
  function MergeFrom(h: seq<Chunk>, i: nat): nat
    requires i < |h|
  {
    if i > 0 && !h[i - 1].used then i - 1 else i
  }

  function MergeTo(h: seq<Chunk>, i: nat): nat
    requires i < |h|
  {
    if i + 1 < |h| && !h[i + 1].used then i + 2 else i + 1
  }

  /** The free chunk that replaces them. */
  function Merged(h: seq<Chunk>, i: nat): Chunk
    requires i < |h|
  {
    var a, b := MergeFrom(h, i), MergeTo(h, i);
    Chunk(h[a].addr, h[b - 1].End() - h[a].Payload(), false)
  }

  function Release(h: seq<Chunk>, i: nat): seq<Chunk>
    requires i < |h|
  {
    h[..MergeFrom(h, i)] + [Merged(h, i)] + h[MergeTo(h, i)..]
  }

  /** Index of the live chunk whose payload starts at p, or |h|. */
  function Find(h: seq<Chunk>, p: int): (k: nat)
    ensures k <= |h|
    ensures k < |h| ==> h[k].used && h[k].Payload() == p
    ensures k == |h| ==> forall j :: 0 <= j < |h| ==> !(h[j].used && h[j].Payload() == p)
  {
    if h == [] then 0
    else if h[0].used && h[0].Payload() == p then 0
    else
      assert forall j :: 0 < j < |h| ==> h[j] == h[1..][j - 1];
      1 + Find(h[1..], p)
  }

  // ----- geometry of a tiled heap -----

  /** Chunks lie strictly one after the other: neither headers nor payloads overlap. */
  lemma {:induction false} Ordered(h: seq<Chunk>, lo: int, hi: int, i: nat, j: nat)
    requires Tiles(h, lo, hi) && i < j < |h|
    ensures h[i].addr < h[i].Payload() <= h[i].End() <= h[j].addr
    decreases j - i
  {
    assert Adjoins(h, j);
    if i + 1 < j {
      Ordered(h, lo, hi, i, j - 1);
    }
  }

  lemma WithinBounds(h: seq<Chunk>, lo: int, hi: int, i: nat)
    requires Tiles(h, lo, hi) && i < |h|
    ensures lo <= h[i].addr && h[i].End() <= hi
  {
    if 0 < i {
      Ordered(h, lo, hi, 0, i);
    }
    if i < |h| - 1 {
      Ordered(h, lo, hi, i, |h| - 1);
    }
  }

  /** Live payloads meet neither each other nor any header, their own included. */
  lemma PayloadsDisjoint(h: seq<Chunk>, lo: int, hi: int, i: nat, j: nat)
    requires Tiles(h, lo, hi) && i < |h| && j < |h|
    ensures i != j ==> h[i].End() <= h[j].Payload() || h[j].End() <= h[i].Payload()
    ensures h[i].End() <= h[j].addr || h[j].Payload() <= h[i].Payload()
  {
    if i < j {
      Ordered(h, lo, hi, i, j);
    } else if j < i {
      Ordered(h, lo, hi, j, i);
    }
  }

  lemma SuffixTiles(h: seq<Chunk>, lo: int, hi: int)
    requires HeapInv(h, lo, hi) && h != []
    ensures HeapInv(h[1..], h[0].End(), hi)
  {
    var t := h[1..];
    if |t| > 0 {
      assert Adjoins(h, 1);
    }
    forall i | 0 < i < |t|
      ensures Adjoins(t, i) && NotBothFree(t, i)
    {
      assert Adjoins(h, i + 1) && NotBothFree(h, i + 1);
    }
  }

  // ----- the operations keep the invariant -----

  /** Replacing the chunks a..b of a tiled list by others that tile the same bytes. */
  lemma Splice(h: seq<Chunk>, mid: seq<Chunk>, lo: int, hi: int, a: nat, b: nat)
    requires HeapInv(h, lo, hi) && a < b <= |h|
    requires mid != [] && HeapInv(mid, h[a].addr, h[b - 1].End())
    requires a > 0 ==> h[a - 1].used || mid[0].used
    requires b < |h| ==> mid[|mid| - 1].used || h[b].used
    ensures HeapInv(h[..a] + mid + h[b..], lo, hi)
  {
    var r := h[..a] + mid + h[b..];
    forall i | 0 < i < |r|
      ensures Adjoins(r, i) && NotBothFree(r, i)
    {
      if i <= a {
        assert Adjoins(h, i) && NotBothFree(h, i);
      } else if i < a + |mid| {
        assert Adjoins(mid, i - a) && NotBothFree(mid, i - a);
      } else {
        var k := i - a - |mid| + b;
        assert Adjoins(h, k) && NotBothFree(h, k);
      }
    }
  }

  lemma TakeKeepsInv(h: seq<Chunk>, lo: int, hi: int, n: int)
    requires HeapInv(h, lo, hi) && 0 <= n
    ensures HeapInv(Take(h, n), lo, hi)
  {
    var k := FirstFit(h, n);
    if k < |h| {
      if k + 1 < |h| {
        assert NotBothFree(h, k + 1);
      }
      if k > 0 {
        assert NotBothFree(h, k);
      }
      Splice(h, Carve(h[k], n), lo, hi, k, k + 1);
    }
  }

  /** Freeing merges at most the two neighbours, and the merged chunk has no free neighbour. */
  lemma MergeSpan(h: seq<Chunk>, lo: int, hi: int, i: nat)
    requires HeapInv(h, lo, hi) && i < |h| && h[i].used
    ensures MergeFrom(h, i) <= i < MergeTo(h, i) <= |h|
    ensures forall j :: MergeFrom(h, i) <= j < MergeTo(h, i) && j != i ==> !h[j].used
    ensures MergeFrom(h, i) > 0 ==> h[MergeFrom(h, i) - 1].used
    ensures MergeTo(h, i) < |h| ==> h[MergeTo(h, i)].used
    ensures Merged(h, i).size >= h[i].size
    ensures forall j :: MergeFrom(h, i) <= j < MergeTo(h, i) ==> h[j].size <= Merged(h, i).size
  {
    if i > 0 {
      assert Adjoins(h, i);
    }
    if i > 1 {
      assert NotBothFree(h, i - 1);
    }
    if i + 1 < |h| {
      assert Adjoins(h, i + 1);
    }
    if i + 2 < |h| {
      assert NotBothFree(h, i + 2);
    }
  }

  lemma ReleaseKeepsInv(h: seq<Chunk>, lo: int, hi: int, i: nat)
    requires HeapInv(h, lo, hi) && i < |h| && h[i].used
    ensures HeapInv(Release(h, i), lo, hi)
  {
    MergeSpan(h, lo, hi, i);
    Splice(h, [Merged(h, i)], lo, hi, MergeFrom(h, i), MergeTo(h, i));
  }

  // ----- the operations and the set of live blocks -----

  lemma LiveConcat(a: seq<Chunk>, b: seq<Chunk>)
    ensures LiveBlocks(a + b) == LiveBlocks(a) + LiveBlocks(b)
  {
    var s := a + b;
    forall x | x in LiveBlocks(s)
      ensures x in LiveBlocks(a) + LiveBlocks(b)
    {
      var i :| 0 <= i < |s| && s[i].used && x == Block(s[i].Payload(), s[i].size);
      if i < |a| {
        assert s[i] == a[i];
      } else {
        assert s[i] == b[i - |a|];
      }
    }
    forall x | x in LiveBlocks(a)
      ensures x in LiveBlocks(s)
    {
      var i :| 0 <= i < |a| && a[i].used && x == Block(a[i].Payload(), a[i].size);
      assert s[i] == a[i];
    }
    forall x | x in LiveBlocks(b)
      ensures x in LiveBlocks(s)
    {
      var i :| 0 <= i < |b| && b[i].used && x == Block(b[i].Payload(), b[i].size);
      assert s[|a| + i] == b[i];
    }
  }

  lemma LiveSplice(h: seq<Chunk>, mid: seq<Chunk>, a: nat, b: nat)
    requires a <= b <= |h|
    ensures LiveBlocks(h[..a] + mid + h[b..]) == LiveBlocks(h[..a]) + LiveBlocks(mid) + LiveBlocks(h[b..])
  {
    LiveConcat(h[..a] + mid, h[b..]);
    LiveConcat(h[..a], mid);
  }

  /**
   First-fit exactness: `malloc(n)` fails exactly when no free chunk is strictly larger than n;
   otherwise it takes the lowest such chunk, adds one live block there of n to n + 16 bytes,
   and changes no other live block.
   */
  lemma TakeExact(h: seq<Chunk>, lo: int, hi: int, n: int)
    requires HeapInv(h, lo, hi) && 0 <= n && 0 < lo
    ensures TakePtr(h, n) == 0 <==> forall c :: c in h ==> c.used || c.size <= n
    ensures TakePtr(h, n) == 0 ==> Take(h, n) == h
    ensures TakePtr(h, n) != 0 ==>
              && (exists c :: c in h && Fits(c, n) && c.Payload() == TakePtr(h, n))
              && (forall c :: c in h && Fits(c, n) ==> TakePtr(h, n) <= c.Payload())
              && (exists s :: n <= s <= n + 16
                              && LiveBlocks(Take(h, n)) == LiveBlocks(h) + {Block(TakePtr(h, n), s)})
              && (forall b :: b in LiveBlocks(h) ==> b.ptr != TakePtr(h, n))
  {
    var k := FirstFit(h, n);
    if k < |h| {
      WithinBounds(h, lo, hi, k);
      assert Fits(h[k], n) && h[k] in h;
      forall c | c in h && Fits(c, n)
        ensures h[k].Payload() <= c.Payload()
      {
        var j :| 0 <= j < |h| && h[j] == c;
        if k < j {
          Ordered(h, lo, hi, k, j);
        }
      }
      forall b | b in LiveBlocks(h)
        ensures b.ptr != h[k].Payload()
      {
        var j :| 0 <= j < |h| && h[j].used && b == Block(h[j].Payload(), h[j].size);
        DistinctAddresses(h, lo, hi, j, k);
      }
      TakeLive(h, n);
    } else {
      forall c | c in h
        ensures c.used || c.size <= n
      {
        var j :| 0 <= j < |h| && h[j] == c;
        assert !Fits(h[j], n);
      }
    }
  }

  lemma DistinctAddresses(h: seq<Chunk>, lo: int, hi: int, i: nat, j: nat)
    requires Tiles(h, lo, hi) && i < |h| && j < |h| && i != j
    ensures h[i].addr != h[j].addr
  {
    if i < j {
      Ordered(h, lo, hi, i, j);
    } else {
      Ordered(h, lo, hi, j, i);
    }
  }

  function TakenSize(c: Chunk, n: int): int {
    if c.size >= n + HEADER + 1 then n else c.size
  }

  lemma TakeLive(h: seq<Chunk>, n: int)
    requires FirstFit(h, n) < |h|
    ensures LiveBlocks(Take(h, n)) == LiveBlocks(h) + {Block(TakePtr(h, n), TakenSize(h[FirstFit(h, n)], n))}
  {
    var k := FirstFit(h, n);
    var mid := Carve(h[k], n);
    assert mid[0].used && mid[0].Payload() == h[k].Payload() && mid[0].size == TakenSize(h[k], n);
    assert LiveBlocks(mid) == {Block(h[k].Payload(), TakenSize(h[k], n))};
    LiveSplice(h, mid, k, k + 1);
    LiveSplice(h, [h[k]], k, k + 1);
    assert h[..k] + [h[k]] + h[k + 1..] == h;
    assert LiveBlocks([h[k]]) == {};
  }

  lemma LiveAt(h: seq<Chunk>, x: Block) returns (j: nat)
    requires x in LiveBlocks(h)
    ensures j < |h| && h[j].used && x == Block(h[j].Payload(), h[j].size)
  {
    j :| 0 <= j < |h| && h[j].used && x == Block(h[j].Payload(), h[j].size);
  }

  /** The merged chunks hold one live block: the one being freed. */
  lemma LiveMergeSpan(h: seq<Chunk>, lo: int, hi: int, i: nat)
    requires HeapInv(h, lo, hi) && i < |h| && h[i].used
    ensures MergeFrom(h, i) <= MergeTo(h, i) <= |h|
    ensures LiveBlocks(h[MergeFrom(h, i)..MergeTo(h, i)]) == {Block(h[i].Payload(), h[i].size)}
  {
    MergeSpan(h, lo, hi, i);
    var a, b := MergeFrom(h, i), MergeTo(h, i);
    var s := h[a..b];
    assert s[i - a] == h[i];
    forall x | x in LiveBlocks(s)
      ensures x == Block(h[i].Payload(), h[i].size)
    {
      var j := LiveAt(s, x);
      assert s[j] == h[a + j];
    }
  }

  lemma NotLiveOutside(h: seq<Chunk>, lo: int, hi: int, i: nat, a: nat, b: nat)
    requires Tiles(h, lo, hi) && a <= i < b <= |h|
    ensures Block(h[i].Payload(), h[i].size) !in LiveBlocks(h[..a]) + LiveBlocks(h[b..])
  {
    forall x | x in LiveBlocks(h[..a])
      ensures x.ptr != h[i].Payload()
    {
      var j := LiveAt(h[..a], x);
      DistinctAddresses(h, lo, hi, j, i);
    }
    forall x | x in LiveBlocks(h[b..])
      ensures x.ptr != h[i].Payload()
    {
      var j := LiveAt(h[b..], x);
      assert h[b..][j] == h[b + j];
      DistinctAddresses(h, lo, hi, b + j, i);
    }
  }

  lemma LiveSplit(h: seq<Chunk>, a: nat, b: nat)
    requires a <= b <= |h|
    ensures LiveBlocks(h) == LiveBlocks(h[..a]) + LiveBlocks(h[a..b]) + LiveBlocks(h[b..])
  {
    LiveSplice(h, h[a..b], a, b);
    assert h[..a] + h[a..b] + h[b..] == h;
  }

  lemma LiveWithout(h: seq<Chunk>, c: Chunk, a: nat, b: nat)
    requires a <= b <= |h| && !c.used
    ensures LiveBlocks(h[..a] + [c] + h[b..]) == LiveBlocks(h[..a]) + LiveBlocks(h[b..])
  {
    LiveSplice(h, [c], a, b);
    assert LiveBlocks([c]) == {};
  }

  /** `free` removes exactly the freed block from the set of live blocks. */
  lemma ReleaseLive(h: seq<Chunk>, lo: int, hi: int, i: nat)
    requires HeapInv(h, lo, hi) && i < |h| && h[i].used
    ensures Block(h[i].Payload(), h[i].size) in LiveBlocks(h)
    ensures LiveBlocks(Release(h, i)) == LiveBlocks(h) - {Block(h[i].Payload(), h[i].size)}
  {
    MergeSpan(h, lo, hi, i);
    LiveMergeSpan(h, lo, hi, i);
    NotLiveOutside(h, lo, hi, i, MergeFrom(h, i), MergeTo(h, i));
    LiveSplit(h, MergeFrom(h, i), MergeTo(h, i));
    LiveWithout(h, Merged(h, i), MergeFrom(h, i), MergeTo(h, i));
  }
}
