/** What holds of the heap over whole runs of `malloc` and `free`. */
module HeapRuns {
  import opened Machine
  import opened HeapModel

  datatype Request = Malloc(size: int) | Free(ptr: int)

  /** Sizes are 32-bit; only pointers to live blocks may be freed. */
  ghost predicate LegalRequest(h: seq<Chunk>, r: Request) {
    match r
    case Malloc(n) => IsU32(n)
    case Free(p) => Find(h, p) < |h|
  }

  function Serve(h: seq<Chunk>, r: Request): seq<Chunk> {
    match r
    case Malloc(n) => Take(h, n)
    case Free(p) => var i := Find(h, p); if i < |h| then Release(h, i) else h
  }

  ghost predicate Legal(h: seq<Chunk>, rs: seq<Request>)
    decreases |rs|
  {
    rs == [] || (LegalRequest(h, rs[0]) && Legal(Serve(h, rs[0]), rs[1..]))
  }

  function Run(h: seq<Chunk>, rs: seq<Request>): seq<Chunk>
    decreases |rs|
  {
    if rs == [] then h else Run(Serve(h, rs[0]), rs[1..])
  }

  /** The chunk list the constructor leaves: nothing, or one free chunk. */
  function Initial(lo: int, hi: int): seq<Chunk> {
    if lo == hi then [] else [Chunk(lo, hi - lo - HEADER, false)]
  }

  ghost predicate Bounds(lo: int, hi: int) {
    0 < lo && hi <= TWO_32 && (lo == hi || lo + HEADER <= hi)
  }

  /** Every reachable heap tiles its bounds and has no two neighbouring free chunks. */
  lemma {:induction false} RunKeepsInv(h: seq<Chunk>, lo: int, hi: int, rs: seq<Request>)
    requires HeapInv(h, lo, hi) && Legal(h, rs)
    ensures HeapInv(Run(h, rs), lo, hi)
    decreases |rs|
  {
    if rs != [] {
      match rs[0]
      case Malloc(n) =>
        TakeKeepsInv(h, lo, hi, n);
        RunKeepsInv(Take(h, n), lo, hi, rs[1..]);
      case Free(p) =>
        ReleaseKeepsInv(h, lo, hi, Find(h, p));
        RunKeepsInv(Serve(h, rs[0]), lo, hi, rs[1..]);
    }
  }

  // ----- the chunk list is canonical -----

  lemma LiveTail(h: seq<Chunk>, lo: int, hi: int)
    requires HeapInv(h, lo, hi) && h != []
    ensures LiveBlocks(h[1..]) == LiveBlocks(h) - (if h[0].used then {Block(h[0].Payload(), h[0].size)} else {})
  {
    LiveConcat([h[0]], h[1..]);
    assert [h[0]] + h[1..] == h;
    if h[0].used {
      assert LiveBlocks([h[0]]) == {Block(h[0].Payload(), h[0].size)} by {
        assert [h[0]][0].used;
      }
      NotLiveOutside(h, lo, hi, 0, 0, 1);
    } else {
      assert LiveBlocks([h[0]]) == {};
    }
  }

  lemma UsedHeadShared(h: seq<Chunk>, g: seq<Chunk>, lo: int, hi: int)
    requires HeapInv(h, lo, hi) && HeapInv(g, lo, hi) && h != [] && g != []
    requires LiveBlocks(h) == LiveBlocks(g) && h[0].used
    ensures g[0] == h[0]
  {
    var j := LiveAt(g, Block(h[0].Payload(), h[0].size));
    if j != 0 {
      DistinctAddresses(g, lo, hi, 0, j);
    }
  }

  lemma FreeHeadNotShorter(h: seq<Chunk>, g: seq<Chunk>, lo: int, hi: int)
    requires HeapInv(h, lo, hi) && HeapInv(g, lo, hi) && h != [] && g != []
    requires LiveBlocks(h) == LiveBlocks(g) && !h[0].used && !g[0].used
    ensures h[0].size >= g[0].size
  {
    if h[0].size < g[0].size {
      WithinBounds(g, lo, hi, 0);
      assert |h| > 1 && NotBothFree(h, 1) && Adjoins(h, 1);
      var j := LiveAt(g, Block(h[1].Payload(), h[1].size));
      Ordered(g, lo, hi, 0, j);
      assert false;
    }
  }

  /** The chunk list is a function of the bounds and the set of live blocks alone. */
  lemma {:induction false} Canonical(h: seq<Chunk>, g: seq<Chunk>, lo: int, hi: int)
    requires HeapInv(h, lo, hi) && HeapInv(g, lo, hi) && LiveBlocks(h) == LiveBlocks(g)
    ensures h == g
    decreases |h|
  {
    if h == [] {
      if g != [] {
        WithinBounds(g, lo, hi, 0);
      }
    } else if g == [] {
      WithinBounds(h, lo, hi, 0);
    } else {
      if h[0].used {
        UsedHeadShared(h, g, lo, hi);
      } else if g[0].used {
        UsedHeadShared(g, h, lo, hi);
      } else {
        FreeHeadNotShorter(h, g, lo, hi);
        FreeHeadNotShorter(g, h, lo, hi);
      }
      assert h[0] == g[0];
      SuffixTiles(h, lo, hi);
      SuffixTiles(g, lo, hi);
      LiveTail(h, lo, hi);
      LiveTail(g, lo, hi);
      Canonical(h[1..], g[1..], h[0].End(), hi);
      assert h == [h[0]] + h[1..] && g == [g[0]] + g[1..];
    }
  }

  /** Two histories that leave the same live blocks leave the same chunk list. */
  lemma HistoryIrrelevant(lo: int, hi: int, rs: seq<Request>, qs: seq<Request>)
    requires Bounds(lo, hi) && Legal(Initial(lo, hi), rs) && Legal(Initial(lo, hi), qs)
    requires LiveBlocks(Run(Initial(lo, hi), rs)) == LiveBlocks(Run(Initial(lo, hi), qs))
    ensures Run(Initial(lo, hi), rs) == Run(Initial(lo, hi), qs)
  {
    RunKeepsInv(Initial(lo, hi), lo, hi, rs);
    RunKeepsInv(Initial(lo, hi), lo, hi, qs);
    Canonical(Run(Initial(lo, hi), rs), Run(Initial(lo, hi), qs), lo, hi);
  }

  /** Once everything has been freed the heap is the one free chunk it started as. */
  lemma FullRecovery(lo: int, hi: int, rs: seq<Request>)
    requires Bounds(lo, hi) && Legal(Initial(lo, hi), rs)
    requires LiveBlocks(Run(Initial(lo, hi), rs)) == {}
    ensures Run(Initial(lo, hi), rs) == Initial(lo, hi)
  {
    HistoryIrrelevant(lo, hi, rs, []);
  }

  /** Freeing a live block removes that block and no other. */
  lemma FreeOne(h: seq<Chunk>, lo: int, hi: int, b: Block)
    requires HeapInv(h, lo, hi) && b in LiveBlocks(h)
    ensures LegalRequest(h, Free(b.ptr))
    ensures HeapInv(Serve(h, Free(b.ptr)), lo, hi)
    ensures LiveBlocks(Serve(h, Free(b.ptr))) == LiveBlocks(h) - {b}
  {
    var j := LiveAt(h, b);
    var i := Find(h, b.ptr);
    if i != j && i < |h| {
      DistinctAddresses(h, lo, hi, i, j);
    }
    ReleaseKeepsInv(h, lo, hi, i);
    ReleaseLive(h, lo, hi, i);
  }

  /** Two live blocks may be freed in either order. */
  lemma FreeOrderIrrelevant(h: seq<Chunk>, lo: int, hi: int, b: Block, c: Block)
    requires HeapInv(h, lo, hi) && b in LiveBlocks(h) && c in LiveBlocks(h) && b != c
    ensures Run(h, [Free(b.ptr), Free(c.ptr)]) == Run(h, [Free(c.ptr), Free(b.ptr)])
    ensures Legal(h, [Free(b.ptr), Free(c.ptr)]) && Legal(h, [Free(c.ptr), Free(b.ptr)])
  {
    var hb, hc := Serve(h, Free(b.ptr)), Serve(h, Free(c.ptr));
    FreeOne(h, lo, hi, b);
    FreeOne(hb, lo, hi, c);
    FreeOne(h, lo, hi, c);
    FreeOne(hc, lo, hi, b);
    Canonical(Serve(hb, Free(c.ptr)), Serve(hc, Free(b.ptr)), lo, hi);
    RunTwo(h, Free(b.ptr), Free(c.ptr));
    RunTwo(h, Free(c.ptr), Free(b.ptr));
  }

  lemma RunTwo(h: seq<Chunk>, r: Request, q: Request)
    ensures Run(h, [r, q]) == Serve(Serve(h, r), q)
    ensures Legal(h, [r, q]) <==> LegalRequest(h, r) && LegalRequest(Serve(h, r), q)
  {
    assert [r, q][1..] == [q] && [q][1..] == [];
    assert Legal(Serve(h, r), [q]) <==> LegalRequest(Serve(h, r), q) && Legal(Serve(Serve(h, r), q), []);
    assert Run(h, [r, q]) == Run(Serve(h, r), [q]);
    assert Run(Serve(h, r), [q]) == Run(Serve(Serve(h, r), q), []);
  }

  lemma RunCons(h: seq<Chunk>, r: Request, rs: seq<Request>)
    ensures Run(h, [r] + rs) == Run(Serve(h, r), rs)
    ensures Legal(h, [r] + rs) <==> LegalRequest(h, r) && Legal(Serve(h, r), rs)
  {
    assert ([r] + rs)[0] == r && ([r] + rs)[1..] == rs;
  }

  function Frees(bs: seq<Block>): seq<Request> {
    if bs == [] then [] else [Free(bs[0].ptr)] + Frees(bs[1..])
  }

  predicate NoneTwice(bs: seq<Block>) {
    bs == [] || (bs[0] !in bs[1..] && NoneTwice(bs[1..]))
  }

  /** Distinct live blocks may be freed one after the other; exactly they stop being live. */
  lemma {:induction false} FreeAll(h: seq<Chunk>, lo: int, hi: int, bs: seq<Block>)
    requires HeapInv(h, lo, hi) && NoneTwice(bs) && forall b :: b in bs ==> b in LiveBlocks(h)
    ensures Legal(h, Frees(bs)) && HeapInv(Run(h, Frees(bs)), lo, hi)
    ensures LiveBlocks(Run(h, Frees(bs))) == LiveBlocks(h) - (set b | b in bs)
    decreases |bs|
  {
    if bs != [] {
      FreeOne(h, lo, hi, bs[0]);
      FreeAll(Serve(h, Free(bs[0].ptr)), lo, hi, bs[1..]);
      RunCons(h, Free(bs[0].ptr), Frees(bs[1..]));
    }
  }

  /** Any number of live blocks may be freed in any order: the chunk list that remains is the same. */
  lemma FreeAnyOrder(h: seq<Chunk>, lo: int, hi: int, bs: seq<Block>, cs: seq<Block>)
    requires HeapInv(h, lo, hi) && NoneTwice(bs) && NoneTwice(cs)
    requires (forall b :: b in bs ==> b in LiveBlocks(h)) && (forall b :: b in bs <==> b in cs)
    ensures Legal(h, Frees(bs)) && Legal(h, Frees(cs)) && Run(h, Frees(bs)) == Run(h, Frees(cs))
  {
    FreeAll(h, lo, hi, bs);
    FreeAll(h, lo, hi, cs);
    Canonical(Run(h, Frees(bs)), Run(h, Frees(cs)), lo, hi);
  }

  /** `free(malloc(n))` gives back the exact chunk list there was before. */
  lemma MallocThenFree(h: seq<Chunk>, lo: int, hi: int, n: int)
    requires HeapInv(h, lo, hi) && 0 <= n && 0 < lo && TakePtr(h, n) != 0
    ensures Run(h, [Malloc(n), Free(TakePtr(h, n))]) == h
    ensures IsU32(n) ==> Legal(h, [Malloc(n), Free(TakePtr(h, n))])
  {
    TakeExact(h, lo, hi, n);
    TakeKeepsInv(h, lo, hi, n);
    var s :| n <= s <= n + HEADER && LiveBlocks(Take(h, n)) == LiveBlocks(h) + {Block(TakePtr(h, n), s)};
    FreeOne(Take(h, n), lo, hi, Block(TakePtr(h, n), s));
    Canonical(Serve(Take(h, n), Free(TakePtr(h, n))), h, lo, hi);
    RunTwo(h, Malloc(n), Free(TakePtr(h, n)));
  }

  lemma Satisfiable(h: seq<Chunk>, lo: int, hi: int, n: int, k: nat)
    requires Tiles(h, lo, hi) && 0 < lo && k < |h| && Fits(h[k], n)
    ensures TakePtr(h, n) != 0
  {
    WithinBounds(h, lo, hi, FirstFit(h, n));
  }

  /** `free` never makes a request fail that would have succeeded. */
  lemma FreeNeverHurts(h: seq<Chunk>, lo: int, hi: int, p: int, n: int)
    requires HeapInv(h, lo, hi) && 0 < lo && LegalRequest(h, Free(p)) && TakePtr(h, n) != 0
    ensures TakePtr(Serve(h, Free(p)), n) != 0
  {
    var i, k := Find(h, p), FirstFit(h, n);
    MergeSpan(h, lo, hi, i);
    ReleaseKeepsInv(h, lo, hi, i);
    var a, b, g := MergeFrom(h, i), MergeTo(h, i), Release(h, i);
    if k < a {
      assert g[k] == h[k];
      Satisfiable(g, lo, hi, n, k);
    } else if k < b {
      assert g[a] == Merged(h, i);
      Satisfiable(g, lo, hi, n, a);
    } else {
      assert g[k - b + a + 1] == h[k];
      Satisfiable(g, lo, hi, n, k - b + a + 1);
    }
  }

  // ----- fragmentation -----

  function UsedBytes(h: seq<Chunk>): int {
    if h == [] then 0 else (if h[0].used then h[0].size + HEADER else 0) + UsedBytes(h[1..])
  }

  function FreeBytes(h: seq<Chunk>): int {
    if h == [] then 0 else (if h[0].used then 0 else h[0].size + HEADER) + FreeBytes(h[1..])
  }

  function FreeCount(h: seq<Chunk>): nat {
    if h == [] then 0 else (if h[0].used then 0 else 1) + FreeCount(h[1..])
  }

  /** Headers, live bytes and free bytes add up to the heap size. */
  lemma {:induction false} BytesConserved(h: seq<Chunk>, lo: int, hi: int)
    requires HeapInv(h, lo, hi)
    ensures UsedBytes(h) + FreeBytes(h) == hi - lo
    decreases |h|
  {
    if h != [] {
      SuffixTiles(h, lo, hi);
      BytesConserved(h[1..], h[0].End(), hi);
    }
  }

  /** Without neighbouring free chunks there is at most one more free chunk than live blocks. */
  lemma {:induction false} FreeChunksFew(h: seq<Chunk>, lo: int, hi: int)
    requires HeapInv(h, lo, hi)
    ensures FreeCount(h) <= |LiveBlocks(h)| + (if h == [] || h[0].used then 0 else 1)
    decreases |h|
  {
    if h != [] {
      SuffixTiles(h, lo, hi);
      LiveTail(h, lo, hi);
      FreeChunksFew(h[1..], h[0].End(), hi);
      if |h| > 1 {
        assert NotBothFree(h, 1);
      }
      if h[0].used {
        assert Block(h[0].Payload(), h[0].size) in LiveBlocks(h);
      }
    }
  }

  lemma {:induction false} SmallFreeBytes(h: seq<Chunk>, n: int)
    requires forall c :: c in h ==> c.used || c.size <= n
    ensures FreeBytes(h) <= FreeCount(h) * (n + HEADER)
    decreases |h|
  {
    if h != [] {
      SmallFreeBytes(h[1..], n);
    }
  }

  lemma FullHeapIsSmall(h: seq<Chunk>, lo: int, hi: int, n: int)
    requires HeapInv(h, lo, hi) && 0 <= n
    requires forall c :: c in h ==> c.used || c.size <= n
    ensures hi - lo - UsedBytes(h) <= (|LiveBlocks(h)| + 1) * (n + HEADER)
  {
    BytesConserved(h, lo, hi);
    FreeChunksFew(h, lo, hi);
    SmallFreeBytes(h, n);
    TimesMonotone(FreeCount(h), |LiveBlocks(h)| + 1, n + HEADER);
  }

  lemma TimesMonotone(a: nat, b: nat, c: nat)
    requires a <= b
    ensures a * c <= b * c
  {
  }

  /** With k live blocks, more than (k+1)(n+16) bytes outside them make `malloc(n)` succeed. */
  lemma FragmentationBound(h: seq<Chunk>, lo: int, hi: int, n: int)
    requires HeapInv(h, lo, hi) && 0 < lo && 0 <= n
    requires hi - lo - UsedBytes(h) > (|LiveBlocks(h)| + 1) * (n + HEADER)
    ensures TakePtr(h, n) != 0
  {
    TakeExact(h, lo, hi, n);
    if TakePtr(h, n) == 0 {
      FullHeapIsSmall(h, lo, hi, n);
    }
  }

  /** k live blocks of size 0 between k + 1 free chunks of size n. */
  function Comb(k: nat, n: nat, lo: int): (h: seq<Chunk>)
    ensures h != [] && h[0] == Chunk(lo, n, false)
    decreases k
  {
    if k == 0 then [Chunk(lo, n, false)]
    else [Chunk(lo, n, false), Chunk(lo + HEADER + n, 0, true)] + Comb(k - 1, n, lo + 2 * HEADER + n)
  }

  lemma Prepend(c: Chunk, h: seq<Chunk>, hi: int)
    requires HeapInv(h, c.End(), hi) && h != [] && 0 <= c.size && (c.used || h[0].used)
    ensures HeapInv([c] + h, c.addr, hi)
  {
    var g := [c] + h;
    forall i | 0 < i < |g|
      ensures Adjoins(g, i) && NotBothFree(g, i)
    {
      if i > 1 {
        assert Adjoins(h, i - 1) && NotBothFree(h, i - 1);
      }
    }
  }

  function CombEnd(k: nat, n: nat, lo: int): int {
    lo + (k + 1) * (n + HEADER) + k * HEADER
  }

  lemma {:induction false} CombInv(k: nat, n: nat, lo: int)
    ensures HeapInv(Comb(k, n, lo), lo, CombEnd(k, n, lo))
    decreases k
  {
    if k > 0 {
      var h, rest := Comb(k, n, lo), Comb(k - 1, n, lo + 2 * HEADER + n);
      CombInv(k - 1, n, lo + 2 * HEADER + n);
      assert CombEnd(k - 1, n, lo + 2 * HEADER + n) == CombEnd(k, n, lo);
      Prepend(h[1], rest, CombEnd(k, n, lo));
      Prepend(h[0], [h[1]] + rest, CombEnd(k, n, lo));
      assert h == [h[0]] + ([h[1]] + rest);
    }
  }

  lemma {:induction false} CombBytes(k: nat, n: nat, lo: int)
    ensures UsedBytes(Comb(k, n, lo)) == k * HEADER
    ensures forall c :: c in Comb(k, n, lo) ==> c.used || c.size <= n
    decreases k
  {
    if k > 0 {
      var h, rest := Comb(k, n, lo), Comb(k - 1, n, lo + 2 * HEADER + n);
      CombBytes(k - 1, n, lo + 2 * HEADER + n);
      assert h[1..][1..] == rest && h[1..][0] == h[1];
    }
  }

  lemma {:induction false} CombLive(k: nat, n: nat, lo: int)
    ensures |LiveBlocks(Comb(k, n, lo))| == k
    decreases k
  {
    var h := Comb(k, n, lo);
    if k == 0 {
      assert LiveBlocks(h) == {};
    } else {
      CombLive(k - 1, n, lo + 2 * HEADER + n);
      CombInv(k, n, lo);
      OneMoreLive(h, lo, CombEnd(k, n, lo));
      assert h[2..] == Comb(k - 1, n, lo + 2 * HEADER + n);
    }
  }

  lemma OneMoreLive(h: seq<Chunk>, lo: int, hi: int)
    requires HeapInv(h, lo, hi) && |h| > 1 && !h[0].used && h[1].used
    ensures |LiveBlocks(h)| == 1 + |LiveBlocks(h[2..])|
  {
    SuffixTiles(h, lo, hi);
    LiveTail(h, lo, hi);
    var t := h[1..];
    LiveTail(t, h[0].End(), hi);
    assert t[1..] == h[2..] && t[0].used;
    assert Block(t[0].Payload(), t[0].size) in LiveBlocks(t);
  }

  // ----- a run that builds the comb -----

  lemma {:induction false} RunAppend(h: seq<Chunk>, rs: seq<Request>, qs: seq<Request>)
    ensures Run(h, rs + qs) == Run(Run(h, rs), qs)
    ensures Legal(h, rs) && Legal(Run(h, rs), qs) ==> Legal(h, rs + qs)
    decreases |rs|
  {
    if rs == [] {
      assert rs + qs == qs;
    } else {
      assert (rs + qs)[0] == rs[0] && (rs + qs)[1..] == rs[1..] + qs;
      RunAppend(Serve(h, rs[0]), rs[1..], qs);
    }
  }

  /** Size of the free chunk in which k pairs leave n bytes. */
  function Room(k: nat, n: nat): (r: nat)
    ensures k > 0 ==> r >= n + 2 * HEADER
  {
    if k == 0 then n else Room(k - 1, n) + n + 2 * HEADER
  }

  lemma {:induction false} RoomIsComb(k: nat, n: nat, lo: int)
    ensures lo + HEADER + Room(k, n) == CombEnd(k, n, lo)
    decreases k
  {
    if k > 0 {
      RoomIsComb(k - 1, n, lo);
      assert CombEnd(k, n, lo) == CombEnd(k - 1, n, lo) + n + 2 * HEADER;
    }
  }

  /** The comb before its gaps are freed. */
  function Solid(k: nat, n: nat, lo: int): seq<Chunk>
    decreases k
  {
    if k == 0 then [Chunk(lo, n, false)]
    else [Chunk(lo, n, true), Chunk(lo + HEADER + n, 0, true)] + Solid(k - 1, n, lo + 2 * HEADER + n)
  }

  ghost predicate AllUsed(h: seq<Chunk>) {
    forall i :: 0 <= i < |h| ==> h[i].used
  }

  /** With nothing else free, a request is carved from the last chunk. */
  lemma TakeLast(pre: seq<Chunk>, c: Chunk, n: nat)
    requires AllUsed(pre) && Fits(c, n)
    ensures Take(pre + [c], n) == pre + Carve(c, n)
  {
    var h := pre + [c];
    assert h[|pre|] == c;
    assert forall j :: 0 <= j < |pre| ==> h[j] == pre[j];
    assert h[..|pre|] == pre && h[|pre| + 1..] == [];
  }

  lemma SplitLast(pre: seq<Chunk>, c: Chunk, n: nat)
    requires AllUsed(pre) && !c.used && c.size > n + HEADER
    ensures AllUsed(pre + [Chunk(c.addr, n, true)])
    ensures Take(pre + [c], n) ==
            (pre + [Chunk(c.addr, n, true)]) + [Chunk(c.addr + HEADER + n, c.size - n - HEADER, false)]
  {
    TakeLast(pre, c, n);
  }

  /** One pair: n bytes and then none are carved from the last chunk. */
  lemma OnePair(pre: seq<Chunk>, c: Chunk, n: nat)
    requires AllUsed(pre) && 0 < n && !c.used && c.size >= 2 * n + 2 * HEADER
    ensures var next := pre + [Chunk(c.addr, n, true), Chunk(c.addr + HEADER + n, 0, true)];
            && AllUsed(next)
            && Take(Take(pre + [c], n), 0) == next + [Chunk(c.addr + 2 * HEADER + n, c.size - n - 2 * HEADER, false)]
  {
    var u, z := Chunk(c.addr, n, true), Chunk(c.addr + HEADER + n, 0, true);
    SplitLast(pre, c, n);
    SplitLast(pre + [u], Chunk(c.addr + HEADER + n, c.size - n - HEADER, false), 0);
    assert (pre + [u]) + [z] == pre + [u, z];
  }

  /** The one free chunk in which k pairs leave n bytes. */
  function Open(k: nat, n: nat, lo: int): seq<Chunk> {
    [Chunk(lo, Room(k, n), false)]
  }

  /** A run that has left room for k pairs, and then one pair. */
  lemma PairAfter(h: seq<Chunk>, done: seq<Request>, pre: seq<Chunk>, k: nat, n: nat, lo: int)
    returns (more: seq<Request>, next: seq<Chunk>)
    requires Legal(h, done) && Run(h, done) == pre + Open(k, n, lo) && AllUsed(pre) && 0 < n < TWO_32 && k > 0
    ensures next == pre + [Chunk(lo, n, true), Chunk(lo + HEADER + n, 0, true)] && AllUsed(next)
    ensures Legal(h, more) && Run(h, more) == next + Open(k - 1, n, lo + 2 * HEADER + n)
  {
    more := done + [Malloc(n), Malloc(0)];
    next := pre + [Chunk(lo, n, true), Chunk(lo + HEADER + n, 0, true)];
    assert Room(k - 1, n) >= n;
    OnePair(pre, Chunk(lo, Room(k, n), false), n);
    RunTwo(Run(h, done), Malloc(n), Malloc(0));
    RunAppend(h, done, [Malloc(n), Malloc(0)]);
  }

  /** A run that has left room for k pairs is continued by k pairs. */
  lemma {:induction false} BuildSolid(h: seq<Chunk>, done: seq<Request>, pre: seq<Chunk>, k: nat, n: nat, lo: int)
    returns (rs: seq<Request>)
    requires Legal(h, done) && Run(h, done) == pre + Open(k, n, lo) && AllUsed(pre) && 0 < n < TWO_32
    ensures Legal(h, rs) && Run(h, rs) == pre + Solid(k, n, lo)
    decreases k
  {
    if k == 0 {
      rs := done;
      assert Open(k, n, lo) == Solid(k, n, lo);
    } else {
      var to := lo + 2 * HEADER + n;
      var more, next := PairAfter(h, done, pre, k, n, lo);
      rs := BuildSolid(h, more, next, k - 1, n, to);
      SolidUnfolds(pre, next, k, n, lo, to);
    }
  }

  lemma SolidUnfolds(pre: seq<Chunk>, next: seq<Chunk>, k: nat, n: nat, lo: int, to: int)
    requires k > 0 && to == lo + 2 * HEADER + n
    requires next == pre + [Chunk(lo, n, true), Chunk(lo + HEADER + n, 0, true)]
    ensures pre + Solid(k, n, lo) == next + Solid(k - 1, n, to)
  {
  }

  ghost predicate EndsUsed(h: seq<Chunk>) {
    h == [] || h[|h| - 1].used
  }

  lemma FindAt(h: seq<Chunk>, lo: int, hi: int, i: nat)
    requires Tiles(h, lo, hi) && i < |h| && h[i].used
    ensures Find(h, h[i].Payload()) == i
  {
    var j := Find(h, h[i].Payload());
    if i != j && j < |h| {
      DistinctAddresses(h, lo, hi, i, j);
    }
  }

  /** A block between live neighbours becomes a free chunk of the same size. */
  lemma FreeBetween(h: seq<Chunk>, lo: int, hi: int, i: nat)
    requires HeapInv(h, lo, hi) && i + 1 < |h| && h[i].used && h[i + 1].used && (i > 0 ==> h[i - 1].used)
    ensures LegalRequest(h, Free(h[i].Payload()))
    ensures Serve(h, Free(h[i].Payload())) == h[i := h[i].(used := false)]
  {
    FindAt(h, lo, hi, i);
    assert Release(h, i) == h[i := h[i].(used := false)];
  }

  /** A run that has left the block c between live neighbours, and then the free of c. */
  lemma GapAfter(h: seq<Chunk>, lo: int, hi: int, done: seq<Request>,
                 pre: seq<Chunk>, c: Chunk, z: Chunk, post: seq<Chunk>)
    returns (more: seq<Request>, next: seq<Chunk>)
    requires HeapInv(h, lo, hi) && Legal(h, done) && Run(h, done) == (pre + [c, z]) + post
    requires c.used && z.used && EndsUsed(pre)
    ensures next == pre + [c.(used := false), z] && EndsUsed(next)
    ensures Legal(h, more) && Run(h, more) == next + post
  {
    more := done + [Free(c.Payload())];
    next := pre + [c.(used := false), z];
    RunKeepsInv(h, lo, hi, done);
    var g := Run(h, done);
    assert g[|pre|] == c && g[|pre| + 1] == z;
    FreeBetween(g, lo, hi, |pre|);
    assert g[|pre| := c.(used := false)] == next + post;
    RunCons(g, Free(c.Payload()), []);
    RunAppend(h, done, [Free(c.Payload())]);
  }

  /** A run that has left the solid heap is continued by the frees of its blocks of n bytes. */
  lemma {:induction false} OpenGaps(h: seq<Chunk>, base: int, hi: int, done: seq<Request>,
                                    pre: seq<Chunk>, k: nat, n: nat, lo: int)
    returns (rs: seq<Request>)
    requires HeapInv(h, base, hi) && Legal(h, done) && Run(h, done) == pre + Solid(k, n, lo) && EndsUsed(pre)
    ensures Legal(h, rs) && Run(h, rs) == pre + Comb(k, n, lo)
    decreases k
  {
    if k == 0 {
      rs := done;
    } else {
      var c, z, to := Chunk(lo, n, true), Chunk(lo + HEADER + n, 0, true), lo + 2 * HEADER + n;
      SolidUnfolds(pre, pre + [c, z], k, n, lo, to);
      var more, next := GapAfter(h, base, hi, done, pre, c, z, Solid(k - 1, n, to));
      rs := OpenGaps(h, base, hi, more, next, k - 1, n, to);
      CombUnfolds(pre, next, k, n, lo, to);
    }
  }

  lemma CombUnfolds(pre: seq<Chunk>, next: seq<Chunk>, k: nat, n: nat, lo: int, to: int)
    requires k > 0 && to == lo + 2 * HEADER + n
    requires next == pre + [Chunk(lo, n, false), Chunk(lo + HEADER + n, 0, true)]
    ensures pre + Comb(k, n, lo) == next + Comb(k - 1, n, to)
  {
  }

  lemma CombReachable(k: nat, n: nat, lo: int) returns (rs: seq<Request>)
    requires 0 < lo && CombEnd(k, n, lo) <= TWO_32 && (n > 0 || k == 0)
    ensures Bounds(lo, CombEnd(k, n, lo))
    ensures Legal(Initial(lo, CombEnd(k, n, lo)), rs) && Run(Initial(lo, CombEnd(k, n, lo)), rs) == Comb(k, n, lo)
  {
    var c, hi := Chunk(lo, Room(k, n), false), CombEnd(k, n, lo);
    var start := Initial(lo, hi);
    RoomIsComb(k, n, lo);
    assert start == [c];
    rs := [];
    if k > 0 {
      assert [] + [c] == [c] && Run(start, rs) == start;
      rs := BuildSolid(start, rs, [], k, n, lo);
      rs := OpenGaps(start, lo, hi, rs, [], k, n, lo);
      assert [] + Comb(k, n, lo) == Comb(k, n, lo);
    }
  }

  /**
   The bound cannot be lowered: for every k and n some heap meets it with equality and malloc(n) fails.
   A run of requests from the constructor reaches that heap, if it lies in the address space and n > 0.
   */
  lemma FragmentationBoundTight(k: nat, n: nat, lo: int) returns (h: seq<Chunk>, hi: int, rs: seq<Request>)
    requires 0 < lo
    ensures HeapInv(h, lo, hi) && |LiveBlocks(h)| == k
    ensures hi - lo - UsedBytes(h) == (k + 1) * (n + HEADER)
    ensures TakePtr(h, n) == 0
    ensures hi == lo + (k + 1) * (n + HEADER) + k * HEADER
    ensures hi <= TWO_32 && (n > 0 || k == 0) ==>
              Bounds(lo, hi) && Legal(Initial(lo, hi), rs) && Run(Initial(lo, hi), rs) == h
  {
    h, hi, rs := Comb(k, n, lo), CombEnd(k, n, lo), [];
    CombInv(k, n, lo);
    CombBytes(k, n, lo);
    CombLive(k, n, lo);
    TakeExact(h, lo, hi, n);
    if hi <= TWO_32 && (n > 0 || k == 0) {
      rs := CombReachable(k, n, lo);
    }
  }

  // ----- requests for nothing -----

  /** A split leaves at least one byte, so in a heap of several chunks the last is never empty. */
  ghost predicate LastNotEmpty(h: seq<Chunk>) {
    |h| > 1 ==> h[|h| - 1].size > 0
  }

  lemma ServeKeepsLast(h: seq<Chunk>, lo: int, hi: int, r: Request)
    requires HeapInv(h, lo, hi) && LegalRequest(h, r) && LastNotEmpty(h)
    ensures LastNotEmpty(Serve(h, r))
  {
    if r.Free? {
      MergeSpan(h, lo, hi, Find(h, r.ptr));
    }
  }

  lemma {:induction false} RunKeepsLast(h: seq<Chunk>, lo: int, hi: int, rs: seq<Request>)
    requires HeapInv(h, lo, hi) && Legal(h, rs) && LastNotEmpty(h)
    ensures LastNotEmpty(Run(h, rs))
    decreases |rs|
  {
    if rs != [] {
      RunKeepsInv(h, lo, hi, [rs[0]]);
      assert [rs[0]][1..] == [] && Run(h, [rs[0]]) == Run(Serve(h, rs[0]), []);
      ServeKeepsLast(h, lo, hi, rs[0]);
      RunKeepsLast(Serve(h, rs[0]), lo, hi, rs[1..]);
    }
  }

  /** When the last chunk is live, each free chunk is followed by a live one of its own. */
  lemma {:induction false} FreeChunksFewer(h: seq<Chunk>, lo: int, hi: int)
    requires HeapInv(h, lo, hi) && h != [] && h[|h| - 1].used
    ensures FreeCount(h) + (if h[0].used then 1 else 0) <= |LiveBlocks(h)|
    decreases |h|
  {
    SuffixTiles(h, lo, hi);
    LiveTail(h, lo, hi);
    if |h| == 1 {
      assert Block(h[0].Payload(), h[0].size) in LiveBlocks(h);
      assert FreeCount(h[1..]) == 0;
    } else {
      FreeChunksFewer(h[1..], h[0].End(), hi);
      assert NotBothFree(h, 1);
      if h[0].used {
        assert Block(h[0].Payload(), h[0].size) in LiveBlocks(h);
      }
    }
  }

  /**
   For requests of 0 bytes the bound is not reached once anything is live: in every reachable heap
   with k > 0 live blocks, more than 16k bytes outside them already make `malloc(0)` succeed.
   */
  lemma ZeroRequestBound(lo: int, hi: int, rs: seq<Request>)
    requires Bounds(lo, hi) && Legal(Initial(lo, hi), rs)
    requires var h := Run(Initial(lo, hi), rs);
             |LiveBlocks(h)| > 0 && hi - lo - UsedBytes(h) > |LiveBlocks(h)| * HEADER
    ensures TakePtr(Run(Initial(lo, hi), rs), 0) != 0
  {
    var h := Run(Initial(lo, hi), rs);
    RunKeepsInv(Initial(lo, hi), lo, hi, rs);
    RunKeepsLast(Initial(lo, hi), lo, hi, rs);
    TakeExact(h, lo, hi, 0);
    if TakePtr(h, 0) == 0 {
      NothingFitsZero(h, lo, hi);
    }
  }

  lemma NothingFitsZero(h: seq<Chunk>, lo: int, hi: int)
    requires HeapInv(h, lo, hi) && LastNotEmpty(h) && |LiveBlocks(h)| > 0
    requires forall c :: c in h ==> c.used || c.size <= 0
    ensures hi - lo - UsedBytes(h) <= |LiveBlocks(h)| * HEADER
  {
    var x :| x in LiveBlocks(h);
    var j := LiveAt(h, x);
    assert h[|h| - 1] in h && h[|h| - 1].used;
    BytesConserved(h, lo, hi);
    FreeChunksFewer(h, lo, hi);
    SmallFreeBytes(h, 0);
    TimesMonotone(FreeCount(h), |LiveBlocks(h)|, HEADER);
  }
}
