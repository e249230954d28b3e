/**
 The allocator itself: chunk headers in memory, linked by address and rewritten in place.
 Pointers are addresses, 0 is the null pointer, and size arithmetic is modulo 2^32.
 */
module MemoryManagement {
  import opened Machine
  import opened HeapModel

  datatype Header = Header(next: int, prev: int, used: bool, size: int)

  function AddrAt(h: seq<Chunk>, i: int): int {
    if 0 <= i < |h| then h[i].addr else 0
  }

  /** The header that chunk i of list h must have: next and prev are mutually inverse. */
  function HeaderOf(h: seq<Chunk>, i: nat): Header
    requires i < |h|
  {
    Header(AddrAt(h, i + 1), AddrAt(h, i - 1), h[i].used, h[i].size)
  }

  ghost predicate Linked(headers: map<int, Header>, first: int, h: seq<Chunk>) {
    first == AddrAt(h, 0) && forall i :: 0 <= i < |h| ==> LinkedAt(headers, h, i)
  }

  ghost predicate LinkedAt(headers: map<int, Header>, h: seq<Chunk>, i: nat)
    requires i < |h|
  {
    h[i].addr in headers && headers[h[i].addr] == HeaderOf(h, i)
  }

  ghost function HeaderAddrs(h: seq<Chunk>): set<int> {
    set i | 0 <= i < |h| :: h[i].addr
  }

  /** The two memories agree outside the given header addresses. */
  ghost predicate OnlyWritten(before: map<int, Header>, after: map<int, Header>, at: set<int>) {
    before.Keys <= after.Keys && forall a :: a in after && a !in at ==> a in before && after[a] == before[a]
  }

  ghost predicate InLivePayload(h: seq<Chunk>, b: int) {
    exists i :: 0 <= i < |h| && h[i].used && h[i].Payload() <= b < h[i].End()
  }

  /** No byte of a header lies in a live payload: allocator writes never damage user data. */
  lemma HeadersAvoidPayloads(h: seq<Chunk>, lo: int, hi: int, a: int, b: int)
    requires HeapInv(h, lo, hi) && a in HeaderAddrs(h) && a <= b < a + HEADER
    ensures !InLivePayload(h, b)
  {
    var i :| 0 <= i < |h| && h[i].addr == a;
    if InLivePayload(h, b) {
      var j :| 0 <= j < |h| && h[j].used && h[j].Payload() <= b < h[j].End();
      PayloadsDisjoint(h, lo, hi, j, i);
    }
  }

  /** User writes confined to live payloads never damage the chunk list. */
  lemma PayloadWritesKeepLinks(before: map<int, Header>, after: map<int, Header>,
                               first: int, h: seq<Chunk>, lo: int, hi: int)
    requires HeapInv(h, lo, hi) && Linked(before, first, h)
    requires forall a :: a in before && (forall b :: a <= b < a + HEADER ==> !InLivePayload(h, b)) ==>
                           a in after && after[a] == before[a]
    ensures Linked(after, first, h)
  {
    forall i | 0 <= i < |h|
      ensures LinkedAt(after, h, i)
    {
      assert LinkedAt(before, h, i);
      forall b | h[i].addr <= b < h[i].addr + HEADER
        ensures !InLivePayload(h, b)
      {
        assert h[i].addr in HeaderAddrs(h);
        HeadersAvoidPayloads(h, lo, hi, h[i].addr, b);
      }
    }
  }

  /** Chunks k and k + 1 merged into one. */
  ghost function Join(h: seq<Chunk>, k: nat): seq<Chunk>
    requires k + 1 < |h|
  {
    h[..k] + [h[k].(size := h[k].size + h[k + 1].size + HEADER)] + h[k + 2..]
  }

  lemma JoinTiles(h: seq<Chunk>, k: nat, lo: int, hi: int)
    requires Tiles(h, lo, hi) && k + 1 < |h|
    ensures Tiles(Join(h, k), lo, hi)
  {
    var g := Join(h, k);
    assert Adjoins(h, k + 1);
    forall i | 0 < i < |g|
      ensures Adjoins(g, i)
    {
      assert Adjoins(h, if i <= k then i else i + 1);
    }
  }

  /** The links of chunk k's list after chunk k has absorbed chunk k + 1. */
  ghost function Absorbed(headers: map<int, Header>, h: seq<Chunk>, k: nat): map<int, Header>
    requires k + 1 < |h| && LinkedAt(headers, h, k)
  {
    var beyond := AddrAt(h, k + 2);
    var joined := headers[h[k].addr].(next := beyond, size := h[k].size + h[k + 1].size + HEADER);
    if k + 2 < |h| && beyond in headers then
      headers[h[k].addr := joined][beyond := headers[beyond].(prev := h[k].addr)]
    else
      headers[h[k].addr := joined]
  }

  lemma AbsorbedLinkAt(headers: map<int, Header>, first: int, h: seq<Chunk>, k: nat, lo: int, hi: int, i: nat)
    requires Tiles(h, lo, hi) && k + 1 < |h| && Linked(headers, first, h) && LinkedAt(headers, h, k) && i < |Join(h, k)|
    ensures LinkedAt(Absorbed(headers, h, k), Join(h, k), i)
  {
    if i < k {
      Ordered(h, lo, hi, i, k);
      Ordered(h, lo, hi, k, k + 1);
      assert LinkedAt(headers, h, i);
      if k + 2 < |h| {
        Ordered(h, lo, hi, i, k + 2);
      }
    } else if i == k {
      assert LinkedAt(headers, h, k);
      if k + 2 < |h| {
        Ordered(h, lo, hi, k, k + 2);
        assert LinkedAt(headers, h, k + 2);
      }
    } else {
      assert LinkedAt(headers, h, i + 1);
      Ordered(h, lo, hi, k, i + 1);
      if k + 2 < i + 1 {
        Ordered(h, lo, hi, k + 2, i + 1);
      }
    }
  }

  lemma AbsorbedLinks(headers: map<int, Header>, first: int, h: seq<Chunk>, k: nat, lo: int, hi: int)
    requires Tiles(h, lo, hi) && k + 1 < |h| && Linked(headers, first, h) && LinkedAt(headers, h, k)
    ensures Linked(Absorbed(headers, h, k), first, Join(h, k))
    ensures OnlyWritten(headers, Absorbed(headers, h, k), HeaderAddrs(h))
    ensures HeaderAddrs(Join(h, k)) <= HeaderAddrs(h)
  {
    assert h[k].addr in HeaderAddrs(h) && (k + 2 < |h| ==> h[k + 2].addr in HeaderAddrs(h));
    var g := Join(h, k);
    forall i | 0 <= i < |g|
      ensures g[i].addr in HeaderAddrs(h)
    {
      assert g[i].addr == h[if i <= k then i else i + 1].addr;
    }
    forall i | 0 <= i < |Join(h, k)|
      ensures LinkedAt(Absorbed(headers, h, k), Join(h, k), i)
    {
      AbsorbedLinkAt(headers, first, h, k, lo, hi, i);
    }
  }

  /** Chunk k cut in two: n bytes in use, the rest free. */
  ghost function Cut(h: seq<Chunk>, k: nat, n: int): seq<Chunk>
    requires k < |h|
  {
    h[..k] + [Chunk(h[k].addr, n, true), Chunk(h[k].addr + HEADER + n, h[k].size - n - HEADER, false)] + h[k + 1..]
  }

  /** The links after chunk k has been cut. */
  ghost function CutLinks(headers: map<int, Header>, h: seq<Chunk>, k: nat, n: int): map<int, Header>
    requires k < |h| && LinkedAt(headers, h, k)
  {
    var temp, beyond := h[k].addr + HEADER + n, AddrAt(h, k + 1);
    var more := headers[temp := Header(beyond, h[k].addr, false, h[k].size - n - HEADER)];
    var back := if k + 1 < |h| && beyond in headers then more[beyond := headers[beyond].(prev := temp)] else more;
    back[h[k].addr := headers[h[k].addr].(next := temp, used := true, size := n)]
  }

  lemma CutLinkAt(headers: map<int, Header>, first: int, h: seq<Chunk>, k: nat, n: int, lo: int, hi: int, i: nat)
    requires Tiles(h, lo, hi) && k < |h| && Linked(headers, first, h) && LinkedAt(headers, h, k) && i < |Cut(h, k, n)|
    requires 0 <= n && n + HEADER < h[k].size
    ensures LinkedAt(CutLinks(headers, h, k, n), Cut(h, k, n), i)
  {
    if i < k {
      assert LinkedAt(headers, h, i);
      Ordered(h, lo, hi, i, k);
      if k + 1 < |h| {
        Ordered(h, lo, hi, i, k + 1);
      }
    } else if i <= k + 1 {
      assert LinkedAt(headers, h, k);
      if k + 1 < |h| {
        Ordered(h, lo, hi, k, k + 1);
        assert LinkedAt(headers, h, k + 1);
      }
    } else {
      assert LinkedAt(headers, h, i - 1);
      Ordered(h, lo, hi, k, i - 1);
      if k + 1 < i - 1 {
        Ordered(h, lo, hi, k + 1, i - 1);
      }
    }
  }

  lemma CutLinked(headers: map<int, Header>, first: int, h: seq<Chunk>, k: nat, n: int, lo: int, hi: int)
    requires Tiles(h, lo, hi) && k < |h| && Linked(headers, first, h) && LinkedAt(headers, h, k)
    requires 0 <= n && n + HEADER < h[k].size
    ensures Linked(CutLinks(headers, h, k, n), first, Cut(h, k, n))
    ensures OnlyWritten(headers, CutLinks(headers, h, k, n), HeaderAddrs(Cut(h, k, n)))
  {
    var g := Cut(h, k, n);
    assert g[k].addr in HeaderAddrs(g) && g[k + 1].addr in HeaderAddrs(g);
    assert k + 1 < |h| ==> g[k + 2].addr in HeaderAddrs(g);
    forall i | 0 <= i < |Cut(h, k, n)|
      ensures LinkedAt(CutLinks(headers, h, k, n), Cut(h, k, n), i)
    {
      CutLinkAt(headers, first, h, k, n, lo, hi, i);
    }
  }

  /** Setting the `allocated` flag of chunk k touches nothing else. */
  lemma FlagLinks(headers: map<int, Header>, first: int, h: seq<Chunk>, k: nat, flag: bool, lo: int, hi: int)
    requires Tiles(h, lo, hi) && k < |h| && Linked(headers, first, h) && LinkedAt(headers, h, k)
    ensures Linked(headers[h[k].addr := headers[h[k].addr].(used := flag)], first, h[k := h[k].(used := flag)])
    ensures Tiles(h[k := h[k].(used := flag)], lo, hi)
    ensures h[k].addr in HeaderAddrs(h) && HeaderAddrs(h[k := h[k].(used := flag)]) == HeaderAddrs(h)
  {
    var g, after := h[k := h[k].(used := flag)], headers[h[k].addr := headers[h[k].addr].(used := flag)];
    forall i | 0 <= i < |g|
      ensures LinkedAt(after, g, i)
    {
      assert LinkedAt(headers, h, i);
      if i != k {
        DistinctAddresses(h, lo, hi, i, k);
      }
    }
    forall i | 0 < i < |g|
      ensures Adjoins(g, i)
    {
      assert Adjoins(h, i);
    }
    assert forall i :: 0 <= i < |h| ==> g[i].addr == h[i].addr;
  }

  ghost function Unmarked(h: seq<Chunk>, i: nat): seq<Chunk>
    requires i < |h|
  {
    h[i := h[i].(used := false)]
  }

  /** The list after the first half of `free`, and after the second. */
  ghost function AfterPrev(h: seq<Chunk>, i: nat): seq<Chunk>
    requires i < |h|
  {
    if MergeFrom(h, i) < i then Join(h, i - 1) else h
  }

  ghost function AfterNext(h: seq<Chunk>, j: nat): seq<Chunk> {
    if j + 1 < |h| && !h[j + 1].used then Join(h, j) else h
  }

  lemma AfterPrevIs(h: seq<Chunk>, lo: int, hi: int, i: nat)
    requires Tiles(h, lo, hi) && i < |h|
    ensures var j := MergeFrom(h, i);
            && MergeFrom(Unmarked(h, i), i) == j
            && AfterPrev(Unmarked(h, i), i) ==
               h[..j] + [Chunk(h[j].addr, h[i].End() - h[j].Payload(), false)] + h[i + 1..]
  {
    if i > 0 {
      assert Adjoins(h, i);
    }
  }

  lemma AfterNextIs(h: seq<Chunk>, lo: int, hi: int, i: nat, j: nat, c: Chunk)
    requires Tiles(h, lo, hi) && j <= i < |h| && c == Chunk(h[j].addr, h[i].End() - h[j].Payload(), false)
    ensures var b := MergeTo(h, i);
            AfterNext(h[..j] + [c] + h[i + 1..], j) ==
            h[..j] + [Chunk(h[j].addr, h[b - 1].End() - h[j].Payload(), false)] + h[b..]
  {
    JoinParts(h[..j], c, h[i + 1..]);
    if i + 1 < |h| {
      assert Adjoins(h, i + 1);
      assert h[i + 1..][0] == h[i + 1] && h[i + 1..][1..] == h[i + 2..];
    }
  }

  lemma JoinParts(a: seq<Chunk>, c: Chunk, b: seq<Chunk>)
    ensures AfterNext(a + [c] + b, |a|) ==
            if b != [] && !b[0].used then a + [c.(size := c.size + b[0].size + HEADER)] + b[1..] else a + [c] + b
  {
    var g := a + [c] + b;
    assert g[..|a|] == a && g[|a|] == c;
    if b != [] {
      assert g[|a| + 1] == b[0] && g[|a| + 2..] == b[1..];
    }
  }

  /** Both halves of `free` together do what Release says. */
  lemma FreeIsRelease(h: seq<Chunk>, lo: int, hi: int, i: nat)
    requires Tiles(h, lo, hi) && i < |h|
    ensures MergeFrom(Unmarked(h, i), i) == MergeFrom(h, i)
    ensures AfterNext(AfterPrev(Unmarked(h, i), i), MergeFrom(h, i)) == Release(h, i)
  {
    var j := MergeFrom(h, i);
    AfterPrevIs(h, lo, hi, i);
    AfterNextIs(h, lo, hi, i, j, Chunk(h[j].addr, h[i].End() - h[j].Payload(), false));
  }

  /** `malloc` cuts the chunk found, or hands out all of it. */
  lemma TakeIsCut(h: seq<Chunk>, n: int, k: nat)
    requires k == FirstFit(h, n) < |h|
    ensures Take(h, n) == if h[k].size >= n + HEADER + 1 then Cut(h, k, n) else h[k := h[k].(used := true)]
  {
  }

  /** The guard of the split is evaluated only when its 32-bit sum `size + 16 + 1` is the true sum. */
  lemma GuardNeverWraps(h: seq<Chunk>, lo: int, hi: int, n: int)
    requires HeapInv(h, lo, hi) && 0 < lo && hi <= TWO_32 && 0 <= n && FirstFit(h, n) < |h|
    ensures U32(U32(n + HEADER) + 1) == n + HEADER + 1
  {
    WithinBounds(h, lo, hi, FirstFit(h, n));
  }

  class MemoryManager {
    var first: int
    var headers: map<int, Header>
    ghost var chunks: seq<Chunk>
    ghost const lo: int
    ghost const hi: int

    ghost predicate Valid()
      reads this
    {
      && HeapInv(chunks, lo, hi)
      && Linked(headers, first, chunks)
      && 0 < lo && hi <= TWO_32
    }

    constructor (start: int, size: int)
      requires 0 < start && IsU32(size) && start + size <= TWO_32
      ensures Valid()
      ensures lo == start && hi == if size < HEADER then start else start + size
      ensures chunks == if size < 16 then [] else [Chunk(start, size - 16, false)]
    {
      lo, headers := start, map[];
      if size < HEADER {
        first := 0;
        chunks, hi := [], start;
      } else {
        first := start;
        headers := map[start := Header(0, 0, false, U32(size - HEADER))];
        chunks, hi := [Chunk(start, size - HEADER, false)], start + size;
      }
    }

    method Malloc(size: int) returns (ptr: int)
      requires Valid() && IsU32(size)
      modifies this
      ensures Valid()
      ensures chunks == Take(old(chunks), size) && ptr == TakePtr(old(chunks), size)
      ensures OnlyWritten(old(headers), headers, HeaderAddrs(chunks))
    {
      ghost var i: nat;
      var result;
      result, i := Search(size);
      if result == 0 {
        return 0;
      }
      WithinBounds(chunks, lo, hi, i);
      assert U32(result + HEADER) == TakePtr(chunks, size);
      TakeKeepsInv(chunks, lo, hi, size);
      TakeIsCut(chunks, size, i);
      assert U32(U32(size + HEADER) + 1) == size + HEADER + 1 by {
        GuardNeverWraps(chunks, lo, hi, size);
      }
      assert LinkedAt(headers, chunks, i);
      if headers[result].size >= U32(U32(size + HEADER) + 1) {
        CutLinked(headers, first, chunks, i, size, lo, hi);
        Split(result, size, i);
      } else {
        FlagLinks(headers, first, chunks, i, true, lo, hi);
        headers := headers[result := headers[result].(used := true)];
      }
      chunks := Take(chunks, size);
      ptr := U32(result + HEADER);
    }

    /** The first loop of `malloc`. */
    method Search(size: int) returns (result: int, ghost k: nat)
      requires Valid()
      ensures k == FirstFit(chunks, size) && result == AddrAt(chunks, k)
      ensures result != 0 <==> k < |chunks|
    {
      result := 0;
      var chunk := first;
      k := 0;
      while chunk != 0 && result == 0
        invariant Valid()
        invariant 0 <= k <= |chunks| && chunk == AddrAt(chunks, k)
        invariant result == 0 ==> forall j :: 0 <= j < k ==> !Fits(chunks[j], size)
        invariant result != 0 ==>
                    && 0 < k && result == chunks[k - 1].addr && Fits(chunks[k - 1], size)
                    && forall j :: 0 <= j < k - 1 ==> !Fits(chunks[j], size)
        decreases |chunks| - k
      {
        assert LinkedAt(headers, chunks, k);
        if headers[chunk].size > size && !headers[chunk].used {
          result := chunk;
        }
        chunk := headers[chunk].next;
        k := k + 1;
      }
      if k < |chunks| {
        WithinBounds(chunks, lo, hi, k);
      }
      k := if result == 0 then k else k - 1;
    }

    /** `malloc` when the chunk found is larger than needed: the rest becomes a new chunk. */
    method Split(result: int, size: int, ghost i: nat)
      requires Valid() && i < |chunks| && LinkedAt(headers, chunks, i) && result == chunks[i].addr
      requires 0 <= size && size + HEADER < chunks[i].size
      modifies this`headers
      ensures headers == CutLinks(old(headers), chunks, i, size)
    {
      WithinBounds(chunks, lo, hi, i);
      if i + 1 < |chunks| {
        assert LinkedAt(headers, chunks, i + 1);
        Ordered(chunks, lo, hi, i, i + 1);
      }
      var temp := U32(U32(result + HEADER) + size);
      assert temp == result + HEADER + size;
      assert U32(U32(headers[result].size - size) - HEADER) == chunks[i].size - size - HEADER;
      headers := headers[temp := Header(headers[result].next, result, false,
                                        U32(U32(headers[result].size - size) - HEADER))];
      if headers[temp].next != 0 {
        headers := headers[headers[temp].next := headers[headers[temp].next].(prev := temp)];
      }
      headers := headers[result := headers[result].(size := size, next := temp)];
      headers := headers[result := headers[result].(used := true)];
    }

    method Free(ptr: int)
      requires Valid() && Find(chunks, ptr) < |chunks|
      modifies this
      ensures Valid()
      ensures chunks == Release(old(chunks), Find(old(chunks), ptr))
      ensures OnlyWritten(old(headers), headers, HeaderAddrs(old(chunks)))
    {
      ghost var i := Find(chunks, ptr);
      ghost var h := Unmarked(chunks, i);
      FreeIsRelease(chunks, lo, hi, i);
      ReleaseKeepsInv(chunks, lo, hi, i);
      Unmark(ptr, i);
      ghost var j, g;
      var chunk;
      chunk, j, g := MergePrev(U32(ptr - HEADER), h, i);
      MergeNext(chunk, g, j);
      chunks := Release(chunks, i);
    }

    /** The flag of the chunk being freed. */
    method Unmark(ptr: int, ghost i: nat)
      requires Valid() && i < |chunks| && ptr == chunks[i].Payload()
      modifies this`headers
      ensures U32(ptr - HEADER) == chunks[i].addr
      ensures Tiles(Unmarked(chunks, i), lo, hi) && Linked(headers, first, Unmarked(chunks, i))
      ensures OnlyWritten(old(headers), headers, HeaderAddrs(chunks))
      ensures HeaderAddrs(Unmarked(chunks, i)) == HeaderAddrs(chunks)
    {
      WithinBounds(chunks, lo, hi, i);
      assert LinkedAt(headers, chunks, i);
      FlagLinks(headers, first, chunks, i, false, lo, hi);
      var chunk := U32(ptr - HEADER);
      headers := headers[chunk := headers[chunk].(used := false)];
    }

    /** The first half of `free`: merge with the chunk before if that is free. */
    method MergePrev(chunk: int, ghost h: seq<Chunk>, ghost i: nat) returns (merged: int, ghost j: nat, ghost g: seq<Chunk>)
      requires Tiles(h, lo, hi) && 0 < lo && hi <= TWO_32 && Linked(headers, first, h)
      requires i < |h| && chunk == h[i].addr
      modifies this`headers
      ensures j == MergeFrom(h, i) && g == AfterPrev(h, i)
      ensures Tiles(g, lo, hi) && Linked(headers, first, g) && j < |g| && merged == g[j].addr
      ensures OnlyWritten(old(headers), headers, HeaderAddrs(h)) && HeaderAddrs(g) <= HeaderAddrs(h)
    {
      merged, j, g := chunk, i, h;
      assert LinkedAt(headers, h, i);
      if i > 0 {
        assert LinkedAt(headers, h, i - 1);
        WithinBounds(h, lo, hi, i - 1);
      }
      if headers[chunk].prev != 0 && !headers[headers[chunk].prev].used {
        merged := headers[chunk].prev;
        j := i - 1;
        AbsorbedLinks(headers, first, h, j, lo, hi);
        AbsorbIntoPrev(chunk, h, j);
        JoinTiles(h, j, lo, hi);
        g := Join(h, j);
      }
    }

    /** The second half of `free`: merge with the chunk after if that is free. */
    method MergeNext(chunk: int, ghost h: seq<Chunk>, ghost j: nat)
      requires Tiles(h, lo, hi) && 0 < lo && hi <= TWO_32 && Linked(headers, first, h)
      requires j < |h| && chunk == h[j].addr
      modifies this`headers
      ensures Linked(headers, first, AfterNext(h, j))
      ensures OnlyWritten(old(headers), headers, HeaderAddrs(h))
    {
      assert LinkedAt(headers, h, j);
      if j + 1 < |h| {
        assert LinkedAt(headers, h, j + 1);
        WithinBounds(h, lo, hi, j + 1);
        AbsorbedLinks(headers, first, h, j, lo, hi);
      }
      if headers[chunk].next != 0 && !headers[headers[chunk].next].used {
        AbsorbNext(chunk, h, j);
      }
    }

    /** `free` when the chunk before is free too. */
    method AbsorbIntoPrev(chunk: int, ghost h: seq<Chunk>, ghost j: nat)
      requires Tiles(h, lo, hi) && 0 < lo && hi <= TWO_32 && Linked(headers, first, h)
      requires j + 1 < |h| && chunk == h[j + 1].addr && LinkedAt(headers, h, j)
      modifies this`headers
      ensures headers == Absorbed(old(headers), h, j)
    {
      assert LinkedAt(headers, h, j + 1);
      Ordered(h, lo, hi, j, j + 1);
      WithinBounds(h, lo, hi, j);
      WithinBounds(h, lo, hi, j + 1);
      if j + 2 < |h| {
        assert LinkedAt(headers, h, j + 2);
        Ordered(h, lo, hi, j + 1, j + 2);
      }
      var prev := headers[chunk].prev;
      headers := headers[prev := headers[prev].(next := headers[chunk].next)];
      headers := headers[prev := headers[prev].(size := U32(headers[prev].size + U32(headers[chunk].size + HEADER)))];
      if headers[chunk].next != 0 {
        headers := headers[headers[chunk].next := headers[headers[chunk].next].(prev := prev)];
      }
    }

    /** `free` when the chunk after is free too. */
    method AbsorbNext(chunk: int, ghost h: seq<Chunk>, ghost j: nat)
      requires Tiles(h, lo, hi) && 0 < lo && hi <= TWO_32 && Linked(headers, first, h)
      requires j + 1 < |h| && chunk == h[j].addr && LinkedAt(headers, h, j)
      modifies this`headers
      ensures headers == Absorbed(old(headers), h, j)
    {
      assert LinkedAt(headers, h, j + 1);
      Ordered(h, lo, hi, j, j + 1);
      WithinBounds(h, lo, hi, j);
      WithinBounds(h, lo, hi, j + 1);
      if j + 2 < |h| {
        assert LinkedAt(headers, h, j + 2);
        Ordered(h, lo, hi, j + 1, j + 2);
      }
      var next := headers[chunk].next;
      headers := headers[chunk := headers[chunk].(size := U32(headers[chunk].size + U32(headers[next].size + HEADER)))];
      headers := headers[chunk := headers[chunk].(next := headers[next].next)];
      if headers[chunk].next != 0 {
        headers := headers[headers[chunk].next := headers[headers[chunk].next].(prev := chunk)];
      }
    }
  }
}
