/** The scalable page allocator: a bump heap, per-class free lists and a first-fit fallback
    list, with the page headers and the memory they head. */
module PageAllocator {
  import opened Wrappers
  import opened PageSizes
  import opened LifoLists
  import opened PagePool

  type Byte = b: int | 0 <= b < 256

  /** HeapAllocator: the offset keeps growing when a request does not fit. */
  class HeapAllocator {
    const regionOff: nat
    const heapSize: nat
    var heapOff: nat

    constructor (regionOff: nat, heapSize: nat)
      ensures this.regionOff == regionOff && this.heapSize == heapSize && heapOff == 0
    {
      this.regionOff, this.heapSize, heapOff := regionOff, heapSize, 0;
    }

    method AllocateOffset(size: nat) returns (off: Option<nat>)
      modifies this
      ensures heapOff == old(heapOff) + size
      ensures off == if heapOff <= heapSize then Some(regionOff + old(heapOff)) else None
    {
      var at := heapOff;
      heapOff := heapOff + size;
      if at + size > heapSize {
        return None;
      }
      return Some(regionOff + at);
    }

    /** Up to the next multiple of 4096. */
    method Align()
      modifies this
      ensures heapOff % 4096 == 0 && old(heapOff) <= heapOff < old(heapOff) + 4096
    {
      heapOff := (heapOff + 4095) / 4096 * 4096;
    }
  }

  class ScalablePageAllocator {
    const heap: HeapAllocator
    const fallback: LifoList
    /** Each free list, top first. */
    var lists: Lists
    var headers: map<nat, MpPage>
    var total: int
    /** The shared memory itself, for the payloads. */
    const mem: array<Byte>
    ghost var extents: map<nat, nat>
    ghost var requested: map<nat, nat>

    ghost function View(): Pool
      reads this, heap, fallback
    {
      Pool(heap.regionOff, heap.heapSize, heap.heapOff, headers, lists, fallback.contents, total, extents, requested)
    }

    ghost predicate Valid()
      reads this, heap, fallback
    {
      && fallback.Valid()
      && Coherent(View())
      && heap.regionOff + heap.heapSize <= mem.Length
    }

    constructor (mem: array<Byte>, regionOff: nat)
      requires regionOff <= mem.Length
      ensures Valid() && this.mem == mem && requested == map[] && total == 0
      ensures fresh(heap) && fresh(fallback)
    {
      this.mem := mem;
      heap := new HeapAllocator(regionOff, mem.Length - regionOff);
      fallback := new LifoList();
      lists := seq(NUM_CACHES, i => []);
      headers, total, extents, requested := map[], 0, map[], map[];
      new;
      heap.Align();
      FreshIsCoherent(regionOff, mem.Length - regionOff, heap.heapOff);
      assert View() == Fresh(regionOff, mem.Length - regionOff, heap.heapOff);
    }

    /** PageAllocator::AllocateMpsc: pop the class's list, or scan the fallback list for the
        first page that is large enough. */
    method AllocateCached(id: PageId) returns (page: Link)
      requires fallback.Valid()
      requires forall p :: p in fallback.contents ==> p in headers
      modifies this`lists, fallback
      ensures fallback.Valid()
      ensures var v := old(View()); var i, k := Searched(id), Position(v, id);
              if k < |ListAt(v, i)| then page == ListAt(v, i)[k] && View() == Reuse(v, i, k)
              else page == NULL && View() == v
    {
      hide Linked, NoRepeats, FirstFit;
      ghost var v := View();
      if id.exp < NUM_CACHES {
        if lists[id.exp] == [] {
          return NULL;
        }
        page := lists[id.exp][0];
        lists := lists[id.exp := lists[id.exp][1..]];
        assert lists[id.exp] == Without(v.lists[id.exp], 0);
        return;
      }
      page := TakeFirstFit(id.round);
    }

    /** The scan of the fallback list. */
    method TakeFirstFit(need: nat) returns (page: Link)
      requires fallback.Valid()
      requires forall p :: p in fallback.contents ==> p in headers
      modifies fallback
      ensures fallback.Valid()
      ensures var s := old(fallback.contents); var k := FirstFit(headers, s, need);
              if k < |s| then page == s[k] && fallback.contents == Without(s, k)
              else page == NULL && fallback.contents == s
    {
      hide PageAt, NoRepeats;
      var prior, entry := NULL, fallback.tail;
      ghost var k, s := 0, fallback.contents;
      PageAtIs(s, 0);
      while entry != NULL
        invariant k <= |s| && entry == (if k < |s| then s[k] else NULL) && fallback.contents == s
        invariant prior == if k == 0 then NULL else s[k - 1]
        invariant forall j :: 0 <= j < k ==> !Fits(headers, s[j], need)
        invariant fallback.Valid()
        decreases |s| - k
      {
        if headers[entry].pageSize >= need {
          FirstFitIsFirst(headers, s, need, k);
          page := fallback.DequeueAt(prior, entry, k);
          return;
        }
        PageAtIs(s, k + 1);
        prior, entry := entry, fallback.next[entry];
        k := k + 1;
      }
      FirstFitIsFirst(headers, s, need, k);
      return NULL;
    }

    /** AllocateOffset; None is the out-of-memory error. The user's pointer is past the header. */
    method AllocateOffset(size: nat) returns (ptr: Option<nat>)
      requires Valid() && size > 0
      modifies this, heap, fallback
      ensures Valid()
      ensures var r := Allocate(old(View()), size);
              View() == r.0 && ptr == if r.1.Some? then Some(r.1.value + H) else None
    {
      hide MakePageId, Coherent, Searched, Position, SetList, ListAt, Reuse, LifoList.Valid;
      ghost var v := View();
      FallbackHasHeaders(v);
      AllocateKeeps(v, size);
      var id := MakePageId(size + H);
      var page := AllocateCached(id);
      if page == NULL {
        var off := heap.AllocateOffset(id.round);
        if off.None? {
          return None;
        }
        page := off.value;
        extents := extents[off.value := id.round];
      }
      total := total + id.round;
      headers := headers[page := MpPage(id.round, true)];
      requested := requested[page := size];
      return Some(page + H);
    }

    /** PageAllocator::Free: the recorded size decides the list. */
    method PutBack(page: nat, size: PageSize)
      requires fallback.Valid() && page !in fallback.contents
      modifies this`lists, fallback
      ensures fallback.Valid()
      ensures var v := old(View()); View() == SetList(v, Home(size), [page] + ListAt(v, Home(size)))
    {
      hide MakePageId, Linked, NoRepeats;
      var id := MakePageId(size);
      if id.exp < NUM_CACHES {
        lists := lists[id.exp := [page] + lists[id.exp]];
      } else {
        fallback.Enqueue(page);
      }
    }

    /** FreeOffsetNoNullCheck; false is the double-free error. */
    method FreeOffset(ptr: nat) returns (ok: bool)
      requires Valid() && ptr >= H && ptr - H in headers
      modifies this, fallback
      ensures Valid()
      ensures ok <==> ptr - H in old(requested)
      ensures Freed(old(View()), ptr - H, View())
    {
      hide MakePageId, Coherent, Home, SetList, ListAt;
      var page := ptr - H;
      ghost var v := View();
      HeldPage(v, page);
      FreeKeeps(v, page);
      if !headers[page].live {
        return false;
      }
      var size := headers[page].pageSize;
      PutBack(page, size);
      headers := headers[page := MpPage(size, false)];
      requested := requested - {page};
      total := total - size;
      return true;
    }

    /** The first n bytes behind the header of page p. */
    ghost function Payload(p: nat, n: nat): seq<Byte>
      reads mem
    {
      PayloadIn(mem[..], p, n)
    }

    /** The memcpy of a reallocation, from live page p to live page q. */
    method MovePayload(p: nat, q: nat)
      requires Valid() && p in requested && q in requested && p != q
      requires p in headers && q in headers && headers[p].pageSize <= headers[q].pageSize
      modifies mem
      ensures Payload(q, requested[p]) == old(Payload(p, requested[p]))
      ensures forall o :: o in requested && o != q ==> Payload(o, requested[o]) == old(Payload(o, requested[o]))
    {
      hide MakePageId, Coherent, LifoList.Valid;
      ghost var w, was := View(), mem[..];
      LivePage(w, p);
      LivePage(w, q);
      LivePagesAreApart(w, p, q);
      CopyBytes(q + H, p + H, headers[p].pageSize - H);
      MoveKeeps(w, was, mem[..], p, q);
    }

    /** memcpy between ranges that do not overlap. */
    method CopyBytes(dst: nat, src: nat, n: nat)
      requires dst + n <= mem.Length && src + n <= mem.Length
      requires dst + n <= src || src + n <= dst
      modifies mem
      ensures Copied(old(mem[..]), mem[..], dst, src, n)
    {
      forall i | 0 <= i < n {
        mem[dst + i] := mem[src + i];
      }
    }

    /** ReallocateOffsetNoNullCheck: allocate, copy all the old page can hold, free. When the
        new page cannot take that copy (CopyFitsExactlyWhen) the source writes past it; the
        model reports the overrun and stops before the copy. */
    method ReallocateOffset(ptr: nat, newSize: nat) returns (newPtr: Option<nat>, overrun: bool)
      requires Valid() && newSize > 0
      requires ptr >= H && ptr - H in headers && ptr - H in requested
      modifies this, heap, fallback, mem
      ensures Valid()
      ensures newPtr.None? <==> Allocate(old(View()), newSize).1.None?
      ensures overrun <==> newPtr.Some? && MakePageId(newSize + H).round < old(requested[ptr - H]) + H
      ensures newPtr.None? ==> requested == old(requested) && total == old(total)
      ensures newPtr.Some? ==> newPtr.value >= H && newPtr.value - H !in old(requested)
      ensures overrun ==> requested == old(requested)[newPtr.value - H := newSize] && mem[..] == old(mem[..])
      ensures newPtr.Some? && !overrun ==>
                && requested == (old(requested) - {ptr - H})[newPtr.value - H := newSize]
                && total == old(total) + MakePageId(newSize + H).round - old(headers[ptr - H].pageSize)
                && Payload(newPtr.value - H, old(requested[ptr - H])) == old(Payload(ptr - H, requested[ptr - H]))
      ensures forall p :: p in requested && p in old(requested)
                ==> Payload(p, requested[p]) == old(Payload(p, requested[p]))
    {
      hide MakePageId, Coherent, Home, SetList, ListAt, Allocate, Free, LifoList.Valid;
      ghost var v := View();
      AllocateKeeps(v, newSize);
      CopyFitsExactlyWhen(v, ptr - H, newSize);
      newPtr := AllocateOffset(newSize);
      overrun := false;
      ghost var w := View();
      IssuedPage(v, newSize, ptr - H);
      if newPtr.None? {
        return;
      }
      if headers[ptr - H].pageSize > headers[newPtr.value - H].pageSize {
        overrun := true;
        return;
      }
      LivePage(w, ptr - H);
      MovePayload(ptr - H, newPtr.value - H);
      FreeKeeps(w, ptr - H);
      var ok := FreeOffset(ptr);
    }
  }

  /** n bytes from src are now at dst, and nothing else has changed. */
  ghost predicate Copied(was: seq<Byte>, now: seq<Byte>, dst: nat, src: nat, n: nat) {
    && |now| == |was| && dst + n <= |was| && src + n <= |was|
    && now == was[..dst] + was[src..src + n] + was[dst + n..]
  }

  /** The first n bytes behind the header of page p. */
  function PayloadIn(bytes: seq<Byte>, p: nat, n: nat): seq<Byte> {
    if p + H + n <= |bytes| then bytes[p + H..p + H + n] else []
  }

  /** Copying the payload of live page p into live page q, which is as large, carries it over and
      leaves every other live block alone. */
  lemma MoveKeeps(v: Pool, was: seq<Byte>, now: seq<Byte>, p: nat, q: nat)
    requires Coherent(v) && p in v.requested && q in v.requested && p != q
    requires p in v.headers && Copied(was, now, q + H, p + H, v.headers[p].pageSize - H)
    requires q in v.headers && v.headers[p].pageSize <= v.headers[q].pageSize
    ensures PayloadIn(now, q, v.requested[p]) == PayloadIn(was, p, v.requested[p])
    ensures forall o :: o in v.requested && o != q ==> PayloadIn(now, o, v.requested[o]) == PayloadIn(was, o, v.requested[o])
  {
    hide Coherent, Copied;
    LivePage(v, p);
    CopiedThere(was, now, q, p, v.headers[p].pageSize - H, v.requested[p]);
    forall o | o in v.requested && o != q
      ensures PayloadIn(now, o, v.requested[o]) == PayloadIn(was, o, v.requested[o])
    {
      LivePage(v, o);
      LivePage(v, q);
      LivePagesAreApart(v, o, q);
      CopiedElsewhere(was, now, q, p, v.headers[p].pageSize - H, o, v.requested[o]);
    }
  }

  lemma CopiedThere(was: seq<Byte>, now: seq<Byte>, q: nat, p: nat, n: nat, size: nat)
    requires Copied(was, now, q + H, p + H, n) && size <= n
    ensures PayloadIn(now, q, size) == PayloadIn(was, p, size)
  {
    var dst, src := q + H, p + H;
    assert now[dst..dst + n] == was[src..src + n];
    assert now[dst..dst + size] == now[dst..dst + n][..size] && was[src..src + size] == was[src..src + n][..size];
  }

  lemma CopiedElsewhere(was: seq<Byte>, now: seq<Byte>, q: nat, p: nat, n: nat, o: nat, size: nat)
    requires Copied(was, now, q + H, p + H, n)
    requires o + H + size <= q || q + H + n <= o
    ensures PayloadIn(now, o, size) == PayloadIn(was, o, size)
  {
    if o + H + size <= |was| {
      assert forall i :: o + H <= i < o + H + size ==> now[i] == was[i];
    }
  }

  ghost predicate Freed(v: Pool, p: nat, w: Pool) {
    p in v.headers && w == Free(v, p).0
  }

  /** The copy of a reallocation stays inside the new page exactly when the new size is rounded
      to at least the size originally requested; asking for no less than before suffices. */
  lemma CopyFitsExactlyWhen(v: Pool, p: nat, newSize: nat)
    requires Coherent(v) && p in v.requested && newSize > 0
    ensures var round := MakePageId(newSize + H).round;
            && (v.headers[p].pageSize <= round <==> round >= v.requested[p] + H)
            && (newSize >= v.requested[p] ==> round >= v.requested[p] + H)
  {
    hide MakePageId, Settled, Placed;
    RoundIsLeastPage(v.requested[p] + H, newSize + H);
    RoundHolds(newSize + H);
  }

  /** It may not when the block shrinks: 65 bytes take a 128-byte page, one byte a 64-byte one. */
  lemma ShrinkingOverruns(v: Pool, p: nat)
    requires Coherent(v) && p in v.requested && v.requested[p] == 65
    ensures p in v.headers && v.headers[p].pageSize > MakePageId(1 + H).round
  {
    hide Settled, Placed, InRegion, Apart, Counted, MakePageId;
    SmallRounds();
  }

  lemma SmallRounds()
    ensures MakePageId(65 + H).round == 128 + H && MakePageId(1 + H).round == 64 + H
  {
    CeilLog2Unique(65, 7);
    CeilLog2Unique(1, 0);
  }

  lemma IssuedPage(v: Pool, size: nat, p: nat)
    requires Coherent(v) && size > 0 && p in v.requested
    ensures var r := Allocate(v, size);
            && r.0.start == v.start && r.0.limit == v.limit
            && p in r.0.headers && r.0.headers[p] == v.headers[p]
            && r.0.total == v.total + (if r.1.Some? then MakePageId(size + H).round else 0)
            && (r.1.Some? ==> r.1.value in r.0.headers && r.0.headers[r.1.value].pageSize == MakePageId(size + H).round)
  {
    hide MakePageId, Coherent, Position, Searched;
    CoherentParts(v);
    AllocateKeeps(v, size);
    HeldPage(v, p);
    CoherentParts(Allocate(v, size).0);
  }

  /** The whole page of a live block lies in the region, and it holds the request. */
  lemma LivePage(v: Pool, p: nat)
    requires Coherent(v) && p in v.requested
    ensures p in v.headers && v.headers[p].live && H + v.requested[p] <= v.headers[p].pageSize
    ensures p + v.headers[p].pageSize <= v.start + v.limit
  {
    hide MakePageId, Settled, Placed;
    RoundIsSettled(v.requested[p]);
    assert p in v.extents;
  }

  lemma LivePagesAreApart(v: Pool, p: nat, q: nat)
    requires Coherent(v) && p in v.requested && q in v.requested && p != q
    ensures p in v.headers && q in v.headers
    ensures p + v.headers[p].pageSize <= q || q + v.headers[q].pageSize <= p
  {
    hide MakePageId, Settled, Placed;
    assert p in v.extents && q in v.extents;
  }

  lemma FallbackHasHeaders(v: Pool)
    requires Coherent(v)
    ensures forall p :: p in v.fallback ==> p in v.headers
  {
    hide MakePageId, Settled, Home, Sized;
    assert forall p :: p in v.fallback ==> p in ListAt(v, NUM_CACHES);
  }

  lemma HeldPage(v: Pool, p: nat)
    requires Coherent(v) && p in v.headers
    ensures v.headers[p].live ==> p !in v.fallback
  {
    hide MakePageId, Home;
    if v.headers[p].live {
      assert p !in ListAt(v, NUM_CACHES);
    }
  }

  lemma {:induction false} FirstFitIsFirst(headers: map<nat, MpPage>, s: seq<nat>, need: nat, k: nat)
    requires k <= |s| && forall j :: 0 <= j < k ==> !Fits(headers, s[j], need)
    requires k < |s| ==> Fits(headers, s[k], need)
    ensures FirstFit(headers, s, need) == k
  {
    if k > 0 { FirstFitIsFirst(headers, s[1..], need, k - 1); }
  }
}
