/** Which page an allocation hands out, when it fails, and when freed pages come back: stated
    over the lists, the heap offset and the sizes requested. */
module PageReuse {
  import opened Wrappers
  import opened PageSizes
  import opened LifoLists
  import opened PagePool

  /** The classes in numbers: n bytes take a page of 64 bytes, of the next power of two, or of
      exactly n, behind its header; and look into list 6, the list of that power, or the
      fallback list. */
  lemma PageOf(n: nat)
    requires n > 0
    ensures var id := MakePageId(n + H);
            && (n <= 64 ==> id.round == 64 + H)
            && (64 < n <= 0x100_0000 ==> n <= id.round - H < 2 * n)
            && (n > 0x100_0000 ==> id.round == n + H)
            && (n <= 32 ==> id.exp == 6)
            && (32 < n <= 0x100_0000 ==> id.exp < NUM_CACHES && id.round == ClassSize(id.exp))
            && (n > 0x100_0000 ==> id.exp == 24 && id.exp >= NUM_CACHES)
  {
    SmallPowers();
    hide Pow2, CeilLog2;
    var e := CeilLog2(n);
    if e < 5 { Pow2Monotone(e, 5); }
    if e > 5 { Pow2Monotone(5, e - 1); }
    if e < 6 { Pow2Monotone(e, 6); } else { Pow2Monotone(6, e); }
    if e > 6 { Pow2Monotone(6, e - 1); }
    if e <= 24 { Pow2Monotone(e, 24); } else { Pow2Monotone(24, e - 1); }
    if e > 0 { DoublePow2(e - 1); }
  }

  lemma DoublePow2(k: nat)
    ensures Pow2(k + 1) == 2 * Pow2(k)
  {
  }

  lemma SmallPowers()
    ensures Pow2(5) == 32 && Pow2(6) == 64 && Pow2(24) == 0x100_0000
  {
    assert Pow2(4) == 16;
    assert Pow2(8) == 256 && Pow2(12) == 4096 && Pow2(16) == 65536 && Pow2(20) == 0x10_0000;
  }

  /** No waiting page can serve the request: its class's list is empty, or every page of the
      fallback list is too small. */
  ghost predicate NothingFits(v: Pool, id: PageId) {
    if id.exp < NUM_CACHES then v.lists[id.exp] == []
    else forall p :: p in v.fallback && p in v.headers ==> v.headers[p].pageSize < id.round
  }

  /** An allocation fails if and only if no waiting page of its list fits and the heap has no
      room for a new one. */
  lemma FailsExactlyWhen(v: Pool, size: nat)
    requires Coherent(v) && size > 0
    ensures var id := MakePageId(size + H);
            Allocate(v, size).1.None? <==> NothingFits(v, id) && v.bump + id.round > v.limit
  {
    hide MakePageId, Settled, Home, InRegion, Apart, Counted;
    var id := MakePageId(size + H);
    if id.exp >= NUM_CACHES {
      assert forall p :: p in v.fallback ==> p in ListAt(v, NUM_CACHES);
      var k := FirstFit(v.headers, v.fallback, id.round);
      if k < |v.fallback| { assert v.fallback[k] in v.fallback; }
    }
  }

  /** A nonempty class list serves its top page, and nothing else moves. */
  lemma TakesTheTop(v: Pool, size: nat)
    requires size > 0
    requires var id := MakePageId(size + H); id.exp < NUM_CACHES && v.lists[id.exp] != []
    ensures var id := MakePageId(size + H); var r := Allocate(v, size);
            && r.1 == Some(v.lists[id.exp][0])
            && r.0.lists == v.lists[id.exp := v.lists[id.exp][1..]]
            && r.0.fallback == v.fallback && r.0.bump == v.bump && r.0.extents == v.extents
  {
    hide MakePageId;
    var list := v.lists[MakePageId(size + H).exp];
    assert Without(list, 0) == list[1..];
  }

  /** From the fallback list comes the first page that is large enough, and nothing else moves. */
  lemma TakesTheFirstThatFits(v: Pool, size: nat, k: nat)
    requires size > 0 && k < |v.fallback| && v.fallback[k] in v.headers
    requires var id := MakePageId(size + H);
             && id.exp >= NUM_CACHES && v.headers[v.fallback[k]].pageSize >= id.round
             && forall j :: 0 <= j < k ==> v.fallback[j] in v.headers && v.headers[v.fallback[j]].pageSize < id.round
    ensures var r := Allocate(v, size);
            && r.1 == Some(v.fallback[k]) && r.0.fallback == v.fallback[..k] + v.fallback[k + 1..]
            && r.0.lists == v.lists && r.0.bump == v.bump && r.0.extents == v.extents
  {
    hide MakePageId;
    var id := MakePageId(size + H);
    assert FirstFit(v.headers, v.fallback, id.round) == k;
  }

  /** Otherwise a page is carved where the heap ends, if there is room; the heap's end moves in
      any case. */
  lemma CarvesWhenNothingFits(v: Pool, size: nat)
    requires Coherent(v) && size > 0 && NothingFits(v, MakePageId(size + H))
    ensures var round := MakePageId(size + H).round; var r := Allocate(v, size);
            && r.0.bump == v.bump + round && r.0.lists == v.lists && r.0.fallback == v.fallback
            && r.1 == (if v.bump + round <= v.limit then Some(v.start + v.bump) else None)
            && (r.1.Some? ==> r.0.extents == v.extents[v.start + v.bump := round])
  {
    hide MakePageId, Settled, Home, InRegion, Apart, Counted;
    FailsExactlyWhen(v, size);
    var id := MakePageId(size + H);
    if id.exp >= NUM_CACHES {
      assert FirstFit(v.headers, v.fallback, id.round) == |v.fallback|;
    }
  }

  // ---------------------------------------------------------------- a page comes back

  /** Where a page that holds n bytes waits after it is freed. */
  lemma FreedTo(n: nat)
    requires n > 0
    ensures var id := MakePageId(n + H);
            Home(id.round) == if n <= 32 then 0 else if n <= 0x100_0000 then id.exp else NUM_CACHES
  {
    PageOf(n);
    SmallPowers();
    hide Pow2, CeilLog2, ClassSize;
    FreedPageFindsItsList(n + H);
    var e := CeilLog2(n);
    if e >= 6 { Pow2Monotone(5, e - 1); } else { Pow2Monotone(e, 5); }
  }

  /** What a page issued for `size` bytes records. */
  lemma IssuedRecords(v: Pool, size: nat)
    requires Coherent(v) && size > 0 && Allocate(v, size).1.Some?
    ensures var r := Allocate(v, size); var p := r.1.value;
            p in r.0.headers && r.0.headers[p] == MpPage(MakePageId(size + H).round, true)
  {
    hide MakePageId, Coherent, Position, Searched;
  }

  /** A freed page goes on top of its list, and nothing else moves. */
  lemma FreePutsOnTop(v: Pool, p: nat)
    requires p in v.headers && v.headers[p].live
    ensures var w := Free(v, p).0; var i := Home(v.headers[p].pageSize);
            && ListAt(w, i) == [p] + ListAt(v, i)
            && (forall j: nat :: j <= NUM_CACHES && j != i ==> ListAt(w, j) == ListAt(v, j))
            && w.bump == v.bump && w.extents == v.extents
  {
    hide Home;
  }

  /** Allocate n bytes, free them, allocate n bytes: the same page comes back, and the heap
      does not grow, if and only if n is more than 32. (A smaller request looks into the 4 KB
      list, and its page is freed into the 64-byte list.) */
  lemma ComesBackExactlyWhen(v: Pool, n: nat)
    requires Coherent(v) && n > 0 && Allocate(v, n).1.Some?
    ensures var w, p := Allocate(v, n).0, Allocate(v, n).1.value;
            && p in w.headers && Free(w, p).1
            && (Allocate(Free(w, p).0, n).1 == Some(p) <==> n > 32)
            && (n > 32 ==> Allocate(Free(w, p).0, n).0.bump == w.bump)
  {
    var (w, p) := Allocate(v, n);
    IssuedRecords(v, n);
    AllocateKeeps(v, n);
    FreeKeeps(w, p.value);
    var x := Free(w, p.value).0;
    var id := MakePageId(n + H);
    PageOf(n);
    FreedTo(n);
    FreePutsOnTop(w, p.value);
    hide MakePageId, Home, Allocate, Free, Coherent, ClassSize;
    if n <= 32 {
      assert ListAt(x, 6) == ListAt(w, 6) && ListAt(x, 0) == [p.value] + ListAt(w, 0);
      AnotherPage(x, n, p.value);
    } else if n <= 0x100_0000 {
      assert ListAt(x, id.exp) == x.lists[id.exp];
      TakesTheTop(x, n);
    } else {
      assert ListAt(x, NUM_CACHES) == x.fallback && x.fallback[0] == p.value;
      FreedRecords(w, p.value);
      TakesTheFirstThatFits(x, n, 0);
    }
  }

  /** The same in a run: whatever was called before. */
  lemma FreedPageComesBack(states: seq<Pool>, calls: seq<Call>, i: nat, n: nat, p: nat)
    requires IsRun(states, calls) && i + 2 < |calls|
    requires calls[i] == Malloc(n) && n > 0 && Allocate(states[i], n).1 == Some(p)
    requires calls[i + 1] == Release(p) && calls[i + 2] == Malloc(n)
    ensures Allocate(states[i + 2], n).1 == Some(p) <==> n > 32
    ensures n > 32 ==> states[i + 3].bump == states[i + 1].bump
  {
    hide Coherent, Allocate, Free, Fresh;
    RunsAreCoherent(states, calls, i);
    ComesBackExactlyWhen(states[i], n);
    assert states[i + 1] == Obey(states[i], calls[i]);
    assert states[i + 2] == Obey(states[i + 1], calls[i + 1]);
    assert states[i + 3] == Obey(states[i + 2], calls[i + 2]);
  }

  lemma FreedRecords(v: Pool, p: nat)
    requires p in v.headers && v.headers[p].live
    ensures p in Free(v, p).0.headers && Free(v, p).0.headers[p].pageSize == v.headers[p].pageSize
  {
    hide Home;
  }

  /** A page that waits in list 0 is not what a request through list 6 gets. */
  lemma AnotherPage(x: Pool, n: nat, p: nat)
    requires Coherent(x) && 0 < n <= 32 && p in ListAt(x, 0)
    ensures Allocate(x, n).1 != Some(p)
  {
    PageOf(n);
    hide MakePageId, Settled, Home, InRegion, Apart, Counted;
    var id := MakePageId(n + H);
    assert Waits(x, p, 0);
    if x.lists[6] != [] {
      TakesTheTop(x, n);
      assert x.lists[6][0] in ListAt(x, 6);
      assert Waits(x, x.lists[6][0], 6);
    } else {
      CarvesWhenNothingFits(x, n);
      assert p in x.extents;
      assert x.headers[p].pageSize <= x.extents[p];
    }
  }

  // ---------------------------------------------------------------- whole runs

  ghost predicate OnlySmallest(v: Pool) {
    && (forall p :: p in v.headers ==> v.headers[p].pageSize == 64 + H)
    && (forall i: nat :: 0 < i <= NUM_CACHES ==> ListAt(v, i) == [])
  }

  /** A program that only asks for 32 bytes or less never gets a freed page again: every
      allocation carves a new one, however many are waiting. */
  lemma {:induction false} SmallRequestsNeverReuse(states: seq<Pool>, calls: seq<Call>, n: nat)
    requires IsRun(states, calls) && n < |states|
    requires forall i :: 0 <= i < |calls| && calls[i].Malloc? ==> calls[i].size <= 32
    ensures OnlySmallest(states[n])
    ensures n < |calls| && calls[n].Malloc? && Allocate(states[n], calls[n].size).1.Some? ==>
              Allocate(states[n], calls[n].size).1.value !in states[n].extents
  {
    hide Coherent, Allocate, Free, OnlySmallest;
    RunsAreCoherent(states, calls, n);
    if n == 0 {
      FreshHasNothing(states[0].start, states[0].limit, states[0].bump);
    } else {
      SmallRequestsNeverReuse(states, calls, n - 1);
      RunsAreCoherent(states, calls, n - 1);
      match calls[n - 1]
      case Malloc(size) => SmallMalloc(states[n - 1], size);
      case Release(p) => SmallRelease(states[n - 1], p);
    }
    if n < |calls| && calls[n].Malloc? {
      SmallMalloc(states[n], calls[n].size);
    }
  }

  lemma FreshHasNothing(start: nat, limit: nat, bump: nat)
    ensures OnlySmallest(Fresh(start, limit, bump))
  {
  }

  lemma SmallMalloc(v: Pool, size: nat)
    requires Coherent(v) && OnlySmallest(v) && 0 < size <= 32
    ensures OnlySmallest(Allocate(v, size).0)
    ensures Allocate(v, size).1.Some? ==> Allocate(v, size).1.value !in v.extents
  {
    PageOf(size);
    assert ListAt(v, 6) == [];
    CarvesWhenNothingFits(v, size);
    HeadersAfter(v, size);
    hide MakePageId, Coherent, Allocate;
    CarvedIsNew(v);
    assert forall i: nat :: i <= NUM_CACHES ==> ListAt(Allocate(v, size).0, i) == ListAt(v, i);
  }

  lemma CarvedIsNew(v: Pool)
    requires Coherent(v)
    ensures v.start + v.bump !in v.extents
  {
    hide MakePageId, Settled, Home, Apart, Counted, Placed;
    assert forall q :: q in v.extents ==> q in v.headers && v.headers[q].pageSize <= v.extents[q];
  }

  lemma HeadersAfter(v: Pool, size: nat)
    requires size > 0
    ensures var r := Allocate(v, size);
            r.0.headers == if r.1.Some? then v.headers[r.1.value := MpPage(MakePageId(size + H).round, true)] else v.headers
  {
    hide MakePageId, Position, Searched;
  }

  lemma SmallRelease(v: Pool, p: nat)
    requires OnlySmallest(v) && p in v.headers
    ensures OnlySmallest(Free(v, p).0)
  {
    FreedTo(1);
    PageOf(1);
    hide MakePageId, Home;
    if v.headers[p].live {
      FreePutsOnTop(v, p);
    }
  }
}
