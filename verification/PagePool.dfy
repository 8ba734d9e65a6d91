/** What the page allocators do to the pages of one heap region, as steps on a value.
    `extents` and `requested` are not stored by the program: they record what was carved for
    each page and what the caller of each live page asked for. */
module PagePool {
  import opened Wrappers
  import opened PageSizes
  import opened LifoLists

  datatype MpPage = MpPage(pageSize: PageSize, live: bool)

  /** free_lists_. */
  type Lists = s: seq<seq<nat>> | |s| == NUM_CACHES witness seq(NUM_CACHES, i => [])

  datatype Pool = Pool(
    start: nat, limit: nat, bump: nat,
    headers: map<nat, MpPage>,
    lists: Lists,
    fallback: seq<nat>,
    total: int,
    extents: map<nat, nat>,
    requested: map<nat, nat>)

  // ---------------------------------------------------------------- operations

  /** The list a page of this recorded size is freed into; NUM_CACHES is the fallback list. */
  function Home(pageSize: PageSize): (i: nat)
    ensures i <= NUM_CACHES
  {
    if IsCached(MakePageId(pageSize)) then MakePageId(pageSize).exp else NUM_CACHES
  }

  function ListAt(v: Pool, i: nat): seq<nat>
    requires i <= NUM_CACHES
  {
    if i < NUM_CACHES then v.lists[i] else v.fallback
  }

  function SetList(v: Pool, i: nat, s: seq<nat>): (w: Pool)
    requires i <= NUM_CACHES
    ensures w == v.(lists := w.lists, fallback := w.fallback)
    ensures forall j: nat :: j <= NUM_CACHES ==> ListAt(w, j) == if j == i then s else ListAt(v, j)
  {
    if i < NUM_CACHES then v.(lists := v.lists[i := s]) else v.(fallback := s)
  }

  predicate Fits(headers: map<nat, MpPage>, p: nat, need: nat) {
    p in headers && headers[p].pageSize >= need
  }

  /** The first page of a list whose recorded size suffices. */
  function FirstFit(headers: map<nat, MpPage>, s: seq<nat>, need: nat): (k: nat)
    ensures k <= |s| && (k < |s| ==> Fits(headers, s[k], need))
    ensures forall j :: 0 <= j < k ==> !Fits(headers, s[j], need)
  {
    if s == [] || Fits(headers, s[0], need) then 0 else 1 + FirstFit(headers, s[1..], need)
  }

  /** The list an allocation searches, and the position it takes there (the list's length
      when there is none). */
  function Searched(id: PageId): (i: nat)
    ensures i <= NUM_CACHES
  {
    if IsCached(id) then id.exp else NUM_CACHES
  }

  function Position(v: Pool, id: PageId): (k: nat)
    ensures k <= |ListAt(v, Searched(id))|
  {
    if IsCached(id) then 0 else FirstFit(v.headers, v.fallback, id.round)
  }

  /** Marking a page as handed out: its recorded size becomes the rounded request. */
  function Issue(v: Pool, p: nat, round: PageSize, size: nat): Pool {
    v.(headers := v.headers[p := MpPage(round, true)],
       requested := v.requested[p := size],
       total := v.total + round)
  }

  function Reuse(v: Pool, i: nat, k: nat): Pool
    requires i <= NUM_CACHES && k < |ListAt(v, i)|
  {
    SetList(v, i, Without(ListAt(v, i), k))
  }

  function Carve(v: Pool, round: PageSize): Pool {
    v.(bump := v.bump + round, extents := v.extents[v.start + v.bump := round])
  }

  /** AllocateOffset for `size` > 0 bytes; the result is the page, not the user's pointer. */
  function Allocate(v: Pool, size: nat): (r: (Pool, Option<nat>))
    requires size > 0
    ensures v.headers.Keys <= r.0.headers.Keys
  {
    var id := MakePageId(size + H);
    var i, k := Searched(id), Position(v, id);
    if k < |ListAt(v, i)| then
      (Issue(Reuse(v, i, k), ListAt(v, i)[k], id.round, size), Some(ListAt(v, i)[k]))
    else if v.bump + id.round > v.limit then
      (v.(bump := v.bump + id.round), None)
    else
      (Issue(Carve(v, id.round), v.start + v.bump, id.round, size), Some(v.start + v.bump))
  }

  /** FreeOffsetNoNullCheck: refused when the page is not marked allocated. */
  function Free(v: Pool, p: nat): (r: (Pool, bool))
    requires p in v.headers
  {
    var size := v.headers[p].pageSize;
    if !v.headers[p].live then (v, false) else
    (SetList(v, Home(size), [p] + ListAt(v, Home(size))).(
       headers := v.headers[p := MpPage(size, false)],
       requested := v.requested - {p},
       total := v.total - size), true)
  }

  // ---------------------------------------------------------------- invariant

  /** Recorded sizes are those some request was rounded to. */
  predicate Settled(pageSize: PageSize) {
    && MakePageId(pageSize).round == pageSize
    && (Home(pageSize) < NUM_CACHES ==> pageSize == ClassSize(Home(pageSize)))
  }

  predicate InRegion(v: Pool) {
    forall p :: p in v.extents ==>
      && v.start <= p
      && p + v.extents[p] <= v.start + v.bump
      && p + v.extents[p] <= v.start + v.limit
  }

  predicate Apart(v: Pool) {
    forall p, q :: p in v.extents && q in v.extents && p < q ==> p + v.extents[p] <= q
  }

  ghost predicate Sized(v: Pool) {
    && v.headers.Keys == v.extents.Keys
    && (forall p :: p in v.headers ==> Settled(v.headers[p].pageSize) && v.headers[p].pageSize <= v.extents[p])
    && (forall p :: p in v.requested <==> p in v.headers && v.headers[p].live)
    && (forall p :: p in v.requested ==>
          v.requested[p] > 0 && v.headers[p].pageSize == MakePageId(v.requested[p] + H).round)
  }

  /** Page p waits in list i. */
  predicate Waits(v: Pool, p: nat, i: nat) {
    p in v.headers && !v.headers[p].live && Home(v.headers[p].pageSize) == i
  }

  ghost predicate Placed(v: Pool) {
    && (forall i: nat :: i <= NUM_CACHES ==> NoRepeats(ListAt(v, i)))
    && (forall i: nat, p :: i <= NUM_CACHES ==> (p in ListAt(v, i) <==> Waits(v, p, i)))
  }

  function Held(v: Pool, p: nat): nat {
    if p in v.headers && v.headers[p].live then v.headers[p].pageSize else 0
  }

  /** The recorded sizes of the live pages below offset n, added up. */
  function LiveBelow(v: Pool, n: nat): nat {
    if n == 0 then 0 else LiveBelow(v, n - 1) + Held(v, n - 1)
  }

  predicate Counted(v: Pool) {
    v.total == LiveBelow(v, v.start + v.limit)
  }

  ghost predicate Coherent(v: Pool) {
    InRegion(v) && Apart(v) && Sized(v) && Placed(v) && Counted(v)
  }

  // ---------------------------------------------------------------- preservation

  lemma RoundIsSettled(size: nat)
    requires size > 0
    ensures Settled(MakePageId(size + H).round)
    ensures MakePageId(size + H).round >= size + H
  {
    hide Pow2, CeilLog2;
    RoundHolds(size + H);
    FreedPageFindsItsList(size + H);
  }

  /** The page an allocation takes from a list was carved at least as large as it needs. */
  lemma TakenPageIsLargeEnough(v: Pool, size: nat)
    requires Sized(v) && Placed(v) && size > 0
    requires Position(v, MakePageId(size + H)) < |ListAt(v, Searched(MakePageId(size + H)))|
    ensures var id := MakePageId(size + H); var p := ListAt(v, Searched(id))[Position(v, id)];
            Waits(v, p, Searched(id)) && v.headers[p].pageSize >= id.round
  {
    hide Pow2, CeilLog2, MakePageId, ClassSize;
    var id := MakePageId(size + H);
    var i := Searched(id);
    var p := ListAt(v, i)[Position(v, id)];
    assert p in ListAt(v, i);
    if IsCached(id) {
      CachedPageIsLargeEnough(size + H);
      assert Settled(v.headers[p].pageSize);
    }
  }

  lemma {:induction false} LiveBelowChange(v: Pool, w: Pool, p: nat, n: nat)
    requires forall q :: q != p ==> Held(w, q) == Held(v, q)
    ensures LiveBelow(w, n) == LiveBelow(v, n) + (if p < n then Held(w, p) - Held(v, p) else 0)
  {
    if n > 0 { LiveBelowChange(v, w, p, n - 1); }
  }

  /** w differs from v only in page p and in the lists. */
  ghost predicate OnlyTouches(v: Pool, w: Pool, p: nat) {
    && (forall q :: q != p ==> (q in w.headers <==> q in v.headers))
    && (forall q :: q != p && q in v.headers ==> w.headers[q] == v.headers[q])
    && (forall q :: q != p ==> (q in w.extents <==> q in v.extents))
    && (forall q :: q != p && q in v.extents ==> w.extents[q] == v.extents[q])
    && (forall q :: q != p ==> (q in w.requested <==> q in v.requested))
    && (forall q :: q != p && q in v.requested ==> w.requested[q] == v.requested[q])
  }

  /** The state of page p itself is in order. */
  ghost predicate PageOk(w: Pool, p: nat) {
    && p in w.headers && p in w.extents
    && Settled(w.headers[p].pageSize) && w.headers[p].pageSize <= w.extents[p]
    && (p in w.requested <==> w.headers[p].live)
    && (p in w.requested ==>
          w.requested[p] > 0 && w.headers[p].pageSize == MakePageId(w.requested[p] + H).round)
  }

  lemma SizedAfter(v: Pool, w: Pool, p: nat)
    requires Sized(v) && OnlyTouches(v, w, p) && PageOk(w, p)
    ensures Sized(w)
  {
    hide MakePageId, Settled;
    forall q
      ensures q in w.headers <==> q in w.extents
      ensures q in w.requested <==> q in w.headers && w.headers[q].live
      ensures q in w.headers ==> Settled(w.headers[q].pageSize) && w.headers[q].pageSize <= w.extents[q]
      ensures q in w.requested ==>
        w.requested[q] > 0 && w.headers[q].pageSize == MakePageId(w.requested[q] + H).round
    {
      assert q in v.headers <==> q in v.extents;
    }
  }

  lemma PlacedAfter(v: Pool, w: Pool, p: nat)
    requires Placed(v) && OnlyTouches(v, w, p)
    requires forall i: nat :: i <= NUM_CACHES ==> NoRepeats(ListAt(w, i))
    requires forall i: nat, q :: i <= NUM_CACHES && q != p ==> (q in ListAt(w, i) <==> q in ListAt(v, i))
    requires forall i: nat :: i <= NUM_CACHES ==> (p in ListAt(w, i) <==> Waits(w, p, i))
    ensures Placed(w)
  {
    hide Home, ListAt, NoRepeats;
  }

  /** A step on a page that is already carved, given that the lists are in order again. */
  lemma CarvedPageStep(v: Pool, w: Pool, p: nat)
    requires Coherent(v) && OnlyTouches(v, w, p) && PageOk(w, p) && Placed(w) && p in v.headers
    requires w.extents == v.extents && w.start == v.start && w.limit == v.limit && w.bump == v.bump
    requires w.total == v.total + Held(w, p) - Held(v, p)
    ensures Coherent(w)
  {
    hide MakePageId, Settled, Placed, Counted;
    SizedAfter(v, w, p);
    assert p in v.extents;
    assert p + v.extents[p] <= v.start + v.limit && v.headers[p].pageSize <= v.extents[p];
    CountedAfter(v, w, p);
  }

  lemma CountedAfter(v: Pool, w: Pool, p: nat)
    requires Counted(v) && OnlyTouches(v, w, p) && w.start == v.start && w.limit == v.limit
    requires p < v.start + v.limit || Held(w, p) == Held(v, p)
    requires w.total == v.total + Held(w, p) - Held(v, p)
    ensures Counted(w)
  {
    LiveBelowChange(v, w, p, v.start + v.limit);
  }

  lemma CarvedPageOk(v: Pool, p: nat)
    requires Sized(v) && p in v.headers
    ensures PageOk(v, p)
  {
    hide MakePageId, Settled;
  }

  lemma ReuseAndIssue(v: Pool, i: nat, k: nat, round: PageSize, size: nat)
    requires Coherent(v) && i <= NUM_CACHES && k < |ListAt(v, i)|
    requires Waits(v, ListAt(v, i)[k], i) && v.headers[ListAt(v, i)[k]].pageSize >= round
    requires size > 0 && round == MakePageId(size + H).round && Settled(round)
    ensures Coherent(Issue(Reuse(v, i, k), ListAt(v, i)[k], round, size))
  {
    hide MakePageId, Settled, Home, Placed, Coherent, ListAt, SetList, Sized;
    CoherentParts(v);
    var p := ListAt(v, i)[k];
    var w := Issue(Reuse(v, i, k), p, round, size);
    CarvedPageOk(v, p);
    assert OnlyTouches(v, w, p);
    ReuseKeepsPlaces(v, i, k, w);
    CarvedPageStep(v, w, p);
  }

  lemma CoherentParts(v: Pool)
    requires Coherent(v)
    ensures Sized(v) && Placed(v)
  {
    hide Sized;
  }

  lemma ReuseKeepsPlaces(v: Pool, i: nat, k: nat, w: Pool)
    requires Placed(v) && i <= NUM_CACHES && k < |ListAt(v, i)|
    requires w.lists == Reuse(v, i, k).lists && w.fallback == Reuse(v, i, k).fallback
    requires var p := ListAt(v, i)[k]; OnlyTouches(v, w, p) && p in w.headers && w.headers[p].live
    ensures Placed(w)
  {
    hide Home, NoRepeats, OnlyTouches;
    var p := ListAt(v, i)[k];
    forall j: nat | j <= NUM_CACHES
      ensures NoRepeats(ListAt(w, j))
      ensures p !in ListAt(w, j)
      ensures forall q :: q != p ==> (q in ListAt(w, j) <==> q in ListAt(v, j))
    {
      assert NoRepeats(ListAt(v, j));
      assert p in ListAt(v, i) && Waits(v, p, i);
      assert p in ListAt(v, j) ==> Waits(v, p, j);
    }
    PlacedAfter(v, w, p);
  }

  lemma CarvedSpaceIsNew(v: Pool, round: PageSize)
    requires InRegion(v) && Apart(v) && Sized(v) && v.bump + round <= v.limit
    ensures v.start + v.bump !in v.extents
    ensures InRegion(Carve(v, round)) && Apart(Carve(v, round))
  {
    hide MakePageId, Settled;
    assert forall q :: q in v.extents ==> q in v.headers && v.headers[q].pageSize <= v.extents[q];
  }

  lemma CarveAndIssue(v: Pool, round: PageSize, size: nat)
    requires Coherent(v) && v.bump + round <= v.limit
    requires size > 0 && round == MakePageId(size + H).round && Settled(round)
    ensures v.start + v.bump !in v.headers
    ensures Coherent(Issue(Carve(v, round), v.start + v.bump, round, size))
  {
    hide MakePageId, Settled, Placed, Sized, Counted, InRegion, Apart;
    var p := v.start + v.bump;
    var w := Issue(Carve(v, round), p, round, size);
    CarvedSpaceIsNew(v, round);
    SizedHasHeaders(v);
    assert InRegion(w) && Apart(w) by { SameExtents(Carve(v, round), w); }
    SizedAfter(v, w, p);
    UnlistedKeepsPlaces(v, w, p);
    CountedAfter(v, w, p);
  }

  lemma SizedHasHeaders(v: Pool)
    requires Sized(v)
    ensures v.headers.Keys == v.extents.Keys && v.requested.Keys <= v.extents.Keys
  {
    hide MakePageId, Settled;
  }

  lemma SameExtents(v: Pool, w: Pool)
    requires w.extents == v.extents && w.start == v.start && w.limit == v.limit && w.bump >= v.bump
    requires InRegion(v) && Apart(v)
    ensures InRegion(w) && Apart(w)
  {
  }

  lemma UnlistedKeepsPlaces(v: Pool, w: Pool, p: nat)
    requires Placed(v) && OnlyTouches(v, w, p)
    requires w.lists == v.lists && w.fallback == v.fallback
    requires p in v.headers ==> p in w.headers && w.headers[p] == v.headers[p]
    requires p !in v.headers && p in w.headers ==> w.headers[p].live
    ensures Placed(w)
  {
    hide Home, NoRepeats, OnlyTouches;
    forall j: nat | j <= NUM_CACHES
      ensures ListAt(w, j) == ListAt(v, j) && NoRepeats(ListAt(w, j))
      ensures p in ListAt(w, j) <==> Waits(w, p, j)
    {
      assert p in ListAt(v, j) <==> Waits(v, p, j);
    }
    PlacedAfter(v, w, p);
  }

  lemma RefusalKeeps(v: Pool, round: PageSize)
    requires Coherent(v)
    ensures Coherent(v.(bump := v.bump + round))
  {
    hide MakePageId, Settled, Placed, Sized, Counted, InRegion, Apart;
    var w := v.(bump := v.bump + round);
    SameExtents(v, w);
    assert Sized(w) by { SameHeaders(v, w); }
    UnlistedKeepsPlaces(v, w, 0);
    CountedAfter(v, w, 0);
  }

  lemma SameHeaders(v: Pool, w: Pool)
    requires Sized(v) && w.headers == v.headers && w.extents == v.extents && w.requested == v.requested
    ensures Sized(w)
  {
    hide MakePageId, Settled;
  }

  lemma FreeKeepsPlaces(v: Pool, p: nat, w: Pool)
    requires Placed(v) && p in v.headers && v.headers[p].live
    requires w.lists == Free(v, p).0.lists && w.fallback == Free(v, p).0.fallback
    requires OnlyTouches(v, w, p) && p in w.headers && w.headers[p] == MpPage(v.headers[p].pageSize, false)
    ensures Placed(w)
  {
    hide Home, OnlyTouches;
    var i := Home(v.headers[p].pageSize);
    forall j: nat | j <= NUM_CACHES
      ensures ListAt(w, j) == if j == i then [p] + ListAt(v, j) else ListAt(v, j)
      ensures NoRepeats(ListAt(w, j))
    {
      assert NoRepeats(ListAt(v, j));
      assert p !in ListAt(v, j) by { assert !Waits(v, p, j); }
    }
    PlacedAfter(v, w, p);
  }

  /** Allocation keeps everything and hands out a page nobody holds. Which one, and when it
      fails, is in PageReuse. */
  lemma AllocateKeeps(v: Pool, size: nat)
    requires Coherent(v) && size > 0
    ensures Coherent(Allocate(v, size).0)
    ensures var r := Allocate(v, size);
            if r.1.None? then r.0.requested == v.requested
            else r.1.value !in v.requested && r.0.requested == v.requested[r.1.value := size]
    ensures forall p :: p in v.extents ==> p in Allocate(v, size).0.extents && Allocate(v, size).0.extents[p] == v.extents[p]
  {
    hide MakePageId, Settled, Home, Placed, NoRepeats, Position, Searched, Counted, Apart, InRegion;
    RoundIsSettled(size);
    var id := MakePageId(size + H);
    var i, k := Searched(id), Position(v, id);
    if k < |ListAt(v, i)| {
      TakenPageIsLargeEnough(v, size);
      ReuseAndIssue(v, i, k, id.round, size);
    } else if v.bump + id.round <= v.limit {
      CarveAndIssue(v, id.round, size);
    } else {
      RefusalKeeps(v, id.round);
    }
  }

  /** Freeing keeps everything; only a live page is accepted, so a page is never listed twice. */
  lemma FreeKeeps(v: Pool, p: nat)
    requires Coherent(v) && p in v.headers
    ensures Free(v, p).1 <==> p in v.requested
    ensures Coherent(Free(v, p).0)
    ensures Free(v, p).0.requested == v.requested - {p} && Free(v, p).0.extents == v.extents
    ensures Free(v, p).0.total == v.total - Held(v, p)
  {
    hide MakePageId, Settled, Home, Placed, Coherent, ListAt, SetList;
    CoherentParts(v);
    CarvedPageOk(v, p);
    if v.headers[p].live {
      var w := Free(v, p).0;
      assert OnlyTouches(v, w, p);
      FreeKeepsPlaces(v, p, w);
      CarvedPageStep(v, w, p);
    }
  }

  // ---------------------------------------------------------------- whole runs

  datatype Call = Malloc(size: nat) | Release(page: nat)

  /** What the program demands of a caller: a positive size, and a page it once got. Calls
      that free a page twice are legal; the program refuses them. */
  predicate MayCall(v: Pool, c: Call) {
    match c
    case Malloc(size) => size > 0
    case Release(p) => p in v.headers
  }

  function Obey(v: Pool, c: Call): Pool
    requires MayCall(v, c)
  {
    match c
    case Malloc(size) => Allocate(v, size).0
    case Release(p) => Free(v, p).0
  }

  function Fresh(start: nat, limit: nat, bump: nat): Pool {
    Pool(start, limit, bump, map[], seq(NUM_CACHES, i => []), [], 0, map[], map[])
  }

  /** A run from a freshly initialised region: states[0], call, states[1], call, ... */
  ghost predicate IsRun(states: seq<Pool>, calls: seq<Call>) {
    && |states| == |calls| + 1
    && states[0] == Fresh(states[0].start, states[0].limit, states[0].bump)
    && forall i :: 0 <= i < |calls| ==>
         && MayCall(states[i], calls[i])
         && states[i + 1] == Obey(states[i], calls[i])
  }

  lemma {:induction false} NothingLive(v: Pool, n: nat)
    requires forall p :: p in v.headers ==> !v.headers[p].live
    ensures LiveBelow(v, n) == 0
  {
    if n > 0 { NothingLive(v, n - 1); }
  }

  lemma FreshIsCoherent(start: nat, limit: nat, bump: nat)
    ensures Coherent(Fresh(start, limit, bump))
  {
    NothingLive(Fresh(start, limit, bump), start + limit);
  }

  /** The invariant holds after every prefix of every legal sequence of calls. */
  lemma {:induction false} RunsAreCoherent(states: seq<Pool>, calls: seq<Call>, n: nat)
    requires IsRun(states, calls) && n < |states|
    ensures Coherent(states[n])
  {
    hide Coherent, Allocate, Free, Fresh;
    if n == 0 {
      FreshIsCoherent(states[0].start, states[0].limit, states[0].bump);
    } else {
      RunsAreCoherent(states, calls, n - 1);
      match calls[n - 1]
      case Malloc(size) => AllocateKeeps(states[n - 1], size);
      case Release(p) => FreeKeeps(states[n - 1], p);
    }
  }

  /** A carved page is never lost and never resized, as long as the run lasts. */
  lemma {:induction false} PagesAreConserved(states: seq<Pool>, calls: seq<Call>, m: nat, n: nat, p: nat)
    requires IsRun(states, calls) && m <= n < |states| && p in states[m].extents
    ensures p in states[n].extents && states[n].extents[p] == states[m].extents[p]
  {
    hide Coherent, Allocate, Free, Fresh;
    if m < n {
      PagesAreConserved(states, calls, m, n - 1, p);
      RunsAreCoherent(states, calls, n - 1);
      match calls[n - 1]
      case Malloc(size) => AllocateKeeps(states[n - 1], size);
      case Release(q) => FreeKeeps(states[n - 1], q);
    }
  }

  /** Where a page can be. */
  datatype Place = Live | InList(list: nat, position: nat)

  ghost predicate IsAt(v: Pool, p: nat, place: Place)
  {
    match place
    case Live => p in v.requested
    case InList(i, k) => i <= NUM_CACHES && k < |ListAt(v, i)| && ListAt(v, i)[k] == p
  }

  /** Every carved page is handed out or waits at one position of one list: exactly one of
      these. */
  lemma EveryPageIsInOnePlace(v: Pool, p: nat) returns (place: Place)
    requires Coherent(v) && p in v.extents
    ensures IsAt(v, p, place) && forall other :: IsAt(v, p, other) ==> other == place
  {
    hide MakePageId, Settled, Home, ListAt;
    if v.headers[p].live {
      place := Live;
      assert forall i: nat :: i <= NUM_CACHES ==> p !in ListAt(v, i);
    } else {
      var i := Home(v.headers[p].pageSize);
      assert Waits(v, p, i);
      assert p in ListAt(v, i);
      var k: nat :| k < |ListAt(v, i)| && ListAt(v, i)[k] == p;
      place := InList(i, k);
      forall other | IsAt(v, p, other)
        ensures other == place
      {
        if other.InList? {
          assert p in ListAt(v, other.list);
          assert NoRepeats(ListAt(v, i));
        }
      }
    }
  }

  /** The bytes handed to a caller follow the page header, lie inside the region, number at
      least what was asked for, and overlap no byte, header or payload, of any other page. */
  lemma LiveBlocksAreSafe(v: Pool, p: nat)
    requires Coherent(v) && p in v.requested
    ensures v.start <= p && p + H + v.requested[p] <= v.start + v.limit
    ensures forall q :: q in v.extents && q != p ==>
              p + H + v.requested[p] <= q || q + v.extents[q] <= p
  {
    hide MakePageId, Settled, Home, Placed;
    RoundIsSettled(v.requested[p]);
    assert p in v.extents && p + v.headers[p].pageSize <= p + v.extents[p];
  }

  /** Once everything is freed the reported total is zero, and conversely. */
  lemma NoLeakMeansZero(v: Pool)
    requires Coherent(v)
    ensures v.total == 0 <==> v.requested == map[]
  {
    hide Coherent, LiveBelow;
    CoherentCounts(v);
    if v.requested == map[] {
      NothingLive(v, v.start + v.limit);
    } else {
      var p :| p in v.requested;
      LivePageBelowEnd(v, p);
      SomethingLive(v, p, v.start + v.limit);
    }
  }

  lemma CoherentCounts(v: Pool)
    requires Coherent(v)
    ensures v.total == LiveBelow(v, v.start + v.limit)
    ensures v.requested == map[] ==> forall p :: p in v.headers ==> !v.headers[p].live
  {
    hide MakePageId, Settled, Home, Placed, InRegion, Apart, LiveBelow;
    assert forall p :: p in v.headers && v.headers[p].live ==> p in v.requested;
  }

  lemma LivePageBelowEnd(v: Pool, p: nat)
    requires Coherent(v) && p in v.requested
    ensures p in v.headers && v.headers[p].live && p < v.start + v.limit
  {
    hide MakePageId, Settled, Home, Placed, Apart, Counted;
    assert p in v.extents && v.headers[p].pageSize <= v.extents[p];
  }

  lemma {:induction false} SomethingLive(v: Pool, p: nat, n: nat)
    requires p in v.headers && v.headers[p].live && p < n
    ensures LiveBelow(v, n) >= v.headers[p].pageSize
  {
    if p < n - 1 { SomethingLive(v, p, n - 1); }
  }

  /** A region with room for one page: its first allocation succeeds and is then live. */
  lemma FirstAllocationIsLive(start: nat, limit: nat, size: nat)
    requires size > 0 && MakePageId(size + H).round <= limit
    ensures Allocate(Fresh(start, limit, 0), size).1 == Some(start)
    ensures Allocate(Fresh(start, limit, 0), size).0.requested == map[start := size]
    ensures Coherent(Allocate(Fresh(start, limit, 0), size).0)
  {
    hide MakePageId, Coherent, Searched;
    FreshIsCoherent(start, limit, 0);
    AllocateKeeps(Fresh(start, limit, 0), size);
  }
}
