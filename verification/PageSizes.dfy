/** `PageId`: rounding a request, with its page header, to a size class. */
module PageSizes {
  type Positive = n: int | n > 0 witness 1

  /** sizeof(MpPage). Nothing depends on its value. */
  const H: Positive

  /** Sizes of whole pages, header included. */
  type PageSize = n: int | n > H witness H + 1

  /** min_cached_size_exp_, max_cached_size_exp_, num_caches_. */
  const MIN_EXP := 6
  const MAX_EXP := 24
  const NUM_CACHES := MAX_EXP - MIN_EXP + 1

  function Pow2(k: nat): (p: nat)
    ensures p > 0
  {
    if k == 0 then 1 else 2 * Pow2(k - 1)
  }

  /** ceil(log2(n)): the least exponent whose power of two reaches n. */
  function CeilLog2(n: nat): (k: nat)
    requires n > 0
    ensures Pow2(k) >= n
    ensures k > 0 ==> Pow2(k - 1) < n
  {
    if n == 1 then 0 else
    var half := CeilLog2((n + 1) / 2);
    assert half > 0 ==> 2 * Pow2(half - 1) < n;
    half + 1
  }

  datatype PageId = PageId(orig: PageSize, round: PageSize, exp: nat)

  /** The constructor. `size` includes the header. An exponent of NUM_CACHES or more means
      the fallback list; a request below the smallest class keeps exponent 6, that is, the
      list of 4 KB pages, although its page is a smallest-class page. */
  function MakePageId(size: PageSize): PageId {
    var exp := CeilLog2(size - H);
    if exp < MIN_EXP then PageId(size, Pow2(MIN_EXP) + H, MIN_EXP)
    else if exp > MAX_EXP then PageId(size, size, MAX_EXP)
    else PageId(size, Pow2(exp) + H, exp - MIN_EXP)
  }

  predicate IsCached(id: PageId) {
    id.exp < NUM_CACHES
  }

  lemma {:induction false} Pow2Monotone(j: nat, k: nat)
    requires j <= k
    ensures Pow2(j) <= Pow2(k)
    ensures j < k ==> 2 * Pow2(j) <= Pow2(k)
  {
    if j < k { Pow2Monotone(j, k - 1); }
  }

  lemma CeilLog2Unique(n: nat, k: nat)
    requires n > 0 && Pow2(k) >= n && (k > 0 ==> Pow2(k - 1) < n)
    ensures CeilLog2(n) == k
  {
    var l := CeilLog2(n);
    if l < k { Pow2Monotone(l, k - 1); }
    if k < l { Pow2Monotone(k, l - 1); }
  }

  lemma CeilLog2OfPow2(k: nat)
    ensures CeilLog2(Pow2(k)) == k
  {
    CeilLog2Unique(Pow2(k), k);
  }

  lemma CeilLog2Monotone(m: nat, n: nat)
    requires 0 < m <= n
    ensures CeilLog2(m) <= CeilLog2(n)
  {
    var j, k := CeilLog2(m), CeilLog2(n);
    if k < j { Pow2Monotone(k, j - 1); }
  }

  /** The rounded size holds the request. */
  lemma RoundHolds(size: PageSize)
    ensures MakePageId(size).round >= size
  {
    var exp := CeilLog2(size - H);
    if exp < MIN_EXP { Pow2Monotone(exp, MIN_EXP); }
  }

  /** A larger request is never rounded to a smaller page. */
  lemma RoundIsMonotone(size: PageSize, size': PageSize)
    requires size <= size'
    ensures MakePageId(size).round <= MakePageId(size').round
  {
    hide Pow2, CeilLog2;
    var e, e' := CeilLog2(size - H), CeilLog2(size' - H);
    CeilLog2Monotone(size - H, size' - H);
    RoundHolds(size');
    if MIN_EXP <= e <= MAX_EXP {
      Pow2Monotone(e, e');
      if e' > MAX_EXP {
        Pow2Monotone(e, e' - 1);
      }
    } else if e < MIN_EXP && e' >= MIN_EXP {
      Pow2Monotone(MIN_EXP, e');
      if e' > MAX_EXP {
        Pow2Monotone(MIN_EXP, e' - 1);
      }
    }
  }

  /** The size of every page kept in free list i. */
  function ClassSize(i: nat): PageSize {
    Pow2(i + MIN_EXP) + H
  }

  /** Where a page goes when it is freed, by its recorded size: rounding is stable, a page of
      class i returns to list i (also the 64-byte page that was requested through list 6),
      and a page beyond the largest class to the fallback list. */
  lemma FreedPageFindsItsList(size: PageSize)
    ensures var page := MakePageId(size).round; var back := MakePageId(page);
            && back.round == page
            && (IsCached(back) ==> page == ClassSize(back.exp))
            && (!IsCached(back) ==> page > ClassSize(NUM_CACHES - 1))
            && (IsCached(back) <==> IsCached(MakePageId(size)))
            && (IsCached(MakePageId(size)) ==> back.exp == if CeilLog2(size - H) < MIN_EXP then 0 else MakePageId(size).exp)
  {
    hide Pow2, CeilLog2;
    var exp := CeilLog2(size - H);
    if exp < MIN_EXP {
      CeilLog2OfPow2(MIN_EXP);
    } else if exp <= MAX_EXP {
      CeilLog2OfPow2(exp);
    } else {
      Pow2Monotone(MAX_EXP, exp - 1);
    }
  }

  /** What list `exp` offers is large enough for a request served from it. */
  lemma CachedPageIsLargeEnough(size: PageSize)
    requires IsCached(MakePageId(size))
    ensures ClassSize(MakePageId(size).exp) >= MakePageId(size).round
  {
    hide Pow2, CeilLog2;
    if CeilLog2(size - H) < MIN_EXP {
      Pow2Monotone(MIN_EXP, 2 * MIN_EXP);
    }
  }

  /** Two sizes are rounded alike exactly when one page fits where the other did. */
  lemma RoundIsLeastPage(size: PageSize, size': PageSize)
    ensures MakePageId(size').round >= MakePageId(size).round <==> MakePageId(size').round >= size
  {
    hide Pow2, CeilLog2, MakePageId;
    RoundHolds(size);
    if MakePageId(size').round >= size {
      FreedPageFindsItsList(size');
      RoundIsMonotone(size, MakePageId(size').round);
    }
  }
}
