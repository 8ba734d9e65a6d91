/** The intrusive list of free pages that the allocator searches: links live in the pages. */
module LifoLists {
  /** OffsetPointer::GetNull(). */
  const NULL: int := -1

  /** Pages are named by their offset. */
  type Link = p: int | p >= NULL witness NULL

  function PageAt(s: seq<nat>, k: nat): Link {
    if k < |s| then s[k] else NULL
  }

  lemma PageAtIs(s: seq<nat>, k: nat)
    ensures PageAt(s, k) == if k < |s| then s[k] else NULL
  {
  }

  predicate NoRepeats(s: seq<nat>) {
    forall j, k :: 0 <= j < k < |s| ==> s[j] != s[k]
  }

  /** Following the links from `first` visits exactly `s` and ends at null. */
  predicate Linked(next: map<nat, Link>, first: Link, s: seq<nat>) {
    && first == PageAt(s, 0)
    && (forall k :: 0 <= k < |s| ==> s[k] in next)
    && (forall k {:trigger next[s[k]]} :: 0 <= k < |s| ==> next[s[k]] == PageAt(s, k + 1))
  }

  function Without(s: seq<nat>, k: nat): (r: seq<nat>)
    requires k < |s|
    ensures |r| == |s| - 1
    ensures forall p :: p in r ==> p in s
    ensures forall p :: p in s ==> p in r || p == s[k]
    ensures NoRepeats(s) ==> NoRepeats(r) && s[k] !in r
  {
    assert s == s[..k] + [s[k]] + s[k + 1..];
    s[..k] + s[k + 1..]
  }

  /** Bridging over position k unlinks it. */
  lemma LinkedWithout(next: map<nat, Link>, first: Link, s: seq<nat>, k: nat, next': map<nat, Link>)
    requires Linked(next, first, s) && NoRepeats(s) && 0 < k < |s|
    requires s[k] in next && next' == next[s[k - 1] := next[s[k]]]
    ensures Linked(next', first, Without(s, k))
  {
    hide PageAt;
    var r := Without(s, k);
    PageAtIs(s, 0);
    PageAtIs(r, 0);
    forall j | 0 <= j < |r|
      ensures r[j] in next' && next'[r[j]] == PageAt(r, j + 1)
    {
      var at := if j < k then j else j + 1;
      assert r[j] == s[at] && s[at] in next && next[s[at]] == PageAt(s, at + 1);
      assert s[k] in next && next[s[k]] == PageAt(s, k + 1);
      PageAtIs(r, j + 1);
      PageAtIs(s, at + 1);
      PageAtIs(s, k + 1);
    }
  }

  /** lifo_list_queue. */
  class LifoList {
    var next: map<nat, Link>
    var tail: Link
    var length: nat
    ghost var contents: seq<nat>

    ghost predicate Valid()
      reads this
    {
      && length == |contents|
      && NoRepeats(contents)
      && Linked(next, tail, contents)
    }

    constructor ()
      ensures Valid() && contents == []
    {
      next, tail, length, contents := map[], NULL, 0, [];
    }

    method Enqueue(p: nat)
      requires Valid() && p !in contents
      modifies this
      ensures Valid() && contents == [p] + old(contents)
    {
      next := next[p := tail];
      tail := p;
      length := length + 1;
      contents := [p] + contents;
    }

    method Dequeue() returns (p: Link)
      requires Valid()
      modifies this
      ensures Valid()
      ensures old(contents) == [] ==> p == NULL && contents == []
      ensures old(contents) != [] ==> p == old(contents)[0] && contents == old(contents)[1..]
    {
      if length == 0 {
        return NULL;
      }
      p := tail;
      tail := next[tail];
      length := length - 1;
      contents := contents[1..];
    }

    /** Dequeue at an iterator, which carries the page before it (null at the front). */
    method DequeueAt(prior: Link, entry: nat, ghost k: nat) returns (p: Link)
      requires Valid() && k < |contents|
      requires entry == contents[k] && prior == if k == 0 then NULL else contents[k - 1]
      modifies this
      ensures Valid() && p == entry
      ensures contents == Without(old(contents), k)
    {
      if prior == NULL {
        p := Dequeue();
        return;
      }
      hide PageAt, Without;
      p := entry;
      LinkedWithout(next, tail, contents, k, next[prior := next[entry]]);
      next := next[prior := next[entry]];
      length := length - 1;
      contents := Without(contents, k);
    }
  }
}
