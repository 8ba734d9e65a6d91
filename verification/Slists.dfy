/** slist: a singly linked list whose nodes are found by their offset in the allocator. */
module Slists {
  import opened LifoLists

  datatype Entry<T> = Entry(next: Link, data: T)

  /** The nodes reached from `first` are exactly those at `ptrs`, in that order. */
  predicate Chained<T>(nodes: map<nat, Entry<T>>, first: Link, ptrs: seq<nat>) {
    && first == PageAt(ptrs, 0)
    && (forall k :: 0 <= k < |ptrs| ==> ptrs[k] in nodes)
    && (forall k {:trigger nodes[ptrs[k]]} :: 0 <= k < |ptrs| ==> nodes[ptrs[k]].next == PageAt(ptrs, k + 1))
  }

  function DataAt<T>(nodes: map<nat, Entry<T>>, ptrs: seq<nat>): (s: seq<T>)
    requires forall p :: p in ptrs ==> p in nodes
    ensures |s| == |ptrs|
    ensures forall k :: 0 <= k < |s| ==> s[k] == nodes[ptrs[k]].data
  {
    seq(|ptrs|, k requires 0 <= k < |ptrs| => nodes[ptrs[k]].data)
  }

  function Last(ptrs: seq<nat>): Link {
    if ptrs == [] then NULL else ptrs[|ptrs| - 1]
  }

  /** The head, the tail and the nodes describe one list, at `ptrs`, and nothing besides it. */
  predicate Shape<T>(nodes: map<nat, Entry<T>>, head: Link, tail: Link, ptrs: seq<nat>) {
    && NoRepeats(ptrs)
    && Chained(nodes, head, ptrs)
    && tail == Last(ptrs)
    && (forall p :: p in nodes ==> p in ptrs)
  }

  /** The list with a node put before it. */
  ghost predicate Prepended<T>(nodes: map<nat, Entry<T>>, ptrs: seq<nat>, p: nat, entry: Entry<T>,
                               nodes': map<nat, Entry<T>>, ptrs': seq<nat>)
  {
    && p !in nodes && nodes' == nodes[p := entry]
    && ptrs' == [p] + ptrs
  }

  lemma PushFrontChain<T>(nodes: map<nat, Entry<T>>, head: Link, ptrs: seq<nat>, p: nat, data: T,
                          nodes': map<nat, Entry<T>>, ptrs': seq<nat>)
    requires Chained(nodes, head, ptrs) && Prepended(nodes, ptrs, p, Entry(head, data), nodes', ptrs')
    ensures Chained(nodes', p, ptrs')
    ensures DataAt(nodes', ptrs') == [data] + DataAt(nodes, ptrs)
  {
    hide PageAt;
    PageAtIs(ptrs, 0);
    PageAtIs(ptrs', 0);
    forall k | 0 <= k < |ptrs'|
      ensures ptrs'[k] in nodes' && nodes'[ptrs'[k]].next == PageAt(ptrs', k + 1)
      ensures nodes'[ptrs'[k]].data == if k > 0 then nodes[ptrs[k - 1]].data else data
    {
      PageAtIs(ptrs', k + 1);
      if k > 0 {
        assert ptrs[k - 1] in nodes && nodes[ptrs[k - 1]].next == PageAt(ptrs, k);
        PageAtIs(ptrs, k);
      }
    }
  }

  lemma PushFrontShape<T>(nodes: map<nat, Entry<T>>, head: Link, tail: Link, ptrs: seq<nat>, p: nat, data: T,
                          nodes': map<nat, Entry<T>>, ptrs': seq<nat>)
    requires Shape(nodes, head, tail, ptrs) && ptrs != []
    requires Prepended(nodes, ptrs, p, Entry(head, data), nodes', ptrs')
    ensures Shape(nodes', p, tail, ptrs')
    ensures DataAt(nodes', ptrs') == [data] + DataAt(nodes, ptrs)
  {
    hide PageAt, NoRepeats, Chained, DataAt;
    PushFrontChain(nodes, head, ptrs, p, data, nodes', ptrs');
    ChainedIn(nodes, head, ptrs);
    MembersOfFront(ptrs, p);
  }

  lemma MembersOfFront(ptrs: seq<nat>, p: nat)
    ensures forall q :: q in ptrs ==> q in [p] + ptrs
    ensures NoRepeats(ptrs) && p !in ptrs ==> NoRepeats([p] + ptrs)
  {
  }

  lemma FrontIsHead<T>(nodes: map<nat, Entry<T>>, head: Link, tail: Link, ptrs: seq<nat>)
    requires Shape(nodes, head, tail, ptrs)
    ensures if ptrs == [] then nodes == map[] && DataAt(nodes, ptrs) == [] else head != NULL
  {
  }

  lemma SingletonShape<T>(nodes: map<nat, Entry<T>>, p: nat, data: T)
    requires nodes == map[]
    ensures var nodes' := nodes[p := Entry(NULL, data)];
            Shape(nodes', p, p, [p]) && DataAt(nodes', [p]) == [data]
  {
  }

  /** The list with a node put after it. */
  ghost predicate Appended<T>(nodes: map<nat, Entry<T>>, tail: Link, ptrs: seq<nat>, p: nat, data: T,
                              nodes': map<nat, Entry<T>>, ptrs': seq<nat>)
  {
    && p !in nodes && tail >= 0 && tail in nodes
    && nodes' == nodes[p := Entry(NULL, data)][tail := nodes[tail].(next := p)]
    && ptrs' == ptrs + [p]
  }

  lemma PushBackChain<T>(nodes: map<nat, Entry<T>>, head: Link, tail: Link, ptrs: seq<nat>, p: nat, data: T,
                         nodes': map<nat, Entry<T>>, ptrs': seq<nat>)
    requires NoRepeats(ptrs) && Chained(nodes, head, ptrs) && tail == Last(ptrs) && ptrs != []
    requires Appended(nodes, tail, ptrs, p, data, nodes', ptrs')
    ensures Chained(nodes', head, ptrs')
    ensures DataAt(nodes', ptrs') == DataAt(nodes, ptrs) + [data]
  {
    hide PageAt;
    PageAtIs(ptrs, 0);
    PageAtIs(ptrs', 0);
    forall k | 0 <= k < |ptrs'|
      ensures ptrs'[k] in nodes' && nodes'[ptrs'[k]].next == PageAt(ptrs', k + 1)
      ensures nodes'[ptrs'[k]].data == if k < |ptrs| then nodes[ptrs[k]].data else data
    {
      PageAtIs(ptrs', k + 1);
      if k < |ptrs| {
        assert ptrs[k] in nodes && nodes[ptrs[k]].next == PageAt(ptrs, k + 1);
        PageAtIs(ptrs, k + 1);
      }
    }
  }

  lemma PushBackShape<T>(nodes: map<nat, Entry<T>>, head: Link, tail: Link, ptrs: seq<nat>, p: nat, data: T,
                         nodes': map<nat, Entry<T>>, ptrs': seq<nat>)
    requires Shape(nodes, head, tail, ptrs) && ptrs != []
    requires Appended(nodes, tail, ptrs, p, data, nodes', ptrs')
    ensures Shape(nodes', head, p, ptrs')
    ensures DataAt(nodes', ptrs') == DataAt(nodes, ptrs) + [data]
  {
    hide PageAt, NoRepeats, Chained, DataAt;
    PushBackChain(nodes, head, tail, ptrs, p, data, nodes', ptrs');
    ChainedIn(nodes, head, ptrs);
    MembersOfBack(ptrs, p);
  }

  lemma MembersOfBack(ptrs: seq<nat>, p: nat)
    ensures p in ptrs + [p]
    ensures forall q :: q in ptrs ==> q in ptrs + [p]
    ensures NoRepeats(ptrs) && p !in ptrs ==> NoRepeats(ptrs + [p])
  {
    assert (ptrs + [p])[|ptrs|] == p;
  }

  lemma TailIsNode<T>(nodes: map<nat, Entry<T>>, head: Link, tail: Link, ptrs: seq<nat>)
    requires Shape(nodes, head, tail, ptrs) && ptrs != []
    ensures tail >= 0 && tail in nodes
  {
    hide PageAt;
  }

  lemma InsertAtEnd<A>(s: seq<A>, x: A)
    ensures s[..|s|] + [x] + s[|s|..] == s + [x]
  {
  }

  lemma OnePlaceEach<T>(nodes: map<nat, Entry<T>>, head: Link, tail: Link, ptrs: seq<nat>)
    requires Shape(nodes, head, tail, ptrs)
    ensures forall i, j :: 0 <= i < j < |ptrs| ==> ptrs[i] != ptrs[j]
  {
  }

  /** Linking a node between the predecessor of position k and the successor of position k puts
      it in the place of the node at k. */
  lemma ReplaceChain<T>(nodes: map<nat, Entry<T>>, head: Link, ptrs: seq<nat>, k: nat, p: nat, data: T,
                        nodes': map<nat, Entry<T>>)
    requires NoRepeats(ptrs) && Chained(nodes, head, ptrs) && 0 < k < |ptrs| && p !in nodes
    requires nodes' == nodes[p := Entry(nodes[ptrs[k]].next, data)][ptrs[k - 1] := nodes[ptrs[k - 1]].(next := p)]
    ensures Chained(nodes', head, ptrs[k := p])
    ensures DataAt(nodes', ptrs[k := p]) == DataAt(nodes, ptrs)[k := data]
  {
    hide PageAt;
    var ptrs' := ptrs[k := p];
    PageAtIs(ptrs, 0);
    PageAtIs(ptrs', 0);
    PageAtIs(ptrs, k + 1);
    PageAtIs(ptrs', k + 1);
    PageAtIs(ptrs', k);
    forall j | 0 <= j < |ptrs'|
      ensures ptrs'[j] in nodes' && nodes'[ptrs'[j]].next == PageAt(ptrs', j + 1)
      ensures nodes'[ptrs'[j]].data == if j == k then data else nodes[ptrs[j]].data
    {
      PageAtIs(ptrs, j + 1);
      PageAtIs(ptrs', j + 1);
      assert ptrs[j] in nodes && nodes[ptrs[j]].next == PageAt(ptrs, j + 1);
    }
  }

  function Cut<A>(s: seq<A>, i: nat, j: nat): (r: seq<A>)
    requires i <= j <= |s|
    ensures |r| == |s| - (j - i)
    ensures forall k :: 0 <= k < |r| ==> r[k] == if k < i then s[k] else s[k + (j - i)]
  {
    s[..i] + s[j..]
  }

  lemma CutAt<A>(s: seq<A>, i: nat, j: nat, k: nat)
    requires i <= j <= |s| && k < |s| - (j - i)
    ensures Cut(s, i, j)[k] == s[if k < i then k else k + (j - i)]
  {
  }

  lemma CutNothing<A>(s: seq<A>, i: nat)
    requires i <= |s|
    ensures Cut(s, i, i) == s
  {
  }

  /** The nodes once positions i to j are freed and the gap is bridged. */
  function Bridged<T>(nodes: map<nat, Entry<T>>, ptrs: seq<nat>, i: nat, j: nat): (kept: map<nat, Entry<T>>)
    requires i <= j <= |ptrs| && NoRepeats(ptrs)
    requires forall k :: 0 <= k < |ptrs| ==> ptrs[k] in nodes
  {
    var kept := nodes - (set k | i <= k < j :: ptrs[k]);
    if i == 0 then kept else kept[ptrs[i - 1] := kept[ptrs[i - 1]].(next := PageAt(ptrs, j))]
  }

  lemma BridgedAt<T>(nodes: map<nat, Entry<T>>, ptrs: seq<nat>, i: nat, j: nat, k: nat)
    requires i <= j <= |ptrs| && NoRepeats(ptrs) && k < |ptrs| && (k < i || k >= j)
    requires forall k :: 0 <= k < |ptrs| ==> ptrs[k] in nodes
    ensures ptrs[k] in Bridged(nodes, ptrs, i, j)
    ensures Bridged(nodes, ptrs, i, j)[ptrs[k]]
            == if k + 1 == i then nodes[ptrs[k]].(next := PageAt(ptrs, j)) else nodes[ptrs[k]]
  {
    hide PageAt;
  }

  lemma BridgedOnly<T>(nodes: map<nat, Entry<T>>, ptrs: seq<nat>, i: nat, j: nat)
    requires i <= j <= |ptrs| && NoRepeats(ptrs)
    requires forall k :: 0 <= k < |ptrs| ==> ptrs[k] in nodes
    ensures forall q :: q in Bridged(nodes, ptrs, i, j) ==> q in nodes
    ensures forall k :: i <= k < j ==> ptrs[k] !in Bridged(nodes, ptrs, i, j)
  {
    hide PageAt;
  }

  lemma EraseShape<T>(nodes: map<nat, Entry<T>>, head: Link, tail: Link, ptrs: seq<nat>, i: nat, j: nat)
    requires Shape(nodes, head, tail, ptrs) && i <= j <= |ptrs|
    ensures var nodes' := Bridged(nodes, ptrs, i, j); var ptrs' := Cut(ptrs, i, j);
            && Shape(nodes',
                     if i == 0 then PageAt(ptrs, j) else head,
                     if j < |ptrs| then tail else if i == 0 then NULL else ptrs[i - 1],
                     ptrs')
            && DataAt(nodes', ptrs') == Cut(DataAt(nodes, ptrs), i, j)
  {
    hide PageAt, Bridged, Cut, Chained;
    ChainedIn(nodes, head, ptrs);
    var nodes' := Bridged(nodes, ptrs, i, j);
    PageAtIs(ptrs, j);
    BridgedOnly(nodes, ptrs, i, j);
    CutKeepsTheRest(nodes, nodes', ptrs, i, j);
    CutChain(nodes, head, ptrs, i, j);
    assert Last(Cut(ptrs, i, j)) == if j < |ptrs| then tail else if i == 0 then NULL else ptrs[i - 1] by {
      if |Cut(ptrs, i, j)| > 0 { CutAt(ptrs, i, j, |Cut(ptrs, i, j)| - 1); }
    }
  }

  lemma ChainedIn<T>(nodes: map<nat, Entry<T>>, head: Link, ptrs: seq<nat>)
    requires Chained(nodes, head, ptrs)
    ensures forall k :: 0 <= k < |ptrs| ==> ptrs[k] in nodes
  {
    hide PageAt;
  }

  lemma CutChain<T>(nodes: map<nat, Entry<T>>, head: Link, ptrs: seq<nat>, i: nat, j: nat)
    requires NoRepeats(ptrs) && Chained(nodes, head, ptrs) && i <= j <= |ptrs|
    ensures forall k :: 0 <= k < |ptrs| ==> ptrs[k] in nodes
    ensures var nodes' := Bridged(nodes, ptrs, i, j); var ptrs' := Cut(ptrs, i, j);
            && Chained(nodes', if i == 0 then PageAt(ptrs, j) else head, ptrs')
            && (forall k :: 0 <= k < |ptrs'| ==> ptrs'[k] in nodes)
            && DataAt(nodes', ptrs') == Cut(DataAt(nodes, ptrs), i, j)
  {
    hide PageAt, Bridged, Cut, DataAt;
    var nodes', ptrs' := Bridged(nodes, ptrs, i, j), Cut(ptrs, i, j);
    PageAtIs(ptrs, 0);
    PageAtIs(ptrs, j);
    PageAtIs(ptrs', 0);
    if |ptrs'| > 0 { CutAt(ptrs, i, j, 0); }
    forall k | 0 <= k < |ptrs'|
      ensures ptrs'[k] in nodes && ptrs'[k] in nodes' && nodes'[ptrs'[k]].next == PageAt(ptrs', k + 1)
      ensures nodes'[ptrs'[k]].data == DataAt(nodes, ptrs)[if k < i then k else k + (j - i)]
    {
      var at := if k < i then k else k + (j - i);
      CutAt(ptrs, i, j, k);
      BridgedAt(nodes, ptrs, i, j, at);
      PageAtIs(ptrs, at + 1);
      PageAtIs(ptrs', k + 1);
      if k + 1 < |ptrs'| { CutAt(ptrs, i, j, k + 1); }
    }
    forall k | 0 <= k < |ptrs'|
      ensures DataAt(nodes', ptrs')[k] == Cut(DataAt(nodes, ptrs), i, j)[k]
    {
      CutAt(DataAt(nodes, ptrs), i, j, k);
    }
  }

  lemma CutKeepsTheRest<T>(nodes: map<nat, Entry<T>>, nodes': map<nat, Entry<T>>, ptrs: seq<nat>, i: nat, j: nat)
    requires NoRepeats(ptrs) && i <= j <= |ptrs|
    requires forall q :: q in nodes' ==> q in nodes
    requires forall q :: q in nodes ==> q in ptrs
    requires forall k :: i <= k < j ==> ptrs[k] !in nodes'
    ensures NoRepeats(Cut(ptrs, i, j))
    ensures forall q :: q in nodes' ==> q in Cut(ptrs, i, j)
  {
    forall q | q in nodes' ensures q in Cut(ptrs, i, j) {
      assert q in ptrs;
      var k: nat :| k < |ptrs| && ptrs[k] == q;
      assert Cut(ptrs, i, j)[if k < i then k else k - (j - i)] == q;
    }
  }

  class Slist<T> {
    /** The nodes this list owns in shared memory; freeing one removes it. */
    var nodes: map<nat, Entry<T>>
    var head: Link
    var tail: Link
    var length: nat
    ghost var ptrs: seq<nat>

    ghost predicate Valid()
      reads this
    {
      Shape(nodes, head, tail, ptrs) && length == |ptrs|
    }

    ghost function Contents(): (s: seq<T>)
      requires Valid()
      reads this
      ensures |s| == |ptrs|
    {
      DataAt(nodes, ptrs)
    }

    constructor ()
      ensures Valid() && Contents() == [] && nodes == map[]
    {
      nodes, head, tail, length, ptrs := map[], NULL, NULL, 0, [];
    }

    function Begin(): Link
      reads this
    {
      if length == 0 then NULL else head
    }

    lemma OnlyThese(p: nat)
      requires Valid() && p !in ptrs
      ensures p !in nodes
    {
    }

    lemma PastTheEnd()
      ensures PageAt(ptrs, |ptrs|) == NULL
    {
    }

    lemma BeginIsFirst()
      requires Valid()
      ensures Begin() == PageAt(ptrs, 0)
    {
    }

    /** Construct an element before position k; `p` is the offset the allocator gave its node.
        At the front and at the back this is insertion. In between the source links the new
        node past the element at k: that element drops out of the list, its node is not freed,
        and the length counts it still. */
    method Emplace(pos: Link, p: nat, data: T, ghost k: nat)
      requires Valid() && p !in nodes && k <= |ptrs| && pos == PageAt(ptrs, k)
      modifies this
      ensures Valid() <==> k == 0 || k == |old(ptrs)|
      ensures Valid() ==> ptrs == old(ptrs)[..k] + [p] + old(ptrs)[k..]
      ensures Valid() ==> Contents() == old(Contents())[..k] + [data] + old(Contents())[k..]
      ensures !Valid() ==> ListIs(old(ptrs)[k := p], old(Contents())[k := data])
      ensures !Valid() ==> old(ptrs)[k] in nodes && length == |old(ptrs)| + 1 && tail == old(tail)
    {
      hide Shape, DataAt, PageAt;
      PageAtIs(ptrs, k);
      BeginIsFirst();
      PageAtIs(ptrs, 0);
      OnePlaceEach(nodes, head, tail, ptrs);
      if length == 0 {
        EmplaceFirst(p, data);
      } else if pos == head {
        EmplaceBeforeHead(p, data);
      } else if pos == NULL {
        EmplaceAfterTail(p, data);
        InsertAtEnd(old(ptrs), p);
        InsertAtEnd(old(Contents()), data);
      } else {
        EmplaceBetween(pos, p, data, k);
      }
    }

    /** The links lead through these nodes and give these elements. */
    ghost predicate ListIs(at: seq<nat>, s: seq<T>)
      reads this
    {
      Chained(nodes, head, at) && DataAt(nodes, at) == s
    }

    method EmplaceFirst(p: nat, data: T)
      requires Valid() && ptrs == []
      modifies this
      ensures Valid() && ptrs == [p] && Contents() == [data]
    {
      FrontIsHead(nodes, head, tail, ptrs);
      hide Shape, DataAt;
      SingletonShape(nodes, p, data);
      nodes := nodes[p := Entry(NULL, data)];
      head, tail := p, p;
      ptrs, length := [p], 1;
    }

    method EmplaceBeforeHead(p: nat, data: T)
      requires Valid() && p !in nodes && ptrs != []
      modifies this
      ensures Valid() && ptrs == [p] + old(ptrs) && Contents() == [data] + old(Contents())
    {
      hide Shape, DataAt, PageAt;
      PushFrontShape(nodes, head, tail, ptrs, p, data, nodes[p := Entry(head, data)], [p] + ptrs);
      nodes := nodes[p := Entry(head, data)];
      head := p;
      ptrs, length := [p] + ptrs, length + 1;
    }

    method EmplaceAfterTail(p: nat, data: T)
      requires Valid() && p !in nodes && ptrs != []
      modifies this
      ensures Valid() && ptrs == old(ptrs) + [p] && Contents() == old(Contents()) + [data]
    {
      hide Shape, DataAt, PageAt;
      TailIsNode(nodes, head, tail, ptrs);
      var linked := nodes[p := Entry(NULL, data)][tail := nodes[tail].(next := p)];
      PushBackShape(nodes, head, tail, ptrs, p, data, linked, ptrs + [p]);
      nodes, tail := linked, p;
      ptrs, length := ptrs + [p], length + 1;
    }

    /** The branch of emplace that replaces instead of inserting. */
    method EmplaceBetween(pos: Link, p: nat, data: T, ghost k: nat)
      requires Valid() && p !in nodes && 0 < k < |ptrs| && pos == PageAt(ptrs, k)
      modifies this`nodes, this`length
      ensures ListIs(ptrs[k := p], old(Contents())[k := data])
      ensures ptrs[k] in nodes && length == |ptrs| + 1
    {
      hide DataAt, PageAt;
      PageAtIs(ptrs, k);
      var prior := FindPrior(pos, k);
      var linked := nodes[p := Entry(nodes[pos].next, data)];
      assert ptrs[k - 1] in nodes && ptrs[k - 1] != p;
      linked := linked[prior := linked[prior].(next := p)];
      ReplaceChain(nodes, head, ptrs, k, p, data, linked);
      nodes := linked;
      length := length + 1;
    }

    method EmplaceBack(p: nat, data: T)
      requires Valid() && p !in nodes
      modifies this
      ensures Valid() && ptrs == old(ptrs) + [p] && Contents() == old(Contents()) + [data]
    {
      hide Shape, DataAt, PageAt;
      PastTheEnd();
      Emplace(NULL, p, data, |ptrs|);
      InsertAtEnd(old(ptrs), p);
      InsertAtEnd(old(Contents()), data);
    }

    method EmplaceFront(p: nat, data: T)
      requires Valid() && p !in nodes
      modifies this
      ensures Valid() && ptrs == [p] + old(ptrs) && Contents() == [data] + old(Contents())
    {
      hide Shape, DataAt, PageAt;
      BeginIsFirst();
      var begin := Begin();
      ghost var was := Contents();
      Emplace(begin, p, data, 0);
      assert old(ptrs)[..0] == [] && old(ptrs)[0..] == old(ptrs) && was[..0] == [] && was[0..] == was;
    }

    /** The node before position k; null before the first, the last node before the end. */
    method FindPrior(pos: Link, ghost k: nat) returns (prior: Link)
      requires Valid() && k <= |ptrs| && pos == PageAt(ptrs, k)
      ensures prior == if k == 0 then NULL else ptrs[k - 1]
    {
      hide PageAt;
      PageAtIs(ptrs, 0);
      PageAtIs(ptrs, k);
      if pos == NULL {
        return tail;
      }
      if pos == head {
        assert ptrs[k] == ptrs[0];
        return NULL;
      }
      prior := NULL;
      var iter := head;
      ghost var i := 0;
      while iter != NULL
        invariant i <= k && iter == PageAt(ptrs, i)
        invariant prior == if i == 0 then NULL else ptrs[i - 1]
        decreases |ptrs| - i
      {
        PageAtIs(ptrs, i);
        if iter == pos {
          assert ptrs[i] == ptrs[k];
          return;
        }
        prior, iter := iter, nodes[iter].next;
        i := i + 1;
      }
      PageAtIs(ptrs, i);
    }

    /** Erasing from position i up to position j frees exactly those nodes. */
    method Erase(first: Link, last: Link, ghost i: nat, ghost j: nat)
      requires Valid() && i <= j <= |ptrs| && first == PageAt(ptrs, i) && last == PageAt(ptrs, j)
      modifies this
      ensures Valid()
      ensures ptrs == Cut(old(ptrs), i, j) && Contents() == Cut(old(Contents()), i, j)
      ensures nodes.Keys <= old(nodes.Keys)
    {
      hide PageAt, Shape, DataAt, Cut, NoRepeats, Bridged;
      PageAtIs(ptrs, i);
      PageAtIs(ptrs, j);
      if first == NULL {
        CutNothing(ptrs, i);
        CutNothing(Contents(), i);
        return;
      }
      EraseShape(nodes, head, tail, ptrs, i, j);
      var firstPrior := FindPrior(first, i);
      FreeAndBridge(firstPrior, first, last, i, j);
      if firstPrior == NULL {
        head := last;
      }
      if last == NULL {
        tail := firstPrior;
      }
      ptrs := Cut(ptrs, i, j);
    }

    method FreeAndBridge(firstPrior: Link, first: Link, last: Link, ghost i: nat, ghost j: nat)
      requires Valid() && i <= j <= |ptrs| && first == PageAt(ptrs, i) && last == PageAt(ptrs, j)
      requires firstPrior == if i == 0 then NULL else ptrs[i - 1]
      modifies this`nodes, this`length
      ensures length == |ptrs| - (j - i)
      ensures nodes == Bridged(old(nodes), ptrs, i, j) && nodes.Keys <= old(nodes.Keys)
    {
      hide PageAt;
      assert i > 0 ==> ptrs[i - 1] in nodes && forall k :: i <= k < j ==> ptrs[k] != ptrs[i - 1];
      FreeFrom(first, last, i, j);
      if firstPrior != NULL {
        nodes := nodes[firstPrior := nodes[firstPrior].(next := last)];
      }
    }

    /** The iterator's `++`. */
    method Next(iter: Link, ghost k: nat) returns (next: Link)
      requires Valid() && k < |ptrs| && iter == PageAt(ptrs, k)
      ensures next == PageAt(ptrs, k + 1)
    {
      next := nodes[iter].next;
    }

    /** The iterator's `*`. */
    method Get(iter: Link, ghost k: nat) returns (data: T)
      requires Valid() && k < |ptrs| && iter == PageAt(ptrs, k)
      ensures data == Contents()[k]
    {
      data := nodes[iter].data;
    }

    /** Erasing one position. */
    method EraseAt(pos: Link, ghost k: nat)
      requires Valid() && k < |ptrs| && pos == PageAt(ptrs, k)
      modifies this
      ensures Valid()
      ensures ptrs == Cut(old(ptrs), k, k + 1) && Contents() == Cut(old(Contents()), k, k + 1)
      ensures nodes.Keys <= old(nodes.Keys)
    {
      var next := Next(pos, k);
      Erase(pos, next, k, k + 1);
    }

    method Clear()
      requires Valid()
      modifies this
      ensures Valid() && Contents() == [] && nodes == map[]
    {
      var begin := Begin();
      Erase(begin, NULL, 0, |ptrs|);
    }

    /** The loop of Erase: each successor is read before its node is freed. */
    method FreeFrom(first: Link, last: Link, ghost i: nat, ghost j: nat)
      requires Valid() && i <= j <= |ptrs| && first == PageAt(ptrs, i) && last == PageAt(ptrs, j)
      modifies this`nodes, this`length
      ensures length == |ptrs| - (j - i)
      ensures nodes == old(nodes) - (set k | i <= k < j :: ptrs[k])
    {
      hide PageAt;
      PageAtIs(ptrs, i);
      PageAtIs(ptrs, j);
      var pos := first;
      ghost var at := i;
      while pos != last
        invariant i <= at <= j && pos == PageAt(ptrs, at) && length == |ptrs| - (at - i)
        invariant nodes == old(nodes) - (set k | i <= k < at :: ptrs[k])
        decreases j - at
      {
        PageAtIs(ptrs, at);
        var next := nodes[pos].next;
        nodes := nodes - {pos};
        length := length - 1;
        pos := next;
        at := at + 1;
      }
      PageAtIs(ptrs, at);
    }
  }

  /** Emplacing 15 between 10 and 20 leaves 10, 15 and a length of three. */
  method InsertionBetweenLosesOne() returns (list: Slist<int>)
    ensures list.ListIs([0, 2], [10, 15]) && list.length == 3
  {
    hide Shape, DataAt, Chained, PageAt;
    list := new Slist<int>();
    PageAtIs([0, 1], 1);
    list.EmplaceBack(0, 10);
    list.OnlyThese(1);
    list.EmplaceBack(1, 20);
    assert list.ptrs == [0, 1] && list.Contents() == [10, 20];
    list.OnlyThese(2);
    list.Emplace(1, 2, 15, 1);
    assert [0, 1][1 := 2] == [0, 2] && [10, 20][1 := 15] == [10, 15];
  }
}
