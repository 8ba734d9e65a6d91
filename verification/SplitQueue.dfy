/** split_ticket_queue over ticket_queues over fixed rings, used by one thread at a time. */
module SplitQueue {
  import opened Wrappers
  import opened FixedRing
  import Arithmetic

  /** ticket_queue: a ring behind a ticket lock. Between calls the lock is free. */
  class TicketQueue<T> {
    const queue: Ring<T>
    var lockTicket: nat
    var lockHead: nat

    ghost predicate Valid()
      reads this, queue, queue.slots
    {
      lockTicket == lockHead && queue.Valid()
    }

    ghost function Contents(): seq<T>
      requires Valid()
      reads this, queue, queue.slots
    {
      queue.Contents()
    }

    constructor (depth: nat)
      ensures Valid() && Contents() == [] && queue.slots.Length == depth
      ensures fresh(queue) && fresh(queue.slots)
    {
      queue := new Ring<T>(depth);
      lockTicket, lockHead := 0, 0;
    }

    method Emplace(v: T) returns (token: Option<nat>)
      requires Valid()
      modifies this, queue, queue.slots
      ensures Valid() && queue.slots == old(queue.slots)
      ensures token.Some? <==> |old(Contents())| < queue.slots.Length
      ensures Contents() == old(Contents()) + if token.Some? then [v] else []
    {
      lockTicket := lockTicket + 1;
      token := queue.Emplace(v);
      lockHead := lockHead + 1;
    }

    method Pop() returns (v: Option<T>)
      requires Valid()
      modifies this, queue, queue.slots
      ensures Valid() && queue.slots == old(queue.slots)
      ensures v.None? <==> old(Contents()) == []
      ensures old(Contents()) == (if v.Some? then [v.value] else []) + Contents()
    {
      lockTicket := lockTicket + 1;
      v := queue.Pop();
      lockHead := lockHead + 1;
    }
  }

  /** All elements, whichever split holds them. */
  function Gather<T>(contents: seq<seq<T>>): multiset<T> {
    if contents == [] then multiset{} else multiset(contents[0]) + Gather(contents[1..])
  }

  lemma {:induction false} GatherUpdate<T>(contents: seq<seq<T>>, k: nat, s: seq<T>)
    requires k < |contents|
    ensures Gather(contents[k := s]) + multiset(contents[k]) == Gather(contents) + multiset(s)
  {
    var after := contents[k := s];
    assert Gather(after) == multiset(after[0]) + Gather(after[1..]);
    if k == 0 {
      assert after[1..] == contents[1..];
    } else {
      GatherUpdate(contents[1..], k - 1, s);
      assert after[1..] == contents[1..][k - 1 := s];
      var first := multiset(contents[0]);
      assert first + Gather(after[1..]) + multiset(contents[k]) == first + (Gather(after[1..]) + multiset(contents[k]));
      assert first + Gather(contents[1..]) + multiset(s) == first + (Gather(contents[1..]) + multiset(s));
    }
  }

  lemma CancelMultiset<T>(a: multiset<T>, b: multiset<T>, c: multiset<T>)
    requires a + c == b + c
    ensures a == b
  {
    forall x ensures a[x] == b[x] {
      assert (a + c)[x] == (b + c)[x];
    }
  }

  /** Changing one split by one element changes the whole by that element. */
  lemma GatherPush<T>(contents: seq<seq<T>>, k: nat, v: T)
    requires k < |contents|
    ensures Gather(contents[k := contents[k] + [v]]) == Gather(contents) + multiset{v}
  {
    hide Gather;
    GatherUpdate(contents, k, contents[k] + [v]);
    var c := multiset(contents[k]);
    assert multiset(contents[k] + [v]) == multiset{v} + c;
    assert Gather(contents) + multiset{v} + c == Gather(contents) + (multiset{v} + c);
    CancelMultiset(Gather(contents[k := contents[k] + [v]]), Gather(contents) + multiset{v}, c);
  }

  /** The split visited at try i of a round that starts at `start`. */
  function Visit(n: nat, start: nat, i: nat): (k: nat)
    requires start < n && i < n
    ensures k < n
  {
    if start + i < n then start + i else start + i - n
  }

  /** The program computes it with a remainder. */
  lemma VisitIsRemainder(n: nat, start: nat, i: nat)
    requires start < n && i < n
    ensures (start + i) % n == Visit(n, start, i)
  {
    if start + i >= n {
      Arithmetic.RemainderOnce(n, start + i - n);
    }
  }

  /** A full round visits every split. */
  lemma RoundVisitsAll(n: nat, start: nat, k: nat) returns (i: nat)
    requires start < n && k < n
    ensures i < n && Visit(n, start, i) == k
  {
    i := if start <= k then k - start else k + n - start;
  }

  /** Where the 16-bit round-robin counter says to start. */
  function Start(counter: nat, n: nat): (k: nat)
    requires n > 0
    ensures k < n
  {
    counter % 65536 % n
  }

  /** Consecutive calls start at consecutive splits, round and round, but for the moment when the
      16-bit counter returns to zero. */
  lemma StartsGoRound(counter: nat, n: nat)
    requires n > 0
    ensures Start(0, n) == 0
    ensures Start(counter + 1, n) == if (counter + 1) % 65536 == 0 || Start(counter, n) + 1 == n then 0
                                     else Start(counter, n) + 1
  {
    var c := counter % 65536;
    assert (counter + 1) % 65536 == if c + 1 == 65536 then 0 else c + 1;
    NextRemainder(c, n);
  }

  lemma NextRemainder(c: nat, n: nat)
    requires n > 0
    ensures (c + 1) % n == if c % n + 1 == n then 0 else c % n + 1
  {
    hide Arithmetic.Product, Arithmetic.Quotient;
    var q := c / n;
    Arithmetic.DivMod(c, n);
    Arithmetic.DivMod(c + 1, n);
    Arithmetic.Distribute(q, 1, n);
    Arithmetic.DivIs(c + 1, n, if c % n + 1 == n then q + 1 else q);
  }

  /** Try i is the first, from `start`, to meet a split that is not blocked. */
  predicate FirstOpen(blocked: seq<bool>, start: nat, i: int) {
    && 0 <= i < |blocked| && start < |blocked|
    && !blocked[Visit(|blocked|, start, i)]
    && forall j :: 0 <= j < i ==> blocked[Visit(|blocked|, start, j)]
  }

  function Emptiness<T>(contents: seq<seq<T>>): seq<bool> {
    seq(|contents|, k requires 0 <= k < |contents| => |contents[k]| == 0)
  }

  predicate Takes<T(==)>(was: seq<seq<T>>, now: seq<seq<T>>, k: nat, v: T) {
    k < |was| && now == was[k := was[k] + [v]]
  }

  predicate Gives<T(==)>(was: seq<seq<T>>, now: seq<seq<T>>, k: nat, v: T) {
    k < |was| && was[k] != [] && was[k][0] == v && now == was[k := was[k][1..]]
  }

  /** A push: the first split with room, counting from the round-robin position, takes the
      element; it fails exactly when every split is full. */
  ghost predicate Pushed<T>(was: seq<seq<T>>, full: seq<bool>, start: nat, v: T, ok: bool, now: seq<seq<T>>) {
    && |was| == |full|
    && (!ok <==> forall k :: 0 <= k < |full| ==> full[k])
    && Gather(now) == Gather(was) + (if ok then multiset{v} else multiset{})
    && (!ok ==> now == was)
    && (ok ==> exists i :: FirstOpen(full, start, i) && Takes(was, now, Visit(|full|, start, i), v))
  }

  /** A pop: the first split with an element, counting from the round-robin position, gives
      its oldest; it fails exactly when every split is empty. */
  ghost predicate Popped<T>(was: seq<seq<T>>, start: nat, v: Option<T>, now: seq<seq<T>>) {
    && (v.None? <==> forall k :: 0 <= k < |was| ==> was[k] == [])
    && Gather(was) == Gather(now) + (if v.Some? then multiset{v.value} else multiset{})
    && (v.None? ==> now == was)
    && (v.Some? ==> exists i :: FirstOpen(Emptiness(was), start, i) && Gives(was, now, Visit(|was|, start, i), v.value))
  }

  lemma PushSucceeds<T>(was: seq<seq<T>>, full: seq<bool>, start: nat, i: nat, v: T)
    requires |was| == |full| && FirstOpen(full, start, i)
    ensures var k := Visit(|full|, start, i); Pushed(was, full, start, v, true, was[k := was[k] + [v]])
  {
    var k := Visit(|full|, start, i);
    GatherPush(was, k, v);
    assert Takes(was, was[k := was[k] + [v]], k, v);
  }

  lemma PushFails<T>(was: seq<seq<T>>, full: seq<bool>, start: nat, v: T)
    requires |was| == |full| && start < |full|
    requires forall j :: 0 <= j < |full| ==> full[Visit(|full|, start, j)]
    ensures Pushed(was, full, start, v, false, was)
  {
    forall k | 0 <= k < |full| ensures full[k] {
      var j := RoundVisitsAll(|full|, start, k);
    }
  }

  lemma PopSucceeds<T>(was: seq<seq<T>>, start: nat, i: nat)
    requires FirstOpen(Emptiness(was), start, i)
    ensures var k := Visit(|was|, start, i); |was[k]| > 0 && Popped(was, start, Some(was[k][0]), was[k := was[k][1..]])
  {
    hide Gather, Visit;
    var k := Visit(|was|, start, i);
    var now := was[k := was[k][1..]];
    // Putting the element back at the end of its split gathers the same elements.
    var v, rest := was[k][0], was[k][1..];
    GatherPush(now, k, v);
    assert was[k] == [v] + rest;
    assert multiset(rest + [v]) == multiset(was[k]);
    GatherUpdate(was, k, rest + [v]);
    CancelMultiset(Gather(was[k := rest + [v]]), Gather(was), multiset(was[k]));
    assert now[k := now[k] + [v]] == was[k := rest + [v]];
    assert Gives(was, now, k, was[k][0]);
  }

  lemma PopFails<T>(was: seq<seq<T>>, start: nat)
    requires start < |was|
    requires forall j :: 0 <= j < |was| ==> was[Visit(|was|, start, j)] == []
    ensures Popped(was, start, None, was)
  {
    forall k | 0 <= k < |was| ensures was[k] == [] {
      var j := RoundVisitsAll(|was|, start, k);
    }
  }

  class SplitTicketQueue<T(==)> {
    const splits: seq<TicketQueue<T>>
    var rrTail: nat
    var rrHead: nat

    ghost function Repr(): set<object>
      reads set q | q in splits :: q.queue
    {
      (set q | q in splits :: q as object) + (set q | q in splits :: q.queue) + (set q | q in splits :: q.queue.slots)
    }

    ghost predicate Apart()
      reads set q | q in splits :: q.queue
    {
      forall i, j :: 0 <= i < j < |splits| ==>
        splits[i] != splits[j] && splits[i].queue != splits[j].queue && splits[i].queue.slots != splits[j].queue.slots
    }

    ghost predicate Valid()
      reads this, Repr()
    {
      && |splits| > 0 && this !in Repr()
      && Apart()
      && forall q :: q in splits ==> q.Valid()
    }

    ghost function SplitContents(i: nat): seq<T>
      requires Valid() && i < |splits|
      reads this, Repr()
    {
      var split := splits[i];
      assert split in splits;
      split.Contents()
    }

    ghost function Contents(): (c: seq<seq<T>>)
      requires Valid()
      reads this, Repr()
      ensures |c| == |splits| > 0
    {
      seq(|splits|, i requires 0 <= i < |splits| reads this, Repr() requires Valid() => SplitContents(i))
    }

    /** Which splits have no room. */
    ghost function Fullness(): (f: seq<bool>)
      requires Valid()
      reads this, Repr()
      ensures |f| == |splits|
    {
      seq(|splits|, i requires 0 <= i < |splits| reads this, Repr() requires Valid() =>
        |Contents()[i]| >= splits[i].queue.slots.Length)
    }

    constructor (split: nat, depth: nat)
      requires split > 0
      ensures Valid() && fresh(Repr()) && |splits| == split
      ensures forall k :: 0 <= k < split ==> Contents()[k] == [] && splits[k].queue.slots.Length == depth
    {
      var made: seq<TicketQueue<T>> := [];
      while |made| < split
        invariant |made| <= split
        invariant forall q :: q in made ==> fresh(q) && fresh(q.queue) && fresh(q.queue.slots)
        invariant forall q :: q in made ==> q.Valid() && q.Contents() == [] && q.queue.slots.Length == depth
        invariant forall i, j :: 0 <= i < j < |made| ==>
          made[i] != made[j] && made[i].queue != made[j].queue && made[i].queue.slots != made[j].queue.slots
      {
        var queue := new TicketQueue<T>(depth);
        made := made + [queue];
      }
      splits, rrTail, rrHead := made, 0, 0;
    }

    /** One try of a push. */
    method TryEmplace(k: nat, v: T) returns (token: Option<nat>)
      requires Valid() && k < |splits|
      modifies Repr()
      ensures Valid() && Repr() == old(Repr())
      ensures token.None? <==> old(Fullness())[k]
      ensures Contents() == if token.Some? then old(Contents())[k := old(Contents())[k] + [v]] else old(Contents())
      ensures token.None? ==> Fullness() == old(Fullness())
    {
      ghost var was := Contents();
      var split := splits[k];
      assert split in splits;
      token := split.Emplace(v);
      forall j | 0 <= j < |splits| && j != k
        ensures splits[j].Valid() && splits[j].Contents() == was[j]
        ensures splits[j].queue.slots == old(splits[j].queue.slots)
      {
        assert splits[j] in splits;
      }
      if token.Some? {
        assert Contents() == was[k := was[k] + [v]];
      } else {
        assert Contents()[k] == was[k];
        assert Contents() == was;
      }
    }

    /** One try of a pop. */
    method TryPop(k: nat) returns (v: Option<T>)
      requires Valid() && k < |splits|
      modifies Repr()
      ensures Valid() && Repr() == old(Repr())
      ensures v.None? <==> old(Contents())[k] == []
      ensures v.Some? ==> old(Contents())[k] != [] && v.value == old(Contents())[k][0]
      ensures Contents() == if v.Some? then old(Contents())[k := old(Contents())[k][1..]] else old(Contents())
    {
      ghost var was := Contents();
      var split := splits[k];
      assert split in splits;
      v := split.Pop();
      forall j | 0 <= j < |splits| && j != k
        ensures splits[j].Valid() && splits[j].Contents() == was[j]
        ensures splits[j].queue.slots == old(splits[j].queue.slots)
      {
        assert splits[j] in splits;
      }
      if v.Some? {
        assert was[k] == [v.value] + Contents()[k];
        assert Contents() == was[k := was[k][1..]];
      } else {
        assert Contents() == was;
      }
    }

    /** The round of tries of a push. */
    method PushFrom(start: nat, v: T) returns (token: Option<nat>)
      requires Valid() && start < |splits|
      modifies Repr()
      ensures Valid() && Repr() == old(Repr())
      ensures Pushed(old(Contents()), old(Fullness()), start, v, token.Some?, Contents())
    {
      hide Valid, Repr, Contents, Fullness, Visit, Apart, Pushed;
      var n := |splits|;
      ghost var was, full := Contents(), Fullness();
      var i := 0;
      while i < n
        invariant i <= n && Valid() && Repr() == old(Repr()) && Contents() == was && Fullness() == full
        invariant forall j :: 0 <= j < i ==> full[Visit(n, start, j)]
      {
        VisitIsRemainder(n, start, i);
        var k := (start + i) % n;
        token := TryEmplace(k, v);
        if token.Some? {
          PushSucceeds(was, full, start, i, v);
          return;
        }
        i := i + 1;
      }
      PushFails(was, full, start, v);
      return None;
    }

    /** The round of tries of a pop. */
    method PopFrom(start: nat) returns (v: Option<T>)
      requires Valid() && start < |splits|
      modifies Repr()
      ensures Valid() && Repr() == old(Repr())
      ensures Popped(old(Contents()), start, v, Contents())
    {
      hide Valid, Repr, Contents, Visit, Apart, Popped;
      var n := |splits|;
      ghost var was := Contents();
      var i := 0;
      while i < n
        invariant i <= n && Valid() && Repr() == old(Repr()) && Contents() == was
        invariant forall j :: 0 <= j < i ==> was[Visit(n, start, j)] == []
      {
        VisitIsRemainder(n, start, i);
        var k := (start + i) % n;
        v := TryPop(k);
        if v.Some? {
          PopSucceeds(was, start, i);
          return;
        }
        i := i + 1;
      }
      PopFails(was, start);
      return None;
    }

    method Emplace(v: T) returns (token: Option<nat>)
      requires Valid()
      modifies this`rrTail, Repr()
      ensures Valid() && rrTail == old(rrTail) + 1
      ensures Pushed(old(Contents()), old(Fullness()), Start(old(rrTail), |splits|), v, token.Some?, Contents())
    {
      var start := Start(rrTail, |splits|);
      hide Pushed, Start;
      rrTail := rrTail + 1;
      assert Contents() == old(Contents()) && Fullness() == old(Fullness());
      token := PushFrom(start, v);
    }

    method Pop() returns (v: Option<T>)
      requires Valid()
      modifies this`rrHead, Repr()
      ensures Valid() && rrHead == old(rrHead) + 1
      ensures Popped(old(Contents()), Start(old(rrHead), |splits|), v, Contents())
    {
      var start := Start(rrHead, |splits|);
      hide Popped, Start;
      rrHead := rrHead + 1;
      assert Contents() == old(Contents());
      v := PopFrom(start);
    }
  }
}
