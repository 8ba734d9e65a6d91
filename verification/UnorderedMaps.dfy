/** unordered_map: a fixed number of buckets, each a singly linked list of (key, value). */
module UnorderedMaps {
  import opened Wrappers
  import opened LifoLists
  import opened Slists

  function Bucket<K>(hash: K -> nat, key: K, n: nat): (b: nat)
    requires n > 0
    ensures b < n
  {
    hash(key) % n
  }

  /** One entry per key of m, with its value, in the key's own bucket; and nothing else. */
  ghost predicate Represents<K, V>(buckets: seq<seq<(K, V)>>, hash: K -> nat, m: map<K, V>) {
    && |buckets| > 0
    && (forall b, i :: 0 <= b < |buckets| && 0 <= i < |buckets[b]| ==>
          var e := buckets[b][i]; Bucket(hash, e.0, |buckets|) == b && e.0 in m && m[e.0] == e.1)
    && (forall k :: k in m ==> (k, m[k]) in buckets[Bucket(hash, k, |buckets|)])
    && (forall b :: 0 <= b < |buckets| ==> DistinctKeys(buckets[b]))
  }

  ghost predicate DistinctKeys<K, V>(s: seq<(K, V)>) {
    forall i, j :: 0 <= i < j < |s| ==> s[i].0 != s[j].0
  }

  /** The first entry of a bucket with this key, or the bucket's length. */
  function KeyIndex<K(==), V>(s: seq<(K, V)>, key: K): (i: nat)
    ensures i <= |s| && (i < |s| ==> s[i].0 == key)
    ensures forall j :: 0 <= j < i ==> s[j].0 != key
  {
    if s == [] || s[0].0 == key then 0 else 1 + KeyIndex(s[1..], key)
  }

  lemma KeyIndexIs<K, V>(s: seq<(K, V)>, key: K, i: nat)
    requires i <= |s| && (i < |s| ==> s[i].0 == key)
    requires forall j :: 0 <= j < i ==> s[j].0 != key
    ensures KeyIndex(s, key) == i
  {
  }

  /** Searching the key's bucket is looking the key up. */
  lemma SearchIsLookup<K, V>(buckets: seq<seq<(K, V)>>, hash: K -> nat, m: map<K, V>, key: K)
    requires Represents(buckets, hash, m)
    ensures var s := buckets[Bucket(hash, key, |buckets|)]; var i := KeyIndex(s, key);
            && (i < |s| <==> key in m)
            && (i < |s| ==> s[i] == (key, m[key]))
  {
    hide Bucket;
    var b := Bucket(hash, key, |buckets|);
    var s := buckets[b];
    var i := KeyIndex(s, key);
    if key in m {
      assert (key, m[key]) in s;
      var j :| 0 <= j < |s| && s[j] == (key, m[key]);
      assert i <= j;
      assert s[i].0 in m;
    }
  }

  /** Every entry lies in the bucket that its key's hash selects, so two keys whose hashes agree
      modulo the number of buckets share one. */
  lemma EntriesLieByHash<K, V>(buckets: seq<seq<(K, V)>>, hash: K -> nat, m: map<K, V>, b: nat, i: nat)
    requires Represents(buckets, hash, m) && b < |buckets| && i < |buckets[b]|
    ensures hash(buckets[b][i].0) % |buckets| == b
  {
  }

  /** Appending an entry for a new key to its bucket adds it to the map. */
  lemma AppendIsInsert<K, V>(buckets: seq<seq<(K, V)>>, hash: K -> nat, m: map<K, V>, key: K, value: V)
    requires Represents(buckets, hash, m) && key !in m
    ensures var b := Bucket(hash, key, |buckets|);
            Represents(buckets[b := buckets[b] + [(key, value)]], hash, m[key := value])
  {
    hide Bucket;
    var b := Bucket(hash, key, |buckets|);
    var after := buckets[b := buckets[b] + [(key, value)]];
    forall k | k in m[key := value]
      ensures (k, m[key := value][k]) in after[Bucket(hash, k, |after|)]
    {
      if k == key {
        assert after[b][|buckets[b]|] == (key, value);
      } else {
        assert (k, m[k]) in buckets[Bucket(hash, k, |buckets|)];
      }
    }
    forall i | 0 <= i < |buckets[b]| ensures buckets[b][i].0 != key {
      assert buckets[b][i].0 in m;
    }
  }

  /** Erasing an entry from its bucket removes its key from the map. */
  lemma CutIsRemove<K, V>(buckets: seq<seq<(K, V)>>, hash: K -> nat, m: map<K, V>, b: nat, i: nat)
    requires Represents(buckets, hash, m) && b < |buckets| && i < |buckets[b]|
    ensures Represents(buckets[b := Cut(buckets[b], i, i + 1)], hash, m - {buckets[b][i].0})
  {
    hide Bucket, DistinctKeys;
    var key := buckets[b][i].0;
    var m' := m - {key};
    var after := buckets[b := Cut(buckets[b], i, i + 1)];
    forall c, j | 0 <= c < |after| && 0 <= j < |after[c]|
      ensures var e: (K, V) := after[c][j]; Bucket(hash, e.0, |after|) == c && e.0 in m' && m'[e.0] == e.1
    {
      CutEntry(buckets, hash, m, b, i, c, j);
    }
    forall k | k in m'
      ensures (k, m'[k]) in after[Bucket(hash, k, |after|)]
    {
      CutCovers(buckets, hash, m, b, i, k);
    }
    forall c | 0 <= c < |after| ensures DistinctKeys(after[c]) {
      CutIsDistinct(buckets[b], i);
    }
  }

  lemma CutIsDistinct<K, V>(s: seq<(K, V)>, i: nat)
    requires i < |s|
    ensures DistinctKeys(s) ==> DistinctKeys(Cut(s, i, i + 1))
  {
  }

  lemma CutEntry<K, V>(buckets: seq<seq<(K, V)>>, hash: K -> nat, m: map<K, V>, b: nat, i: nat, c: nat, j: nat)
    requires Represents(buckets, hash, m) && b < |buckets| && i < |buckets[b]|
    requires c < |buckets| && j < |buckets[b := Cut(buckets[b], i, i + 1)][c]|
    ensures var e: (K, V) := buckets[b := Cut(buckets[b], i, i + 1)][c][j]; var m' := m - {buckets[b][i].0};
            Bucket(hash, e.0, |buckets|) == c && e.0 in m' && m'[e.0] == e.1
  {
    hide Bucket;
    assert DistinctKeys(buckets[b]);
    var at := if c == b && j >= i then j + 1 else j;
    assert buckets[b := Cut(buckets[b], i, i + 1)][c][j] == buckets[c][at];
    assert Bucket(hash, buckets[b][i].0, |buckets|) == b;
    assert Bucket(hash, buckets[c][at].0, |buckets|) == c;
  }

  lemma CutCovers<K, V>(buckets: seq<seq<(K, V)>>, hash: K -> nat, m: map<K, V>, b: nat, i: nat, k: K)
    requires Represents(buckets, hash, m) && b < |buckets| && i < |buckets[b]|
    requires k in m && k != buckets[b][i].0
    ensures (k, m[k]) in buckets[b := Cut(buckets[b], i, i + 1)][Bucket(hash, k, |buckets|)]
  {
    hide Bucket, DistinctKeys;
    var c := Bucket(hash, k, |buckets|);
    assert (k, m[k]) in buckets[c];
    var j :| 0 <= j < |buckets[c]| && buckets[c][j] == (k, m[k]);
    assert buckets[b := Cut(buckets[b], i, i + 1)][c][if c == b && j > i then j - 1 else j] == (k, m[k]);
  }

  lemma EmptyRepresents<K, V>(buckets: seq<seq<(K, V)>>, hash: K -> nat)
    requires |buckets| > 0 && forall b :: 0 <= b < |buckets| ==> buckets[b] == []
    ensures Represents(buckets, hash, map[])
  {
  }

  lemma KeyOfEntry<K, V>(buckets: seq<seq<(K, V)>>, hash: K -> nat, m: map<K, V>, b: nat, i: nat)
    requires Represents(buckets, hash, m) && b < |buckets| && i < |buckets[b]|
    ensures buckets[b][i].0 in m && m[buckets[b][i].0] == buckets[b][i].1
  {
    hide Bucket;
  }

  // ---------------------------------------------------------------- iteration order

  function Flatten<A>(s: seq<seq<A>>): seq<A> {
    if s == [] then [] else Flatten(s[..|s| - 1]) + s[|s| - 1]
  }

  lemma {:induction false} FlattenMember<A>(s: seq<seq<A>>, x: A)
    ensures x in Flatten(s) <==> exists b :: 0 <= b < |s| && x in s[b]
  {
    if s != [] {
      var last := |s| - 1;
      FlattenMember(s[..last], x);
      if x in s[last] {
      } else if b :| 0 <= b < |s| && x in s[b] {
        assert s[..last][b] == s[b];
      }
    }
  }

  lemma {:induction false} FlattenDistinct<K, V>(s: seq<seq<(K, V)>>, hash: K -> nat, n: nat)
    requires |s| <= n && n > 0
    requires forall b :: 0 <= b < |s| ==> DistinctKeys(s[b])
    requires forall b, i :: 0 <= b < |s| && 0 <= i < |s[b]| ==> Bucket(hash, s[b][i].0, n) == b
    ensures DistinctKeys(Flatten(s))
    ensures forall j :: 0 <= j < |Flatten(s)| ==> Bucket(hash, Flatten(s)[j].0, n) < |s|
  {
    hide Bucket;
    if s != [] {
      var last := |s| - 1;
      var front := s[..last];
      forall b | 0 <= b < |front| ensures front[b] == s[b] {}
      FlattenDistinct(front, hash, n);
    }
  }

  lemma {:induction false} DistinctCount<K, V>(s: seq<(K, V)>, m: map<K, V>)
    requires DistinctKeys(s)
    requires forall e :: e in s ==> e.0 in m && m[e.0] == e.1
    requires forall k :: k in m ==> (k, m[k]) in s
    ensures |s| == |m|
  {
    if s == [] {
      assert m.Keys == {};
    } else {
      var last := |s| - 1;
      var e, rest := s[last], s[..last];
      assert e in s;
      var m' := m - {e.0};
      forall k | k in m' ensures (k, m'[k]) in rest {
        assert (k, m[k]) in s;
      }
      forall x | x in rest ensures x.0 in m' && m'[x.0] == x.1 {
        assert x in s;
      }
      DistinctCount(rest, m');
      assert m.Keys == m'.Keys + {e.0};
    }
  }

  /** Going through the buckets in order, and through each in order, meets every key of the map
      once, with its value, and as many entries as there are keys. */
  lemma OrderVisitsEachKeyOnce<K, V>(buckets: seq<seq<(K, V)>>, hash: K -> nat, m: map<K, V>)
    requires Represents(buckets, hash, m)
    ensures var s := Flatten(buckets);
            && DistinctKeys(s) && |s| == |m|
            && (forall e :: e in s <==> e.0 in m && m[e.0] == e.1)
  {
    hide Bucket, Flatten, DistinctKeys;
    FlattenDistinct(buckets, hash, |buckets|);
    var s := Flatten(buckets);
    forall e | e in s ensures e.0 in m && m[e.0] == e.1 {
      FlattenMember(buckets, e);
      var b :| 0 <= b < |buckets| && e in buckets[b];
      var i :| 0 <= i < |buckets[b]| && buckets[b][i] == e;
    }
    forall k | k in m ensures (k, m[k]) in s {
      FlattenMember(buckets, (k, m[k]));
      assert (k, m[k]) in buckets[Bucket(hash, k, |buckets|)];
    }
    DistinctCount(s, m);
    forall e: (K, V) | e.0 in m && m[e.0] == e.1 ensures e in s {
      assert (e.0, m[e.0]) in s;
    }
  }

  /** The entries an iterator has passed when it stands before entry i of bucket b. */
  function Before<A>(s: seq<seq<A>>, b: nat, i: nat): seq<A> {
    if b < |s| && i <= |s[b]| then Flatten(s[..b]) + s[b][..i] else Flatten(s)
  }

  lemma NextBucket<A>(s: seq<seq<A>>, b: nat)
    requires b < |s|
    ensures Before(s, b + 1, 0) == Before(s, b, |s[b]|)
  {
    assert s[..b + 1][..b] == s[..b];
    assert s[..|s|] == s;
  }

  lemma EntryIsAhead<A>(s: seq<seq<A>>, b: nat, i: nat)
    requires b < |s| && i < |s[b]|
    ensures |Before(s, b, i)| < |Flatten(s)|
  {
    PrefixIsShorter(s, b + 1);
    assert s[..b + 1][..b] == s[..b];
  }

  lemma {:induction false} PrefixIsShorter<A>(s: seq<seq<A>>, b: nat)
    requires b <= |s|
    ensures |Flatten(s[..b])| <= |Flatten(s)|
  {
    if b < |s| {
      PrefixIsShorter(s[..|s| - 1], b);
      assert s[..|s| - 1][..b] == s[..b];
    } else {
      assert s[..b] == s;
    }
  }

  lemma BeforeTheEnd<A>(s: seq<seq<A>>)
    ensures Before(s, |s|, 0) == Flatten(s)
  {
  }

  // ---------------------------------------------------------------- the container

  /** An iterator: a bucket, and a node of its list (null at the list's end). At the end of
      the map the bucket is one past the last. */
  datatype Iterator = Iterator(bucket: nat, collision: Link)

  method MakeBuckets<K, V>(numBuckets: nat) returns (made: seq<Slist<(K, V)>>)
    ensures |made| == numBuckets
    ensures forall q :: q in made ==> fresh(q) && q.Valid() && q.Contents() == []
    ensures forall i, j :: 0 <= i < j < |made| ==> made[i] != made[j]
  {
    hide Shape, DataAt, PageAt;
    made := [];
    while |made| < numBuckets
      invariant |made| <= numBuckets
      invariant forall q :: q in made ==> fresh(q) && q.Valid() && q.Contents() == []
      invariant forall i, j :: 0 <= i < j < |made| ==> made[i] != made[j]
    {
      var q := new Slist<(K, V)>();
      made := made + [q];
    }
  }

  class UnorderedMap<K(==), V> {
    const hash: K -> nat
    const buckets: seq<Slist<(K, V)>>
    var length: nat
    ghost var model: map<K, V>

    ghost function Repr(): set<object>
    {
      set q | q in buckets
    }

    ghost predicate Sound()
      reads Repr()
    {
      && this !in Repr() && |buckets| > 0
      && (forall i, j :: 0 <= i < j < |buckets| ==> buckets[i] != buckets[j])
      && (forall q :: q in buckets ==> q.Valid())
    }

    ghost function Contents(): (c: seq<seq<(K, V)>>)
      requires Sound()
      reads Repr()
      ensures |c| == |buckets| > 0
    {
      seq(|buckets|, i requires 0 <= i < |buckets| reads Repr() requires Sound() => BucketContents(i))
    }

    ghost function BucketContents(b: nat): seq<(K, V)>
      requires Sound() && b < |buckets|
      reads Repr()
    {
      var q := buckets[b];
      assert q in buckets;
      q.Contents()
    }

    ghost predicate Valid()
      reads this, Repr()
    {
      Sound() && Represents(Contents(), hash, model) && length == |model|
    }

    constructor (hash: K -> nat, numBuckets: nat)
      requires numBuckets > 0
      ensures Valid() && fresh(Repr()) && model == map[] && this.hash == hash && |buckets| == numBuckets
    {
      hide Represents, Shape, DataAt, PageAt;
      this.hash, length, model := hash, 0, map[];
      var made := MakeBuckets<K, V>(numBuckets);
      buckets := made;
      new;
      assert forall b :: 0 <= b < |buckets| ==> buckets[b] in buckets && Contents()[b] == [];
      EmptyRepresents(Contents(), hash);
    }

    /** Search one bucket's list: null when the key is not there. */
    static method FindCollision(key: K, list: Slist<(K, V)>) returns (iter: Link)
      requires list.Valid()
      ensures iter == PageAt(list.ptrs, KeyIndex(list.Contents(), key))
      ensures iter == NULL <==> KeyIndex(list.Contents(), key) == |list.Contents()|
    {
      hide Shape, DataAt, PageAt, KeyIndex;
      list.BeginIsFirst();
      ghost var s := list.Contents();
      iter := list.Begin();
      ghost var i := 0;
      PageAtIs(list.ptrs, 0);
      while iter != NULL
        invariant i <= |s| && iter == PageAt(list.ptrs, i)
        invariant forall j :: 0 <= j < i ==> s[j].0 != key
        invariant iter == NULL <==> i == |s|
        decreases |s| - i
      {
        var entry := list.Get(iter, i);
        if entry.0 == key {
          KeyIndexIs(s, key, i);
          return;
        }
        iter := list.Next(iter, i);
        i := i + 1;
        PageAtIs(list.ptrs, i);
      }
      KeyIndexIs(s, key, i);
    }

    /** One bucket gains an entry; the node's offset comes from the allocator. */
    method AppendEntry(b: nat, p: nat, entry: (K, V))
      requires Sound() && b < |buckets| && p !in buckets[b].nodes
      modifies Repr()
      ensures Sound()
      ensures Contents() == old(Contents())[b := old(Contents())[b] + [entry]]
      ensures length == old(length) && model == old(model)
    {
      hide Shape, DataAt, PageAt;
      ghost var was := Contents();
      var list := buckets[b];
      assert list in buckets;
      list.EmplaceBack(p, entry);
      assert forall j :: 0 <= j < |buckets| && j != b ==> buckets[j] in buckets && Contents()[j] == was[j];
    }

    /** One bucket loses an entry. */
    method EraseEntry(b: nat, iter: Link, ghost i: nat)
      requires Sound() && b < |buckets| && i < |Contents()[b]| && iter == PageAt(buckets[b].ptrs, i)
      modifies Repr()
      ensures Sound()
      ensures Contents() == old(Contents())[b := Cut(old(Contents())[b], i, i + 1)]
      ensures length == old(length) && model == old(model)
      ensures forall q :: q in buckets ==> q.nodes.Keys <= old(q.nodes.Keys)
    {
      hide Shape, DataAt, PageAt, Cut;
      ghost var was := Contents();
      var list := buckets[b];
      assert list in buckets;
      list.EraseAt(iter, i);
      assert forall j :: 0 <= j < |buckets| && j != b ==> buckets[j] in buckets && Contents()[j] == was[j];
    }

    /** emplace and try_emplace. */
    method EmplaceTempl(key: K, value: V, modifyExisting: bool, p: nat) returns (done: bool)
      requires Valid() && forall q :: q in buckets ==> p !in q.nodes
      modifies this`length, this`model, Repr()
      ensures Valid()
      ensures done <==> modifyExisting || key !in old(model)
      ensures model == if done then old(model)[key := value] else old(model)
    {
      hide Represents, Bucket, KeyIndex, PageAt, Sound;
      SearchIsLookup(Contents(), hash, model, key);
      var b := Bucket(hash, key, |buckets|);
      assert buckets[b] in buckets;
      ghost var i := KeyIndex(Contents()[b], key);
      var iter := Search(key, b);
      if iter != NULL {
        if !modifyExisting {
          return false;
        }
        Remove(key, b, iter, i);
      }
      Add(key, value, b, p);
      return true;
    }

    method Remove(key: K, b: nat, iter: Link, ghost i: nat)
      requires Valid() && b < |buckets| && i < |Contents()[b]| && iter == PageAt(buckets[b].ptrs, i)
      requires Contents()[b][i].0 == key && length > 0
      modifies this`length, this`model, Repr()
      ensures Valid() && model == old(model) - {key} && key !in model
      ensures forall q :: q in buckets ==> q.nodes.Keys <= old(q.nodes.Keys)
    {
      hide Represents, Bucket, KeyIndex, PageAt, Sound;
      KeyOfEntry(Contents(), hash, model, b, i);
      CutIsRemove(Contents(), hash, model, b, i);
      EraseEntry(b, iter, i);
      length := length - 1;
      model := model - {key};
      assert old(model).Keys == model.Keys + {key};
    }

    method Add(key: K, value: V, b: nat, p: nat)
      requires Valid() && key !in model && b < |buckets| && b == Bucket(hash, key, |buckets|)
      requires p !in buckets[b].nodes
      modifies this`length, this`model, Repr()
      ensures Valid() && model == old(model)[key := value]
    {
      hide Represents, Bucket, PageAt, Sound;
      AppendIsInsert(Contents(), hash, model, key, value);
      AppendEntry(b, p, (key, value));
      length := length + 1;
      model := model[key := value];
    }

    method Erase(key: K)
      requires Valid()
      modifies this`length, this`model, Repr()
      ensures Valid() && model == old(model) - {key}
    {
      hide Represents, Bucket, KeyIndex, PageAt, Sound;
      SearchIsLookup(Contents(), hash, model, key);
      var b := Bucket(hash, key, |buckets|);
      ghost var i := KeyIndex(Contents()[b], key);
      var iter := Search(key, b);
      if iter == NULL {
        assert model - {key} == model;
        return;
      }
      Remove(key, b, iter, i);
    }

    method Search(key: K, b: nat) returns (iter: Link)
      requires Sound() && b < |buckets|
      ensures iter == PageAt(buckets[b].ptrs, KeyIndex(Contents()[b], key))
      ensures iter == NULL <==> KeyIndex(Contents()[b], key) == |Contents()[b]|
    {
      hide Shape, DataAt, PageAt, KeyIndex;
      var list := buckets[b];
      assert list in buckets;
      iter := FindCollision(key, list);
    }

    method Emplace(key: K, value: V, p: nat) returns (done: bool)
      requires Valid() && forall q :: q in buckets ==> p !in q.nodes
      modifies this`length, this`model, Repr()
      ensures Valid() && done && model == old(model)[key := value]
    {
      done := EmplaceTempl(key, value, true, p);
    }

    method TryEmplace(key: K, value: V, p: nat) returns (done: bool)
      requires Valid() && forall q :: q in buckets ==> p !in q.nodes
      modifies this`length, this`model, Repr()
      ensures Valid() && (done <==> key !in old(model))
      ensures model == if done then old(model)[key := value] else old(model)
    {
      done := EmplaceTempl(key, value, false, p);
    }

    /** Every bucket is emptied; all nodes are freed. */
    method Clear()
      requires Valid()
      modifies this`length, this`model, Repr()
      ensures Valid() && model == map[] && forall q :: q in buckets ==> q.nodes == map[]
    {
      hide Represents, Shape, DataAt, PageAt;
      var b := 0;
      while b < |buckets|
        invariant b <= |buckets| && Sound()
        invariant forall c :: 0 <= c < b ==> Contents()[c] == [] && buckets[c].nodes == map[]
      {
        ghost var was := Contents();
        var list := buckets[b];
        assert list in buckets;
        list.Clear();
        assert forall c :: 0 <= c < |buckets| && c != b ==> buckets[c] in buckets && Contents()[c] == was[c];
        assert forall c :: 0 <= c < b ==> Contents()[c] == was[c];
        b := b + 1;
      }
      EmptyRepresents(Contents(), hash);
      length := 0;
      model := map[];
    }

    // -------------------------------------------------------------- iterators

    /** The iterator stands before entry i of its bucket. */
    ghost predicate At(it: Iterator, i: nat)
      requires Sound()
      reads Repr()
    {
      if it.bucket < |buckets| then
        i <= |Contents()[it.bucket]| && it.collision == PageAtEntry(it.bucket, i)
      else
        it.bucket == |buckets| && i == 0
    }

    ghost function PageAtEntry(b: nat, i: nat): Link
      requires Sound() && b < |buckets|
      reads Repr()
    {
      var q := buckets[b];
      assert q in buckets;
      PageAt(q.ptrs, i)
    }

    /** It stands at an entry, or at the end of the map. */
    ghost predicate Correct(it: Iterator, i: nat)
      requires Sound()
      reads Repr()
    {
      At(it, i) && (it.bucket < |buckets| ==> i < |Contents()[it.bucket]|)
    }

    /** It stands at an entry, or at the end, having passed exactly these entries. */
    ghost predicate Passed(it: Iterator, entries: seq<(K, V)>)
      requires Sound()
      reads Repr()
    {
      exists i: nat :: Correct(it, i) && Before(Contents(), it.bucket, i) == entries
    }

    /** Shift to the next list that has an entry left. */
    method MakeCorrect(from: Iterator, ghost at: nat) returns (it: Iterator)
      requires Sound() && At(from, at)
      ensures Passed(it, Before(Contents(), from.bucket, at))
    {
      hide Before, Flatten;
      it := from;
      ghost var i := at;
      while it.bucket < |buckets|
        invariant At(it, i)
        invariant Before(Contents(), it.bucket, i) == Before(Contents(), from.bucket, at)
        decreases |buckets| - it.bucket
      {
        NullIsPastTheLast(it.bucket, i);
        if it.collision != NULL {
          assert Correct(it, i);
          return;
        }
        NextBucket(Contents(), it.bucket);
        it := it.(bucket := it.bucket + 1);
        i := 0;
        if it.bucket == |buckets| {
          assert Correct(it, i);
          return;
        }
        var list := buckets[it.bucket];
        assert list in buckets;
        list.BeginIsFirst();
        var begin := list.Begin();
        it := it.(collision := begin);
      }
      assert Correct(it, i);
    }

    lemma NullIsPastTheLast(b: nat, i: nat)
      requires Sound() && b < |buckets| && i <= |Contents()[b]|
      ensures PageAtEntry(b, i) == NULL <==> i == |Contents()[b]|
    {
      hide Shape, DataAt;
      assert buckets[b] in buckets;
    }

    method Begin() returns (it: Iterator)
      requires Sound()
      ensures Passed(it, [])
    {
      hide Shape, DataAt, PageAt;
      var list := buckets[0];
      assert list in buckets;
      list.BeginIsFirst();
      var begin := list.Begin();
      it := MakeCorrect(Iterator(0, begin), 0);
    }

    /** operator++. */
    method Next(from: Iterator, ghost at: nat) returns (it: Iterator)
      requires Sound() && Correct(from, at) && from.bucket < |buckets|
      ensures Passed(it, Before(Contents(), from.bucket, at) + [Contents()[from.bucket][at]])
    {
      hide Shape, DataAt, PageAt;
      var list := buckets[from.bucket];
      assert list in buckets;
      var next := list.Next(from.collision, at);
      it := MakeCorrect(Iterator(from.bucket, next), at + 1);
    }

    method Get(it: Iterator, ghost i: nat) returns (entry: (K, V))
      requires Sound() && Correct(it, i) && it.bucket < |buckets|
      ensures entry == Contents()[it.bucket][i]
    {
      hide Shape, DataAt, PageAt;
      var list := buckets[it.bucket];
      assert list in buckets;
      entry := list.Get(it.collision, i);
    }

    /** The loop from begin() by ++ to the end. */
    method Iterate() returns (visited: seq<(K, V)>)
      requires Valid()
      ensures |visited| == length == |model| && DistinctKeys(visited)
      ensures forall e :: e in visited <==> e.0 in model && model[e.0] == e.1
    {
      hide Represents, Before, Flatten, PageAtEntry, DistinctKeys, Shape, DataAt, PageAt;
      ghost var all := Contents();
      var it := Begin();
      visited := [];
      while it.bucket < |buckets|
        invariant Contents() == all && Passed(it, visited)
        decreases |Flatten(Contents())| - |visited|
      {
        ghost var i: nat :| Correct(it, i) && visited == Before(Contents(), it.bucket, i);
        EntryIsAhead(Contents(), it.bucket, i);
        var entry := Get(it, i);
        visited := visited + [entry];
        it := Next(it, i);
      }
      BeforeTheEnd(Contents());
      OrderVisitsEachKeyOnce(Contents(), hash, model);
    }

    /** It stands at this entry. */
    ghost predicate StandsAt(it: Iterator, entry: (K, V))
      requires Sound()
      reads Repr()
    {
      it.bucket < |buckets| && exists i: nat :: Correct(it, i) && Contents()[it.bucket][i] == entry
    }

    /** find: the end of the map when the key is absent. */
    method Find(key: K) returns (it: Iterator)
      requires Valid()
      ensures it.bucket == |buckets| <==> key !in model
      ensures it.bucket < |buckets| ==> key in model && StandsAt(it, (key, model[key]))
      ensures it.bucket <= |buckets|
    {
      hide Represents, Bucket, KeyIndex, PageAt, Shape, DataAt;
      SearchIsLookup(Contents(), hash, model, key);
      var b := Bucket(hash, key, |buckets|);
      ghost var i := KeyIndex(Contents()[b], key);
      var iter := Search(key, b);
      if iter == NULL {
        it := Iterator(|buckets|, NULL);
      } else {
        assert buckets[b] in buckets;
        it := Iterator(b, iter);
        assert Correct(it, i);
      }
    }

    /** erase(iterator). */
    method EraseAt(it: Iterator, ghost i: nat)
      requires Valid() && Correct(it, i)
      modifies this`length, this`model, Repr()
      ensures Valid()
      ensures model == old(model) - if it.bucket < |buckets| then {old(Contents())[it.bucket][i].0} else {}
    {
      hide Represents, PageAt, Shape, DataAt;
      if it.bucket == |buckets| {
        assert model - {} == model;
        return;
      }
      KeyOfEntry(Contents(), hash, model, it.bucket, i);
      var entry := Get(it, i);
      assert buckets[it.bucket] in buckets;
      Remove(entry.0, it.bucket, it.collision, i);
    }

    /** operator[]: None is the key-not-found error. */
    method Index(key: K) returns (value: Option<V>)
      requires Valid()
      ensures value == if key in model then Some(model[key]) else None
    {
      hide Represents, PageAt, Shape, DataAt;
      var it := Find(key);
      if it.bucket == |buckets| {
        return None;
      }
      ghost var i: nat :| Correct(it, i) && Contents()[it.bucket][i] == (key, model[key]);
      var entry := Get(it, i);
      return Some(entry.1);
    }
  }
}
