/** key_set: numbers handed out again once erased, each naming a place for a value. */
module KeySets {
  import opened Wrappers
  import opened FixedRing

  /** Keys below `heap` are live or queued, never both and never twice; no others are. */
  ghost predicate Partition(live: set<nat>, queued: seq<nat>, heap: nat) {
    && (forall k: nat :: k < heap <==> k in live || k in queued)
    && (forall k :: k in queued ==> k !in live)
    && (forall i, j :: 0 <= i < j < |queued| ==> queued[i] != queued[j])
    && |live| + |queued| == heap
  }

  /** A queued key may be handed out again. */
  lemma RecycleKey(live: set<nat>, queued: seq<nat>, heap: nat)
    requires Partition(live, queued, heap) && queued != []
    ensures queued[0] !in live && queued[0] < heap
    ensures Partition(live + {queued[0]}, queued[1..], heap)
  {
    assert queued[0] in queued;
    forall k: nat
      ensures k in queued <==> k == queued[0] || k in queued[1..]
    {
    }
  }

  /** The next key of the heap may be handed out for the first time. */
  lemma FreshKey(live: set<nat>, queued: seq<nat>, heap: nat)
    requires Partition(live, queued, heap)
    ensures heap !in live && Partition(live + {heap}, queued, heap + 1)
  {
  }

  /** A live key may be given back, and the queue it goes to holds fewer than `heap` keys. */
  lemma GiveBackKey(live: set<nat>, queued: seq<nat>, heap: nat, key: nat)
    requires Partition(live, queued, heap) && key in live
    ensures key < heap && |queued| < heap
    ensures Partition(live - {key}, queued + [key], heap)
  {
    forall k
      ensures k in queued + [key] <==> k in queued || k == key
    {
    }
  }

  lemma CountKeys(live: set<nat>, queued: seq<nat>, heap: nat)
    requires Partition(live, queued, heap)
    ensures |live| + |queued| == heap
  {
  }

  class KeySet<T> {
    const keys: Ring<nat>
    /** A place is None until it is constructed. Growing moves `length_` elements, which is
        none of them, unless the element type is plain data and its bytes are copied. */
    var places: seq<Option<T>>
    var heap: nat
    var maxSize: nat
    const plainData: bool
    /** Only the single-threaded flavour grows. */
    const grows: bool
    ghost var live: set<nat>

    ghost predicate Valid()
      reads this, keys, keys.slots
    {
      Sized() && Partition(live, keys.Contents(), heap)
    }

    constructor (maxSize: nat, plainData: bool, grows: bool)
      requires maxSize > 0
      ensures Valid() && live == {} && this.maxSize == maxSize
      ensures this.plainData == plainData && this.grows == grows
      ensures fresh(keys) && fresh(keys.slots)
    {
      keys := new Ring<nat>(maxSize);
      places := seq(maxSize, i => None);
      heap, live := 0, {};
      this.maxSize, this.plainData, this.grows := maxSize, plainData, grows;
    }

    method Resize()
      requires keys.Valid()
      modifies this`places, this`maxSize, keys, keys.slots
      ensures keys.Valid() && fresh(keys.slots) && keys.slots.Length == 2 * |old(places)|
      ensures old(keys.Contents()) == [] ==> keys.Contents() == []
      ensures maxSize == |places| == 2 * |old(places)|
      ensures plainData ==> places[..|old(places)|] == old(places)
      ensures !plainData ==> forall k :: 0 <= k < |places| ==> places[k] == None
    {
      var newSize := |places| * 2;
      keys.Resize(newSize);
      places := (if plainData then places else seq(|places|, i => None)) + seq(|places|, i => None);
      maxSize := newSize;
    }

    /** The fields agree in size. */
    ghost predicate Sized()
      reads this, keys, keys.slots
    {
      keys.Valid() && heap <= maxSize == |places| == keys.slots.Length && maxSize > 0
    }

    /** With no key queued: the next of the heap, after growing if need be. */
    method NextKey() returns (key: Option<nat>)
      requires Sized() && keys.Contents() == []
      modifies this, keys, keys.slots
      ensures Sized() && (keys.slots == old(keys.slots) || fresh(keys.slots)) && keys.Contents() == []
      ensures key == if grows || old(heap) < old(maxSize) then Some(old(heap)) else None
      ensures heap == old(heap) + if key.Some? then 1 else 0
      ensures maxSize == if grows && old(heap) == old(maxSize) then 2 * old(maxSize) else old(maxSize)
      ensures maxSize == old(maxSize) ==> places == old(places)
      ensures plainData ==> |places| >= |old(places)| && places[..|old(places)|] == old(places)
      ensures !plainData && maxSize != old(maxSize) ==> forall k :: 0 <= k < |places| ==> places[k] == None
      ensures live == old(live)
    {
      hide Ready, Window;
      if heap < maxSize {
        key := Some(heap);
        heap := heap + 1;
        return;
      }
      if !grows {
        return None;
      }
      Resize();
      key := Some(heap);
      heap := heap + 1;
    }

    /** None is the out-of-bounds error. */
    method PopKey() returns (key: Option<nat>)
      requires Valid()
      modifies this, keys, keys.slots
      ensures Sized() && (keys.slots == old(keys.slots) || fresh(keys.slots))
      ensures key.None? <==> !grows && |live| == old(maxSize)
      // the oldest queued key first, then the heap
      ensures old(keys.Contents()) != [] ==>
                key == Some(old(keys.Contents())[0]) && heap == old(heap) && keys.Contents() == old(keys.Contents())[1..]
      ensures old(keys.Contents()) == [] && key.Some? ==> key.value == old(heap) && heap == old(heap) + 1
      ensures maxSize == if grows && |live| == old(maxSize) then 2 * old(maxSize) else old(maxSize)
      ensures maxSize == old(maxSize) ==> places == old(places)
      ensures plainData ==> |places| >= |old(places)| && places[..|old(places)|] == old(places)
      ensures !plainData && maxSize != old(maxSize) ==> forall k :: 0 <= k < |places| ==> places[k] == None
      ensures live == old(live)
      ensures if key.None? then Partition(live, keys.Contents(), heap)
              else key.value !in live && key.value < heap && Partition(live + {key.value}, keys.Contents(), heap)
    {
      hide Partition, Ready, Window;
      CountKeys(live, keys.Contents(), heap);
      if keys.Contents() != [] {
        RecycleKey(live, keys.Contents(), heap);
      }
      FreshKey(live, keys.Contents(), heap);
      key := keys.Pop();
      if key.Some? {
        return;
      }
      key := NextKey();
    }

    /** The new key is below maxSize and in no one's hands; other values stay where they were
        unless the set had to grow and the element type is not plain data, when they are lost. */
    method Emplace(entry: T) returns (key: Option<nat>)
      requires Valid()
      modifies this, keys, keys.slots
      ensures Valid() && (keys.slots == old(keys.slots) || fresh(keys.slots))
      ensures key.None? <==> !grows && |old(live)| == old(maxSize)
      ensures maxSize == if grows && |old(live)| == old(maxSize) then 2 * old(maxSize) else old(maxSize)
      ensures key.None? ==> live == old(live) && places == old(places)
      ensures key.Some? ==> key.value !in old(live) && live == old(live) + {key.value}
      ensures key.Some? ==> key.value < maxSize && places[key.value] == Some(entry)
      ensures key.Some? ==>
                key.value == if old(keys.Contents()) != [] then old(keys.Contents())[0] else old(heap)
      ensures plainData || |old(live)| < old(maxSize) ==>
                forall k :: k in old(live) ==> k < old(maxSize) <= maxSize && places[k] == old(places)[k]
      ensures !plainData && grows && |old(live)| == old(maxSize) ==>
                forall k :: k in old(live) ==> k < maxSize && places[k] == None
    {
      ghost var was := places;
      assert forall k :: k in live ==> k < heap;
      LiveFits();
      key := PopKey();
      if key.None? {
        return;
      }
      assert plainData ==> forall k :: 0 <= k < |was| ==> places[k] == places[..|was|][k];
      places := places[key.value := Some(entry)];
      live := live + {key.value};
    }

    lemma LiveFits()
      requires Valid()
      ensures |live| <= heap <= maxSize
    {
    }

    method Peek(key: nat) returns (entry: Option<T>)
      requires Valid() && key in live
      ensures entry == places[key]
    {
      assert key < heap;
      entry := places[key];
    }

    /** The queue of free keys always has room for a live key. */
    method Erase(key: nat)
      requires Valid() && key in live
      modifies this`live, keys, keys.slots
      ensures Valid() && live == old(live) - {key} && keys.slots == old(keys.slots)
      ensures keys.Contents() == old(keys.Contents()) + [key]
    {
      GiveBackKey(live, keys.Contents(), heap, key);
      var token := keys.Emplace(key);
      live := live - {key};
    }

    method Pop(key: nat) returns (entry: Option<T>)
      requires Valid() && key in live
      modifies this`live, keys, keys.slots
      ensures Valid() && live == old(live) - {key} && keys.slots == old(keys.slots)
      ensures entry == places[key]
    {
      entry := Peek(key);
      Erase(key);
    }
  }

  /** A key set that grows, with elements that are not plain data: storing a second value loses
      the first, although its key is still live. */
  method GrowthLosesValues() returns (lost: Option<int>)
    ensures lost == None
  {
    var keySet := new KeySet<int>(1, false, true);
    var first := keySet.Emplace(7);
    assert keySet.live == {first.value} && keySet.places[first.value] == Some(7);
    var second := keySet.Emplace(8);
    assert first.value in keySet.live;
    lost := keySet.Peek(first.value);
  }
}
