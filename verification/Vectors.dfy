/** vector: a growing array, shifted in place by insertion and erasure. */
module Vectors {
  /** The capacity after a growth: a quarter more, and at least ten more. */
  function Grown(capacity: nat): (c: nat) {
    var quarter := 5 * capacity / 4;
    if quarter <= capacity + 10 then quarter + 10 else quarter
  }

  /** Every growth leaves at least a sixth of the new capacity free. */
  lemma GrowthIsGeometric(capacity: nat)
    ensures 6 * capacity <= 5 * Grown(capacity)
    ensures capacity + 10 <= Grown(capacity)
  {
  }

  /** The capacity of an empty vector after n appends. */
  function CapacityAfter(n: nat): (c: nat)
    ensures n <= c
  {
    if n == 0 then 0
    else if CapacityAfter(n - 1) == n - 1 then
      GrowthIsGeometric(n - 1);
      Grown(n - 1)
    else CapacityAfter(n - 1)
  }

  /** How many elements those appends moved: all of them, at each growth. */
  function MovesAfter(n: nat): nat {
    if n == 0 then 0
    else MovesAfter(n - 1) + if CapacityAfter(n - 1) == n - 1 then n - 1 else 0
  }

  /** Appending is amortised constant: n appends move at most 6n elements in all. */
  lemma {:induction false} AppendsAreCheap(n: nat)
    ensures MovesAfter(n) <= 6 * n
    ensures MovesAfter(n) <= 5 * CapacityAfter(n)
  {
    if n > 0 {
      AppendsAreCheap(n - 1);
      GrowthIsGeometric(n - 1);
    }
  }

  /** A growth takes no more than a quarter or ten elements in addition, whichever is more: */
  lemma GrowthIsModest(capacity: nat)
    ensures Grown(capacity) <= capacity + (if capacity / 4 <= 10 then capacity / 4 + 10 else capacity / 4)
    ensures capacity >= 44 ==> Grown(capacity) == 5 * capacity / 4
  {
  }

  /** so a vector filled by n appends has at most a quarter and 20 places too many. */
  lemma {:induction false} LittleIsWasted(n: nat)
    ensures CapacityAfter(n) <= n + n / 4 + 20
  {
    if n > 0 {
      LittleIsWasted(n - 1);
      GrowthIsModest(n - 1);
    }
  }

  /** `s` with the elements up to `i` moved down by `count` onto `pos`. */
  ghost function Shifted<T>(s: seq<T>, pos: nat, count: nat, i: nat): (r: seq<T>)
    requires pos + count <= i <= |s|
    ensures |r| == |s|
  {
    s[..pos] + s[pos + count..i] + s[i - count..]
  }

  lemma ShiftedStart<T>(s: seq<T>, pos: nat, count: nat)
    requires pos + count <= |s|
    ensures Shifted(s, pos, count, pos + count) == s
  {
  }

  lemma ShiftedStep<T>(s: seq<T>, pos: nat, count: nat, i: nat)
    requires pos + count <= i < |s|
    ensures Shifted(s, pos, count, i)[i] == s[i]
    ensures Shifted(s, pos, count, i)[i - count := s[i]] == Shifted(s, pos, count, i + 1)
  {
    assert s[pos + count..i + 1] == s[pos + count..i] + [s[i]];
    assert s[i - count..] == [s[i - count]] + s[i + 1 - count..];
  }

  lemma ShiftedParts<T>(s: seq<T>, pos: nat, count: nat, i: nat)
    requires pos + count <= i <= |s|
    ensures Shifted(s, pos, count, i)[..pos] == s[..pos]
    ensures Shifted(s, pos, count, i)[pos..i - count] == s[pos + count..i]
  {
  }

  class Vector<T(0)> {
    /** max_length_ is its length. */
    var data: array<T>
    var length: nat
    /** Elements moved by growths so far. */
    ghost var moved: nat

    ghost predicate Valid()
      reads this
    {
      length <= data.Length
    }

    ghost function Contents(): seq<T>
      requires Valid()
      reads this, data
    {
      data[..length]
    }

    constructor ()
      ensures Valid() && Contents() == [] && data.Length == 0 && moved == 0 && fresh(data)
    {
      data, length, moved := new T[0], 0, 0;
    }

    /** grow_vector; 0 asks for the default growth. A smaller capacity is ignored. */
    method GrowVector(requested: nat)
      requires Valid()
      modifies this`data, this`moved
      ensures Valid() && Contents() == old(Contents())
      ensures var capacity := if requested == 0 then Grown(old(data.Length)) else requested;
              if capacity < old(data.Length) then data == old(data) && moved == old(moved)
              else fresh(data) && data.Length == capacity && moved == old(moved) + length
    {
      var capacity := requested;
      if capacity == 0 {
        GrowthIsGeometric(data.Length);
        capacity := Grown(data.Length);
      }
      if capacity < data.Length {
        return;
      }
      var grown := new T[capacity];
      var i := 0;
      while i < length
        invariant data == old(data) && i <= length && grown[..i] == data[..i] && moved == old(moved) + i
      {
        grown[i] := data[i];
        moved := moved + 1;
        i := i + 1;
      }
      data := grown;
    }

    method Reserve(capacity: nat)
      requires Valid()
      modifies this`data, this`moved
      ensures Valid() && Contents() == old(Contents())
      ensures data.Length == if capacity < old(data.Length) then old(data.Length) else capacity
    {
      if capacity == 0 {
        return;
      }
      GrowVector(capacity);
    }

    method EmplaceBack(x: T)
      requires Valid()
      modifies this, data
      ensures Valid() && Contents() == old(Contents()) + [x] && (data == old(data) || fresh(data))
      ensures data.Length == if old(length) == old(data.Length) then Grown(old(length)) else old(data.Length)
      ensures moved == old(moved) + if old(length) == old(data.Length) then old(length) else 0
    {
      if length == data.Length {
        GrowthIsGeometric(length);
        GrowVector(0);
      }
      data[length] := x;
      length := length + 1;
    }

    /** Everything from `pos` on moves up by one, last element first. */
    method ShiftRight(pos: nat)
      requires Valid() && pos <= length < data.Length
      modifies data
      ensures data[..pos] == old(data[..pos]) && data[pos + 1..length + 1] == old(data[pos..length])
    {
      var i := length;
      while i > pos
        invariant pos <= i <= length
        invariant data[..i] == old(data[..i]) && data[i + 1..length + 1] == old(data[i..length])
      {
        i := i - 1;
        data[i + 1] := data[i];
      }
    }

    /** Everything from `pos + count` on moves down by `count`, first element first. */
    method ShiftLeft(pos: nat, count: nat)
      requires Valid() && pos + count <= length
      modifies data
      ensures data[..pos] == old(data[..pos]) && data[pos..length - count] == old(data[pos + count..length])
    {
      hide Shifted;
      ghost var was := data[..];
      var i := pos + count;
      ShiftedStart(was, pos, count);
      while i < length
        invariant pos + count <= i <= length
        invariant data[..] == Shifted(was, pos, count, i)
      {
        ShiftedStep(was, pos, count, i);
        data[i - count] := data[i];
        i := i + 1;
      }
      ShiftedParts(was, pos, count, length);
      assert data[..pos] == data[..][..pos];
      assert data[pos..length - count] == data[..][pos..length - count];
    }

    /** Insertion before `pos`; a position at or past the end appends. */
    method Emplace(pos: nat, x: T)
      requires Valid()
      modifies this, data
      ensures Valid() && (data == old(data) || fresh(data))
      ensures var at := if pos < old(length) then pos else old(length);
              Contents() == old(Contents())[..at] + [x] + old(Contents())[at..]
    {
      if pos >= length {
        EmplaceBack(x);
        return;
      }
      if length == data.Length {
        GrowthIsGeometric(length);
        GrowVector(0);
      }
      InsertAt(pos, x);
    }

    /** Insertion where there is room: shift, then construct in the gap. */
    method InsertAt(pos: nat, x: T)
      requires Valid() && pos <= length < data.Length
      modifies this`length, data
      ensures Valid() && data == old(data)
      ensures Contents() == old(Contents())[..pos] + [x] + old(Contents())[pos..]
    {
      ghost var was := Contents();
      assert data[..pos] == was[..pos];
      assert data[pos..length] == was[pos..];
      ShiftRight(pos);
      data[pos] := x;
      length := length + 1;
      assert Contents() == data[..pos] + [data[pos]] + data[pos + 1..length];
    }

    /** Erasure of [first, last); a last position at or past the end means the end. */
    method Erase(first: nat, last: nat)
      requires Valid() && first <= last
      modifies this`length, data
      ensures Valid() && data == old(data)
      ensures var i := if first < old(length) then first else old(length);
              var j := if last < old(length) then last else old(length);
              Contents() == old(Contents())[..i] + old(Contents())[j..]
    {
      ghost var was := Contents();
      if first >= length {
        assert was == was[..length] + was[length..];
        return;
      }
      var end := if last >= length then length else last;
      var count := end - first;
      if count == 0 {
        assert was == was[..first] + was[first..];
        return;
      }
      assert data[..first] == was[..first] && data[first + count..length] == was[end..];
      ShiftLeft(first, count);
      length := length - count;
      assert Contents() == data[..first] + data[first..length];
    }

    method PopBack()
      requires Valid()
      modifies this`length
      ensures Valid() && data == old(data)
      ensures Contents() == if old(length) == 0 then [] else old(Contents())[..old(length) - 1]
    {
      if length > 0 {
        length := length - 1;
      }
    }
  }

  /** A vector filled by appends alone. */
  method FromSeq<T(0)>(s: seq<T>) returns (v: Vector<T>)
    ensures fresh(v) && fresh(v.data) && v.Valid() && v.Contents() == s
    ensures v.data.Length == CapacityAfter(|s|) && v.moved == MovesAfter(|s|) <= 6 * |s|
  {
    v := new Vector<T>();
    var i := 0;
    while i < |s|
      invariant i <= |s| && v.Valid() && v.Contents() == s[..i] && fresh(v) && fresh(v.data)
      invariant v.data.Length == CapacityAfter(i) && v.moved == MovesAfter(i)
    {
      v.EmplaceBack(s[i]);
      i := i + 1;
    }
    AppendsAreCheap(|s|);
  }
}
