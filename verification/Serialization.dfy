/** save and load: sizes as eight bytes, least significant first, then the parts in order. */
module Serialization {
  import opened Arithmetic

  type Byte = b: int | 0 <= b < 256

  const SIZE_WIDTH := 8

  type Width = w: int | w > 0 witness 1

  /** Arithmetic types by their width in bytes; Map's entries are pairs. */
  datatype Type = Num(width: Width) | Str | Pair(first: Type, second: Type) | Vec(elem: Type) | List(elem: Type) | Map(elem: Type)

  /** A number stands for the bit pattern of its arithmetic type. */
  datatype Value = NumV(n: nat) | StrV(text: seq<Byte>) | PairV(fst: Value, snd: Value) | SeqV(items: seq<Value>) | MapV(m: map<Value, Value>)

  function Pow256(w: nat): (p: nat)
    ensures p > 0
  {
    if w == 0 then 1 else 256 * Pow256(w - 1)
  }

  predicate HasType(t: Type, v: Value)
    decreases t
  {
    match t
    case Num(w) => v.NumV? && v.n < Pow256(w)
    case Str => v.StrV? && |v.text| < Pow256(SIZE_WIDTH)
    case Pair(first, second) => v.PairV? && HasType(first, v.fst) && HasType(second, v.snd)
    case Vec(elem) => v.SeqV? && |v.items| < Pow256(SIZE_WIDTH) && forall x :: x in v.items ==> HasType(elem, x)
    case List(elem) => v.SeqV? && |v.items| < Pow256(SIZE_WIDTH) && forall x :: x in v.items ==> HasType(elem, x)
    case Map(elem) =>
      v.MapV? && elem.Pair? && |v.m| < Pow256(SIZE_WIDTH) && forall k :: k in v.m ==> HasType(elem, PairV(k, v.m[k]))
  }

  // ---------------------------------------------------------------- numbers

  function LittleEndian(n: nat, w: nat): (b: seq<Byte>)
    ensures |b| == w
  {
    if w == 0 then [] else [n % 256] + LittleEndian(n / 256, w - 1)
  }

  function FromLittleEndian(b: seq<Byte>): nat {
    if b == [] then 0 else b[0] + 256 * FromLittleEndian(b[1..])
  }

  lemma {:induction false} NumberRoundTrip(n: nat, w: nat)
    requires n < Pow256(w)
    ensures FromLittleEndian(LittleEndian(n, w)) == n
  {
    if w > 0 {
      NumberRoundTrip(n / 256, w - 1);
      assert LittleEndian(n, w)[1..] == LittleEndian(n / 256, w - 1);
    }
  }

  /** Byte i of a number is its digit of weight 256^i: the least significant byte comes first. */
  lemma {:induction false} ByteIsDigit(n: nat, w: nat, i: nat)
    requires i < w
    ensures LittleEndian(n, w)[i] == n / Pow256(i) % 256
  {
    if i > 0 {
      ByteIsDigit(n / 256, w - 1, i - 1);
      DivideTwice(n, 256, Pow256(i - 1));
    }
  }

  lemma DivideTwice(n: nat, d: nat, e: nat)
    requires d > 0 && e > 0
    ensures d * e > 0 && n / (d * e) == n / d / e
  {
    var q := n / d / e;
    assert d * e > 0;
    DivBounds(n, d);
    DivBounds(n / d, e);
    MulMono(Product(q, e), n / d, d);
    MulMono(n / d + 1, Product(q, e) + e, d);
    Distribute(n / d, 1, d);
    Distribute(Product(q, e), e, d);
    Associate(q, e, d);
    assert Product(Product(q, d), e) == Product(q, d * e);
    assert Product(e, d) == d * e;
    DivIs(n, d * e, q);
  }

  // ---------------------------------------------------------------- the format

  /** `order` is an iteration order of m: every entry once. */
  ghost predicate IteratesOver(order: seq<Value>, m: map<Value, Value>) {
    && (forall i :: 0 <= i < |order| ==> order[i].PairV? && order[i].fst in m && m[order[i].fst] == order[i].snd)
    && (forall i, j :: 0 <= i < j < |order| ==> order[i].fst != order[j].fst)
    && |order| == |m|
  }

  /** `b` is a saved form of v; a map has one for each iteration order. */
  ghost predicate Encodes(t: Type, v: Value, b: seq<Byte>)
    decreases t, 0
  {
    HasType(t, v) &&
    match t
    case Num(w) => b == LittleEndian(v.n, w)
    case Str => b == LittleEndian(|v.text|, SIZE_WIDTH) + v.text
    case Pair(first, second) => exists i :: 0 <= i <= |b| && Encodes(first, v.fst, b[..i]) && Encodes(second, v.snd, b[i..])
    case Vec(elem) => Headed(b, |v.items|) && EncodesAll(elem, v.items, b[SIZE_WIDTH..])
    case List(elem) => Headed(b, |v.items|) && EncodesAll(elem, v.items, b[SIZE_WIDTH..])
    case Map(elem) =>
      Headed(b, |v.m|) && exists order :: IteratesOver(order, v.m) && EncodesAll(elem, order, b[SIZE_WIDTH..])
  }

  predicate Headed(b: seq<Byte>, size: nat) {
    |b| >= SIZE_WIDTH && b[..SIZE_WIDTH] == LittleEndian(size, SIZE_WIDTH)
  }

  ghost predicate EncodesAll(elem: Type, items: seq<Value>, b: seq<Byte>)
    decreases elem, 1 + |items|
  {
    if items == [] then b == []
    else exists i :: 0 <= i <= |b| && Encodes(elem, items[0], b[..i]) && EncodesAll(elem, items[1..], b[i..])
  }

  /** A string is saved as its length in eight bytes, least significant first, and its text; and
      every container starts with its size like this. */
  lemma SizeTakesEightBytes(t: Type, v: Value, b: seq<Byte>)
    requires Encodes(t, v, b)
    ensures t.Str? ==> |b| == 8 + |v.text| && b[8..] == v.text && forall i :: 0 <= i < 8 ==> b[i] == |v.text| / Pow256(i) % 256
    ensures t.Vec? || t.List? ==> |b| >= 8 && forall i :: 0 <= i < 8 ==> b[i] == |v.items| / Pow256(i) % 256
    ensures t.Map? ==> |b| >= 8 && forall i :: 0 <= i < 8 ==> b[i] == |v.m| / Pow256(i) % 256
  {
    hide Pow256, LittleEndian, EncodesAll, IteratesOver;
    if t.Str? || t.Vec? || t.List? || t.Map? {
      var size := if t.Str? then |v.text| else if t.Map? then |v.m| else |v.items|;
      forall i | 0 <= i < 8 ensures b[i] == size / Pow256(i) % 256 {
        ByteIsDigit(size, 8, i);
        assert b[i] == b[..8][i];
      }
    }
  }

  // ---------------------------------------------------------------- no ambiguity

  lemma MapIsItsIteration(order: seq<Value>, m: map<Value, Value>, m': map<Value, Value>)
    requires IteratesOver(order, m) && IteratesOver(order, m')
    ensures m == m'
  {
    IterationCovers(order, m);
    IterationCovers(order, m');
  }

  lemma {:induction false} IterationCovers(order: seq<Value>, m: map<Value, Value>)
    requires IteratesOver(order, m)
    ensures forall k :: k in m ==> PairV(k, m[k]) in order
  {
    if order == [] {
      assert m == map[];
    } else {
      var last := |order| - 1;
      var e, rest := order[last], order[..last];
      var m' := m - {e.fst};
      assert m.Keys == m'.Keys + {e.fst};
      IterationCovers(rest, m');
      forall k | k in m ensures PairV(k, m[k]) in order {
        if k == e.fst { assert order[last] == PairV(k, m[k]); } else { assert PairV(k, m'[k]) in rest; }
      }
    }
  }

  lemma Prefixes(b: seq<Byte>, b': seq<Byte>, i: nat, j: nat)
    requires b <= b' && i <= |b| && j <= |b'|
    ensures if i <= j then b[..i] <= b'[..j] else b'[..j] <= b[..i]
    ensures i == j ==> b[i..] <= b'[j..] && (b[i..] == b'[j..] ==> b == b')
  {
    assert b == b[..i] + b[i..] && b' == b'[..j] + b'[j..];
    assert b' == b + b'[|b|..];
  }

  lemma PairParts(t: Type, v: Value, b: seq<Byte>) returns (i: nat)
    requires t.Pair? && Encodes(t, v, b)
    ensures v.PairV? && i <= |b| && Encodes(t.first, v.fst, b[..i]) && Encodes(t.second, v.snd, b[i..])
  {
    i :| 0 <= i <= |b| && Encodes(t.first, v.fst, b[..i]) && Encodes(t.second, v.snd, b[i..]);
  }

  lemma HeadParts(elem: Type, s: seq<Value>, b: seq<Byte>) returns (i: nat)
    requires s != [] && EncodesAll(elem, s, b)
    ensures i <= |b| && Encodes(elem, s[0], b[..i]) && EncodesAll(elem, s[1..], b[i..])
  {
    i :| 0 <= i <= |b| && Encodes(elem, s[0], b[..i]) && EncodesAll(elem, s[1..], b[i..]);
  }

  /** What a saved container consists of: its size, and its items in some order. */
  lemma ContainerParts(t: Type, v: Value, b: seq<Byte>) returns (items: seq<Value>)
    requires Encodes(t, v, b) && (t.Vec? || t.List? || t.Map?)
    ensures |b| >= SIZE_WIDTH && Headed(b, |items|) && |items| < Pow256(SIZE_WIDTH)
    ensures EncodesAll(t.elem, items, b[SIZE_WIDTH..])
    ensures if t.Map? then v.MapV? && IteratesOver(items, v.m) else v == SeqV(items)
  {
    hide Pow256;
    if t.Map? {
      items :| IteratesOver(items, v.m) && EncodesAll(t.elem, items, b[SIZE_WIDTH..]);
    } else {
      items := v.items;
    }
  }

  /** No saved form is a proper prefix of another of the same type, and equal saved forms come
      from equal values, whatever order the maps inside were in. */
  lemma {:induction false} SavedFormsAreUnambiguous(t: Type, v: Value, v': Value, b: seq<Byte>, b': seq<Byte>)
    requires Encodes(t, v, b) && Encodes(t, v', b') && b <= b'
    ensures v == v' && b == b'
    decreases t, 1
  {
    match t
    case Num(w) =>
      NumberRoundTrip(v.n, w);
      NumberRoundTrip(v'.n, w);
      assert b == b';
    case Str =>
      hide Pow256;
      assert b[..SIZE_WIDTH] == LittleEndian(|v.text|, SIZE_WIDTH);
      assert b'[..SIZE_WIDTH] == LittleEndian(|v'.text|, SIZE_WIDTH);
      SameSize(b, b', |v.text|, |v'.text|);
      assert b[SIZE_WIDTH..] == v.text && b'[SIZE_WIDTH..] == v'.text;
    case Pair(first, second) =>
      hide Encodes;
      var i := PairParts(t, v, b);
      var j := PairParts(t, v', b');
      Prefixes(b, b', i, j);
      if i <= j {
        SavedFormsAreUnambiguous(first, v.fst, v'.fst, b[..i], b'[..j]);
      } else {
        SavedFormsAreUnambiguous(first, v'.fst, v.fst, b'[..j], b[..i]);
      }
      assert i == |b[..i]| && j == |b'[..j]|;
      SavedFormsAreUnambiguous(second, v.snd, v'.snd, b[i..], b'[j..]);
    case _ =>
      SavedContainersAreUnambiguous(t, v, v', b, b');
  }

  lemma {:induction false} SavedContainersAreUnambiguous(t: Type, v: Value, v': Value, b: seq<Byte>, b': seq<Byte>)
    requires t.Vec? || t.List? || t.Map?
    requires Encodes(t, v, b) && Encodes(t, v', b') && b <= b'
    ensures v == v' && b == b'
    decreases t, 0
  {
    hide Encodes;
    var items := ContainerParts(t, v, b);
    var items' := ContainerParts(t, v', b');
    SameSize(b, b', |items|, |items'|);
    SavedListsAreUnambiguous(t.elem, items, items', b[SIZE_WIDTH..], b'[SIZE_WIDTH..]);
    Prefixes(b, b', SIZE_WIDTH, SIZE_WIDTH);
    if t.Map? {
      MapIsItsIteration(items, v.m, v'.m);
    }
  }

  lemma SameSize(b: seq<Byte>, b': seq<Byte>, n: nat, n': nat)
    requires b <= b' && Headed(b, n) && Headed(b', n') && n < Pow256(SIZE_WIDTH) && n' < Pow256(SIZE_WIDTH)
    ensures n == n' && b[SIZE_WIDTH..] <= b'[SIZE_WIDTH..]
  {
    hide Pow256, LittleEndian, FromLittleEndian;
    NumberRoundTrip(n, SIZE_WIDTH);
    NumberRoundTrip(n', SIZE_WIDTH);
    Prefixes(b, b', SIZE_WIDTH, SIZE_WIDTH);
    assert b[..SIZE_WIDTH] == b'[..SIZE_WIDTH];
  }

  lemma {:induction false} SavedListsAreUnambiguous(elem: Type, s: seq<Value>, s': seq<Value>, b: seq<Byte>, b': seq<Byte>)
    requires EncodesAll(elem, s, b) && EncodesAll(elem, s', b') && |s| == |s'| && b <= b'
    ensures s == s' && b == b'
    decreases elem, 1 + |s|
  {
    if s == [] {
      assert s' == [];
    } else {
      hide Encodes;
      var i := HeadParts(elem, s, b);
      var j := HeadParts(elem, s', b');
      hide EncodesAll;
      Prefixes(b, b', i, j);
      if i <= j {
        SavedFormsAreUnambiguous(elem, s[0], s'[0], b[..i], b'[..j]);
      } else {
        SavedFormsAreUnambiguous(elem, s'[0], s[0], b'[..j], b[..i]);
      }
      assert i == |b[..i]| && j == |b'[..j]|;
      SavedListsAreUnambiguous(elem, s[1..], s'[1..], b[i..], b'[j..]);
      assert s == [s[0]] + s[1..] && s' == [s'[0]] + s'[1..];
    }
  }

  // ---------------------------------------------------------------- arrays of numbers

  /** Byte j of an array of numbers in memory. */
  function ImageByte(s: seq<Value>, w: Width, j: nat): Byte
    requires j < Product(|s|, w) && forall x :: x in s ==> x.NumV?
  {
    ImageIndex(|s|, w, j);
    LittleEndian(s[j / w].n, w)[j % w]
  }

  lemma ImageIndex(n: nat, w: Width, j: nat)
    requires j < Product(n, w)
    ensures j / w < n && j % w < w
  {
    DivMod(j, w);
    Cancel(j / w, n, w);
  }

  /** The memory that the bulk path copies. */
  function Image(s: seq<Value>, w: Width): (b: seq<Byte>)
    requires forall x :: x in s ==> x.NumV?
    ensures |b| == Product(|s|, w)
  {
    seq(Product(|s|, w), j requires 0 <= j < Product(|s|, w) => ImageByte(s, w, j))
  }

  lemma ImageHead(s: seq<Value>, w: Width)
    requires s != [] && forall x :: x in s ==> x.NumV?
    ensures forall x :: x in s[1..] ==> x.NumV?
    ensures Image(s, w) == LittleEndian(s[0].n, w) + Image(s[1..], w)
  {
    hide Product, LittleEndian;
    Distribute(|s| - 1, 1, w);
    forall j | 0 <= j < |Image(s, w)|
      ensures Image(s, w)[j] == (LittleEndian(s[0].n, w) + Image(s[1..], w))[j]
    {
      if j >= w {
        RemainderStep(w, j - w);
        ImageIndex(|s| - 1, w, j - w);
      } else {
        RemainderStep(w, j);
      }
    }
  }

  lemma ImageParts(s: seq<Value>, w: Width, b: seq<Byte>)
    requires s != [] && forall x :: x in s ==> x.NumV?
    ensures b == Image(s, w) <==> |b| >= w && b[..w] == LittleEndian(s[0].n, w) && b[w..] == Image(s[1..], w)
  {
    hide Image, LittleEndian;
    ImageHead(s, w);
    if |b| >= w {
      assert b == b[..w] + b[w..];
    }
  }

  lemma RemainderStep(w: Width, r: nat)
    ensures (w + r) / w == r / w + 1 && (w + r) % w == r % w
    ensures r < w ==> r / w == 0 && r % w == r
  {
    hide Product;
    DivMod(w + r, w);
    DivMod(r, w);
    DivBounds(r, w);
    var q := r / w;
    Distribute(q, 1, w);
    DivIs(w + r, w, q + 1);
  }

  /** Copying the array's memory writes exactly the bytes that saving its elements one by one
      would. */
  lemma {:induction false} BulkIsElementwise(s: seq<Value>, w: Width, b: seq<Byte>)
    requires forall x :: x in s ==> x.NumV? && HasType(Num(w), x)
    ensures EncodesAll(Num(w), s, b) <==> b == Image(s, w)
  {
    if s == [] {
      Distribute(0, 0, w);
    } else {
      hide Image, LittleEndian, Pow256, Encodes, EncodesAll, HasType;
      ImageParts(s, w, b);
      if EncodesAll(Num(w), s, b) {
        var i := HeadParts(Num(w), s, b);
        BulkIsElementwise(s[1..], w, b[i..]);
        NumberIsItsBytes(s[0], w, b[..i]);
      }
      if b == Image(s, w) {
        BulkIsElementwise(s[1..], w, b[w..]);
        NumberIsItsBytes(s[0], w, b[..w]);
        AllFromParts(Num(w), s, b, w);
      }
    }
  }

  lemma NumberIsItsBytes(v: Value, w: Width, b: seq<Byte>)
    requires v.NumV? && HasType(Num(w), v)
    ensures Encodes(Num(w), v, b) <==> b == LittleEndian(v.n, w)
  {
  }

  lemma {:induction false} SaveOneMore(elem: Type, s: seq<Value>, x: Value, a: seq<Byte>, c: seq<Byte>)
    requires EncodesAll(elem, s, a) && Encodes(elem, x, c)
    ensures EncodesAll(elem, s + [x], a + c)
    decreases |s|
  {
    hide Encodes;
    if s == [] {
      assert a + c == c && (a + c)[..|c|] == c && (a + c)[|c|..] == [];
      assert ([x])[1..] == [];
      AllFromParts(elem, [x], c, |c|);
    } else {
      var i := HeadParts(elem, s, a);
      hide EncodesAll;
      SaveOneMore(elem, s[1..], x, a[i..], c);
      assert (a + c)[..i] == a[..i] && (a + c)[i..] == a[i..] + c && (s + [x])[1..] == s[1..] + [x];
      AllFromParts(elem, s + [x], a + c, i);
    }
  }

  lemma NothingLeft(elem: Type, s: seq<Value>, b: seq<Byte>)
    requires EncodesAll(elem, s, b) && s == []
    ensures b == []
  {
  }

  lemma AllFromParts(elem: Type, s: seq<Value>, b: seq<Byte>, i: nat)
    requires s != [] && i <= |b| && Encodes(elem, s[0], b[..i]) && EncodesAll(elem, s[1..], b[i..])
    ensures EncodesAll(elem, s, b)
  {
  }

  lemma ContainerFromParts(t: Type, v: Value, items: seq<Value>, rest: seq<Byte>)
    requires HasType(t, v) && (t.Vec? || t.List? || t.Map?)
    requires if t.Map? then IteratesOver(items, v.m) else v == SeqV(items)
    requires EncodesAll(t.elem, items, rest)
    ensures Encodes(t, v, LittleEndian(|items|, SIZE_WIDTH) + rest)
  {
    hide Pow256, LittleEndian;
    var b := LittleEndian(|items|, SIZE_WIDTH) + rest;
    assert b[..SIZE_WIDTH] == LittleEndian(|items|, SIZE_WIDTH) && b[SIZE_WIDTH..] == rest;
  }

  lemma PairFromParts(t: Type, v: Value, b1: seq<Byte>, b2: seq<Byte>)
    requires HasType(t, v) && t.Pair?
    requires Encodes(t.first, v.fst, b1) && Encodes(t.second, v.snd, b2)
    ensures Encodes(t, v, b1 + b2)
  {
    var b := b1 + b2;
    assert b[..|b1|] == b1 && b[|b1|..] == b2;
  }

  // ---------------------------------------------------------------- the archives

  /** LocalSerialize. */
  class LocalSerialize {
    var data: seq<Byte>

    constructor ()
      ensures data == []
    {
      data := [];
    }

    method WriteBinary(bytes: seq<Byte>)
      modifies this
      ensures data == old(data) + bytes
    {
      data := data + bytes;
    }

    /** `base` and the save functions behind it. */
    method Save(t: Type, v: Value) returns (ghost b: seq<Byte>)
      requires HasType(t, v)
      modifies this
      ensures data == old(data) + b && Encodes(t, v, b)
      decreases t, 1
    {
      hide Pow256, LittleEndian, Image, EncodesAll, IteratesOver, Headed;
      match t {
        case Num(w) =>
          b := LittleEndian(v.n, w);
          WriteBinary(LittleEndian(v.n, w));
        case Str =>
          b := LittleEndian(|v.text|, SIZE_WIDTH) + v.text;
          WriteBinary(LittleEndian(|v.text|, SIZE_WIDTH));
          WriteBinary(v.text);
        case Pair(_, _) => b := SavePair(t, v);
        case Vec(_) => b := SaveVec(t, v);
        case List(_) => b := SaveList(t, v);
        case Map(_) => b := SaveMap(t, v);
      }
    }

    method SavePair(t: Type, v: Value) returns (ghost b: seq<Byte>)
      requires HasType(t, v) && t.Pair?
      modifies this
      ensures data == old(data) + b && Encodes(t, v, b)
      decreases t, 0
    {
      hide Encodes;
      var b1 := Save(t.first, v.fst);
      var b2 := Save(t.second, v.snd);
      b := b1 + b2;
      PairFromParts(t, v, b1, b2);
    }

    /** Numbers are saved as the memory they occupy, other elements one by one. */
    method SaveVec(t: Type, v: Value) returns (ghost b: seq<Byte>)
      requires HasType(t, v) && t.Vec?
      modifies this
      ensures data == old(data) + b && Encodes(t, v, b)
      decreases t, 0
    {
      hide Pow256, LittleEndian, Image, Encodes, EncodesAll;
      WriteBinary(LittleEndian(|v.items|, SIZE_WIDTH));
      ghost var rest;
      if t.elem.Num? {
        rest := Image(v.items, t.elem.width);
        BulkIsElementwise(v.items, t.elem.width, rest);
        WriteBinary(Image(v.items, t.elem.width));
      } else {
        rest := SaveItems(t.elem, v.items);
      }
      b := LittleEndian(|v.items|, SIZE_WIDTH) + rest;
      ContainerFromParts(t, v, v.items, rest);
    }

    method SaveList(t: Type, v: Value) returns (ghost b: seq<Byte>)
      requires HasType(t, v) && t.List?
      modifies this
      ensures data == old(data) + b && Encodes(t, v, b)
      decreases t, 0
    {
      hide Pow256, LittleEndian, Encodes, EncodesAll;
      WriteBinary(LittleEndian(|v.items|, SIZE_WIDTH));
      var rest := SaveItems(t.elem, v.items);
      b := LittleEndian(|v.items|, SIZE_WIDTH) + rest;
      ContainerFromParts(t, v, v.items, rest);
    }

    method SaveMap(t: Type, v: Value) returns (ghost b: seq<Byte>)
      requires HasType(t, v) && t.Map?
      modifies this
      ensures data == old(data) + b && Encodes(t, v, b)
      decreases t, 0
    {
      hide Pow256, LittleEndian, Encodes, EncodesAll, IteratesOver;
      WriteBinary(LittleEndian(|v.m|, SIZE_WIDTH));
      var order, rest := SaveEntries(t.elem, v.m);
      b := LittleEndian(|v.m|, SIZE_WIDTH) + rest;
      ContainerFromParts(t, v, order, rest);
    }

    /** The loop of save_list, and of save_vec for elements that are not numbers. */
    method SaveItems(elem: Type, items: seq<Value>) returns (ghost b: seq<Byte>)
      requires forall x :: x in items ==> HasType(elem, x)
      modifies this
      ensures data == old(data) + b && EncodesAll(elem, items, b)
      decreases elem, 2
    {
      hide Encodes, HasType;
      b := [];
      var i := 0;
      while i < |items|
        invariant i <= |items| && data == old(data) + b && EncodesAll(elem, items[..i], b)
      {
        var c := Save(elem, items[i]);
        SaveOneMore(elem, items[..i], items[i], b, c);
        assert items[..i + 1] == items[..i] + [items[i]];
        b := b + c;
        i := i + 1;
      }
      assert items[..i] == items;
    }

    /** The loop of save_map, in whatever order the map gives its entries. */
    method SaveEntries(elem: Type, m: map<Value, Value>) returns (ghost order: seq<Value>, ghost b: seq<Byte>)
      requires forall k :: k in m ==> HasType(elem, PairV(k, m[k]))
      modifies this
      ensures data == old(data) + b && IteratesOver(order, m) && EncodesAll(elem, order, b) && |order| == |m|
      decreases elem, 2
    {
      hide Encodes, HasType;
      b, order := [], [];
      var keys := m.Keys;
      while keys != {}
        invariant keys <= m.Keys && |order| + |keys| == |m|
        invariant data == old(data) + b && EncodesAll(elem, order, b)
        invariant forall i :: 0 <= i < |order| ==>
                    order[i].PairV? && order[i].fst in m && m[order[i].fst] == order[i].snd && order[i].fst !in keys
        invariant forall i, j :: 0 <= i < j < |order| ==> order[i].fst != order[j].fst
        decreases |keys|
      {
        var k :| k in keys;
        var c := Save(elem, PairV(k, m[k]));
        SaveOneMore(elem, order, PairV(k, m[k]), b, c);
        b := b + c;
        order := order + [PairV(k, m[k])];
        keys := keys - {k};
      }
    }
  }

  lemma ImageSlice(s: seq<Value>, w: Width, i: nat)
    requires i < |s| && forall x :: x in s ==> x.NumV?
    ensures Product(i, w) + w <= |Image(s, w)|
    ensures Image(s, w)[Product(i, w)..Product(i, w) + w] == LittleEndian(s[i].n, w)
    decreases |s|
  {
    hide Product, Image, LittleEndian;
    ImageHead(s, w);
    Distribute(0, 0, w);
    if i > 0 {
      ImageSlice(s[1..], w, i - 1);
      Distribute(i - 1, 1, w);
    }
  }

  predicate StandsAt(data: seq<Byte>, cur: nat, b: seq<Byte>) {
    cur + |b| <= |data| && data[cur..cur + |b|] == b
  }

  lemma SplitAt(data: seq<Byte>, cur: nat, b: seq<Byte>, n: nat)
    requires StandsAt(data, cur, b) && n <= |b|
    ensures StandsAt(data, cur, b[..n]) && StandsAt(data, cur + n, b[n..])
  {
  }

  /** LocalDeserialize. The program does not check bounds: a caller must offer a saved form. */
  class LocalDeserialize {
    const data: seq<Byte>
    var cur: nat

    constructor (data: seq<Byte>)
      ensures this.data == data && cur == 0
    {
      this.data, cur := data, 0;
    }

    /** The next bytes are b. */
    ghost predicate Ahead(b: seq<Byte>)
      reads this
    {
      StandsAt(data, cur, b)
    }

    method ReadBinary(size: nat) returns (bytes: seq<Byte>)
      requires cur + size <= |data|
      modifies this
      ensures cur == old(cur) + size && bytes == data[old(cur)..cur]
    {
      bytes := data[cur..cur + size];
      cur := cur + size;
    }

    method ReadSize(ghost size: nat, ghost b: seq<Byte>) returns (n: nat)
      requires Ahead(b) && Headed(b, size) && size < Pow256(SIZE_WIDTH)
      modifies this
      ensures n == size && cur == old(cur) + SIZE_WIDTH && Ahead(b[SIZE_WIDTH..])
    {
      hide Pow256, LittleEndian, FromLittleEndian;
      var bytes := ReadBinary(SIZE_WIDTH);
      NumberRoundTrip(size, SIZE_WIDTH);
      assert bytes == b[..SIZE_WIDTH];
      n := FromLittleEndian(bytes);
      SplitAt(data, old(cur), b, SIZE_WIDTH);
    }

    /** `base` and the load functions behind it, into a fresh object: whatever the saved form,
        the value comes back and the cursor stands exactly past its bytes. */
    method Load(t: Type, ghost v: Value, ghost b: seq<Byte>) returns (r: Value)
      requires Ahead(b) && Encodes(t, v, b)
      modifies this
      ensures r == v && cur == old(cur) + |b|
      decreases t, 0
    {
      hide Encodes, StandsAt;
      match t {
        case Num(w) =>
          r := LoadNumber(w, v, b);
        case Str =>
          r := LoadString(v, b);
        case Pair(first, second) =>
          ghost var i := PairParts(t, v, b);
          SplitAt(data, cur, b, i);
          var x := Load(first, v.fst, b[..i]);
          var y := Load(second, v.snd, b[i..]);
          r := PairV(x, y);
        case Vec(elem) =>
          r := LoadVec(elem, v, b);
        case List(elem) =>
          r := LoadList(elem, v, b);
        case Map(elem) =>
          r := LoadMap(elem, v, b);
      }
    }

    method LoadNumber(w: Width, ghost v: Value, ghost b: seq<Byte>) returns (r: Value)
      requires Ahead(b) && Encodes(Num(w), v, b)
      modifies this
      ensures r == v && cur == old(cur) + |b|
    {
      NumberRoundTrip(v.n, w);
      var bytes := ReadBinary(w);
      r := NumV(FromLittleEndian(bytes));
    }

    method LoadString(ghost v: Value, ghost b: seq<Byte>) returns (r: Value)
      requires Ahead(b) && Encodes(Str, v, b)
      modifies this
      ensures r == v && cur == old(cur) + |b|
    {
      StringParts(v, b);
      hide Pow256, LittleEndian, Headed, Encodes;
      var size := ReadSize(|v.text|, b);
      var text := ReadBinary(size);
      r := StrV(text);
    }

    method LoadVec(elem: Type, ghost v: Value, ghost b: seq<Byte>) returns (r: Value)
      requires Ahead(b) && Encodes(Vec(elem), v, b)
      modifies this
      ensures r == v && cur == old(cur) + |b|
      decreases elem, 2
    {
      hide Encodes, Pow256, Headed, EncodesAll, StandsAt;
      ghost var items := ContainerParts(Vec(elem), v, b);
      var size := ReadSize(|items|, b);
      var loaded;
      if elem.Num? {
        loaded := LoadBulk(elem.width, size, items, b[SIZE_WIDTH..]);
      } else {
        loaded := LoadItems(elem, size, items, b[SIZE_WIDTH..]);
      }
      r := SeqV(loaded);
    }

    method LoadList(elem: Type, ghost v: Value, ghost b: seq<Byte>) returns (r: Value)
      requires Ahead(b) && Encodes(List(elem), v, b)
      modifies this
      ensures r == v && cur == old(cur) + |b|
      decreases elem, 2
    {
      hide Encodes, Pow256, Headed, EncodesAll, StandsAt;
      ghost var items := ContainerParts(List(elem), v, b);
      var size := ReadSize(|items|, b);
      var loaded := LoadItems(elem, size, items, b[SIZE_WIDTH..]);
      r := SeqV(loaded);
    }

    method LoadMap(elem: Type, ghost v: Value, ghost b: seq<Byte>) returns (r: Value)
      requires Ahead(b) && Encodes(Map(elem), v, b)
      modifies this
      ensures r == v && cur == old(cur) + |b|
      decreases elem, 2
    {
      hide Encodes, Pow256, Headed, EncodesAll, StandsAt;
      ghost var items := ContainerParts(Map(elem), v, b);
      var size := ReadSize(|items|, b);
      var m := LoadEntries(elem, size, items, v.m, b[SIZE_WIDTH..]);
      r := MapV(m);
    }

    method LoadItems(elem: Type, size: nat, ghost items: seq<Value>, ghost b: seq<Byte>) returns (loaded: seq<Value>)
      requires Ahead(b) && size == |items| && EncodesAll(elem, items, b)
      modifies this
      ensures loaded == items && cur == old(cur) + |b|
      decreases elem, 1
    {
      hide Encodes, HasType, StandsAt;
      loaded := [];
      ghost var rest := b;
      var i := 0;
      while i < size
        invariant i <= size && loaded == items[..i]
        invariant Ahead(rest) && EncodesAll(elem, items[i..], rest) && cur + |rest| == old(cur) + |b|
      {
        ghost var n := HeadParts(elem, items[i..], rest);
        assert items[i..][1..] == items[i + 1..];
        SplitAt(data, cur, rest, n);
        var x := Load(elem, items[i], rest[..n]);
        loaded := loaded + [x];
        rest := rest[n..];
        i := i + 1;
      }
    }

    method LoadEntries(elem: Type, size: nat, ghost order: seq<Value>, ghost v: map<Value, Value>, ghost b: seq<Byte>)
      returns (m: map<Value, Value>)
      requires Ahead(b) && size == |order| && IteratesOver(order, v) && EncodesAll(elem, order, b)
      modifies this
      ensures m == v && cur == old(cur) + |b|
      decreases elem, 1
    {
      NothingSeen();
      hide Encodes, EncodesAll, IteratesOver, HasType, StandsAt;
      m := map[];
      ghost var seen, left, rest := [], order, b;
      var i := 0;
      while i < size
        invariant i == |seen| <= size && order == seen + left && IteratesOver(seen, m)
        invariant Ahead(rest) && EncodesAll(elem, left, rest) && cur + |rest| == old(cur) + |b|
      {
        ghost var n := HeadParts(elem, left, rest);
        SplitAt(data, cur, rest, n);
        var entry := Load(elem, left[0], rest[..n]);
        EntryAt(order, v, seen, left);
        OneMoreEntry(seen, m, entry);
        m := m[entry.fst := entry.snd];
        assert seen + left == (seen + [left[0]]) + left[1..];
        seen, left, rest := seen + [left[0]], left[1..], rest[n..];
        i := i + 1;
      }
      assert left == [] && order == seen;
      NothingLeft(elem, left, rest);
      MapIsItsIteration(order, m, v);
    }

    /** The bulk path of load_vec. */
    method LoadBulk(w: Width, size: nat, ghost items: seq<Value>, ghost b: seq<Byte>) returns (loaded: seq<Value>)
      requires Ahead(b) && size == |items| && EncodesAll(Num(w), items, b)
      modifies this
      ensures loaded == items && cur == old(cur) + |b|
    {
      hide Product, Image, LittleEndian, FromLittleEndian, Pow256, EncodesAll;
      ItemsAreNumbers(w, items, b);
      BulkIsElementwise(items, w, b);
      assert |Image(items, w)| == Product(size, w);
      var bytes := ReadBinary(Product(size, w));
      loaded := [];
      var i := 0;
      while i < size
        invariant i <= size && loaded == items[..i] && cur == old(cur) + |b|
      {
        ImageSlice(items, w, i);
        assert HasType(Num(w), items[i]);
        NumberRoundTrip(items[i].n, w);
        loaded := loaded + [NumV(FromLittleEndian(bytes[Product(i, w)..Product(i, w) + w]))];
        i := i + 1;
      }
    }
  }

  /** Two values saved one after the other come back one after the other. */
  method SaveThenLoad(t: Type, v: Value, u: Type, x: Value) returns (r: Value, y: Value)
    requires HasType(t, v) && HasType(u, x)
    ensures r == v && y == x
  {
    hide Encodes, HasType;
    var out := new LocalSerialize();
    var b := out.Save(t, v);
    var c := out.Save(u, x);
    var source := new LocalDeserialize(out.data);
    r := source.Load(t, v, b);
    y := source.Load(u, x, c);
  }

  lemma {:induction false} ItemsAreNumbers(w: Width, items: seq<Value>, b: seq<Byte>)
    requires EncodesAll(Num(w), items, b)
    ensures forall x :: x in items ==> x.NumV? && HasType(Num(w), x)
    decreases |items|
  {
    if items != [] {
      var i := HeadParts(Num(w), items, b);
      ItemsAreNumbers(w, items[1..], b[i..]);
    }
  }

  lemma StringParts(v: Value, b: seq<Byte>)
    requires Encodes(Str, v, b)
    ensures v.StrV? && |v.text| < Pow256(SIZE_WIDTH) && Headed(b, |v.text|) && b[SIZE_WIDTH..] == v.text
  {
    hide Pow256;
  }

  /** Storing the next entry of an iteration into what was loaded so far. */
  lemma OneMoreEntry(seen: seq<Value>, m: map<Value, Value>, e: Value)
    requires IteratesOver(seen, m)
    requires e.PairV? && forall j :: 0 <= j < |seen| ==> seen[j].fst != e.fst
    ensures IteratesOver(seen + [e], m[e.fst := e.snd])
  {
    IterationCovers(seen, m);
    assert e.fst !in m;
  }

  lemma EntryAt(order: seq<Value>, m: map<Value, Value>, seen: seq<Value>, left: seq<Value>)
    requires IteratesOver(order, m) && order == seen + left && left != []
    ensures left[0].PairV?
    ensures forall j :: 0 <= j < |seen| ==> seen[j].PairV? && seen[j].fst != left[0].fst
  {
    assert order[|seen|] == left[0];
    assert forall j :: 0 <= j < |seen| ==> order[j] == seen[j];
  }

  lemma NothingSeen()
    ensures IteratesOver([], map[])
  {
  }
}
