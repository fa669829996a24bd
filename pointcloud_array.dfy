/** The typeless dense array of a point cloud (WireCellUtil/PointCloudArray.h):
    a flat, row-major byte buffer with a shape, an element size and a dtype
    string. The bytes are reached through a view that points either into
    the caller's memory (sharing) or into the array's own store. */
module PointCloudArray {
  import opened Wrappers

  type Byte = b: int | 0 <= b < 256

  /** 2^64: `size_t` arithmetic wraps modulo this. */
  const Word: nat := 0x1_0000_0000_0000_0000

  /** `sizeof(T)`: never zero and representable in a `size_t`. */
  type Size = n: nat | 0 < n < Word witness 1

  /** What the array learns from its template argument `ElementType`: the
      dtype string and `sizeof`. */
  datatype ElementType = ElementType(dtype: string, size: Size)

  /** Where `m_bytes` points: `len` bytes at the start of the caller's
      buffer, or the whole of the array's own store. */
  datatype View = Caller(buf: array<Byte>, len: nat) | Store

  /** Product of the dimensions, the number of elements of the shape. */
  function Product(shape: seq<nat>): nat
  {
    if shape == [] then 1 else shape[0] * Product(shape[1..])
  }

  /** The byte count `assign` computes: `sizeof(T)` multiplied by every
      dimension in order, each product truncated to a `size_t`. */
  function NBytes(size: Size, shape: seq<nat>): (n: nat)
    ensures n < Word
  {
    if shape == [] then size
    else (NBytes(size, shape[..|shape| - 1]) * shape[|shape| - 1]) % Word
  }

  lemma {:induction false} ProductSnoc(s: seq<nat>, x: nat)
    ensures Product(s + [x]) == Product(s) * x
  {
    if s != [] {
      assert (s + [x])[1..] == s[1..] + [x];
      ProductSnoc(s[1..], x);
      assert Product(s + [x]) == s[0] * (Product(s[1..]) * x);
    }
  }

  lemma MulAssoc(a: nat, b: nat, c: nat)
    ensures a * (b * c) == (a * b) * c
  {
  }

  lemma MulGrows(a: nat, x: nat)
    requires x >= 1
    ensures a <= a * x
  {
    assert a * x == a + a * (x - 1);
  }

  lemma MulMono(a: nat, b: nat, c: nat)
    requires a <= b
    ensures a * c <= b * c
  {
    assert b * c == a * c + (b - a) * c;
  }

  /** Without wrap-around the byte count is `sizeof(T)` times the number of
      elements. */
  lemma {:induction false} NBytesExact(size: Size, shape: seq<nat>)
    requires size * Product(shape) < Word
    ensures NBytes(size, shape) == size * Product(shape)
  {
    if shape != [] {
      var p, x := shape[..|shape| - 1], shape[|shape| - 1];
      assert shape == p + [x];
      ProductSnoc(p, x);
      MulAssoc(size, Product(p), x);
      var before := size * Product(p);
      assert size * Product(shape) == before * x;
      if x == 0 {
        assert before * x == 0;
      } else {
        MulGrows(before, x);
        NBytesExact(size, p);
        assert NBytes(size, shape) == (before * x) % Word;
      }
    }
  }

  lemma NBytesOne(size: Size, n: nat)
    requires n * size < Word
    ensures NBytes(size, [n]) == n * size
  {
    assert [n][..0] == [];
    assert NBytes(size, [n]) == (size * n) % Word;
  }

  /** The wrap-around is real: two dimensions of 2^32 give a byte count of
      0 for one-byte elements. */
  lemma NBytesWraps()
    ensures NBytes(1, [0x1_0000_0000, 0x1_0000_0000]) == 0
    ensures 1 * Product([0x1_0000_0000, 0x1_0000_0000]) == Word
  {
    assert [0x1_0000_0000, 0x1_0000_0000][..1] == [0x1_0000_0000];
    assert [0x1_0000_0000][..0] == [];
  }

  lemma ChunkFits(n: nat, size: Size, i: nat)
    requires i < n / size
    ensures i * size + size <= n
  {
    var q := n / size;
    assert q * size <= n;
    MulMono(i + 1, q, size);
    assert (i + 1) * size == i * size + size;
  }

  /** The `i`-th element of type `size` read from `bytes`. */
  function Chunk(bytes: seq<Byte>, size: Size, i: nat): (r: seq<Byte>)
    requires i < |bytes| / size
    ensures |r| == size && i * size + size <= |bytes|
    ensures forall k :: 0 <= k < size ==> r[k] == bytes[i * size + k]
  {
    ChunkFits(|bytes|, size, i);
    var start := i * size;
    bytes[start..start + size]
  }

  /** The bytes reinterpreted as elements of `size` bytes each, as
      `reinterpret_cast` does; trailing bytes that do not fill an element
      are not part of the span. */
  function Chop(bytes: seq<Byte>, size: Size): (r: seq<seq<Byte>>)
    ensures |r| == |bytes| / size
  {
    seq(|bytes| / size, i requires 0 <= i < |bytes| / size => Chunk(bytes, size, i))
  }

  lemma DivMod(j: nat, size: Size)
    ensures j == (j / size) * size + j % size
    ensures j % size < size
  {
  }

  /** Byte `k` of element `i` is byte `i * size + k` of the buffer. */
  lemma ChopAt(bytes: seq<Byte>, size: Size, i: nat, k: nat)
    requires i < |bytes| / size && k < size
    ensures i < |Chop(bytes, size)| && |Chop(bytes, size)[i]| == size
    ensures i * size + k < |bytes| && Chop(bytes, size)[i][k] == bytes[i * size + k]
  {
    assert Chop(bytes, size)[i] == Chunk(bytes, size, i);
  }

  lemma DivExact(a: nat, b: Size)
    ensures (a * b) / b == a
  {
    var n := a * b;
    var q := n / b;
    DivMod(n, b);
    if a > q {
      assert (q + 1) * b == q * b + b;
      MulMono(q + 1, a, b);
    } else if a < q {
      assert (a + 1) * b == a * b + b;
      MulMono(a + 1, q, b);
    }
  }

  class Array {
    var shape: seq<nat>
    var eleSize: nat
    var dtype: string
    /** Empty whenever the array shares the caller's data. */
    var store: seq<Byte>
    var view: View

    /** The objects besides `this` whose state the array's bytes depend on. */
    function Footprint(): set<object>
      reads this
    {
      if view.Caller? then {view.buf} else {}
    }

    /** The view stays inside its buffer, a shared array has an empty store,
        and the view holds the bytes `assign` computed for the shape. */
    predicate Valid()
      reads this, Footprint()
    {
      (view.Caller? ==> view.len <= view.buf.Length && store == [])
      && (if 0 < eleSize < Word then |Bytes()| == NBytes(eleSize, shape)
          else eleSize == 0 && Bytes() == [])
    }

    /** `bytes()`: the bytes seen through the view. */
    function Bytes(): seq<Byte>
      reads this, Footprint()
    {
      if view.Caller? then
        if view.len <= view.buf.Length then view.buf[..view.len] else []
      else store
    }

    /** `Array() = default`. */
    constructor Empty()
      ensures Valid() && shape == [] && eleSize == 0 && dtype == ""
      ensures store == [] && view == Store && Bytes() == []
    {
      shape, eleSize, dtype, store, view := [], 0, "", [], Store;
    }

    /** `Array(elements, shape, share)` for a pointer or for a range. */
    constructor (t: ElementType, elements: array<Byte>, shape: seq<nat>, share: bool)
      requires NBytes(t.size, shape) <= elements.Length
      ensures Valid() && this.shape == shape && eleSize == t.size && dtype == t.dtype
      ensures Bytes() == elements[..NBytes(t.size, shape)]
      ensures share ==> view == Caller(elements, NBytes(t.size, shape)) && store == []
      ensures !share ==> view == Store && store == elements[..NBytes(t.size, shape)]
    {
      this.shape, eleSize, dtype, store, view := [], 0, "", [], Store;
      new;
      Assign(t, elements, shape, share);
    }

    /** The one-dimensional range and initializer-list constructors: `n`
        elements copied into the store under shape `{n}`. */
    constructor FromRange(t: ElementType, r: array<Byte>, n: nat)
      requires n * t.size <= r.Length && n * t.size < Word
      ensures Valid() && shape == [n] && eleSize == t.size && dtype == t.dtype
      ensures view == Store && store == r[..n * t.size] && Bytes() == store
    {
      shape, eleSize, dtype, store, view := [], 0, "", [], Store;
      new;
      NBytesOne(t.size, n);
      Assign(t, r, [n], false);
    }

    /** `clear()`. */
    method Clear()
      modifies this
      ensures Valid() && shape == [] && eleSize == 0 && dtype == ""
      ensures store == [] && view == Store && Bytes() == []
    {
      store := [];
      dtype := "";
      view := Store;
      shape := [];
      eleSize := 0;
    }

    /** `assign(elements, shape, share)`: discard the held data and take
        `sizeof(T)` times the product of the shape bytes from `elements`,
        either by viewing them in place or by copying them into the
        store. */
    method Assign(t: ElementType, elements: array<Byte>, shape: seq<nat>, share: bool)
      requires NBytes(t.size, shape) <= elements.Length
      modifies this
      ensures Valid() && this.shape == shape && eleSize == t.size && dtype == t.dtype
      ensures Bytes() == elements[..NBytes(t.size, shape)]
      ensures share ==> view == Caller(elements, NBytes(t.size, shape)) && store == []
      ensures !share ==> view == Store && store == elements[..NBytes(t.size, shape)]
    {
      Clear();
      dtype := t.dtype;
      this.shape := shape;
      eleSize := t.size;
      var nbytes: nat := t.size;
      var i := 0;
      while i < |shape|
        invariant 0 <= i <= |shape|
        invariant nbytes == NBytes(t.size, shape[..i])
      {
        assert shape[..i + 1][..i] == shape[..i];
        nbytes := (nbytes * shape[i]) % Word;
        i := i + 1;
      }
      assert shape[..i] == shape;
      if share {
        view := Caller(elements, nbytes);
      } else {
        store := elements[..nbytes];
        view := Store;
      }
    }

    /** `assure_mutable()`: a sharing array copies the viewed bytes into its
        store and views that instead. The bytes, shape, element size and
        dtype stay as they were, and an array that already views its store
        is left alone, so a second call changes nothing. */
    method AssureMutable()
      requires Valid()
      modifies this
      ensures Valid() && view == Store
      ensures Bytes() == old(Bytes()) && store == old(Bytes())
      ensures shape == old(shape) && eleSize == old(eleSize) && dtype == old(dtype)
      ensures old(view) == Store ==> store == old(store)
    {
      if store == [] {
        store := Bytes();
        view := Store;
      }
    }

    /** `elements<T>()`: the bytes as a flat span of `T`. */
    function Elements(t: ElementType): (r: Result<seq<seq<Byte>>>)
      reads this, Footprint()
      ensures r.Ok? <==> t.size == eleSize
      ensures r.Err? ==> r.error == ValueError
      ensures r.Ok? ==> |r.value| == |Bytes()| / t.size
    {
      if t.size != eleSize then Err(ValueError) else Ok(Chop(Bytes(), t.size))
    }

    /** `indexed<T, N>()`: the same elements addressed by the shape. */
    function Indexed(t: ElementType, numDims: nat): (r: Result<(seq<seq<Byte>>, seq<nat>)>)
      reads this, Footprint()
      ensures r.Ok? <==> t.size == eleSize && numDims == |shape|
      ensures r.Err? ==> r.error == ValueError
      ensures r.Ok? ==> Elements(t) == Ok(r.value.0) && r.value.1 == shape
    {
      if t.size != eleSize then Err(ValueError)
      else if numDims != |shape| then Err(ValueError)
      else Ok((Chop(Bytes(), t.size), shape))
    }

    /** `size_major()`: the length of the first axis. */
    function SizeMajor(): (n: nat)
      reads this
      ensures shape == [] ==> n == 0
      ensures shape != [] ==> n == shape[0] && Product(shape) == n * Product(shape[1..])
    {
      if shape == [] then 0 else shape[0]
    }

    /** `is_type<T>()`: the array holds `T`s by dtype; an array without a
        dtype holds no type. */
    function IsType(t: ElementType): (b: bool)
      reads this
      ensures dtype == "" ==> !b
      ensures dtype != "" ==> (b <==> t.dtype == dtype)
    {
      if dtype == "" then false else t.dtype == dtype
    }

    /** A valid array whose byte count did not wrap spans exactly one
        element per entry of its shape, `size_major()` rows of them. */
    lemma ElementCount(t: ElementType)
      requires Valid() && t.size == eleSize
      requires eleSize * Product(shape) < Word
      ensures Elements(t).Ok? && |Elements(t).value| == Product(shape)
      ensures shape != [] ==> |Elements(t).value| == SizeMajor() * Product(shape[1..])
    {
      NBytesExact(t.size, shape);
      DivExact(Product(shape), t.size);
      assert Product(shape) * t.size == t.size * Product(shape);
    }
  }
}
