/** The pixel buffer of `NeoPixel` seen as a value: how an index is
    resolved, what `np[index]` returns for the buffer's bytes, and what
    `np[index] = value` and `np.rotate(count)` leave in the buffer, each as
    a function of the bytes. The buffer of a strip of n pixels holds 12 * n
    bytes; channel c of pixel i is the expansion of one value stored at
    bytes [12 * i + 4 * c, 12 * i + 4 * c + 4). */
module Pixels {
  import opened Py
  import opened Codec

  /** An index as `__getitem__` and `__setitem__` receive it: an integer,
      a tuple (of which only `(pixel, channel)` with two integers is
      accepted), or a slice. */
  datatype Index =
    | IntIndex(i: int)
    | TupleIndex(parts: seq<Index>)
    | SliceIndex(start: Option<int>, stop: Option<int>, step: Option<int>)

  /** A value as `__setitem__` receives it and `__getitem__` returns it:
      an integer, a tuple of integers or a list. */
  datatype Value = IntValue(v: int) | TupleValue(items: seq<int>) | ListValue(elems: seq<Value>)

  /** A 3-tuple, the only value a pixel accepts. */
  predicate IsTriple(v: Value) {
    v.TupleValue? && |v.items| == 3
  }

  predicate AllTriples(vs: seq<Value>) {
    forall k :: 0 <= k < |vs| ==> IsTriple(vs[k])
  }

  predicate AreTriples(ts: seq<seq<int>>) {
    forall k :: 0 <= k < |ts| ==> |ts[k]| == 3
  }

  /** The components of a triple as the buffer keeps them: their low eight
      bits. */
  function Low8(t: seq<int>): (r: seq<int>)
    requires |t| == 3
    ensures |r| == 3 && forall c :: 0 <= c < 3 ==> 0 <= r[c] < 256
  {
    [t[0] % 256, t[1] % 256, t[2] % 256]
  }

  // ---------------------------------------------------------------------
  // Resolving an index

  /** One bound of `_unpack_slice`: a missing bound takes its default and a
      negative one has n added, once, with no clamping. */
  function FromEnd(n: nat, bound: Option<int>, default: int): int {
    match bound
    case None => default
    case Some(x) => if x < 0 then x + n else x
  }

  /** `_unpack_slice`: a step other than None or 1 raises
      NotImplementedError; otherwise the start and stop bounds, in pixels. */
  function UnpackSlice(n: nat, start: Option<int>, stop: Option<int>, step: Option<int>)
    : (r: Result<(int, int)>)
    ensures r.Failure? <==> step.Some? && step.value != 1
    ensures r.Failure? ==> r.error == NotImplementedError
  {
    if step.Some? && step.value != 1 then Failure(NotImplementedError)
    else Success((FromEnd(n, start, 0), FromEnd(n, stop, n)))
  }

  /** Clamping a bound 12 times a pixel bound to a buffer of 12n bytes is
      clamping the pixel bound to n pixels, scaled. */
  lemma BoundScaled(n: nat, x: int)
    ensures Bound(12 * n, 12 * x) == 12 * Bound(n, x)
  {
  }

  /** The bytes [lo, hi) of the view `data[start*12:stop*12]` for the bounds
      `_unpack_slice` returned: the view's own slicing adds the length again
      to a bound that is still negative, and clamps. It covers the whole
      pixels that slicing a list of n pixels at the same bounds covers. */
  function SliceBytes(n: nat, s: int, t: int): (r: (nat, nat))
    ensures var p := PySlice(n, s, t); r == (12 * p.0, 12 * p.1)
  {
    BoundScaled(n, s);
    BoundScaled(n, t);
    PySlice(12 * n, 12 * s, 12 * t)
  }

  /** The bytes [lo, hi) of the buffer the view `data[start*12:stop*12]`
      of a slice index covers. */
  function SliceView(n: nat, start: Option<int>, stop: Option<int>, step: Option<int>)
    : (r: Result<(nat, nat)>)
    ensures r.Failure? <==> step.Some? && step.value != 1
    ensures r.Failure? ==> r.error == NotImplementedError
  {
    var st :- UnpackSlice(n, start, stop, step);
    Success(SliceBytes(n, st.0, st.1))
  }

  /** The pixels [lo, hi) a slice index addresses: the view, in pixels. */
  function SliceRange(n: nat, start: Option<int>, stop: Option<int>, step: Option<int>)
    : (r: Result<(nat, nat)>)
    ensures r.Success? <==> step.None? || step.value == 1
    ensures r.Success? ==> r.value.0 <= r.value.1 <= n
    ensures r.Success? ==> SliceView(n, start, stop, step) == Success((12 * r.value.0, 12 * r.value.1))
  {
    var w :- SliceView(n, start, stop, step);
    Success((w.0 / 12, w.1 / 12))
  }

  /** The checks both `__getitem__` and `__setitem__` make of a tuple index,
      in their order, and the byte offset `ind1*12 + ind2*4` they go on to
      use. */
  function PairOffset(n: nat, parts: seq<Index>): (r: Result<int>)
    ensures r.Success? <==> && |parts| == 2 && parts[0].IntIndex? && parts[1].IntIndex?
                            && -(n as int) <= parts[0].i < n && 0 <= parts[1].i < 3
    ensures r.Success? ==> r.value == 12 * parts[0].i + 4 * parts[1].i
    ensures r.Failure? ==>
              r.error == if |parts| == 2 && parts[0].SliceIndex? then NotImplementedError else IndexError
  {
    if |parts| != 2 then Failure(IndexError)
    else if parts[0].SliceIndex? then Failure(NotImplementedError)
    else if !parts[0].IntIndex? || !parts[1].IntIndex? then Failure(IndexError)
    else
      var p, c := parts[0].i, parts[1].i;
      if p < -(n as int) || p >= n || c < 0 || c >= 3 then Failure(IndexError)
      else Success(12 * p + 4 * c)
  }

  // ---------------------------------------------------------------------
  // Reading

  /** `_compress_byte(data[o:o+4])`: the view is taken with Python's slice
      rules, so a negative offset counts from the end of the buffer. */
  function ReadChannel(bytes: seq<byte>, o: int): (r: Result<int>)
    ensures r.Success? ==> 0 <= r.value < 256
  {
    var w := PySlice(|bytes|, o, o + 4);
    Compress(bytes[w.0..w.1])
  }

  /** The tuple `np[i]` builds from the views at offsets o, o + 4 and
      o + 8, compressed in that order; the first that raises ends it. */
  function ReadTriple(bytes: seq<byte>, o: int): (r: Result<Value>)
    ensures r.Success? ==> IsTriple(r.value)
  {
    var c0 :- ReadChannel(bytes, o);
    var c1 :- ReadChannel(bytes, o + 4);
    var c2 :- ReadChannel(bytes, o + 8);
    Success(TupleValue([c0, c1, c2]))
  }

  /** The triple held by the 12 bytes at position i of a view. */
  function PixelAt(dd: seq<byte>, i: nat): (r: Value)
    requires i + 12 <= |dd|
    ensures IsTriple(r)
  {
    TupleValue([Compress(dd[i..i + 4]).value, Compress(dd[i + 4..i + 8]).value,
                Compress(dd[i + 8..i + 12]).value])
  }

  /** The list comprehension `__getitem__` builds for a slice: one triple for
      each 12-byte group of the view, in order. */
  function Decode(dd: seq<byte>): (r: seq<Value>)
    requires |dd| % 12 == 0
    ensures |r| == |dd| / 12 && AllTriples(r)
  {
    seq(|dd| / 12, k requires 0 <= k < |dd| / 12 => PixelAt(dd, 12 * k))
  }

  /** The triples of the pixels [lo, hi) of a buffer, as Decode gives them. */
  function DecodeRun(bytes: seq<byte>, lo: nat, hi: nat): (r: seq<Value>)
    requires lo <= hi && 12 * hi <= |bytes|
    ensures |r| == hi - lo && AllTriples(r)
  {
    assert |bytes[12 * lo..12 * hi]| == 12 * (hi - lo);
    Decode(bytes[12 * lo..12 * hi])
  }

  /** `np[i]` for an integer i: the range check, then the three views of
      pixel i (at a negative byte offset when i is negative). */
  function ReadPixel(bytes: seq<byte>, n: nat, i: int): (r: Result<Value>)
    requires |bytes| == 12 * n
    ensures r.Success? ==> IsTriple(r.value)
  {
    if i < -(n as int) || i >= n then Failure(IndexError)
    else ReadTriple(bytes, 12 * i)
  }

  /** `np[p, c]`: the checks of the tuple, then the view of one channel. */
  function ReadPair(bytes: seq<byte>, n: nat, parts: seq<Index>): (r: Result<Value>)
    ensures r.Success? ==> r.value.IntValue? && 0 <= r.value.v < 256
  {
    var o :- PairOffset(n, parts);
    var v :- ReadChannel(bytes, o);
    Success(IntValue(v))
  }

  /** `np[s:t]`: the triples of the whole pixels the slice covers. */
  function ReadSlice(bytes: seq<byte>, n: nat, start: Option<int>, stop: Option<int>, step: Option<int>)
    : (r: Result<Value>)
    requires |bytes| == 12 * n
    ensures r.Success? ==> r.value.ListValue? && AllTriples(r.value.elems)
  {
    var w :- SliceView(n, start, stop, step);
    Success(ListValue(Decode(bytes[w.0..w.1])))
  }

  /** `np[index]` for a buffer holding `bytes`. */
  function Read(bytes: seq<byte>, n: nat, index: Index): (r: Result<Value>)
    requires |bytes| == 12 * n
    ensures r.Success? && index.IntIndex? ==> IsTriple(r.value)
    ensures r.Success? && index.TupleIndex? ==> r.value.IntValue? && 0 <= r.value.v < 256
    ensures r.Success? && index.SliceIndex? ==> r.value.ListValue? && AllTriples(r.value.elems)
  {
    match index
    case IntIndex(i) => ReadPixel(bytes, n, i)
    case TupleIndex(parts) => ReadPair(bytes, n, parts)
    case SliceIndex(start, stop, step) => ReadSlice(bytes, n, start, stop, step)
  }

  // ---------------------------------------------------------------------
  // Writing

  /** `_expand_byte(b, data[o:o+4])`. */
  function ExpandAt(bytes: seq<byte>, b: int, o: int): (r: Step)
    ensures |r.bytes| == |bytes|
  {
    var w := PySlice(|bytes|, o, o + 4);
    ExpandInto(bytes, b, w.0, w.1)
  }

  /** The three `_expand_byte` calls of `np[i] = t`, at offsets o, o + 4 and
      o + 8, stopping at the first that raises. */
  function WriteTriple(bytes: seq<byte>, o: int, t: seq<int>): (r: Step)
    requires |t| == 3
    ensures |r.bytes| == |bytes|
  {
    var s0 := ExpandAt(bytes, t[0], o);
    if s0.raised.Some? then s0
    else
      var s1 := ExpandAt(s0.bytes, t[1], o + 4);
      if s1.raised.Some? then s1
      else ExpandAt(s1.bytes, t[2], o + 8)
  }

  /** The 12 wire bytes of one pixel. */
  function PixelBytes(t: seq<int>): (r: seq<byte>)
    requires |t| == 3
    ensures |r| == 12
  {
    Expand(t[0]) + Expand(t[1]) + Expand(t[2])
  }

  /** The wire bytes of a run of pixels, pixel k at bytes [12k, 12k + 12). */
  function Encode(ts: seq<seq<int>>): (r: seq<byte>)
    requires AreTriples(ts)
    ensures |r| == 12 * |ts|
  {
    if ts == [] then []
    else Encode(ts[..|ts| - 1]) + PixelBytes(ts[|ts| - 1])
  }

  /** Pixel k of an encoded run is at bytes [12k, 12k + 12). */
  lemma {:induction false} EncodePixel(ts: seq<seq<int>>, k: nat)
    requires AreTriples(ts) && k < |ts|
    ensures Encode(ts)[12 * k..12 * k + 12] == PixelBytes(ts[k])
  {
    var front := ts[..|ts| - 1];
    var e := Encode(front);
    assert Encode(ts) == e + PixelBytes(ts[|ts| - 1]);
    if k < |ts| - 1 {
      EncodePixel(front, k);
      assert Encode(ts)[12 * k..12 * k + 12] == e[12 * k..12 * k + 12];
    } else {
      assert Encode(ts)[12 * k..12 * k + 12] == PixelBytes(ts[|ts| - 1]);
    }
  }

  /** The run of m copies of the triple t, which a 3-tuple assigned to a
      slice of m pixels writes. */
  function Copies(m: nat, t: seq<int>): (ts: seq<seq<int>>)
    ensures |ts| == m && forall k :: 0 <= k < m ==> ts[k] == t
  {
    seq(m, _ => t)
  }

  /** The buffer with the run of pixels `ts` written from byte lo on. */
  function Paint(bytes: seq<byte>, lo: nat, ts: seq<seq<int>>): (r: seq<byte>)
    requires AreTriples(ts) && lo + 12 * |ts| <= |bytes|
    ensures |r| == |bytes|
  {
    bytes[..lo] + Encode(ts) + bytes[lo + 12 * |ts|..]
  }

  /** The triples `np[s:t] = [...]` writes into a non-empty run of m
      pixels: the loop walks the view in steps of 12 bytes and reads
      `value[i//3]` with i the byte offset, so pixel k of the run takes
      element 4k of the list, and the loop stops at the first k with 4k
      past the end of the list. */
  function ListRun(m: nat, elems: seq<Value>): (ts: seq<seq<int>>)
    requires AllTriples(elems)
    ensures |ts| <= m && AreTriples(ts)
  {
    var k := if (|elems| + 3) / 4 < m then (|elems| + 3) / 4 else m;
    seq(k, j requires 0 <= j < k => elems[4 * j].items)
  }

  /** The list assignment: the run of ListRun is written, and IndexError is
      raised, after the writes, when the loop stopped early; elements in
      between are ignored. */
  function ListWrite(bytes: seq<byte>, lo: nat, m: nat, elems: seq<Value>): (r: Step)
    requires AllTriples(elems) && lo + 12 * m <= |bytes|
    ensures |r.bytes| == |bytes|
  {
    var ts := ListRun(m, elems);
    Step(Paint(bytes, lo, ts), if |ts| < m then Some(IndexError) else None)
  }

  /** `np[i] = value`: the range check, the check that value is a 3-tuple,
      then the three stores. */
  function WritePixel(bytes: seq<byte>, n: nat, i: int, value: Value): (r: Step)
    requires |bytes| == 12 * n
    ensures |r.bytes| == |bytes|
  {
    if i < -(n as int) || i >= n then Step(bytes, Some(IndexError))
    else if !IsTriple(value) then Step(bytes, Some(ValueError))
    else WriteTriple(bytes, 12 * i, value.items)
  }

  /** `np[p, c] = value`: the checks of the tuple, the check that value is
      an integer in 0..255, then the store of one channel. */
  function WritePair(bytes: seq<byte>, n: nat, parts: seq<Index>, value: Value): (r: Step)
    ensures |r.bytes| == |bytes|
  {
    match PairOffset(n, parts)
    case Failure(e) => Step(bytes, Some(e))
    case Success(o) =>
      if !value.IntValue? || value.v < 0 || value.v > 255 then Step(bytes, Some(ValueError))
      else ExpandAt(bytes, value.v, o)
  }

  /** An assignment to the view `dd` of the bytes [lo, hi): nothing
      happens for an empty view; a 3-tuple is written to every pixel of it,
      a list of 3-tuples goes through ListWrite, and any other value raises
      ValueError. */
  function WriteView(bytes: seq<byte>, lo: nat, hi: nat, value: Value): (r: Step)
    requires lo <= hi <= |bytes|
    ensures |r.bytes| == |bytes|
  {
    var m := (hi - lo) / 12;
    if m == 0 then Step(bytes, None)
    else if IsTriple(value) then Step(Paint(bytes, lo, Copies(m, value.items)), None)
    else if value.ListValue? && AllTriples(value.elems) then ListWrite(bytes, lo, m, value.elems)
    else Step(bytes, Some(ValueError))
  }

  /** `np[s:t] = value`: the bounds are unpacked and the assignment goes to
      the view of the pixels they address. */
  function WriteSlice(bytes: seq<byte>, n: nat, start: Option<int>, stop: Option<int>, step: Option<int>,
                      value: Value): (r: Step)
    requires |bytes| == 12 * n
    ensures |r.bytes| == |bytes|
  {
    match SliceView(n, start, stop, step)
    case Failure(e) => Step(bytes, Some(e))
    case Success(w) => WriteView(bytes, w.0, w.1, value)
  }

  /** `np[index] = value` on a buffer holding `bytes`. */
  function Write(bytes: seq<byte>, n: nat, index: Index, value: Value): (r: Step)
    requires |bytes| == 12 * n
    ensures |r.bytes| == |bytes|
  {
    match index
    case IntIndex(i) => WritePixel(bytes, n, i, value)
    case TupleIndex(parts) => WritePair(bytes, n, parts, value)
    case SliceIndex(start, stop, step) => WriteSlice(bytes, n, start, stop, step, value)
  }

  // ---------------------------------------------------------------------
  // Rotating

  /** `np.rotate(count)`: `count % n` raises ZeroDivisionError on an empty
      strip. With c = 12 * (count % n) bytes, the last c bytes move to the
      front. When c is 0 the copy `data[:-0]` is empty, so assigning it to
      `data[0:]` raises ValueError and nothing changes. */
  function Rotated(bytes: seq<byte>, n: nat, count: int): (r: Step)
    requires |bytes| == 12 * n
    ensures |r.bytes| == |bytes|
    ensures r.raised.None? <==> n > 0 && count % n != 0
    ensures r.raised.Some? ==> r.bytes == bytes
  {
    if n == 0 then Step(bytes, Some(ZeroDivisionError))
    else
      var c := 12 * (count % n);
      if c == 0 then Step(bytes, Some(ValueError))
      else Step(bytes[12 * n - c..] + bytes[..12 * n - c], None)
  }
}
