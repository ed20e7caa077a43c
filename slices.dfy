/** What slice indices address, and what reading and writing through them
    promise, stated over the functions of module Pixels and proved. */
module SliceProperties {
  import opened Py
  import opened Pixels
  import opened Properties

  // ---------------------------------------------------------------------
  // The pixels a slice addresses

  /** A slice whose bounds are None or at least -n addresses the pixels
      Python's own slicing of an n-element list addresses: a missing start
      is 0, a missing stop is n, a negative bound counts from the end, and
      bounds are clamped to [0, n]. */
  lemma {:induction false} SliceRangeIsListSlice(n: nat, start: Option<int>, stop: Option<int>, step: Option<int>)
    requires step.None? || step.value == 1
    requires start.Some? ==> start.value >= -(n as int)
    requires stop.Some? ==> stop.value >= -(n as int)
    ensures SliceRange(n, start, stop, step)
            == Success(PySlice(n, if start.None? then 0 else start.value, if stop.None? then n else stop.value))
  {
    var a := if start.None? then 0 else start.value;
    var b := if stop.None? then n else stop.value;
    var a', b' := FromEnd(n, start, 0), FromEnd(n, stop, n);
    assert UnpackSlice(n, start, stop, step) == Success((a', b'));
    var p := PySlice(n, a', b');
    assert p == PySlice(n, a, b);
    Twelfths(p.0);
    Twelfths(p.1);
  }

  lemma Twelfths(x: int)
    ensures (12 * x) / 12 == x
  {
  }

  /** The view of the bytes [12 lo, 12 hi) holds hi - lo pixels. */
  lemma ViewPixels(lo: int, hi: int)
    ensures (12 * hi - 12 * lo) / 12 == hi - lo
  {
    assert 12 * hi - 12 * lo == 12 * (hi - lo);
  }

  /** `np[:]` addresses every pixel. */
  lemma WholeSlice(n: nat)
    ensures SliceRange(n, None, None, None) == Success((0, n))
  {
    SliceRangeIsListSlice(n, None, None, None);
  }

  /** A start in [-2n, -n) is not clamped to 0 as Python's list slicing
      would: `_unpack_slice` adds n, and the view then adds the buffer's
      length to the still negative bound, so the slice starts at pixel
      start + 2n. */
  lemma {:induction false} StartWrapsTwice(n: nat, a: int)
    requires -2 * (n as int) <= a < -(n as int)
    ensures SliceRange(n, Some(a), None, None) == Success((a + 2 * n, n))
    ensures PySlice(n, a, n) == (0, n)
  {
    assert FromEnd(n, Some(a), 0) == a + n;
    assert Bound(12 * n, 12 * (a + n)) == 12 * (a + 2 * n);
  }

  /** The stop bound wraps the same way: a stop in [-2n, -n) ends the range
      at stop + 2n, where a list slice from 0 would be empty. */
  lemma {:induction false} StopWrapsTwice(n: nat, b: int)
    requires -2 * (n as int) <= b < -(n as int)
    ensures SliceRange(n, None, Some(b), None) == Success((0, (b + 2 * n) as nat))
    ensures PySlice(n, 0, b) == (0, 0)
  {
    assert FromEnd(n, Some(b), n) == b + n;
    assert Bound(12 * n, 12 * (b + n)) == 12 * (b + 2 * n);
  }

  /** A step other than None or 1 is refused by reads and writes alike,
      and nothing is written. */
  lemma StepRejected(bytes: seq<byte>, n: nat, start: Option<int>, stop: Option<int>, k: int, value: Value)
    requires |bytes| == 12 * n && k != 1
    ensures Read(bytes, n, SliceIndex(start, stop, Some(k))) == Failure(NotImplementedError)
    ensures Write(bytes, n, SliceIndex(start, stop, Some(k)), value) == Step(bytes, Some(NotImplementedError))
  {
  }

  // ---------------------------------------------------------------------
  // Reading a slice

  /** Pixel i of the buffer, read through an integer index, is the triple
      at bytes [12i, 12i + 12). */
  lemma ReadPixelAt(bytes: seq<byte>, n: nat, i: int)
    requires |bytes| == 12 * n && 0 <= i < n
    ensures Read(bytes, n, IntIndex(i)) == Success(PixelAt(bytes, 12 * i))
  {
    var o := 12 * i;
    ReadPixelInRange(bytes, n, i);
    ChannelInside(bytes, o);
    ChannelInside(bytes, o + 4);
    ChannelInside(bytes, o + 8);
  }

  /** The triple at position 12k of the view bytes[a..b] is the triple at
      a + 12k of the buffer. */
  lemma PixelInWindow(bytes: seq<byte>, a: nat, b: nat, k: nat)
    requires a <= b <= |bytes| && a + 12 * k + 12 <= b
    ensures PixelAt(bytes[a..b], 12 * k) == PixelAt(bytes, a + 12 * k)
  {
    var o := 12 * k;
    SliceOfSlice(bytes, a, b, o, o + 4);
    SliceOfSlice(bytes, a, b, o + 4, o + 8);
    SliceOfSlice(bytes, a, b, o + 8, o + 12);
  }

  /** `np[s:t]` is the list of the pixels it addresses, each as `np[i]`
      reads it. */
  lemma {:induction false} ReadSliceIsPixelwise(bytes: seq<byte>, n: nat, start: Option<int>, stop: Option<int>,
                                               step: Option<int>, lo: nat, hi: nat)
    requires |bytes| == 12 * n && SliceRange(n, start, stop, step) == Success((lo, hi))
    ensures var r := Read(bytes, n, SliceIndex(start, stop, step));
      && r.Success? && |r.value.elems| == hi - lo
      && forall k :: 0 <= k < hi - lo ==> Read(bytes, n, IntIndex(lo + k)) == Success(r.value.elems[k])
  {
    assert SliceView(n, start, stop, step) == Success((12 * lo, 12 * hi));
    assert DecodeRun(bytes, lo, hi) == Decode(bytes[12 * lo..12 * hi]);
    DecodeIsPixelwise(bytes, n, lo, hi);
  }

  /** The triples decoded from the bytes of pixels [lo, hi) are those
      pixels as `np[i]` reads them. */
  lemma DecodeIsPixelwise(bytes: seq<byte>, n: nat, lo: nat, hi: nat)
    requires |bytes| == 12 * n && lo <= hi <= n
    ensures var elems := DecodeRun(bytes, lo, hi);
      forall k :: 0 <= k < hi - lo ==> Read(bytes, n, IntIndex(lo + k)) == Success(elems[k])
  {
    var dd := bytes[12 * lo..12 * hi];
    var elems := DecodeRun(bytes, lo, hi);
    forall k | 0 <= k < hi - lo
      ensures Read(bytes, n, IntIndex(lo + k)) == Success(elems[k])
    {
      assert elems[k] == PixelAt(dd, 12 * k);
      PixelInWindow(bytes, 12 * lo, 12 * hi, k);
      assert 12 * lo + 12 * k == 12 * (lo + k);
      ReadPixelAt(bytes, n, lo + k);
    }
  }

  // ---------------------------------------------------------------------
  // Writing a slice

  /** Pixel k of a painted run holds the wire form of the k-th triple. */
  lemma PaintedPixel(bytes: seq<byte>, lo: nat, ts: seq<seq<int>>, k: nat)
    requires AreTriples(ts) && lo + 12 * |ts| <= |bytes| && k < |ts|
    ensures Paint(bytes, lo, ts)[lo + 12 * k..lo + 12 * k + 12] == PixelBytes(ts[k])
  {
    var e := Encode(ts);
    var r := Paint(bytes, lo, ts);
    EncodePixel(ts, k);
    assert r[lo..lo + 12 * |ts|] == e;
    assert r[lo + 12 * k..lo + 12 * k + 12] == e[12 * k..12 * k + 12];
  }

  /** Bytes before and after a painted run are untouched. */
  lemma PaintOutside(bytes: seq<byte>, lo: nat, ts: seq<seq<int>>, a: nat, b: nat)
    requires AreTriples(ts) && lo + 12 * |ts| <= |bytes| && a <= b <= |bytes|
    requires b <= lo || lo + 12 * |ts| <= a
    ensures Paint(bytes, lo, ts)[a..b] == bytes[a..b]
  {
    var r := Paint(bytes, lo, ts);
    assert forall j :: a <= j < b ==> r[j] == bytes[j];
  }

  /** A run of one pixel is that pixel's wire form. */
  lemma PaintOne(bytes: seq<byte>, lo: nat, t: seq<int>)
    requires |t| == 3 && lo + 12 <= |bytes|
    ensures Paint(bytes, lo, [t]) == bytes[..lo] + PixelBytes(t) + bytes[lo + 12..]
  {
    assert [t][..0] == [];
  }

  /** Painting one more pixel at the end of a run is storing its wire form
      right after the run. */
  lemma PaintSnoc(bytes: seq<byte>, lo: nat, ts: seq<seq<int>>, t: seq<int>)
    requires AreTriples(ts) && |t| == 3 && lo + 12 * |ts| + 12 <= |bytes|
    ensures AreTriples(ts + [t])
    ensures var p, e := Paint(bytes, lo, ts), lo + 12 * |ts|;
      Paint(bytes, lo, ts + [t]) == p[..e] + PixelBytes(t) + p[e + 12..]
  {
    assert (ts + [t])[..|ts|] == ts;
    var e := lo + 12 * |ts|;
    var p := Paint(bytes, lo, ts);
    assert p[..e] == bytes[..lo] + Encode(ts);
    assert p[e + 12..] == bytes[e + 12..];
  }

  /** Pixel i of a run painted from pixel lo on reads as triple i - lo,
      reduced to eight bits per component. */
  lemma {:induction false} PaintedRead(bytes: seq<byte>, n: nat, lo: nat, ts: seq<seq<int>>, i: int)
    requires |bytes| == 12 * n && AreTriples(ts) && lo + |ts| <= n && lo <= i < lo + |ts|
    ensures Read(Paint(bytes, 12 * lo, ts), n, IntIndex(i)) == Success(TupleValue(Low8(ts[i - lo])))
  {
    var r := Paint(bytes, 12 * lo, ts);
    var k := i - lo;
    var t := ts[k];
    var o := 12 * i;
    PaintedPixel(bytes, 12 * lo, ts, k);
    assert 12 * lo + 12 * k == o;
    assert r[o..o + 12] == PixelBytes(t);
    ReadPixelBytes(r, n, i, t);
  }

  /** After painting the run ts from pixel lo on, each pixel of the run
      reads as its triple, reduced to eight bits per component, and every
      other pixel reads as before. */
  lemma {:induction false} PaintThenRead(bytes: seq<byte>, n: nat, lo: nat, ts: seq<seq<int>>, i: int)
    requires |bytes| == 12 * n && AreTriples(ts) && lo + |ts| <= n && 0 <= i < n
    ensures Read(Paint(bytes, 12 * lo, ts), n, IntIndex(i))
            == if lo <= i < lo + |ts| then Success(TupleValue(Low8(ts[i - lo]))) else Read(bytes, n, IntIndex(i))
  {
    var r := Paint(bytes, 12 * lo, ts);
    if lo <= i < lo + |ts| {
      PaintedRead(bytes, n, lo, ts, i);
    } else {
      PaintOutside(bytes, 12 * lo, ts, 12 * i, 12 * i + 12);
      SamePixelSameRead(r, bytes, n, i);
    }
  }

  /** A slice assignment resolved to the pixels [lo, hi) is an assignment
      to the view of the bytes [12 lo, 12 hi). */
  lemma SliceWriteView(bytes: seq<byte>, n: nat, start: Option<int>, stop: Option<int>,
                       step: Option<int>, lo: nat, hi: nat, value: Value)
    requires |bytes| == 12 * n && SliceRange(n, start, stop, step) == Success((lo, hi))
    ensures Write(bytes, n, SliceIndex(start, stop, step), value) == WriteView(bytes, 12 * lo, 12 * hi, value)
  {
  }

  /** A 3-tuple assigned to the non-empty run [lo, hi) paints it. */
  lemma SliceWriteTriple(bytes: seq<byte>, n: nat, start: Option<int>, stop: Option<int>,
                         step: Option<int>, lo: nat, hi: nat, t: seq<int>)
    requires |bytes| == 12 * n && SliceRange(n, start, stop, step) == Success((lo, hi)) && lo < hi
    requires |t| == 3
    ensures Write(bytes, n, SliceIndex(start, stop, step), TupleValue(t))
            == Step(Paint(bytes, 12 * lo, Copies(hi - lo, t)), None)
  {
    SliceWriteView(bytes, n, start, stop, step, lo, hi, TupleValue(t));
    ViewPixels(lo, hi);
  }

  /** A list of 3-tuples assigned to the non-empty run [lo, hi) goes
      through ListWrite. */
  lemma SliceWriteList(bytes: seq<byte>, n: nat, start: Option<int>, stop: Option<int>,
                       step: Option<int>, lo: nat, hi: nat, elems: seq<Value>)
    requires |bytes| == 12 * n && SliceRange(n, start, stop, step) == Success((lo, hi)) && lo < hi
    requires AllTriples(elems)
    ensures Write(bytes, n, SliceIndex(start, stop, step), ListValue(elems)) == ListWrite(bytes, 12 * lo, hi - lo, elems)
  {
    SliceWriteView(bytes, n, start, stop, step, lo, hi, ListValue(elems));
    ViewPixels(lo, hi);
  }

  /** An empty slice is a no-op whatever is assigned to it. */
  lemma EmptySliceWrite(bytes: seq<byte>, n: nat, start: Option<int>, stop: Option<int>,
                        step: Option<int>, lo: nat, value: Value)
    requires |bytes| == 12 * n && SliceRange(n, start, stop, step) == Success((lo, lo))
    ensures Write(bytes, n, SliceIndex(start, stop, step), value) == Step(bytes, None)
  {
    SliceWriteView(bytes, n, start, stop, step, lo, lo, value);
    ViewPixels(lo, lo);
  }

  /** Assigning a value that is neither a 3-tuple nor a list of 3-tuples to
      a non-empty slice raises ValueError with nothing written. */
  lemma SliceWriteRejects(bytes: seq<byte>, n: nat, start: Option<int>, stop: Option<int>,
                          step: Option<int>, lo: nat, hi: nat, value: Value)
    requires |bytes| == 12 * n && SliceRange(n, start, stop, step) == Success((lo, hi)) && lo < hi
    requires !IsTriple(value) && !(value.ListValue? && AllTriples(value.elems))
    ensures Write(bytes, n, SliceIndex(start, stop, step), value) == Step(bytes, Some(ValueError))
  {
    SliceWriteView(bytes, n, start, stop, step, lo, hi, value);
    ViewPixels(lo, hi);
  }

  /** `np[s:t] = t3` for a 3-tuple t3 sets every pixel of the slice to t3
      and leaves the others as they were; it raises nothing. */
  lemma {:induction false} BroadcastThenRead(bytes: seq<byte>, n: nat, start: Option<int>, stop: Option<int>,
                                            step: Option<int>, lo: nat, hi: nat, t: seq<int>, i: int)
    requires |bytes| == 12 * n && SliceRange(n, start, stop, step) == Success((lo, hi)) && |t| == 3
    requires 0 <= i < n
    ensures var r := Write(bytes, n, SliceIndex(start, stop, step), TupleValue(t));
      && r.raised == None
      && Read(r.bytes, n, IntIndex(i)) == if lo <= i < hi then Success(TupleValue(Low8(t))) else Read(bytes, n, IntIndex(i))
  {
    if lo == hi {
      EmptySliceWrite(bytes, n, start, stop, step, lo, TupleValue(t));
    } else {
      SliceWriteTriple(bytes, n, start, stop, step, lo, hi, t);
      var ts := Copies(hi - lo, t);
      assert AreTriples(ts);
      PaintThenRead(bytes, n, lo, ts, i);
    }
  }

  /** Pixel j of a run is written by the list loop exactly when the list
      has an element 4j. */
  lemma Quarter(j: int, len: nat)
    requires 0 <= j
    ensures j < (len + 3) / 4 <==> 4 * j < len
  {
  }

  /** Pixel d of the run is written by the list loop exactly when the run
      has a pixel d and the list an element 4d, and it takes that element. */
  lemma ListRunAt(m: nat, elems: seq<Value>, d: nat)
    requires AllTriples(elems)
    ensures d < |ListRun(m, elems)| <==> d < m && 4 * d < |elems|
    ensures d < |ListRun(m, elems)| ==> ListRun(m, elems)[d] == elems[4 * d].items
  {
    Quarter(d, |elems|);
  }

  /** The list loop over a non-empty run of m pixels raises exactly when
      the list has no element 4(m - 1). */
  lemma ListWriteRaises(bytes: seq<byte>, lo: nat, m: nat, elems: seq<Value>)
    requires AllTriples(elems) && lo + 12 * m <= |bytes| && m > 0
    ensures ListWrite(bytes, lo, m, elems).raised == if 4 * (m - 1) < |elems| then None else Some(IndexError)
  {
    ListRunAt(m, elems, m - 1);
  }

  /** The list loop over the run of m pixels from pixel lo on writes pixel
      lo + k with element 4k of the list, for each k that has one. */
  lemma {:induction false} ListWritePixel(bytes: seq<byte>, n: nat, lo: nat, m: nat, elems: seq<Value>, i: int)
    requires |bytes| == 12 * n && AllTriples(elems) && lo + m <= n && 0 <= i < n
    ensures Read(ListWrite(bytes, 12 * lo, m, elems).bytes, n, IntIndex(i))
            == if lo <= i < lo + m && 4 * (i - lo) < |elems| then Success(TupleValue(Low8(elems[4 * (i - lo)].items)))
               else Read(bytes, n, IntIndex(i))
  {
    var ts := ListRun(m, elems);
    PaintThenRead(bytes, n, lo, ts, i);
    if lo <= i {
      ListRunAt(m, elems, i - lo);
    }
  }

  /** `np[s:t] = elems` for a list of 3-tuples: pixel lo + k of the slice
      takes element 4k of the list, as long as the list has one, and the
      others keep their value. The assignment raises IndexError, after
      writing, unless the list has an element 4k for every pixel of the
      slice. */
  lemma {:induction false} ListWriteThenRead(bytes: seq<byte>, n: nat, start: Option<int>, stop: Option<int>,
                                            step: Option<int>, lo: nat, hi: nat, elems: seq<Value>, i: int)
    requires |bytes| == 12 * n && SliceRange(n, start, stop, step) == Success((lo, hi)) && lo < hi
    requires AllTriples(elems) && 0 <= i < n
    ensures var r := Write(bytes, n, SliceIndex(start, stop, step), ListValue(elems));
      && r.raised == (if 4 * (hi - lo - 1) < |elems| then None else Some(IndexError))
      && Read(r.bytes, n, IntIndex(i))
         == if lo <= i < hi && 4 * (i - lo) < |elems| then Success(TupleValue(Low8(elems[4 * (i - lo)].items)))
            else Read(bytes, n, IntIndex(i))
  {
    SliceWriteList(bytes, n, start, stop, step, lo, hi, elems);
    ListWriteOutcome(bytes, n, lo, hi, elems, i);
  }

  /** ListWriteRaises and ListWritePixel together, for the run [lo, hi). */
  lemma {:induction false} ListWriteOutcome(bytes: seq<byte>, n: nat, lo: nat, hi: nat, elems: seq<Value>, i: int)
    requires |bytes| == 12 * n && lo < hi <= n && AllTriples(elems) && 0 <= i < n
    ensures var r := ListWrite(bytes, 12 * lo, hi - lo, elems);
      && r.raised == (if 4 * (hi - lo - 1) < |elems| then None else Some(IndexError))
      && Read(r.bytes, n, IntIndex(i))
         == if lo <= i < hi && 4 * (i - lo) < |elems| then Success(TupleValue(Low8(elems[4 * (i - lo)].items)))
            else Read(bytes, n, IntIndex(i))
  {
    ListWriteRaises(bytes, 12 * lo, hi - lo, elems);
    ListWritePixel(bytes, n, lo, hi - lo, elems, i);
  }

  /** Painting the whole strip with (0, 0, 0) makes every byte 0x88, the
      wire form of a zero bit pair. */
  lemma {:induction false} DarkPaint(bytes: seq<byte>, n: nat)
    requires |bytes| == 12 * n
    ensures Paint(bytes, 0, Copies(n, [0, 0, 0])) == seq(12 * n, _ => 0x88)
  {
    var ts := Copies(n, [0, 0, 0]);
    assert AreTriples(ts);
    var r := Paint(bytes, 0, ts);
    assert PixelBytes([0, 0, 0]) == seq(12, _ => 0x88);
    forall j | 0 <= j < 12 * n
      ensures r[j] == 0x88
    {
      var k := j / 12;
      PaintedPixel(bytes, 0, ts, k);
      assert r[j] == r[12 * k..12 * k + 12][j - 12 * k];
    }
  }

  /** A new strip: its buffer starts as 12n zero bytes and `self[:] =
      (0,0,0)` turns every byte into 0x88, so every pixel then reads
      (0, 0, 0). */
  lemma {:induction false} FreshStripIsDark(n: nat, i: int)
    ensures Write(seq(12 * n, _ => 0), n, SliceIndex(None, None, None), TupleValue([0, 0, 0]))
            == Step(seq(12 * n, _ => 0x88), None)
    ensures 0 <= i < n ==> Read(seq(12 * n, _ => 0x88), n, IntIndex(i)) == Success(TupleValue([0, 0, 0]))
  {
    var zeros: seq<byte> := seq(12 * n, _ => 0);
    var t := [0, 0, 0];
    WholeSlice(n);
    if n == 0 {
      EmptySliceWrite(zeros, n, None, None, None, 0, TupleValue(t));
    } else {
      SliceWriteTriple(zeros, n, None, None, None, 0, n, t);
      DarkPaint(zeros, n);
    }
    if 0 <= i < n {
      BroadcastThenRead(zeros, n, None, None, None, 0, n, t, i);
      assert Low8(t) == t;
    }
  }
}
