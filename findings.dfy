/** Four defects where the driver does not do what its documentation and
    the rest of its code evidently intend. For each, a lemma shows the
    behaviour as written on a concrete input, and a corrected definition
    carries the intended property, proved. */
module Findings {
  import opened Py
  import opened Pixels
  import opened Properties
  import opened SliceProperties
  import opened RotateProperties

  // ---------------------------------------------------------------------
  // 1. The list assignment reads value[i//3] with i a byte offset

  /** As written, a list with one triple per pixel of a slice of m >= 2
      pixels is not accepted: pixel k wants element 4k, so the assignment
      writes the first ceil(m/4) pixels of the slice and then raises
      IndexError. The copy in the class documentation, `np[-16:] = np[:16]`,
      is one instance: it writes 4 pixels, then raises. */
  lemma {:induction false} ListCopyRaises(bytes: seq<byte>, n: nat, start: Option<int>, stop: Option<int>,
                                         step: Option<int>, lo: nat, hi: nat, elems: seq<Value>)
    requires |bytes| == 12 * n && SliceRange(n, start, stop, step) == Success((lo, hi))
    requires AllTriples(elems) && |elems| == hi - lo >= 2
    ensures Write(bytes, n, SliceIndex(start, stop, step), ListValue(elems)).raised == Some(IndexError)
    ensures |ListRun(hi - lo, elems)| == (hi - lo + 3) / 4
    ensures forall i :: 0 <= i < n ==>
      Read(Write(bytes, n, SliceIndex(start, stop, step), ListValue(elems)).bytes, n, IntIndex(i))
      == if lo <= i < lo + (hi - lo + 3) / 4 then Success(TupleValue(Low8(elems[4 * (i - lo)].items)))
         else Read(bytes, n, IntIndex(i))
  {
    ListWriteThenRead(bytes, n, start, stop, step, lo, hi, elems, 0);
    forall i | 0 <= i < n
      ensures Read(Write(bytes, n, SliceIndex(start, stop, step), ListValue(elems)).bytes, n, IntIndex(i))
              == if lo <= i < lo + (hi - lo + 3) / 4 then Success(TupleValue(Low8(elems[4 * (i - lo)].items)))
                 else Read(bytes, n, IntIndex(i))
    {
      ListWriteThenRead(bytes, n, start, stop, step, lo, hi, elems, i);
      if lo <= i {
        Quarter(i - lo, |elems|);
      }
    }
  }

  /** The documented copy on a strip of 32 pixels writes pixels 16..19 and
      then raises IndexError. */
  lemma {:induction false} DocumentedCopyRaises(bytes: seq<byte>)
    requires |bytes| == 12 * 32
    ensures var src := Read(bytes, 32, SliceIndex(None, Some(16), None));
      src.Success? &&
      Write(bytes, 32, SliceIndex(Some(-16), None, None), src.value).raised == Some(IndexError) &&
      |ListRun(16, src.value.elems)| == 4
  {
    SliceRangeIsListSlice(32, None, Some(16), None);
    ReadSliceIsPixelwise(bytes, 32, None, Some(16), None, 0, 16);
    SliceRangeIsListSlice(32, Some(-16), None, None);
    var src := Read(bytes, 32, SliceIndex(None, Some(16), None));
    ListCopyRaises(bytes, 32, Some(-16), None, None, 16, 32, src.value.elems);
  }

  /** The triples of a list of 3-tuples. */
  function Items(elems: seq<Value>): (ts: seq<seq<int>>)
    requires AllTriples(elems)
    ensures |ts| == |elems| && AreTriples(ts)
    ensures forall j :: 0 <= j < |elems| ==> ts[j] == elems[j].items
  {
    seq(|elems|, j requires 0 <= j < |elems| => elems[j].items)
  }

  /** The loop as evidently intended, reading `value[i//12]`: pixel k of the
      run takes element k; a list shorter than the run raises IndexError
      after the pixels it covers are written. */
  function ListWriteFixed(bytes: seq<byte>, lo: nat, m: nat, elems: seq<Value>): (r: Step)
    requires AllTriples(elems) && lo + 12 * m <= |bytes|
    ensures |r.bytes| == |bytes|
    ensures r.raised.None? <==> |elems| >= m
  {
    var k := if |elems| < m then |elems| else m;
    Step(Paint(bytes, lo, Items(elems)[..k]), if k < m then Some(IndexError) else None)
  }

  /** Element k of a list of byte triples painted from pixel lo on reads
      back from pixel lo + k. */
  lemma {:induction false} PaintedListAt(bytes: seq<byte>, n: nat, lo: nat, elems: seq<Value>, k: nat)
    requires |bytes| == 12 * n && lo + |elems| <= n && AllTriples(elems) && k < |elems|
    requires forall c :: 0 <= c < 3 ==> 0 <= elems[k].items[c] < 256
    ensures Read(Paint(bytes, 12 * lo, Items(elems)), n, IntIndex(lo + k)) == Success(elems[k])
  {
    var ts := Items(elems);
    var t := elems[k].items;
    assert ts[k] == t;
    assert IsTriple(elems[k]);
    PaintedRead(bytes, n, lo, ts, lo + k);
    assert ts[(lo + k) - lo] == t;
    Low8OfBytes(t);
    assert TupleValue(Low8(t)) == elems[k];
  }

  /** With the fix, assigning a list of byte triples to a slice of the same
      length raises nothing, and reading the slice back gives the list. */
  lemma {:induction false} ListWriteFixedRoundTrip(bytes: seq<byte>, n: nat, lo: nat, hi: nat, elems: seq<Value>)
    requires |bytes| == 12 * n && lo <= hi <= n && |elems| == hi - lo && AllTriples(elems)
    requires forall k, c :: 0 <= k < |elems| && 0 <= c < 3 ==> 0 <= elems[k].items[c] < 256
    ensures var r := ListWriteFixed(bytes, 12 * lo, hi - lo, elems);
      && r.raised == None
      && DecodeRun(r.bytes, lo, hi) == elems
  {
    var ts := Items(elems);
    assert ts[..|elems|] == ts;
    var painted := Paint(bytes, 12 * lo, ts);
    assert ListWriteFixed(bytes, 12 * lo, hi - lo, elems).bytes == painted;
    var got := DecodeRun(painted, lo, hi);
    DecodeIsPixelwise(painted, n, lo, hi);
    forall k | 0 <= k < |elems|
      ensures got[k] == elems[k]
    {
      PaintedListAt(bytes, n, lo, elems, k);
    }
  }

  // ---------------------------------------------------------------------
  // 2. rotate by a multiple of n raises ValueError

  /** As written, rotating a strip by a multiple of its length is not the
      identity: `data[:-0]` is empty, so the first assignment raises
      ValueError. On a strip of one pixel every rotation does. */
  lemma {:induction false} RotateByLengthRaises(bytes: seq<byte>, count: int)
    requires |bytes| == 12
    ensures Rotated(bytes, 1, count) == Step(bytes, Some(ValueError))
  {
    RotateRejects(bytes, 1, count);
  }

  /** The rotation as evidently intended: a count that is a multiple of n
      leaves the buffer as it is. */
  function RotatedFixed(bytes: seq<byte>, n: nat, count: int): (r: Step)
    requires |bytes| == 12 * n
    ensures |r.bytes| == |bytes|
    ensures r.raised.Some? <==> n == 0
  {
    if n == 0 then Step(bytes, Some(ZeroDivisionError))
    else
      var c := 12 * (count % n);
      Step(bytes[12 * n - c..] + bytes[..12 * n - c], None)
  }

  /** With the fix, a multiple of n is the identity and rotating by k then
      by n - k restores the buffer for every k, as documented. */
  lemma {:induction false} RotatedFixedInverse(bytes: seq<byte>, n: nat, k: int)
    requires |bytes| == 12 * n && n > 0
    ensures k % n == 0 ==> RotatedFixed(bytes, n, k) == Step(bytes, None)
    ensures RotatedFixed(RotatedFixed(bytes, n, k).bytes, n, n - k) == Step(bytes, None)
  {
    var L := 12 * n;
    if k % n == 0 {
      assert bytes[L..] + bytes[..L] == bytes;
      ModOfMod(0, n - k, n);
      DivModUnique(n, n, 1, 0);
      assert (n - k) % n == 0 by {
        ModOfMod(n, -k, n);
        NegMod0(k, n);
      }
      assert RotatedFixed(bytes, n, k).bytes == bytes;
    } else {
      RotateInverse(bytes, n, k);
      assert (n - k) % n == (-k) % n by {
        ModOfMod(n, -k, n);
        ModOfMod(0, -k, n);
        DivModUnique(n + (-k) % n, n, 1, (-k) % n);
      }
    }
  }

  lemma NegMod0(k: int, n: int)
    requires n > 0 && k % n == 0
    ensures (-k) % n == 0
  {
    DivModUnique(-k, n, -(k / n), 0);
  }

  // ---------------------------------------------------------------------
  // 3. Index -1 is scaled before it is made non-negative

  /** As written, pixel -1 of any non-empty strip cannot be read, while
      pixel n - 1, the same pixel, can. */
  lemma {:induction false} LastPixelUnreadable(bytes: seq<byte>, n: nat)
    requires |bytes| == 12 * n && n >= 1
    ensures Read(bytes, n, IntIndex(-1)) == Failure(ValueError)
    ensures Read(bytes, n, IntIndex(n - 1)).Success?
  {
    LastPixelReadQuirk(bytes, n, 0);
    ReadPixelAt(bytes, n, n - 1);
  }

  /** An index in [-n, n) made non-negative first, as evidently intended. */
  function PixelOf(n: nat, i: int): (p: nat)
    requires -(n as int) <= i < n
    ensures p < n && (p == i || p == i + n)
  {
    if i < 0 then i + n else i
  }

  /** `np[i]` with the index made non-negative before it is scaled. */
  function ReadPixelFixed(bytes: seq<byte>, n: nat, i: int): (r: Result<Value>)
    requires |bytes| == 12 * n
    ensures r.Failure? <==> i < -(n as int) || i >= n
  {
    if i < -(n as int) || i >= n then Failure(IndexError)
    else
      ReadPixelAt(bytes, n, PixelOf(n, i));
      ReadPixel(bytes, n, PixelOf(n, i))
  }

  /** `np[i] = value` with the index made non-negative before it is scaled. */
  function WritePixelFixed(bytes: seq<byte>, n: nat, i: int, value: Value): (r: Step)
    requires |bytes| == 12 * n
    ensures |r.bytes| == |bytes|
  {
    if i < -(n as int) || i >= n then Step(bytes, Some(IndexError))
    else WritePixel(bytes, n, PixelOf(n, i), value)
  }

  /** With the fix, every index in [-n, n), -1 included, writes and then
      reads back the triple, and -j is n - j. */
  lemma {:induction false} PixelFixedRoundTrip(bytes: seq<byte>, n: nat, i: int, t: seq<int>)
    requires |bytes| == 12 * n && -(n as int) <= i < 0 && |t| == 3
    ensures ReadPixelFixed(bytes, n, i) == Read(bytes, n, IntIndex(i + n))
    ensures var r := WritePixelFixed(bytes, n, i, TupleValue(t));
      r.raised == None && ReadPixelFixed(r.bytes, n, i) == Success(TupleValue(Low8(t)))
  {
    WritePixelThenRead(bytes, n, i + n, t);
    assert WritePixelFixed(bytes, n, i, TupleValue(t)) == Write(bytes, n, IntIndex(i + n), TupleValue(t));
  }

  /** The pair branch scales the pixel while it is still negative too, so
      (-1, 2) is the empty view. With the pixel made non-negative first,
      the offset of an accepted pair always lies inside the buffer. */
  function PairOffsetFixed(n: nat, parts: seq<Index>): (r: Result<int>)
    ensures r.Success? <==> PairOffset(n, parts).Success?
    ensures r.Failure? ==> r.error == PairOffset(n, parts).error
    ensures r.Success? ==> 0 <= r.value && r.value + 4 <= 12 * n
  {
    match PairOffset(n, parts)
    case Failure(e) => Failure(e)
    case Success(_) => Success(12 * PixelOf(n, parts[0].i) + 4 * parts[1].i)
  }

  /** `np[p, c]` with the pixel made non-negative before it is scaled; the
      view then always holds four bytes, so the read cannot fail after the
      checks. */
  function ReadPairFixed(bytes: seq<byte>, n: nat, parts: seq<Index>): (r: Result<Value>)
    requires |bytes| == 12 * n
    ensures r.Success? <==> PairOffset(n, parts).Success?
  {
    var o :- PairOffsetFixed(n, parts);
    ChannelInside(bytes, o);
    Success(IntValue(ReadChannel(bytes, o).value))
  }

  /** `np[p, c] = value` with the pixel made non-negative before it is
      scaled. */
  function WritePairFixed(bytes: seq<byte>, n: nat, parts: seq<Index>, value: Value): (r: Step)
    requires |bytes| == 12 * n
    ensures |r.bytes| == |bytes|
  {
    match PairOffsetFixed(n, parts)
    case Failure(e) => Step(bytes, Some(e))
    case Success(o) =>
      if !value.IntValue? || value.v < 0 || value.v > 255 then Step(bytes, Some(ValueError))
      else ExpandAt(bytes, value.v, o)
  }

  /** With the fix, every pair in range, (-1, 2) included, is the pair at
      pixel p + n for a negative p, and writing v there and reading it back
      gives v. */
  lemma {:induction false} PairFixedRoundTrip(bytes: seq<byte>, n: nat, p: int, c: int, v: int)
    requires |bytes| == 12 * n && -(n as int) <= p < n && 0 <= c < 3 && 0 <= v < 256
    ensures ReadPairFixed(bytes, n, Pair(p, c).parts) == Read(bytes, n, Pair(PixelOf(n, p), c))
    ensures var r := WritePairFixed(bytes, n, Pair(p, c).parts, IntValue(v));
      && r == Write(bytes, n, Pair(PixelOf(n, p), c), IntValue(v))
      && r.raised == None
      && ReadPairFixed(r.bytes, n, Pair(p, c).parts) == Success(IntValue(v))
  {
    var q := PixelOf(n, p);
    PairReadInRange(bytes, n, p, c);
    PairReadInRange(bytes, n, q, c);
    assert PairOffsetFixed(n, Pair(p, c).parts) == Success(12 * q + 4 * c);
    PairWriteInRange(bytes, n, q, c, IntValue(v));
    WriteChannelThenRead(bytes, n, q, c, v, if c == 0 then 1 else 0);
    var r := Write(bytes, n, Pair(q, c), IntValue(v));
    PairReadInRange(r.bytes, n, q, c);
  }

  // ---------------------------------------------------------------------
  // 4. A slice bound below -n wraps twice

  /** As written, on a strip of 4 pixels `np[-6:]` covers pixels 2 and 3,
      where a Python list of 4 would give all four. */
  lemma StartBelowMinusN()
    ensures SliceRange(4, Some(-6), None, None) == Success((2, 4))
    ensures PySlice(4, -6, 4) == (0, 4)
  {
    StartWrapsTwice(4, -6);
  }

  /** As written, on a strip of 4 pixels `np[:-5]` covers pixels 0 to 2,
      where a Python list of 4 would give none. */
  lemma StopBelowMinusN()
    ensures SliceRange(4, None, Some(-5), None) == Success((0, 3))
    ensures PySlice(4, 0, -5) == (0, 0)
  {
    StopWrapsTwice(4, -5);
  }

  /** The pixels a slice addresses as Python's slicing of an n-element list
      would: the bounds are normalised and clamped once. */
  function SliceRangeFixed(n: nat, start: Option<int>, stop: Option<int>, step: Option<int>)
    : (r: Result<(nat, nat)>)
    ensures r.Success? <==> step.None? || step.value == 1
    ensures r.Success? ==> r.value.0 <= r.value.1 <= n
    ensures r.Success? && start.Some? && start.value <= -(n as int) ==> r.value.0 == 0
    ensures r.Success? && stop.Some? && stop.value <= -(n as int) ==> r.value.0 == r.value.1
  {
    if step.Some? && step.value != 1 then Failure(NotImplementedError)
    else Success(PySlice(n, if start.None? then 0 else start.value, if stop.None? then n else stop.value))
  }

  /** The fix changes nothing for bounds that are None or at least -n. */
  lemma {:induction false} SliceRangeFixedAgrees(n: nat, start: Option<int>, stop: Option<int>, step: Option<int>)
    requires start.Some? ==> start.value >= -(n as int)
    requires stop.Some? ==> stop.value >= -(n as int)
    ensures SliceRangeFixed(n, start, stop, step) == SliceRange(n, start, stop, step)
  {
    if step.None? || step.value == 1 {
      SliceRangeIsListSlice(n, start, stop, step);
    }
  }
}
