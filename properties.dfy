/** What reading and writing single pixels and single channels promise,
    stated over the functions of module Pixels and proved. */
module Properties {
  import opened Py
  import opened Codec
  import opened Pixels

  // ---------------------------------------------------------------------
  // Windows of the buffer

  /** A window of a window is a window of the whole. */
  lemma SliceOfSlice(s: seq<byte>, a: nat, b: nat, c: nat, d: nat)
    requires a <= b <= |s| && c <= d <= b - a
    ensures s[a..b][c..d] == s[a + c..a + d]
  {
    assert forall j :: 0 <= j < d - c ==> s[a..b][c..d][j] == s[a + c + j];
  }

  /** Splicing a run into [o, o + |a|) leaves every window outside that
      range as it was. */
  lemma SpliceOutside(s: seq<byte>, o: nat, a: seq<byte>, x: nat, y: nat)
    requires o + |a| <= |s| && x <= y <= |s| && (y <= o || o + |a| <= x)
    ensures (s[..o] + a + s[o + |a|..])[x..y] == s[x..y]
  {
    var s' := s[..o] + a + s[o + |a|..];
    assert forall j :: x <= j < y ==> s'[j] == s[j];
  }

  /** Writing a run a at offset o and then a run b right after it is
      writing a + b at o. */
  lemma SpliceNext(s: seq<byte>, o: nat, a: seq<byte>, b: seq<byte>)
    requires o + |a| + |b| <= |s|
    ensures var s' := s[..o] + a + s[o + |a|..];
      s'[..o + |a|] + b + s'[o + |a| + |b|..] == s[..o] + (a + b) + s[o + |a| + |b|..]
  {
    var s' := s[..o] + a + s[o + |a|..];
    assert s'[..o + |a|] == s[..o] + a;
    assert s'[o + |a| + |b|..] == s[o + |a| + |b|..];
  }

  // ---------------------------------------------------------------------
  // Views of four bytes

  /** A view `data[o:o+4]` that lies inside the buffer is exactly those four
      bytes. */
  lemma ChannelInside(s: seq<byte>, o: int)
    requires 0 <= o && o + 4 <= |s|
    ensures ReadChannel(s, o) == Compress(s[o..o + 4])
  {
  }

  /** Storing through a view that lies inside the buffer writes its four
      bytes and raises nothing. */
  lemma ExpandAtInside(s: seq<byte>, b: int, o: int)
    requires 0 <= o && o + 4 <= |s|
    ensures ExpandAt(s, b, o) == Step(s[..o] + Expand(b) + s[o + 4..], None)
  {
    assert Expand(b)[..4] == Expand(b);
  }

  /** Reading a view that lies inside the buffer and holds the expansion of
      b gives the low eight bits of b. */
  lemma ReadChannelInside(s: seq<byte>, o: int, b: int)
    requires 0 <= o && o + 4 <= |s| && s[o..o + 4] == Expand(b)
    ensures ReadChannel(s, o) == Success(b % 256)
  {
    ChannelInside(s, o);
    RoundTripAny(b);
  }

  /** The same for a byte b, which reads as itself. */
  lemma ReadByteInside(s: seq<byte>, o: int, b: int)
    requires 0 <= o && o + 4 <= |s| && s[o..o + 4] == Expand(b) && 0 <= b < 256
    ensures ReadChannel(s, o) == Success(b)
  {
    ChannelInside(s, o);
    RoundTrip(b);
  }

  /** A four-byte view given from the end of the buffer (the offsets a
      negative pixel index produces) is the view at the same offset plus the
      buffer's length. */
  lemma ViewFromEnd(s: seq<byte>, b: int, o: int)
    requires -|s| <= o && o + 4 < 0
    ensures ReadChannel(s, o) == ReadChannel(s, o + |s|)
    ensures ExpandAt(s, b, o) == ExpandAt(s, b, o + |s|)
  {
  }

  /** Two pixels, of the same buffer or of two, read alike when their 12
      bytes agree. */
  lemma {:induction false} TripleWindows(s: seq<byte>, o: nat, s': seq<byte>, o': nat)
    requires o + 12 <= |s| && o' + 12 <= |s'| && s[o..o + 12] == s'[o'..o' + 12]
    ensures ReadTriple(s, o) == ReadTriple(s', o')
  {
    SliceOfSlice(s, o, o + 12, 0, 4);
    SliceOfSlice(s, o, o + 12, 4, 8);
    SliceOfSlice(s, o, o + 12, 8, 12);
    SliceOfSlice(s', o', o' + 12, 0, 4);
    SliceOfSlice(s', o', o' + 12, 4, 8);
    SliceOfSlice(s', o', o' + 12, 8, 12);
    ChannelInside(s, o);
    ChannelInside(s, o + 4);
    ChannelInside(s, o + 8);
    ChannelInside(s', o');
    ChannelInside(s', o' + 4);
    ChannelInside(s', o' + 8);
  }

  /** A triple of bytes is its own low eight bits. */
  lemma Low8OfBytes(t: seq<int>)
    requires |t| == 3
    ensures (forall c :: 0 <= c < 3 ==> 0 <= t[c] < 256) ==> Low8(t) == t
  {
    if forall c :: 0 <= c < 3 ==> 0 <= t[c] < 256 {
      assert t[0] % 256 == t[0] && t[1] % 256 == t[1] && t[2] % 256 == t[2];
      assert t == [t[0], t[1], t[2]];
    }
  }

  // ---------------------------------------------------------------------
  // Integer index

  /** An integer index in [-n, n) reads the three views at 12i. */
  lemma ReadPixelInRange(bytes: seq<byte>, n: nat, i: int)
    requires |bytes| == 12 * n && -(n as int) <= i < n
    ensures Read(bytes, n, IntIndex(i)) == ReadTriple(bytes, 12 * i)
  {
  }

  /** An integer index in [-n, n) with a 3-tuple stores through the three
      views at 12i. */
  lemma WritePixelInRange(bytes: seq<byte>, n: nat, i: int, t: seq<int>)
    requires |bytes| == 12 * n && -(n as int) <= i < n && |t| == 3
    ensures Write(bytes, n, IntIndex(i), TupleValue(t)) == WriteTriple(bytes, 12 * i, t)
  {
  }

  /** Pixel i of two buffers reads alike when its 12 bytes agree. */
  lemma SamePixelSameRead(s: seq<byte>, s': seq<byte>, n: nat, i: int)
    requires |s| == |s'| == 12 * n && 0 <= i < n && s[12 * i..12 * i + 12] == s'[12 * i..12 * i + 12]
    ensures Read(s, n, IntIndex(i)) == Read(s', n, IntIndex(i))
  {
    ReadPixelInRange(s, n, i);
    ReadPixelInRange(s', n, i);
    TripleWindows(s, 12 * i, s', 12 * i);
  }

  /** Pixel p of one buffer reads as pixel i of another when its 12 bytes
      are that pixel's. */
  lemma MovedPixelSameRead(s: seq<byte>, s': seq<byte>, n: nat, p: int, i: int)
    requires |s| == |s'| == 12 * n && 0 <= p < n && 0 <= i < n
    requires s[12 * p..12 * p + 12] == s'[12 * i..12 * i + 12]
    ensures Read(s, n, IntIndex(p)) == Read(s', n, IntIndex(i))
  {
    ReadPixelInRange(s, n, p);
    ReadPixelInRange(s', n, i);
    TripleWindows(s, 12 * p, s', 12 * i);
  }

  /** A pixel whose 12 bytes hold the wire form of t reads as t, reduced to
      eight bits per component. */
  lemma {:induction false} ReadPixelBytes(bytes: seq<byte>, n: nat, i: int, t: seq<int>)
    requires |bytes| == 12 * n && 0 <= i < n && |t| == 3
    requires bytes[12 * i..12 * i + 12] == PixelBytes(t)
    ensures Read(bytes, n, IntIndex(i)) == Success(TupleValue(Low8(t)))
  {
    var o := 12 * i;
    ReadPixelInRange(bytes, n, i);
    SliceOfSlice(bytes, o, o + 12, 0, 4);
    SliceOfSlice(bytes, o, o + 12, 4, 8);
    SliceOfSlice(bytes, o, o + 12, 8, 12);
    assert PixelBytes(t)[0..4] == Expand(t[0]);
    assert PixelBytes(t)[4..8] == Expand(t[1]);
    assert PixelBytes(t)[8..12] == Expand(t[2]);
    ReadChannelInside(bytes, o, t[0]);
    ReadChannelInside(bytes, o + 4, t[1]);
    ReadChannelInside(bytes, o + 8, t[2]);
  }

  /** The three stores of a pixel that lies inside the buffer write its
      wire form and raise nothing. */
  lemma {:induction false} WriteTripleInside(s: seq<byte>, o: nat, t: seq<int>)
    requires o + 12 <= |s| && |t| == 3
    ensures WriteTriple(s, o, t) == Step(s[..o] + PixelBytes(t) + s[o + 12..], None)
  {
    ExpandAtInside(s, t[0], o);
    var s0 := s[..o] + Expand(t[0]) + s[o + 4..];
    ExpandAtInside(s0, t[1], o + 4);
    SpliceNext(s, o, Expand(t[0]), Expand(t[1]));
    var s1 := s[..o] + (Expand(t[0]) + Expand(t[1])) + s[o + 8..];
    ExpandAtInside(s1, t[2], o + 8);
    SpliceNext(s, o, Expand(t[0]) + Expand(t[1]), Expand(t[2]));
  }

  /** `np[i] = t` for 0 <= i < n and a 3-tuple t writes the wire form of t
      into bytes [12i, 12i + 12) and changes no other byte; reading the
      pixel back gives t when its components are bytes (the low eight bits
      of each in general, since the write does not check them). */
  lemma {:induction false} WritePixelThenRead(bytes: seq<byte>, n: nat, i: int, t: seq<int>)
    requires |bytes| == 12 * n && 0 <= i < n && |t| == 3
    ensures Write(bytes, n, IntIndex(i), TupleValue(t))
            == Step(bytes[..12 * i] + PixelBytes(t) + bytes[12 * i + 12..], None)
    ensures Read(Write(bytes, n, IntIndex(i), TupleValue(t)).bytes, n, IntIndex(i))
            == Success(TupleValue(Low8(t)))
    ensures (forall c :: 0 <= c < 3 ==> 0 <= t[c] < 256) ==>
              Read(Write(bytes, n, IntIndex(i), TupleValue(t)).bytes, n, IntIndex(i))
              == Success(TupleValue(t))
  {
    var o := 12 * i;
    WritePixelInRange(bytes, n, i, t);
    WriteTripleInside(bytes, o, t);
    var s := bytes[..o] + PixelBytes(t) + bytes[o + 12..];
    assert s[o..o + 12] == PixelBytes(t);
    ReadPixelBytes(s, n, i, t);
    Low8OfBytes(t);
  }

  /** A write through an integer index is refused before anything is
      written: an index outside [-n, n) raises IndexError, and then a value
      that is not a 3-tuple raises ValueError. */
  lemma WritePixelRejects(bytes: seq<byte>, n: nat, i: int, value: Value)
    requires |bytes| == 12 * n
    ensures (i < -(n as int) || i >= n) ==>
              Write(bytes, n, IntIndex(i), value) == Step(bytes, Some(IndexError))
    ensures -(n as int) <= i < n && !IsTriple(value) ==>
              Write(bytes, n, IntIndex(i), value) == Step(bytes, Some(ValueError))
    ensures (i < -(n as int) || i >= n) ==> Read(bytes, n, IntIndex(i)) == Failure(IndexError)
  {
  }

  // ---------------------------------------------------------------------
  // (pixel, channel) index

  /** The index `np[p, c]`. */
  function Pair(p: int, c: int): Index {
    TupleIndex([IntIndex(p), IntIndex(c)])
  }

  /** A pair of integers in range reads the four bytes at 12p + 4c. */
  lemma PairReadInRange(s: seq<byte>, n: nat, p: int, c: int)
    requires |s| == 12 * n && -(n as int) <= p < n && 0 <= c < 3
    ensures PairOffset(n, Pair(p, c).parts) == Success(12 * p + 4 * c)
    ensures var r := ReadChannel(s, 12 * p + 4 * c);
      Read(s, n, Pair(p, c)) == if r.Success? then Success(IntValue(r.value)) else Failure(r.error)
  {
    assert Pair(p, c).parts[0] == IntIndex(p) && Pair(p, c).parts[1] == IntIndex(c);
  }

  /** A pair of integers in range stores a byte into the four bytes at
      12p + 4c, and refuses any other value. */
  lemma PairWriteInRange(s: seq<byte>, n: nat, p: int, c: int, value: Value)
    requires |s| == 12 * n && -(n as int) <= p < n && 0 <= c < 3
    ensures Write(s, n, Pair(p, c), value)
            == if !value.IntValue? || value.v < 0 || value.v > 255 then Step(s, Some(ValueError))
               else ExpandAt(s, value.v, 12 * p + 4 * c)
  {
    assert Pair(p, c).parts[0] == IntIndex(p) && Pair(p, c).parts[1] == IntIndex(c);
  }

  /** A channel whose four bytes hold the expansion of the byte b reads as
      b. */
  lemma ReadPairInside(s: seq<byte>, n: nat, p: int, c: int, b: int)
    requires |s| == 12 * n && 0 <= p < n && 0 <= c < 3 && 0 <= b < 256
    requires s[12 * p + 4 * c..12 * p + 4 * c + 4] == Expand(b)
    ensures Read(s, n, Pair(p, c)) == Success(IntValue(b))
  {
    PairReadInRange(s, n, p, c);
    ReadByteInside(s, 12 * p + 4 * c, b);
  }

  /** Channel c of pixel p reads alike in two buffers that agree on its
      four bytes. */
  lemma SameChannelSameRead(s: seq<byte>, s': seq<byte>, n: nat, p: int, c: int)
    requires |s| == |s'| == 12 * n && 0 <= p < n && 0 <= c < 3
    requires s[12 * p + 4 * c..12 * p + 4 * c + 4] == s'[12 * p + 4 * c..12 * p + 4 * c + 4]
    ensures Read(s, n, Pair(p, c)) == Read(s', n, Pair(p, c))
  {
    ChannelInside(s, 12 * p + 4 * c);
    ChannelInside(s', 12 * p + 4 * c);
    PairReadInRange(s, n, p, c);
    PairReadInRange(s', n, p, c);
  }

  /** `np[p, c] = v` for 0 <= p < n, 0 <= c < 3 and a byte v writes the
      expansion of v into bytes [12p + 4c, 12p + 4c + 4) only; `np[p, c]`
      then reads v, and the pixel's other channels read as before. */
  lemma {:induction false} WriteChannelThenRead(bytes: seq<byte>, n: nat, p: int, c: int, v: int, c': int)
    requires |bytes| == 12 * n && 0 <= p < n && 0 <= c < 3 && 0 <= v < 256
    requires 0 <= c' < 3 && c' != c
    ensures var o := 12 * p + 4 * c;
      Write(bytes, n, Pair(p, c), IntValue(v)) == Step(bytes[..o] + Expand(v) + bytes[o + 4..], None)
    ensures Read(Write(bytes, n, Pair(p, c), IntValue(v)).bytes, n, Pair(p, c)) == Success(IntValue(v))
    ensures Read(Write(bytes, n, Pair(p, c), IntValue(v)).bytes, n, Pair(p, c')) == Read(bytes, n, Pair(p, c'))
  {
    var o := 12 * p + 4 * c;
    var o' := 12 * p + 4 * c';
    var s := bytes[..o] + Expand(v) + bytes[o + 4..];
    PairWriteInRange(bytes, n, p, c, IntValue(v));
    ExpandAtInside(bytes, v, o);
    assert s[o..o + 4] == Expand(v);
    ReadPairInside(s, n, p, c, v);
    SpliceOutside(bytes, o, Expand(v), o', o' + 4);
    SameChannelSameRead(s, bytes, n, p, c');
  }

  /** A write through a tuple index is refused before anything is written:
      a tuple that is not a pair raises IndexError, a pair whose first part
      is a slice raises NotImplementedError, a pixel outside [-n, n), a
      channel outside [0, 3) or a part that is not an integer raises
      IndexError, and then a value that is not an integer in 0..255 raises
      ValueError. Reads make the same index checks. */
  lemma WriteChannelRejects(bytes: seq<byte>, n: nat, parts: seq<Index>, value: Value)
    requires |bytes| == 12 * n
    ensures |parts| != 2 ==> Write(bytes, n, TupleIndex(parts), value) == Step(bytes, Some(IndexError))
    ensures |parts| == 2 && parts[0].SliceIndex? ==>
              Write(bytes, n, TupleIndex(parts), value) == Step(bytes, Some(NotImplementedError))
    ensures |parts| == 2 && parts[0].IntIndex? && parts[1].IntIndex? &&
            (parts[0].i < -(n as int) || parts[0].i >= n || parts[1].i < 0 || parts[1].i >= 3) ==>
              Write(bytes, n, TupleIndex(parts), value) == Step(bytes, Some(IndexError))
    ensures PairOffset(n, parts).Success? && (!value.IntValue? || value.v < 0 || value.v > 255) ==>
              Write(bytes, n, TupleIndex(parts), value) == Step(bytes, Some(ValueError))
    ensures PairOffset(n, parts).Failure? ==>
              Read(bytes, n, TupleIndex(parts)) == Failure(PairOffset(n, parts).error)
  {
  }

  // ---------------------------------------------------------------------
  // Negative indices

  /** The three stores of a pixel write given from the end of the buffer
      are the stores at the same offsets plus the buffer's length, when the
      last view ends before the end of the buffer. */
  lemma WriteTripleFromEnd(s: seq<byte>, o: int, t: seq<int>)
    requires -|s| <= o && o + 12 < 0 && |t| == 3
    ensures WriteTriple(s, o, t) == WriteTriple(s, o + |s|, t)
  {
    ViewFromEnd(s, t[0], o);
    var s0 := ExpandAt(s, t[0], o).bytes;
    ViewFromEnd(s0, t[1], o + 4);
    var s1 := ExpandAt(s0, t[1], o + 4).bytes;
    ViewFromEnd(s1, t[2], o + 8);
  }

  /** The three views of a pixel given from the end of the buffer read as
      the views at the same offsets plus the buffer's length. */
  lemma ReadTripleFromEnd(s: seq<byte>, o: int)
    requires -|s| <= o && o + 12 < 0
    ensures ReadTriple(s, o) == ReadTriple(s, o + |s|)
  {
    ViewFromEnd(s, 0, o);
    ViewFromEnd(s, 0, o + 4);
    ViewFromEnd(s, 0, o + 8);
  }

  /** For 2 <= j <= n, pixel -j is pixel n - j, for reads and writes. */
  lemma {:induction false} NegativePixelAliases(bytes: seq<byte>, n: nat, j: int, value: Value)
    requires |bytes| == 12 * n && 2 <= j <= n
    ensures Read(bytes, n, IntIndex(-j)) == Read(bytes, n, IntIndex(n - j))
    ensures Write(bytes, n, IntIndex(-j), value) == Write(bytes, n, IntIndex(n - j), value)
  {
    NegativePixelReadAlias(bytes, n, j);
    NegativePixelWriteAlias(bytes, n, j, value);
  }

  lemma {:induction false} NegativePixelReadAlias(bytes: seq<byte>, n: nat, j: int)
    requires |bytes| == 12 * n && 2 <= j <= n
    ensures Read(bytes, n, IntIndex(-j)) == Read(bytes, n, IntIndex(n - j))
  {
    var o, p := 12 * -j, 12 * (n - j);
    assert o + |bytes| == p;
    ReadPixelInRange(bytes, n, -j);
    ReadPixelInRange(bytes, n, n - j);
    ReadTripleFromEnd(bytes, o);
    assert ReadTriple(bytes, o + |bytes|) == ReadTriple(bytes, p);
  }

  lemma {:induction false} NegativePixelWriteAlias(bytes: seq<byte>, n: nat, j: int, value: Value)
    requires |bytes| == 12 * n && 2 <= j <= n
    ensures Write(bytes, n, IntIndex(-j), value) == Write(bytes, n, IntIndex(n - j), value)
  {
    if IsTriple(value) {
      var o, p := 12 * -j, 12 * (n - j);
      assert o + |bytes| == p;
      WritePixelInRange(bytes, n, -j, value.items);
      WritePixelInRange(bytes, n, n - j, value.items);
      WriteTripleFromEnd(bytes, o, value.items);
      assert WriteTriple(bytes, o + |bytes|, value.items) == WriteTriple(bytes, p, value.items);
    } else {
      WritePixelRejects(bytes, n, -j, value);
      WritePixelRejects(bytes, n, n - j, value);
    }
  }

  /** Reading channel c of pixel -j is reading it at pixel n - j. */
  lemma ReadChannelFromEnd(bytes: seq<byte>, n: nat, j: int, c: int)
    requires |bytes| == 12 * n && 2 <= j <= n && 0 <= c < 3
    ensures Read(bytes, n, Pair(-j, c)) == Read(bytes, n, Pair(n - j, c))
  {
    var o := -12 * j + 4 * c;
    ViewFromEnd(bytes, 0, o);
    assert o + |bytes| == 12 * (n - j) + 4 * c;
    PairReadInRange(bytes, n, -j, c);
    PairReadInRange(bytes, n, n - j, c);
  }

  /** Writing channel c of pixel -j is writing it at pixel n - j. */
  lemma WriteChannelFromEnd(bytes: seq<byte>, n: nat, j: int, c: int, value: Value)
    requires |bytes| == 12 * n && 2 <= j <= n && 0 <= c < 3
    ensures Write(bytes, n, Pair(-j, c), value) == Write(bytes, n, Pair(n - j, c), value)
  {
    PairWriteInRange(bytes, n, -j, c, value);
    PairWriteInRange(bytes, n, n - j, c, value);
    if value.IntValue? {
      ViewFromEnd(bytes, value.v, -12 * j + 4 * c);
    }
  }

  /** For 2 <= j <= n, the pair (-j, c) is the pair (n - j, c), for reads
      and writes. */
  lemma {:induction false} NegativeChannelAliases(bytes: seq<byte>, n: nat, j: int, c: int, value: Value)
    requires |bytes| == 12 * n && 2 <= j <= n
    ensures Read(bytes, n, Pair(-j, c)) == Read(bytes, n, Pair(n - j, c))
    ensures Write(bytes, n, Pair(-j, c), value) == Write(bytes, n, Pair(n - j, c), value)
  {
    if 0 <= c < 3 {
      ReadChannelFromEnd(bytes, n, j, c);
      WriteChannelFromEnd(bytes, n, j, c, value);
    }
  }

  /** The view `data[-4:0]` is empty, so compressing it raises ValueError
      and storing through it raises IndexError with nothing stored. */
  lemma EmptyLastView(bytes: seq<byte>, b: int)
    requires |bytes| >= 4
    ensures ReadChannel(bytes, -4) == Failure(ValueError)
    ensures ExpandAt(bytes, b, -4) == Step(bytes, Some(IndexError))
  {
    assert PySlice(|bytes|, -4, 0) == (|bytes| - 4, |bytes| - 4);
  }

  /** Index -1 passes the range check but is multiplied by 12 while still
      negative, so its third channel is the empty view `data[-4:0]`:
      reading pixel -1 or channel (-1, 2) raises ValueError, and writing
      channel (-1, 2) raises IndexError with nothing written. */
  lemma {:induction false} LastPixelReadQuirk(bytes: seq<byte>, n: nat, v: int)
    requires |bytes| == 12 * n && n >= 1 && 0 <= v < 256
    ensures Read(bytes, n, IntIndex(-1)) == Failure(ValueError)
    ensures Read(bytes, n, Pair(-1, 2)) == Failure(ValueError)
    ensures Write(bytes, n, Pair(-1, 2), IntValue(v)) == Step(bytes, Some(IndexError))
  {
    EmptyLastView(bytes, v);
    ReadPixelInRange(bytes, n, -1);
    ViewFromEnd(bytes, 0, -12);
    ViewFromEnd(bytes, 0, -8);
    ChannelInside(bytes, 12 * n - 12);
    ChannelInside(bytes, 12 * n - 8);
    PairReadInRange(bytes, n, -1, 2);
    PairWriteInRange(bytes, n, -1, 2, IntValue(v));
  }

  /** `np[-1] = t` writes channels 0 and 1 of the last pixel, then raises
      IndexError at the empty view of channel 2. */
  lemma {:induction false} LastPixelWriteQuirk(bytes: seq<byte>, n: nat, t: seq<int>)
    requires |bytes| == 12 * n && n >= 1 && |t| == 3
    ensures Write(bytes, n, IntIndex(-1), TupleValue(t))
            == Step(bytes[..12 * n - 12] + Expand(t[0]) + Expand(t[1]) + bytes[12 * n - 4..], Some(IndexError))
  {
    var L := 12 * n;
    WritePixelInRange(bytes, n, -1, t);
    ViewFromEnd(bytes, t[0], -12);
    ExpandAtInside(bytes, t[0], L - 12);
    var s0 := bytes[..L - 12] + Expand(t[0]) + bytes[L - 8..];
    ViewFromEnd(s0, t[1], -8);
    ExpandAtInside(s0, t[1], L - 8);
    var s1 := s0[..L - 8] + Expand(t[1]) + s0[L - 4..];
    assert s1 == bytes[..L - 12] + Expand(t[0]) + Expand(t[1]) + bytes[L - 4..];
    EmptyLastView(s1, t[2]);
  }

  /** Channels 0 and 1 of pixel -1 lie wholly before the end of the buffer,
      so the pairs (-1, 0) and (-1, 1) read and write exactly like
      (n - 1, 0) and (n - 1, 1); only channel 2 meets the empty view. */
  lemma {:induction false} LastPixelFirstChannels(bytes: seq<byte>, n: nat, c: int, value: Value)
    requires |bytes| == 12 * n && n >= 1 && 0 <= c < 2
    ensures Read(bytes, n, Pair(-1, c)) == Read(bytes, n, Pair(n - 1, c))
    ensures Write(bytes, n, Pair(-1, c), value) == Write(bytes, n, Pair(n - 1, c), value)
  {
    LastPixelChannelRead(bytes, n, c);
    LastPixelChannelWrite(bytes, n, c, value);
  }

  lemma LastPixelChannelRead(bytes: seq<byte>, n: nat, c: int)
    requires |bytes| == 12 * n && n >= 1 && 0 <= c < 2
    ensures Read(bytes, n, Pair(-1, c)) == Read(bytes, n, Pair(n - 1, c))
  {
    var o := -12 + 4 * c;
    assert o + |bytes| == 12 * (n - 1) + 4 * c;
    PairReadInRange(bytes, n, -1, c);
    PairReadInRange(bytes, n, n - 1, c);
    ViewFromEnd(bytes, 0, o);
  }

  lemma LastPixelChannelWrite(bytes: seq<byte>, n: nat, c: int, value: Value)
    requires |bytes| == 12 * n && n >= 1 && 0 <= c < 2
    ensures Write(bytes, n, Pair(-1, c), value) == Write(bytes, n, Pair(n - 1, c), value)
  {
    var o := -12 + 4 * c;
    assert o + |bytes| == 12 * (n - 1) + 4 * c;
    PairWriteInRange(bytes, n, -1, c, value);
    PairWriteInRange(bytes, n, n - 1, c, value);
    if value.IntValue? {
      ViewFromEnd(bytes, value.v, o);
    }
  }

  // ---------------------------------------------------------------------
  // Which integer and pair accesses succeed

  /** `np[i]` succeeds exactly for -n <= i < n other than -1; outside that
      range it raises IndexError, and at -1 ValueError. */
  lemma {:induction false} ReadPixelDomain(bytes: seq<byte>, n: nat, i: int)
    requires |bytes| == 12 * n
    ensures var r := Read(bytes, n, IntIndex(i));
      && (r.Success? <==> -(n as int) <= i < n && i != -1)
      && (r.Failure? ==> r.error == if -(n as int) <= i < n then ValueError else IndexError)
  {
    if i < -(n as int) || i >= n {
      WritePixelRejects(bytes, n, i, IntValue(0));
    } else if i == -1 {
      LastPixelReadQuirk(bytes, n, 0);
    } else if i < 0 {
      NegativePixelReadAlias(bytes, n, -i);
      ReadPixelInRange(bytes, n, n + i);
      TripleAt(bytes, 12 * (n + i));
    } else {
      ReadPixelInRange(bytes, n, i);
      TripleAt(bytes, 12 * i);
    }
  }

  /** A twelve-byte window inside the buffer always reads as a triple. */
  lemma TripleAt(bytes: seq<byte>, o: nat)
    requires o + 12 <= |bytes|
    ensures ReadTriple(bytes, o).Success?
  {
    ChannelInside(bytes, o);
    ChannelInside(bytes, o + 4);
    ChannelInside(bytes, o + 8);
  }

  /** `np[i] = value` completes exactly when -n <= i < n, i is not -1 and
      value is a 3-tuple; otherwise it raises ValueError for an in-range
      index with a bad value, and IndexError in every other case. */
  lemma {:induction false} WritePixelDomain(bytes: seq<byte>, n: nat, i: int, value: Value)
    requires |bytes| == 12 * n
    ensures var r := Write(bytes, n, IntIndex(i), value);
      && (r.raised.None? <==> -(n as int) <= i < n && i != -1 && IsTriple(value))
      && (r.raised.Some? ==>
            r.raised.value == if -(n as int) <= i < n && !IsTriple(value) then ValueError else IndexError)
  {
    if i < -(n as int) || i >= n || !IsTriple(value) {
      WritePixelRejects(bytes, n, i, value);
    } else if i == -1 {
      LastPixelWriteQuirk(bytes, n, value.items);
    } else if i < 0 {
      NegativePixelWriteAlias(bytes, n, -i, value);
      WritePixelThenRead(bytes, n, n + i, value.items);
    } else {
      WritePixelThenRead(bytes, n, i, value.items);
    }
  }

  /** `np[p, c]` succeeds exactly for -n <= p < n and 0 <= c < 3 other than
      the pair (-1, 2); outside that range it raises IndexError, and at
      (-1, 2) ValueError. */
  lemma {:induction false} PairReadDomain(bytes: seq<byte>, n: nat, p: int, c: int)
    requires |bytes| == 12 * n
    ensures var r := Read(bytes, n, Pair(p, c));
      && (r.Success? <==> -(n as int) <= p < n && 0 <= c < 3 && !(p == -1 && c == 2))
      && (r.Failure? ==> r.error == if -(n as int) <= p < n && 0 <= c < 3 then ValueError else IndexError)
  {
    if p < -(n as int) || p >= n || c < 0 || c >= 3 {
      WriteChannelRejects(bytes, n, Pair(p, c).parts, IntValue(0));
    } else if p == -1 && c == 2 {
      LastPixelReadQuirk(bytes, n, 0);
    } else {
      var q := if p < 0 then p + n else p;
      if p == -1 {
        LastPixelFirstChannels(bytes, n, c, IntValue(0));
      } else if p < 0 {
        ReadChannelFromEnd(bytes, n, -p, c);
      }
      assert Read(bytes, n, Pair(p, c)) == Read(bytes, n, Pair(q, c));
      PairReadInRange(bytes, n, q, c);
      ChannelInside(bytes, 12 * q + 4 * c);
    }
  }

  /** `np[p, c] = v` completes exactly for -n <= p < n, 0 <= c < 3 and
      0 <= v <= 255, the pair (-1, 2) excepted; an in-range pair with a bad
      value raises ValueError, and every other failure is IndexError. */
  lemma {:induction false} PairWriteDomain(bytes: seq<byte>, n: nat, p: int, c: int, v: int)
    requires |bytes| == 12 * n
    ensures var r := Write(bytes, n, Pair(p, c), IntValue(v));
      && (r.raised.None? <==> -(n as int) <= p < n && 0 <= c < 3 && !(p == -1 && c == 2) && 0 <= v < 256)
      && (r.raised.Some? ==>
            r.raised.value == if -(n as int) <= p < n && 0 <= c < 3 && (v < 0 || v > 255) then ValueError
                              else IndexError)
  {
    if p < -(n as int) || p >= n || c < 0 || c >= 3 {
      WriteChannelRejects(bytes, n, Pair(p, c).parts, IntValue(v));
    } else if v < 0 || v > 255 {
      PairWriteInRange(bytes, n, p, c, IntValue(v));
    } else if p == -1 && c == 2 {
      LastPixelReadQuirk(bytes, n, v);
    } else {
      var q := if p < 0 then p + n else p;
      if p == -1 {
        LastPixelFirstChannels(bytes, n, c, IntValue(v));
      } else if p < 0 {
        WriteChannelFromEnd(bytes, n, -p, c, IntValue(v));
      }
      assert Write(bytes, n, Pair(p, c), IntValue(v)) == Write(bytes, n, Pair(q, c), IntValue(v));
      WriteChannelThenRead(bytes, n, q, c, v, if c == 0 then 1 else 0);
    }
  }
}
