/** The `NeoPixel` object: one buffer of 12 * n bytes in wire form, read
    and written in place. Each method is proved to leave the buffer as the
    matching function of module Pixels says, and to raise what it says;
    what those functions promise is proved in Properties, SliceProperties
    and RotateProperties. */
module NeoPixels {
  import opened Py
  import opened Codec
  import opened Pixels
  import opened Properties
  import opened SliceProperties
  import RotateProperties

  /** A slice assignment `buf[at:at+|src|] = src` of matching length: the
      bytes of src are copied in, one by one. */
  method Overwrite(buf: array<byte>, at: nat, src: seq<byte>)
    requires at + |src| <= buf.Length
    modifies buf
    ensures buf[..] == old(buf[..])[..at] + src + old(buf[..])[at + |src|..]
  {
    var k := 0;
    while k < |src|
      invariant 0 <= k <= |src|
      invariant forall j :: 0 <= j < buf.Length ==>
                  buf[j] == if at <= j < at + k then src[j - at] else old(buf[j])
    {
      buf[at + k] := src[k];
      k := k + 1;
    }
    assert buf[..] == old(buf[..])[..at] + src + old(buf[..])[at + |src|..];
  }

  /** The buffer after `data[c:] = head` and then `data[:c] = tail`, when
      head is the first |b| - c bytes: tail followed by head. */
  lemma SpliceBoth(b: seq<byte>, c: nat, head: seq<byte>, tail: seq<byte>)
    requires c + |head| == |b| && |tail| == c
    ensures var b1 := b[..c] + head + b[c + |head|..];
      b1[..0] + tail + b1[|tail|..] == tail + head
  {
    var b1 := b[..c] + head + b[c + |head|..];
    assert b1[c..] == head;
  }

  /** The first pixel of a broadcast: the three stores paint a run of one. */
  lemma BroadcastFirst(start: seq<byte>, lo: nat, t: seq<int>)
    requires |t| == 3 && lo + 12 <= |start|
    ensures WriteTriple(start, lo, t) == Step(Paint(start, lo, Copies(1, t)), None)
  {
    WriteTripleInside(start, lo, t);
    PaintOne(start, lo, t);
    assert [t] == Copies(1, t);
  }

  /** Each copy of the first 12 bytes of a broadcast paints one more pixel. */
  lemma BroadcastNext(start: seq<byte>, lo: nat, j: nat, t: seq<int>, cur: seq<byte>)
    requires |t| == 3 && 1 <= j && lo + 12 * j + 12 <= |start|
    requires cur == Paint(start, lo, Copies(j, t))
    ensures cur[..lo + 12 * j] + cur[lo..lo + 12] + cur[lo + 12 * j + 12..] == Paint(start, lo, Copies(j + 1, t))
  {
    var ts := Copies(j, t);
    PaintedPixel(start, lo, ts, 0);
    PaintSnoc(start, lo, ts, t);
    assert ts + [t] == Copies(j + 1, t);
  }

  /** Each pass of the list loop that finds its element paints one more
      pixel of the run. */
  lemma ListNext(start: seq<byte>, lo: nat, m: nat, elems: seq<Value>, j: nat, cur: seq<byte>)
    requires AllTriples(elems) && lo + 12 * m <= |start| && j <= |ListRun(m, elems)|
    requires j < m && 4 * j < |elems|
    requires cur == Paint(start, lo, ListRun(m, elems)[..j])
    ensures j < |ListRun(m, elems)| && |elems[4 * j].items| == 3
    ensures WriteTriple(cur, lo + 12 * j, elems[4 * j].items)
            == Step(Paint(start, lo, ListRun(m, elems)[..j + 1]), None)
  {
    var run := ListRun(m, elems);
    ListRunAt(m, elems, j);
    RunPrefix(run, j);
    var t := run[j];
    var e := lo + 12 * j;
    assert |run[..j]| == j;
    PaintSnoc(start, lo, run[..j], t);
    assert Paint(start, lo, run[..j + 1]) == cur[..e] + PixelBytes(t) + cur[e + 12..];
    WriteTripleInside(cur, e, t);
  }

  /** The list loop stops, after j passes, when the run has no pixel j or
      the list no element 4j; it has then painted the whole run, and raised
      IndexError when it stopped early. */
  lemma ListExit(start: seq<byte>, lo: nat, m: nat, elems: seq<Value>, j: nat, cur: seq<byte>)
    requires AllTriples(elems) && lo + 12 * m <= |start| && j <= |ListRun(m, elems)|
    requires j == m || 4 * j >= |elems|
    requires cur == Paint(start, lo, ListRun(m, elems)[..j])
    ensures Step(cur, if j < m then Some(IndexError) else None) == ListWrite(start, lo, m, elems)
  {
    var run := ListRun(m, elems);
    ListRunAt(m, elems, j);
    assert run[..j] == run;
  }

  /** The prefixes of a run of triples grow one triple at a time. */
  lemma RunPrefix(run: seq<seq<int>>, j: nat)
    requires AreTriples(run) && j < |run|
    ensures AreTriples(run[..j]) && |run[j]| == 3 && run[..j] + [run[j]] == run[..j + 1]
  {
  }

  /** The three views `rotate` takes of a buffer of L bytes, for a shift
      of c bytes with 0 <= c < L: the last c bytes, the rest, and the
      destination of the first assignment. */
  lemma RotateViews(L: nat, c: nat)
    requires c < L
    ensures PySlice(L, -(c as int), L) == (if c == 0 then 0 else L - c, L)
    ensures PySlice(L, 0, -(c as int)) == (if c == 0 then (0, 0) else (0, L - c))
    ensures PySlice(L, c, L) == (c, L)
  {
  }

  class NeoPixel {
    /** The pixel count, which the `n` property returns. */
    const n: nat
    /** The buffer `_data`, as it goes out on the SPI bus. */
    const data: array<byte>

    predicate Valid() {
      data.Length == 12 * n
    }

    /** `NeoPixel(spi, pixelCount)`: a zeroed buffer of 12 * pixelCount
        bytes, then `self[:] = (0,0,0)`, which leaves every byte 0x88 (so
        every pixel reads (0, 0, 0), by SliceProperties.FreshStripIsDark). */
    constructor (pixelCount: nat)
      ensures Valid() && n == pixelCount && fresh(data)
      ensures data[..] == seq(12 * pixelCount, _ => 0x88)
    {
      n := pixelCount;
      data := new byte[12 * pixelCount](_ => 0);
      new;
      assert data[..] == seq(12 * pixelCount, _ => 0);
      var raised := SetItem(SliceIndex(None, None, None), TupleValue([0, 0, 0]));
      FreshStripIsDark(pixelCount, 0);
    }

    /** `np[index]`: a pixel reads as a 3-tuple and succeeds exactly for
        -n <= i < n other than -1; a pair reads as a channel value and
        succeeds exactly for -n <= p < n, 0 <= c < 3 other than (-1, 2). */
    function GetItem(index: Index): (r: Result<Value>)
      reads data
      requires Valid()
      ensures index.IntIndex? ==>
                && (r.Success? <==> -(n as int) <= index.i < n && index.i != -1)
                && (r.Success? ==> IsTriple(r.value))
      ensures index.TupleIndex? && |index.parts| == 2 && index.parts[0].IntIndex? && index.parts[1].IntIndex? ==>
                var p, c := index.parts[0].i, index.parts[1].i;
                && (r.Success? <==> -(n as int) <= p < n && 0 <= c < 3 && !(p == -1 && c == 2))
                && (r.Success? ==> r.value.IntValue? && 0 <= r.value.v < 256)
      ensures index.SliceIndex? ==> (r.Success? <==> index.step.None? || index.step.value == 1)
    {
      if index.IntIndex? then
        ReadPixelDomain(data[..], n, index.i);
        Read(data[..], n, index)
      else if index.TupleIndex? && |index.parts| == 2 && index.parts[0].IntIndex? && index.parts[1].IntIndex? then
        PairReadDomain(data[..], n, index.parts[0].i, index.parts[1].i);
        assert index == Pair(index.parts[0].i, index.parts[1].i);
        Read(data[..], n, index)
      else
        Read(data[..], n, index)
    }

    /** The three `_expand_byte` calls of a pixel write, through the views
        at o, o + 4 and o + 8, stopping at the first that raises. */
    method StoreTriple(o: int, t: seq<int>) returns (raised: Option<Error>)
      requires |t| == 3
      modifies data
      ensures Step(data[..], raised) == WriteTriple(old(data[..]), o, t)
    {
      var w := PySlice(data.Length, o, o + 4);
      raised := ExpandByte(t[0], data, w.0, w.1);
      if raised.Some? { return; }
      w := PySlice(data.Length, o + 4, o + 8);
      raised := ExpandByte(t[1], data, w.0, w.1);
      if raised.Some? { return; }
      w := PySlice(data.Length, o + 8, o + 12);
      raised := ExpandByte(t[2], data, w.0, w.1);
    }

    /** `np[s:t] = t3` on the run of m > 0 pixels from byte lo on: t3 is
        expanded into the first 12 bytes, which are then copied over each
        following 12-byte group. */
    method Broadcast(lo: nat, m: nat, t: seq<int>)
      requires Valid() && |t| == 3 && 0 < m && lo + 12 * m <= data.Length
      modifies data
      ensures data[..] == Paint(old(data[..]), lo, Copies(m, t))
    {
      ghost var start := data[..];
      var raised := StoreTriple(lo, t);
      BroadcastFirst(start, lo, t);
      var j := 1;
      while j < m
        invariant 1 <= j <= m
        invariant data.Length == |start|
        invariant data[..] == Paint(start, lo, Copies(j, t))
      {
        ghost var cur := data[..];
        var first := data[lo..lo + 12];
        assert first == cur[lo..lo + 12];
        BroadcastNext(start, lo, j, t, cur);
        Overwrite(data, lo + 12 * j, first);
        j := j + 1;
      }
    }

    /** `np[s:t] = elems` on the run of m > 0 pixels from byte lo on: the
        group at byte offset i of the view takes `elems[i // 3]`; an index
        past the end of the list raises IndexError. */
    method WriteList(lo: nat, m: nat, elems: seq<Value>) returns (raised: Option<Error>)
      requires Valid() && AllTriples(elems) && lo + 12 * m <= data.Length
      modifies data
      ensures Step(data[..], raised) == ListWrite(old(data[..]), lo, m, elems)
    {
      ghost var start := data[..];
      ghost var run := ListRun(m, elems);
      assert run[..0] == [];
      var j := 0;
      while j < m
        invariant 0 <= j <= |run|
        invariant data.Length == |start|
        invariant data[..] == Paint(start, lo, run[..j])
      {
        var i := 12 * j;
        var k := i / 3;
        assert k == 4 * j;
        if k >= |elems| {
          ListExit(start, lo, m, elems, j, data[..]);
          return Some(IndexError);
        }
        StoreListed(start, lo, m, elems, j);
        j := j + 1;
      }
      ListExit(start, lo, m, elems, j, data[..]);
      raised := None;
    }

    /** One pass of the list loop: the three stores of element 4j into
        pixel j of the run. */
    method StoreListed(ghost start: seq<byte>, lo: nat, m: nat, elems: seq<Value>, j: nat)
      requires AllTriples(elems) && lo + 12 * m <= |start| && j <= |ListRun(m, elems)|
      requires j < m && 4 * j < |elems|
      requires data[..] == Paint(start, lo, ListRun(m, elems)[..j])
      modifies data
      ensures data[..] == Paint(start, lo, ListRun(m, elems)[..j + 1])
    {
      ListNext(start, lo, m, elems, j, data[..]);
      var r := StoreTriple(lo + 12 * j, elems[4 * j].items);
    }

    /** `np[i] = value`. */
    method SetPixel(i: int, value: Value) returns (raised: Option<Error>)
      requires Valid()
      modifies data
      ensures Step(data[..], raised) == WritePixel(old(data[..]), n, i, value)
    {
      if i < -(n as int) || i >= n {
        return Some(IndexError);
      }
      if !IsTriple(value) {
        return Some(ValueError);
      }
      raised := StoreTriple(12 * i, value.items);
    }

    /** `np[p, c] = value`. */
    method SetPair(parts: seq<Index>, value: Value) returns (raised: Option<Error>)
      requires Valid()
      modifies data
      ensures Step(data[..], raised) == WritePair(old(data[..]), n, parts, value)
    {
      var off := PairOffset(n, parts);
      if off.Failure? {
        return Some(off.error);
      }
      if !value.IntValue? || value.v < 0 || value.v > 255 {
        return Some(ValueError);
      }
      var w := PySlice(data.Length, off.value, off.value + 4);
      raised := ExpandByte(value.v, data, w.0, w.1);
    }

    /** `np[s:t] = value`. */
    method SetSlice(start: Option<int>, stop: Option<int>, step: Option<int>, value: Value)
      returns (raised: Option<Error>)
      requires Valid()
      modifies data
      ensures Step(data[..], raised) == WriteSlice(old(data[..]), n, start, stop, step, value)
    {
      var view := SliceView(n, start, stop, step);
      if view.Failure? {
        return Some(view.error);
      }
      raised := SetView(view.value.0, view.value.1, value);
    }

    /** The assignment to the view `dd` of the bytes [lo, hi). */
    method SetView(lo: nat, hi: nat, value: Value) returns (raised: Option<Error>)
      requires Valid() && lo <= hi <= data.Length
      modifies data
      ensures Step(data[..], raised) == WriteView(old(data[..]), lo, hi, value)
    {
      var m := (hi - lo) / 12;
      if m == 0 {
        return None;
      }
      if IsTriple(value) {
        Broadcast(lo, m, value.items);
        raised := None;
      } else if value.ListValue? && AllTriples(value.elems) {
        raised := WriteList(lo, m, value.elems);
      } else {
        raised := Some(ValueError);
      }
    }

    /** `np[index] = value`. */
    method SetItem(index: Index, value: Value) returns (raised: Option<Error>)
      requires Valid()
      modifies data
      ensures Step(data[..], raised) == Write(old(data[..]), n, index, value)
    {
      match index
      case IntIndex(i) =>
        raised := SetPixel(i, value);
      case TupleIndex(parts) =>
        raised := SetPair(parts, value);
      case SliceIndex(start, stop, step) =>
        raised := SetSlice(start, stop, step, value);
    }

    /** `np.rotate(count)`: `count % n` (ZeroDivisionError on an empty
        strip), copies of the last c = 12 * (count % n) bytes and of the
        rest, then the two slice assignments, the first of which raises
        ValueError when its lengths differ. */
    method Rotate(count: int) returns (raised: Option<Error>)
      requires Valid()
      modifies data
      ensures Step(data[..], raised) == Rotated(old(data[..]), n, count)
    {
      if n == 0 {
        return Some(ZeroDivisionError);
      }
      var L := data.Length;
      var c := count % n;
      c := 12 * c;
      RotateViews(L, c);
      var tw := PySlice(L, -c, L);
      var tail := data[tw.0..tw.1];
      var hw := PySlice(L, 0, -c);
      var head := data[hw.0..hw.1];
      var dst := PySlice(L, c, L);
      if |head| != dst.1 - dst.0 {
        RotateProperties.RotateRejects(data[..], n, count);
        return Some(ValueError);
      }
      // The second assignment, `data[:c] = tail`, always has matching
      // lengths here: c > 0, so the tail is the last c bytes.
      ghost var before := data[..];
      assert head == before[..L - c] && tail == before[L - c..];
      Reassign(c, head, tail);
      RotateProperties.RotatedUnfolds(before, n, count);
      raised := None;
    }

    /** `data[c:] = head` and then `data[:c] = tail`, with lengths that
        match: the buffer becomes tail followed by head. */
    method Reassign(c: nat, head: seq<byte>, tail: seq<byte>)
      requires c + |head| == data.Length && |tail| == c
      modifies data
      ensures data[..] == tail + head
    {
      ghost var before := data[..];
      Overwrite(data, c, head);
      Overwrite(data, 0, tail);
      SpliceBoth(before, c, head, tail);
    }
  }
}
