/** The wire codec of the driver: `_expand_byte` spreads one colour value
    over four SPI bytes and `_compress_byte` gathers it back again. */
module Codec {
  import opened Py

  /** The wire byte for each 2-bit group of a value, indexed by the group
      0b00, 0b01, 0b10, 0b11. */
  const ExpandedBits: seq<byte> := [0x88, 0x8C, 0xC8, 0xCC]

  /** The bit of `x` whose value is `weight` (a power of two), so that
      `x & weight == Bit(x, weight) * weight`; for a negative `x` it is the
      bit of the two's-complement form, as in Python. */
  function Bit(x: int, weight: int): (r: int)
    requires weight > 0
    ensures r == 0 || r == 1
  {
    (x / weight) % 2
  }

  /** A byte as the strip needs it on the wire: bits 7 and 3 set, bits 5, 4,
      1 and 0 clear; only bits 6 and 2 carry data. */
  predicate IsWireByte(x: int) {
    && 0 <= x < 256
    && Bit(x, 128) == 1 && Bit(x, 32) == 0 && Bit(x, 16) == 0
    && Bit(x, 8) == 1 && Bit(x, 2) == 0 && Bit(x, 1) == 0
  }

  /** The four bytes `_expand_byte` stores for `b`: the 2-bit groups
      `(b >> 6) & 3`, `(b >> 4) & 3`, `(b >> 2) & 3` and `b & 3`, in that
      order, each looked up in ExpandedBits. Python's `>>` floors and `& 3`
      keeps the two's-complement low bits, as Dafny's `/` and `%` by a
      positive divisor do, so `b` may be any integer. */
  function Expand(b: int): (r: seq<byte>)
    ensures |r| == 4
    ensures forall j :: 0 <= j < 4 ==> r[j] in ExpandedBits
  {
    [ExpandedBits[(b / 64) % 4], ExpandedBits[(b / 16) % 4],
     ExpandedBits[(b / 4) % 4], ExpandedBits[b % 4]]
  }

  /** The largest value k bytes can pack into, plus one: 4^k, for k <= 4. */
  function Span(k: nat): nat
    requires k <= 4
  {
    if k == 0 then 1 else if k == 1 then 4 else if k == 2 then 16 else if k == 3 then 64 else 256
  }

  /** The value `_compress_byte` packs from the first k bytes of s: bit 6
      and bit 2 of each byte form a 2-bit group, the first byte's group most
      significant. For k = 4 this is the or of the eight shifted bits the
      source takes, each of which lands at a position of its own (bit 6 of
      the first byte at bit 7, its bit 2 at bit 6, and so on down to bit 2
      of the fourth byte at bit 0). */
  function Gather(s: seq<byte>, k: nat): (r: int)
    requires k <= |s| && k <= 4
    ensures 0 <= r < Span(k)
  {
    if k == 0 then 0
    else 4 * Gather(s, k - 1) + 2 * Bit(s[k - 1], 64) + Bit(s[k - 1], 4)
  }

  /** `_compress_byte(mv)`: the unpacking `b1, b2, b3, b4 = mv` raises
      ValueError unless the view holds exactly four bytes. */
  function Compress(s: seq<byte>): (r: Result<int>)
    ensures r.Success? <==> |s| == 4
    ensures r.Failure? ==> r.error == ValueError
    ensures r.Success? ==> 0 <= r.value < 256
  {
    if |s| != 4 then Failure(ValueError) else Success(Gather(s, 4))
  }

  /** What storing Expand(b) through the view `s[lo:hi]` does, item by item:
      the view's first four items are written, and a view shorter than four
      raises IndexError at its first missing item, keeping the items already
      stored. */
  function ExpandInto(s: seq<byte>, b: int, lo: nat, hi: nat): (r: Step)
    requires lo <= hi <= |s|
    ensures |r.bytes| == |s|
    ensures r.raised.None? <==> hi - lo >= 4
    ensures r.raised.Some? ==> r.raised.value == IndexError
    ensures forall j :: 0 <= j < |s| ==>
              r.bytes[j] == if lo <= j < hi && j < lo + 4 then Expand(b)[j - lo] else s[j]
  {
    var m := if hi - lo < 4 then hi - lo else 4;
    Step(s[..lo] + Expand(b)[..m] + s[lo + m..], if m < 4 then Some(IndexError) else None)
  }

  /** `_expand_byte(b, mv)` with `mv` the view buf[lo..hi]: four item
      stores, in order. */
  method ExpandByte(b: int, buf: array<byte>, lo: nat, hi: nat) returns (raised: Option<Error>)
    requires lo <= hi <= buf.Length
    modifies buf
    ensures Step(buf[..], raised) == ExpandInto(old(buf[..]), b, lo, hi)
  {
    var w := Expand(b);
    raised := Some(IndexError);
    if hi - lo < 1 { return; }
    buf[lo] := w[0];
    if hi - lo < 2 { return; }
    buf[lo + 1] := w[1];
    if hi - lo < 3 { return; }
    buf[lo + 2] := w[2];
    if hi - lo < 4 { return; }
    buf[lo + 3] := w[3];
    raised := None;
  }

  /** Bit 6 and bit 2 of a table entry are the high and the low bit of its
      index. */
  lemma TableBits(d: int)
    requires 0 <= d < 4
    ensures Bit(ExpandedBits[d], 64) == d / 2 && Bit(ExpandedBits[d], 4) == d % 2
  {
  }

  /** A byte is the four base-4 digits Expand looks up. */
  lemma Digits(b: int)
    requires 0 <= b < 256
    ensures b == 64 * ((b / 64) % 4) + 16 * ((b / 16) % 4) + 4 * ((b / 4) % 4) + b % 4
  {
    assert (b / 64) % 4 == b / 64;
    assert b / 16 == 4 * (b / 64) + (b / 16) % 4;
    assert b / 4 == 4 * (b / 16) + (b / 4) % 4;
    assert b == 4 * (b / 4) + b % 4;
  }

  /** Gathering four bytes is the sum of their 2-bit groups, weighted. */
  lemma GatherFour(s: seq<byte>)
    requires |s| == 4
    ensures Gather(s, 4) == 64 * (2 * Bit(s[0], 64) + Bit(s[0], 4)) + 16 * (2 * Bit(s[1], 64) + Bit(s[1], 4))
                            + 4 * (2 * Bit(s[2], 64) + Bit(s[2], 4)) + (2 * Bit(s[3], 64) + Bit(s[3], 4))
  {
    assert Gather(s, 1) == 2 * Bit(s[0], 64) + Bit(s[0], 4);
    assert Gather(s, 2) == 4 * Gather(s, 1) + 2 * Bit(s[1], 64) + Bit(s[1], 4);
    assert Gather(s, 3) == 4 * Gather(s, 2) + 2 * Bit(s[2], 64) + Bit(s[2], 4);
  }

  /** Compressing the expansion of a byte gives the byte back: the example
      at the head of the file, 0b00011011, is one instance. */
  lemma RoundTrip(b: int)
    requires 0 <= b < 256
    ensures Compress(Expand(b)) == Success(b)
  {
    var d0, d1, d2, d3 := (b / 64) % 4, (b / 16) % 4, (b / 4) % 4, b % 4;
    assert Expand(b) == [ExpandedBits[d0], ExpandedBits[d1], ExpandedBits[d2], ExpandedBits[d3]];
    GatherTable(d0, d1, d2, d3);
    Digits(b);
  }

  /** The value of four base-4 digits, the first most significant: the
      inverse of the digit split Expand makes. */
  lemma SplitDigits(d0: int, d1: int, d2: int, d3: int)
    requires 0 <= d0 < 4 && 0 <= d1 < 4 && 0 <= d2 < 4 && 0 <= d3 < 4
    ensures var v := 64 * d0 + 16 * d1 + 4 * d2 + d3;
      0 <= v < 256 && (v / 64) % 4 == d0 && (v / 16) % 4 == d1 && (v / 4) % 4 == d2 && v % 4 == d3
  {
    var v := 64 * d0 + 16 * d1 + 4 * d2 + d3;
    assert v / 4 == 16 * d0 + 4 * d1 + d2;
    assert v / 16 == 4 * d0 + d1;
    assert v / 64 == d0;
  }

  /** Shifting right by 6, 4, 2 or 0 bits and keeping two bits sees only
      the low eight bits of a number. */
  lemma GroupLowBits(b: int)
    ensures (b / 64) % 4 == ((b % 256) / 64) % 4
    ensures (b / 16) % 4 == ((b % 256) / 16) % 4
    ensures (b / 4) % 4 == ((b % 256) / 4) % 4
    ensures b % 4 == (b % 256) % 4
  {
    var q, r := b / 256, b % 256;
    assert b == 256 * q + r;
    assert b / 64 == 4 * q + r / 64;
    assert b / 16 == 16 * q + r / 16;
    assert b / 4 == 64 * q + r / 4;
  }

  /** Expand reads only the low eight bits of its argument. */
  lemma ExpandLowBits(b: int)
    ensures Expand(b) == Expand(b % 256)
  {
    GroupLowBits(b);
  }

  /** For any integer, compressing its expansion gives its low eight bits. */
  lemma RoundTripAny(b: int)
    ensures Compress(Expand(b)) == Success(b % 256)
  {
    ExpandLowBits(b);
    RoundTrip(b % 256);
  }

  /** Gathering four table entries gives back the digits that index them. */
  lemma GatherTable(d0: int, d1: int, d2: int, d3: int)
    requires 0 <= d0 < 4 && 0 <= d1 < 4 && 0 <= d2 < 4 && 0 <= d3 < 4
    ensures Gather([ExpandedBits[d0], ExpandedBits[d1], ExpandedBits[d2], ExpandedBits[d3]], 4)
            == 64 * d0 + 16 * d1 + 4 * d2 + d3
  {
    var s := [ExpandedBits[d0], ExpandedBits[d1], ExpandedBits[d2], ExpandedBits[d3]];
    GatherFour(s);
    TableBits(d0);
    TableBits(d1);
    TableBits(d2);
    TableBits(d3);
  }

  /** The position of a table entry in the table. */
  function TableIndex(x: byte): (d: int)
    requires x in ExpandedBits
    ensures 0 <= d < 4 && ExpandedBits[d] == x
  {
    if x == 0x88 then 0 else if x == 0x8C then 1 else if x == 0xC8 then 2 else 3
  }

  /** The other direction: four bytes drawn from the table are the
      expansion of the value they compress to. */
  lemma CompressRoundTrip(s: seq<byte>)
    requires |s| == 4
    requires forall j :: 0 <= j < 4 ==> s[j] in ExpandedBits
    ensures Compress(s).Success? && Expand(Compress(s).value) == s
  {
    var d0, d1, d2, d3 := TableIndex(s[0]), TableIndex(s[1]), TableIndex(s[2]), TableIndex(s[3]);
    GatherTable(d0, d1, d2, d3);
    SplitDigits(d0, d1, d2, d3);
    assert s == [ExpandedBits[d0], ExpandedBits[d1], ExpandedBits[d2], ExpandedBits[d3]];
  }

  /** The bits of x below 2w are its bit of weight w and the bits below w. */
  lemma BitSplit(x: int, w: int)
    requires w > 0
    ensures x % (2 * w) == w * Bit(x, w) + x % w
  {
    var q, r := x / (2 * w), x % (2 * w);
    var b, s := r / w, r % w;
    assert x == w * (2 * q + b) + s;
    if b >= 2 {
      MulAtLeast(w, b - 1);
    } else if b < 0 {
      MulAtLeast(w, -b);
    }
    DivModUnique(x, w, 2 * q + b, s);
    DivModUnique(2 * q + b, 2, q, b);
  }

  /** The table holds exactly the bytes with the wire pattern. */
  lemma WireBytesAreTableEntries(x: int)
    ensures IsWireByte(x) <==> x in ExpandedBits
  {
    if IsWireByte(x) {
      var b6, b2 := Bit(x, 64), Bit(x, 4);
      DivModUnique(x, 256, 0, x);
      BitSplit(x, 128);
      BitSplit(x, 64);
      BitSplit(x, 32);
      BitSplit(x, 16);
      BitSplit(x, 8);
      BitSplit(x, 4);
      BitSplit(x, 2);
      BitSplit(x, 1);
      DivModUnique(x, 1, x, 0);
      assert x == 128 + 64 * b6 + 8 + 4 * b2;
      assert x == ExpandedBits[2 * b6 + b2];
    }
  }

  /** Every byte Expand stores has the wire pattern the strip needs. */
  lemma ExpandWireBytes(b: int)
    ensures forall j :: 0 <= j < 4 ==> IsWireByte(Expand(b)[j])
  {
    forall j | 0 <= j < 4
      ensures IsWireByte(Expand(b)[j])
    {
      WireBytesAreTableEntries(Expand(b)[j]);
    }
  }

  /** The worked example in the source's comment. */
  lemma ExpandExample()
    ensures Expand(0x1B) == [0x88, 0x8C, 0xC8, 0xCC]
    ensures Compress([0x88, 0x8C, 0xC8, 0xCC]) == Success(0x1B)
  {
  }
}
