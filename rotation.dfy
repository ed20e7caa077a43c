/** What `rotate` promises, stated over Pixels.Rotated and proved. */
module RotateProperties {
  import opened Py
  import opened Pixels
  import opened Properties

  // ---------------------------------------------------------------------
  // Arithmetic of Python's `%` with a positive divisor

  /** Reducing the count first, as `rotate` does, does not change where a
      pixel lands. */
  lemma ModOfMod(i: int, count: int, n: int)
    requires n > 0
    ensures (i + count) % n == (i + count % n) % n
  {
    var q, d := count / n, count % n;
    var q2, e := (i + d) / n, (i + d) % n;
    assert i + count == n * (q + q2) + e;
    DivModUnique(i + count, n, q + q2, e);
  }

  lemma NegMod(count: int, n: int)
    requires n > 0 && count % n != 0
    ensures (-count) % n == n - count % n
  {
    var q, d := count / n, count % n;
    assert -count == n * (-q - 1) + (n - d);
    DivModUnique(-count, n, -q - 1, n - d);
  }

  // ---------------------------------------------------------------------
  // Rotation

  /** An empty strip raises ZeroDivisionError (the `count % self._n`), and
      a count that is a multiple of n raises ValueError (the empty head
      assigned to the whole buffer); neither changes a byte. */
  lemma RotateRejects(bytes: seq<byte>, n: nat, count: int)
    requires |bytes| == 12 * n
    ensures n == 0 ==> Rotated(bytes, n, count) == Step(bytes, Some(ZeroDivisionError))
    ensures n > 0 && count % n == 0 ==> Rotated(bytes, n, count) == Step(bytes, Some(ValueError))
  {
  }

  /** Any other rotation raises nothing and moves the last c bytes, for
      some whole number of pixels c strictly between 0 and the buffer's
      length, to the front. */
  lemma RotatedUnfolds(bytes: seq<byte>, n: nat, count: int)
    requires |bytes| == 12 * n && n > 0 && count % n != 0
    ensures var c := 12 * (count % n);
      0 < c < 12 * n && Rotated(bytes, n, count) == Step(bytes[12 * n - c..] + bytes[..12 * n - c], None)
  {
  }

  /** Byte j moves to position (j + c) mod 12n, with c = 12 * (count mod n). */
  lemma {:induction false} RotatedMovesBytes(bytes: seq<byte>, n: nat, count: int, j: int)
    requires |bytes| == 12 * n && n > 0 && count % n != 0 && 0 <= j < 12 * n
    ensures Rotated(bytes, n, count).raised == None
    ensures Rotated(bytes, n, count).bytes[(j + 12 * (count % n)) % (12 * n)] == bytes[j]
  {
    RotatedUnfolds(bytes, n, count);
    var L, c := 12 * n, 12 * (count % n);
    if j + c < L {
      DivModUnique(j + c, L, 0, j + c);
    } else {
      DivModUnique(j + c, L, 1, j + c - L);
    }
  }

  /** Pixel i's twelve bytes after a rotation are at pixel (i + count) mod n. */
  lemma {:induction false} RotatedPixelWindow(bytes: seq<byte>, n: nat, count: int, i: int)
    requires |bytes| == 12 * n && n > 0 && count % n != 0 && 0 <= i < n
    ensures var p := (i + count) % n;
      Rotated(bytes, n, count).bytes[12 * p..12 * p + 12] == bytes[12 * i..12 * i + 12]
  {
    RotatedUnfolds(bytes, n, count);
    var L, d := 12 * n, count % n;
    var c := 12 * d;
    var r := Rotated(bytes, n, count).bytes;
    var p := (i + count) % n;
    ModOfMod(i, count, n);
    if i + d < n {
      DivModUnique(i + d, n, 0, i + d);
      assert r[12 * p..12 * p + 12] == bytes[..L - c][12 * i..12 * i + 12];
    } else {
      DivModUnique(i + d, n, 1, i + d - n);
      assert r[12 * p..12 * p + 12] == bytes[L - c..][12 * p..12 * p + 12];
    }
  }

  /** `np.rotate(count)` moves pixel i to position (i + count) mod n. */
  lemma {:induction false} RotatedMovesPixels(bytes: seq<byte>, n: nat, count: int, i: int)
    requires |bytes| == 12 * n && n > 0 && count % n != 0 && 0 <= i < n
    ensures Read(Rotated(bytes, n, count).bytes, n, IntIndex((i + count) % n)) == Read(bytes, n, IntIndex(i))
  {
    var r := Rotated(bytes, n, count).bytes;
    var p := (i + count) % n;
    RotatedPixelWindow(bytes, n, count, i);
    MovedPixelSameRead(r, bytes, n, p, i);
  }

  /** Rotating by count and then by -count restores the buffer, when count
      is not a multiple of n. */
  lemma {:induction false} RotateInverse(bytes: seq<byte>, n: nat, count: int)
    requires |bytes| == 12 * n && n > 0 && count % n != 0
    ensures Rotated(bytes, n, count).raised == None
    ensures Rotated(Rotated(bytes, n, count).bytes, n, -count) == Step(bytes, None)
  {
    var L, d := 12 * n, count % n;
    RotatedUnfolds(bytes, n, count);
    var r1 := Rotated(bytes, n, count).bytes;
    NegMod(count, n);
    RotatedUnfolds(r1, n, -count);
    var c1, c2 := 12 * d, 12 * (n - d);
    assert r1[L - c2..] == bytes[..L - c1];
    assert r1[..L - c2] == bytes[L - c1..];
    assert bytes[..L - c1] + bytes[L - c1..] == bytes;
  }

  /** The documented form: `rotate(k)` followed by `rotate(n - k)` restores
      the buffer when k is not a multiple of n, since n - k and -k leave
      the same remainder. */
  lemma {:induction false} RotateComplement(bytes: seq<byte>, n: nat, k: int)
    requires |bytes| == 12 * n && n > 0 && k % n != 0
    ensures Rotated(bytes, n, k).raised == None
    ensures Rotated(Rotated(bytes, n, k).bytes, n, n - k) == Step(bytes, None)
  {
    RotateInverse(bytes, n, k);
    var q, d := (-k) / n, (-k) % n;
    assert n - k == n * (q + 1) + d;
    DivModUnique(n - k, n, q + 1, d);
    var r1 := Rotated(bytes, n, k).bytes;
    assert Rotated(r1, n, n - k) == Rotated(r1, n, -k);
  }

  /** A rotation only moves bytes: the new buffer is a permutation of the
      old one, whether or not the call raised. */
  lemma RotatedPermutes(bytes: seq<byte>, n: nat, count: int)
    requires |bytes| == 12 * n
    ensures multiset(Rotated(bytes, n, count).bytes) == multiset(bytes)
  {
    if n > 0 && count % n != 0 {
      var k := 12 * n - 12 * (count % n);
      assert bytes == bytes[..k] + bytes[k..];
    }
  }
}
