# neoSPI — a verified model of the WS2812 ("NeoPixel") SPI driver

`neoSPI.py` drives a strip of WS2812 LEDs from an SPI bus. Each colour byte
is stored *expanded* in a buffer, in the form that is clocked out on the bus.
Each pair of bits becomes one wire byte, so every channel byte takes four
wire bytes and every pixel takes twelve. The wire byte for a pair of bits
comes from the table `0x88, 0x8C, 0xC8, 0xCC`.

The class `NeoPixel` keeps that buffer (`12 * n` bytes for `n` pixels). It
reads and writes it through Python's indexing protocol:

- `np[i]` gives a whole pixel as a 3-tuple;
- `np[i, c]` gives one channel;
- `np[a:b]` gives a range of pixels;
- a whole range can be set to one triple, or to a list of triples;
- `rotate(k)` shifts the buffer round by `k` pixels.

This project models that core in Dafny. It has three layers.

- **Codec** (`codec.dfy`): `_expand_byte` and `_compress_byte`.
  - `Expand` and `Compress` are functions on bytes.
  - `ExpandByte` is the in-place store into a memoryview window, as a
    method on an `array<byte>`. Its contract is the function `ExpandInto`.
  - Lemmas prove the round trip both ways. They also prove that the wire
    bytes are exactly the table entries, described bit by bit.
- **Pixels** (`pixels.dfy`, with `py.dfy`): the addressing logic of
  `__getitem__`, `__setitem__`, `_unpack_slice` and `rotate`, as pure
  functions on the byte sequence.
  - An index is `IntIndex`, `TupleIndex` or `SliceIndex`.
  - A value is `IntValue`, `TupleValue` or `ListValue`.
  - A write returns a `Step`: the new buffer together with the exception the
    call raised, if any. Python does not undo the bytes written before an
    exception, so neither does the model.
  - Memoryview windows are byte offsets. `Py.PySlice` gives Python's slice
    bounds: a negative bound counts from the end, then the bound is clamped.
    This reproduces how the driver's views behave at the ends of the buffer.
- **NeoPixel** (`neopixel.dfy`): the class itself.
  - It has a `data: array<byte>` field and the pixel count `n`.
  - It has methods for every branch of `__setitem__` and for `rotate`. Each
    method is proved to leave exactly the buffer and the exception that the
    Pixels function gives for the old contents.
  - The broadcast branch keeps the source's loop: expand into the first
    slot, then copy that slot along the range. It is proved equal to painting
    every slot.
  - `GetItem` is `Pixels.Read` on the current contents.

The properties live in `properties.dfy` (integer and pair addressing),
`slices.dfy` (ranges, broadcast, lists, construction) and `rotation.dfy`.
`findings.dfy` holds the places where the code does not do what it
evidently intends. Each comes with a corrected definition and its intended
property.

## Model

| member | source | states |
|---|---|---|
| Codec.Expand | neoSPI.py:16-23 | four wire bytes, each one of the table entries 0x88, 0x8C, 0xC8, 0xCC |
| Codec.Compress | neoSPI.py:25-33 | unpacking succeeds exactly for a 4-byte window (otherwise ValueError) and yields a value in 0..255 |
| Codec.ExpandInto | neoSPI.py:18-23 | storing into a window of the buffer succeeds iff the window holds at least 4 bytes; it writes Expand(b) into the window's first bytes, stops with IndexError at the first missing byte, and leaves every other byte unchanged |
| Codec.ExpandByte | neoSPI.py:18-23 | the in-place store into the array leaves exactly the buffer and exception that ExpandInto gives |
| Codec.RoundTrip | neoSPI.py:14-33 | Compress(Expand(b)) == b for every byte b |
| Codec.RoundTripAny | neoSPI.py:18-33 | for any integer b, Compress(Expand(b)) == b mod 256 (the `& 0x3` masks keep only the low 8 bits) |
| Codec.ExpandLowBits | neoSPI.py:20-23 | Expand(b) depends only on b mod 256 |
| Codec.CompressRoundTrip | neoSPI.py:25-33 | every 4-byte window of table entries is Expand of its Compress: the other direction of the round trip |
| Codec.WireBytesAreTableEntries | neoSPI.py:10-16 | a byte has its top bits of each nibble set and its bottom bits clear (bits 7, 3 set; 5, 4, 1, 0 clear) iff it is one of the four table entries |
| Codec.ExpandWireBytes | neoSPI.py:10-23 | every byte Expand produces has that wire shape |
| Codec.ExpandExample | neoSPI.py:14 | 0b00011011 expands to 0x88 0x8C 0xC8 0xCC, and compresses back |
| Py.PySlice | neoSPI.py:108 | Python slice bounds: ordered, within the length, unchanged when already in range, counted from the end when negative |
| Pixels.UnpackSlice | neoSPI.py:68-81 | fails with NotImplementedError exactly when a step other than None or 1 is given |
| Pixels.SliceRange | neoSPI.py:68-81 | the pixel range a slice addresses: defined exactly for step None or 1, ordered, within 0..n, and the byte view `data[start*12:stop*12]` is 12 times it |
| Pixels.PairOffset | neoSPI.py:93-104 | a (pixel, channel) pair is accepted iff it has two integer parts with -n <= pixel < n and 0 <= channel < 3; the offset is 12*pixel + 4*channel; otherwise NotImplementedError for a leading slice and IndexError for everything else |
| Pixels.ReadChannel | neoSPI.py:90-92 | `_compress_byte` of the view `data[o:o+4]`, taken with Python's slice rules so a negative offset counts from the end; a successful read is a value in 0..255 (what the view holds: Properties.ChannelInside, ViewFromEnd, EmptyLastView) |
| Pixels.ReadTriple | neoSPI.py:90-92 | the channel reads at o, o + 4 and o + 8, the first failure ending the tuple; a successful read is a 3-tuple (Properties.TripleAt: it always succeeds on a window inside the buffer) |
| Pixels.ReadPixel | neoSPI.py:86-92 | `np[i]`: IndexError outside -n..n-1, otherwise the triple at byte offset 12*i; a successful read is a 3-tuple (which i succeed: Properties.ReadPixelDomain) |
| Pixels.ReadPair | neoSPI.py:93-105 | `np[p, c]`: the checks of PairOffset, then the channel at 12p + 4c; a successful read is an integer in 0..255 (which pairs succeed: Properties.PairReadDomain) |
| Pixels.Decode | neoSPI.py:109-111 | the list comprehension over a view of whole pixels: one 3-tuple per twelve-byte group, as many as there are groups |
| Pixels.ReadSlice | neoSPI.py:106-111 | `np[a:b]`: NotImplementedError for a step other than 1, otherwise the decoded view; a successful read is a list of 3-tuples (its elements: SliceProperties.ReadSliceIsPixelwise) |
| Pixels.Read | neoSPI.py:83-113 | an integer index reads a 3-tuple, a pair reads an integer in 0..255, a slice reads a list of 3-tuples |
| Pixels.ExpandAt | neoSPI.py:124-141 | `_expand_byte` through the view `data[o:o+4]` with Python's slice rules; the buffer keeps its length (what it writes: Properties.ExpandAtInside, ViewFromEnd, EmptyLastView) |
| Pixels.WriteTriple | neoSPI.py:124-126 | the three stores of a pixel write, stopping at the first that raises; the buffer keeps its length (Properties.WriteTripleInside: inside the buffer they replace exactly the slot) |
| Pixels.WritePixel | neoSPI.py:118-126 | `np[i] = value`: the range check, the 3-tuple check, then the three stores; the buffer keeps its length (outcome: Properties.WritePixelDomain, WritePixelThenRead) |
| Pixels.WritePair | neoSPI.py:127-141 | `np[p, c] = value`: the checks of PairOffset, the value check, then one store; the buffer keeps its length (outcome: Properties.PairWriteDomain, WriteChannelThenRead) |
| Pixels.ListRun | neoSPI.py:153-158 | the triples the list loop stores: at most one per pixel of the run, each a triple (which element each pixel takes: SliceProperties.ListRunAt) |
| Pixels.ListWrite | neoSPI.py:153-158 | the list loop on the view: the run of ListRun painted, IndexError when it stopped early; the buffer keeps its length (SliceProperties.ListWriteRaises, ListWritePixel) |
| Pixels.WriteView | neoSPI.py:144-160 | the assignment to a view: nothing for an empty view, broadcast for a 3-tuple, ListWrite for a list of 3-tuples, ValueError otherwise; the buffer keeps its length (SliceProperties.SliceWriteTriple, SliceWriteList, EmptySliceWrite, SliceWriteRejects) |
| Pixels.WriteSlice | neoSPI.py:142-160 | `np[a:b] = value`: NotImplementedError for a step other than 1, otherwise WriteView on the addressed bytes; the buffer keeps its length (SliceProperties.SliceWriteView) |
| Pixels.Write | neoSPI.py:115-160 | `__setitem__`, dispatching on the kind of index; the buffer keeps its length |
| Pixels.Rotated | neoSPI.py:166-173 | `rotate(count)`: the buffer keeps its length; the call raises exactly when n is 0 or count is a multiple of n, and then leaves the buffer unchanged (where bytes move: RotateProperties.RotatedMovesBytes) |
| Pixels.EncodePixel | neoSPI.py:147-158 | the encoding of a run of triples holds pixel k's twelve bytes at offset 12k |
| Properties.ReadPixelInRange | neoSPI.py:86-92 | an in-range integer index reads the triple at byte offset 12*i |
| Properties.WritePixelInRange | neoSPI.py:118-126 | an in-range integer index with a 3-tuple writes the three channels at byte offset 12*i |
| Properties.ReadPixelBytes | neoSPI.py:86-92 | a pixel whose twelve bytes encode t reads as t's low 8 bits |
| Properties.WriteTripleInside | neoSPI.py:124-126 | the three stores into an in-range slot replace exactly its twelve bytes, with no exception |
| Properties.TripleAt | neoSPI.py:90-92 | a twelve-byte window inside the buffer always reads as a triple |
| Properties.SamePixelSameRead | neoSPI.py:86-92 | reading pixel i depends only on its twelve bytes |
| Properties.MovedPixelSameRead | neoSPI.py:86-92 | two buffers whose slots p and i hold the same bytes read the same pixel there |
| Properties.WritePixelThenRead | neoSPI.py:83-126 | `np[i] = t` for 0 <= i < n replaces only pixel i's bytes, raises nothing, and `np[i]` then reads t (reduced to its low 8 bits; exactly t when the components are bytes) |
| Properties.WritePixelRejects | neoSPI.py:86-122 | an out-of-range pixel raises IndexError on read and write, and a non-3-tuple value raises ValueError; the buffer is unchanged |
| Properties.PairReadInRange | neoSPI.py:93-105 | an in-range pair reads the channel at 12p + 4c |
| Properties.PairWriteInRange | neoSPI.py:127-141 | an in-range pair rejects a non-integer or out-of-range value with ValueError and leaves the buffer unchanged; otherwise it expands the value at 12p + 4c |
| Properties.ReadPairInside | neoSPI.py:101-105 | a channel whose four bytes are Expand(b) reads b |
| Properties.SameChannelSameRead | neoSPI.py:101-105 | reading a channel depends only on its four bytes |
| Properties.WriteChannelThenRead | neoSPI.py:127-141 | `np[p, c] = v` replaces exactly the four bytes of channel c, then reads v, and leaves every other channel of the pixel reading as before |
| Properties.WriteChannelRejects | neoSPI.py:93-138 | a wrong arity raises IndexError, a leading slice NotImplementedError, an out-of-range pair IndexError, a bad value ValueError; none of them changes the buffer |
| Properties.ViewFromEnd | neoSPI.py:90-126 | a memoryview window with negative bounds that ends before 0 is the window shifted by the length |
| Properties.TripleWindows | neoSPI.py:90-92 | equal twelve-byte windows read the same triple |
| Properties.NegativePixelAliases | neoSPI.py:87-126 | for 2 <= j <= n, pixel -j reads and writes exactly like pixel n - j |
| Properties.NegativeChannelAliases | neoSPI.py:101-141 | for 2 <= j <= n, channel (-j, c) reads and writes exactly like (n - j, c) |
| Properties.EmptyLastView | neoSPI.py:90-141 | the window `data[-4:0]` is empty: unpacking it raises ValueError, and storing into it raises IndexError with nothing written |
| Properties.LastPixelReadQuirk | neoSPI.py:87-105 | reading pixel -1, or channel (-1, 2), raises ValueError on every non-empty strip |
| Properties.LastPixelWriteQuirk | neoSPI.py:119-126 | `np[-1] = t` writes the last pixel's first two channels and then raises IndexError |
| Properties.LastPixelFirstChannels | neoSPI.py:101-141 | the pairs (-1, 0) and (-1, 1) read and write exactly like (n - 1, 0) and (n - 1, 1) |
| Properties.LastPixelChannelRead | neoSPI.py:101-105 | the read half of LastPixelFirstChannels |
| Properties.LastPixelChannelWrite | neoSPI.py:135-141 | the write half of LastPixelFirstChannels |
| Properties.ReadPixelDomain | neoSPI.py:86-92 | `np[i]` succeeds iff -n <= i < n and i != -1; it fails with IndexError out of range and ValueError at -1 |
| Properties.WritePixelDomain | neoSPI.py:118-126 | `np[i] = value` completes iff -n <= i < n, i != -1 and value is a 3-tuple; otherwise ValueError for an in-range index with a bad value, IndexError in every other case |
| Properties.PairReadDomain | neoSPI.py:93-105 | `np[p, c]` succeeds iff -n <= p < n, 0 <= c < 3 and (p, c) != (-1, 2); it fails with IndexError out of range and ValueError at (-1, 2) |
| Properties.PairWriteDomain | neoSPI.py:127-141 | `np[p, c] = v` completes iff the pair is in range, is not (-1, 2), and 0 <= v <= 255; an in-range pair with a bad value raises ValueError, every other failure is IndexError |
| SliceProperties.SliceRangeIsListSlice | neoSPI.py:68-108 | for bounds not below -n, the range addressed is Python's list slice `range(n)[start:stop]` |
| SliceProperties.WholeSlice | neoSPI.py:73-78 | `[:]` addresses every pixel |
| SliceProperties.StartWrapsTwice | neoSPI.py:73-108 | a start between -2n and -n wraps twice (to start + 2n), where a list slice would start at 0 |
| SliceProperties.StopWrapsTwice | neoSPI.py:73-108 | a stop between -2n and -n wraps twice (to stop + 2n), so `[:stop]` addresses pixels 0..stop + 2n where a list slice would be empty |
| SliceProperties.StepRejected | neoSPI.py:70-71 | a step other than 1 raises NotImplementedError on read and write, and changes nothing |
| SliceProperties.ReadSliceIsPixelwise | neoSPI.py:106-111 | reading a slice gives one triple per pixel of its range, in ascending order, each equal to reading that pixel |
| SliceProperties.DecodeIsPixelwise | neoSPI.py:108-111 | decoding a window of whole pixels yields, in order, what reading each pixel yields |
| SliceProperties.PaintedPixel | neoSPI.py:147-158 | painting a run of triples puts triple k's bytes in slot lo + k |
| SliceProperties.PaintOutside | neoSPI.py:147-158 | painting a run leaves every byte outside the run unchanged |
| SliceProperties.PaintThenRead | neoSPI.py:147-158 | after painting a run, each painted pixel reads its triple and every other pixel reads as before |
| SliceProperties.SliceWriteView | neoSPI.py:142-144 | a slice assignment is the view assignment on bytes 12*lo..12*hi |
| SliceProperties.SliceWriteTriple | neoSPI.py:147-152 | assigning a 3-tuple to a non-empty slice paints every pixel of the range with it and raises nothing |
| SliceProperties.SliceWriteList | neoSPI.py:153-158 | assigning a list of 3-tuples to a non-empty slice is the list store on that range |
| SliceProperties.EmptySliceWrite | neoSPI.py:144-146 | assigning anything to an empty slice changes nothing and raises nothing |
| SliceProperties.SliceWriteRejects | neoSPI.py:159-160 | assigning to a non-empty slice a value that is neither a 3-tuple nor a list of 3-tuples raises ValueError and changes nothing |
| SliceProperties.BroadcastThenRead | neoSPI.py:142-152 | after `np[a:b] = t`, every pixel of the range reads t and every other pixel reads as before |
| SliceProperties.ListRunAt | neoSPI.py:154-155 | the list store takes, for pixel d of the range, element 4d of the list; it reaches pixel d iff d < m and 4d < len(list) |
| SliceProperties.ListWriteRaises | neoSPI.py:154-155 | the list store raises IndexError iff the last pixel's element 4(m-1) is missing |
| SliceProperties.ListWritePixel | neoSPI.py:153-158 | after the list store, pixel lo + d reads element 4d when it was reached, and every other pixel reads as before |
| SliceProperties.ListWriteThenRead | neoSPI.py:142-158 | `np[a:b] = list` raises exactly when element 4(m-1) is missing; each pixel then reads element 4(i - lo) when that element exists, and reads as before otherwise |
| SliceProperties.FreshStripIsDark | neoSPI.py:62-66 | the constructor's `self[:] = (0,0,0)` on a zeroed buffer fills it with 0x88, and every pixel of it reads (0, 0, 0) |
| RotateProperties.RotateRejects | neoSPI.py:166-173 | rotating an empty strip raises ZeroDivisionError, and a count that is a multiple of n raises ValueError; neither changes the buffer |
| RotateProperties.RotatedUnfolds | neoSPI.py:166-173 | otherwise, with c = 12 (count mod n), the buffer becomes its last c bytes followed by the rest |
| RotateProperties.RotatedMovesBytes | neoSPI.py:166-173 | byte j moves to (j + 12 (count mod n)) mod 12n |
| RotateProperties.RotatedPixelWindow | neoSPI.py:166-173 | pixel i's twelve bytes move to slot (i + count) mod n |
| RotateProperties.RotatedMovesPixels | neoSPI.py:166-173 | after `rotate(count)`, pixel (i + count) mod n reads what pixel i read before |
| RotateProperties.RotateInverse | neoSPI.py:166-173 | `rotate(k)` followed by `rotate(-k)` restores the buffer, whenever `rotate(k)` succeeds |
| RotateProperties.RotateComplement | neoSPI.py:166-173 | the documented form: `rotate(k)` followed by `rotate(n - k)` restores the buffer whenever `rotate(k)` succeeds |
| RotateProperties.RotatedPermutes | neoSPI.py:166-173 | the buffer after `rotate` is a permutation of the one before (same multiset of bytes) |
| NeoPixels.Overwrite | neoSPI.py:172-173 | the memoryview slice assignment replaces exactly the addressed bytes |
| NeoPixels.NeoPixel.constructor | neoSPI.py:62-66 | a fresh buffer of 12 * pixel_count bytes, every one 0x88, with n = pixel_count |
| NeoPixels.NeoPixel.GetItem | neoSPI.py:83-113 | `np[index]` on the current buffer: a pixel read succeeds iff -n <= i < n and i != -1, and yields a 3-tuple; a pair read succeeds iff the pair is in range and not (-1, 2), and yields an integer in 0..255; a slice read succeeds iff its step is None or 1 |
| NeoPixels.NeoPixel.StoreTriple | neoSPI.py:124-126 | the three `_expand_byte` calls for one pixel leave exactly the buffer and exception that WriteTriple gives |
| NeoPixels.NeoPixel.Broadcast | neoSPI.py:147-152 | expanding into the first slot and copying it along the range leaves the buffer that painting every slot with the triple gives |
| NeoPixels.NeoPixel.WriteList | neoSPI.py:153-158 | the loop over the range leaves exactly the buffer and exception of the list store ListWrite |
| NeoPixels.NeoPixel.StoreListed | neoSPI.py:155-158 | one pass of the list loop paints pixel j of the run with element 4j, extending the painted prefix by one pixel |
| NeoPixels.NeoPixel.SetPixel | neoSPI.py:118-126 | `np[i] = value` in place equals WritePixel on the old buffer |
| NeoPixels.NeoPixel.SetPair | neoSPI.py:127-141 | `np[p, c] = value` in place equals WritePair on the old buffer |
| NeoPixels.NeoPixel.SetView | neoSPI.py:144-160 | the assignment to a byte view equals WriteView on the old buffer |
| NeoPixels.NeoPixel.SetSlice | neoSPI.py:142-160 | `np[a:b:s] = value` in place equals WriteSlice on the old buffer |
| NeoPixels.NeoPixel.SetItem | neoSPI.py:115-160 | `__setitem__` in place equals Pixels.Write on the old buffer, for every index and value |
| NeoPixels.NeoPixel.Rotate | neoSPI.py:166-173 | `rotate(count)` in place equals Rotated on the old buffer, including its ZeroDivisionError and ValueError cases |
| NeoPixels.NeoPixel.Reassign | neoSPI.py:172-173 | the two slice assignments `data[c:] = head; data[:c] = tail` leave the buffer tail + head |
| Findings.ListCopyRaises | neoSPI.py:153-158 | a list with exactly one triple per pixel of a slice of m >= 2 pixels raises IndexError after writing the first ⌈m/4⌉ pixels of the slice, pixel lo + k with element 4k; every other pixel reads as before |
| Findings.DocumentedCopyRaises | neoSPI.py:153-158 | on a 32-pixel strip, the documented copy `np[-16:] = np[:16]` writes 4 pixels and then raises IndexError |
| Findings.ListWriteFixed | neoSPI.py:153-158 | the corrected list store (element i//12) raises nothing iff the list has at least one triple per pixel |
| Findings.ListWriteFixedRoundTrip | neoSPI.py:153-158 | with the corrected store, writing a list of byte triples to a range and decoding the range gives back the list |
| Findings.PaintedListAt | neoSPI.py:153-158 | with the corrected store, pixel lo + k reads element k |
| Findings.RotateByLengthRaises | neoSPI.py:166-173 | on a one-pixel strip every rotation raises ValueError |
| Findings.RotatedFixed | neoSPI.py:166-173 | the corrected rotation fails only on an empty strip |
| Findings.RotatedFixedInverse | neoSPI.py:166-173 | the corrected rotation by a multiple of n is the identity, and `rotate(k)` followed by `rotate(n - k)` restores the buffer for every k |
| Findings.LastPixelUnreadable | neoSPI.py:87-92 | pixel -1 raises ValueError on read although pixel n - 1, the same pixel, reads |
| Findings.PixelOf | neoSPI.py:87-89 | an in-range index, negative or not, names pixel i or i + n in 0..n-1 |
| Findings.ReadPixelFixed | neoSPI.py:86-92 | the corrected read fails exactly for an out-of-range index |
| Findings.PixelFixedRoundTrip | neoSPI.py:86-126 | with the corrected read and write, a negative index reads like pixel i + n, and writing t there and reading it back gives t (low 8 bits) |
| Findings.PairOffsetFixed | neoSPI.py:93-104 | the corrected pair check accepts and rejects exactly what PairOffset does, with the same errors, and an accepted offset always lies inside the buffer |
| Findings.ReadPairFixed | neoSPI.py:93-105 | the corrected pair read succeeds exactly for the pairs PairOffset accepts |
| Findings.WritePairFixed | neoSPI.py:127-141 | the corrected pair write, with the pixel made non-negative before it is scaled; the buffer keeps its length |
| Findings.PairFixedRoundTrip | neoSPI.py:93-141 | with the corrected pair read and write, every in-range pair, (-1, 2) included, is the pair at pixel p + n for negative p; writing v there raises nothing and reads back v |
| Findings.StartBelowMinusN | neoSPI.py:73-108 | on 4 pixels, `np[-6:]` addresses pixels 2 and 3, where a list slice would address all four |
| Findings.StopBelowMinusN | neoSPI.py:73-108 | on 4 pixels, `np[:-5]` addresses pixels 0 to 2, where a list slice would be empty |
| Findings.SliceRangeFixed | neoSPI.py:68-81 | the corrected range is defined for step None or 1, within 0..n, starts at 0 for a start at or below -n, and is empty for a stop at or below -n |
| Findings.SliceRangeFixedAgrees | neoSPI.py:68-81 | the corrected range equals the as-written one wherever no bound is below -n |

## Left out

- `write()` (neoSPI.py:162-164) hands the buffer to the SPI device. That is
  I/O, so the model has no SPI device: the constructor takes only the pixel
  count.
- `del head, tail` and `gc.collect()` (neoSPI.py:174-175) only concern
  memory reclamation, which has no counterpart here.
- The `n` property (neoSPI.py:177-179) is the constant field
  `NeoPixels.NeoPixel.n`.
- Dispatch on the run-time type (neoSPI.py:86, 93, 106, 112-113):
  - index and value are closed datatypes, so the "Can not index on type"
    branch cannot occur;
  - a tuple's parts are indices, and a part that is not an integer is
    modelled as a part that is not `IntIndex`;
  - the components of a triple are integers; a non-integer component (which
    makes Python raise TypeError in `>>`) is not modelled.
- Memoryview aliasing is modelled as byte offsets into one buffer. The model
  does not capture other objects holding references to the same views.
- A negative pixel count (for which `bytearray` raises) is excluded by giving
  the constructor a `nat`.

## Findings

Where the code and its evident intent differ, the model follows the code,
and the table below records each difference with a corrected definition
proved beside it:

- the pair is scaled to a byte offset while the pixel is still negative, so
  `(-1, 2)` is the empty view `data[-4:0]` (`Properties.LastPixelReadQuirk`);
  the same holds for the integer index -1;
- a rotation by a multiple of n raises ValueError rather than leaving the
  buffer unchanged;
- a list assignment raises no length-mismatch error; it reads element
  `i//3` for byte offset `i`.
- a slice start or stop below -n has n added once and is then wrapped a
  second time by the byte view, instead of being clamped to 0.

| source | as written | input that shows it | evidently intended | confidence | as-written member | corrected member |
|---|---|---|---|---|---|---|
| neoSPI.py:155 | `value[i//3]` with `i` a byte offset stepping by 12, so pixel k takes element 4k | `np[0:2] = [(1,1,1), (2,2,2)]`: IndexError after pixel 0 is written; in general IndexError after the first ⌈m/4⌉ pixels of an m-pixel run are written (4 for the documented 16-pixel copy `np[-16:] = np[:16]`) | `value[i//12]`: pixel k takes element k, so a list of one triple per pixel round-trips | not executed | Findings.ListCopyRaises | Findings.ListWriteFixedRoundTrip |
| neoSPI.py:168-173 | when `count % n == 0`, `data[-0:]` is the whole buffer and `data[:-0]` is empty, so `data[0:] = head` assigns 0 bytes to a 12n-byte view | `rotate(0)`, or any `rotate(k)` on a one-pixel strip: ValueError | a rotation by a multiple of n leaves the buffer unchanged, and `rotate(k)` then `rotate(n - k)` is the identity | not executed | Findings.RotateByLengthRaises | Findings.RotatedFixedInverse |
| neoSPI.py:87-126 | the index is scaled by 12 while still negative, so for pixel -1 the last window is `data[-4:0]`, which is empty | `np[-1]` on any strip: ValueError; `np[-1] = t`: IndexError after two channels | add n to a negative index first, so -1 is the last pixel | not executed | Findings.LastPixelUnreadable | Findings.PixelFixedRoundTrip |
| neoSPI.py:101-141 | the pair branch scales the pixel by 12 while it is still negative, so `(-1, 2)` is the view `data[-4:0]`, which is empty | `np[-1, 2]`: ValueError; `np[-1, 2] = 7`: IndexError | add n to a negative pixel first, so (-1, 2) is channel 2 of the last pixel | not executed | Properties.LastPixelReadQuirk | Findings.PairFixedRoundTrip |
| neoSPI.py:73-80 | n is added once to a negative bound, so a start below -n stays negative and the byte slice wraps it a second time | `np[-6:]` on 4 pixels addresses pixels 2..3 | clamp to 0 as list slicing does, so the range starts at pixel 0 | not executed | Findings.StartBelowMinusN | Findings.SliceRangeFixedAgrees |
| neoSPI.py:73-80 | the stop bound is treated the same way, so a stop below -n also stays negative and is wrapped a second time | `np[:-5]` on 4 pixels addresses pixels 0..2 | clamp to 0 as list slicing does, so the range is empty | not executed | Findings.StopBelowMinusN | Findings.SliceRangeFixed |
