/** The decoding layer of the block-file reader, stated as pure functions over an
    immutable cursor. The ring-buffered reader in BufferedFiles is proved to behave
    exactly as these functions say; the lemmas here state what the encoding promises. */
module Serialize {
  import opened Bytes

  /** Ceiling on every CompactSize value (`MAX_SIZE` in the reader). */
  const MAX_SIZE: nat := 0x0200_0000

  /** One past the largest 64-bit unsigned value. */
  const TWO_TO_64: nat := 0x1_0000_0000_0000_0000

  /** The reader's exceptions, one constructor per distinct failure. */
  datatype Error =
    | LimitExceeded  // a read would end past the read limit
    | EndOfFile      // the source delivered nothing because it is exhausted
    | NonCanonical   // a CompactSize that a shorter tag could have carried
    | TooLarge       // a CompactSize above MAX_SIZE
    | BadRewind      // a rewind guarantee that is not below the buffer size

  datatype Result<+T> = Success(value: T) | Failure(error: Error) {
    predicate IsFailure() { Failure? }
    function PropagateFailure<U>(): Result<U> requires Failure? { Failure(error) }
    function Extract(): T requires Success? { value }
  }

  datatype Outcome = Pass | Fail(error: Error)

  /** What a read sees: the whole source, the read position and the read limit. */
  datatype Cursor = Cursor(data: seq<byte>, pos: nat, limit: nat)

  /** `d` is where decoding from `c` may legitimately stop: same source and limit,
      never backwards, and beyond `c` only within the limit and the source. */
  predicate Advances(c: Cursor, d: Cursor) {
    && d.data == c.data && d.limit == c.limit && c.pos <= d.pos
    && (d.pos == c.pos || (d.pos <= c.limit && d.pos <= |c.data|))
  }

  /** `read(pch, n)`: the limit is checked first, then the source must hold `n` more bytes. */
  function ReadBytes(c: Cursor, n: nat): Result<(seq<byte>, Cursor)> {
    if n + c.pos > c.limit then Failure(LimitExceeded)
    else if c.pos + n > |c.data| then Failure(EndOfFile)
    else Success((c.data[c.pos..c.pos + n], c.(pos := c.pos + n)))
  }

  // ---------------------------------------------------------------------------
  // Little-endian integers (readdata8/16/32/64)
  // ---------------------------------------------------------------------------

  function Pow256(k: nat): (p: nat)
    ensures p > 0
  {
    if k == 0 then 1 else 256 * Pow256(k - 1)
  }

  /** The unsigned value of `bs`, least significant byte first. */
  function LittleEndian(bs: seq<byte>): nat {
    if bs == [] then 0 else bs[0] + 256 * LittleEndian(bs[1..])
  }

  /** The `k`-byte little-endian representation of `v` (modulo 256^k). */
  function ToLittleEndian(v: nat, k: nat): (bs: seq<byte>)
    ensures |bs| == k
  {
    if k == 0 then [] else [v % 256] + ToLittleEndian(v / 256, k - 1)
  }

  lemma {:induction false} LittleEndianBound(bs: seq<byte>)
    ensures LittleEndian(bs) < Pow256(|bs|)
  {
    if bs != [] {
      LittleEndianBound(bs[1..]);
    }
  }

  /** Decoding the k-byte encoding of a value that fits gives the value back. */
  lemma {:induction false} LittleEndianOfEncoding(v: nat, k: nat)
    requires v < Pow256(k)
    ensures LittleEndian(ToLittleEndian(v, k)) == v
  {
    if k > 0 {
      LittleEndianOfEncoding(v / 256, k - 1);
      assert ToLittleEndian(v, k)[1..] == ToLittleEndian(v / 256, k - 1);
    }
  }

  /** Splitting `b + 256 * q` into its low byte and the rest. */
  lemma LowByte(b: byte, q: nat)
    ensures (b + 256 * q) % 256 == b && (b + 256 * q) / 256 == q
  {
  }

  /** Re-encoding a decoded value with the same width gives the same bytes. */
  lemma {:induction false} EncodingOfLittleEndian(bs: seq<byte>)
    ensures ToLittleEndian(LittleEndian(bs), |bs|) == bs
  {
    if bs != [] {
      var v := LittleEndian(bs);
      EncodingOfLittleEndian(bs[1..]);
      LowByte(bs[0], LittleEndian(bs[1..]));
    }
  }

  lemma Pow256Widths()
    ensures Pow256(1) == 0x100 && Pow256(2) == 0x1_0000 && Pow256(4) == 0x1_0000_0000
    ensures Pow256(8) == TWO_TO_64
  {
    assert Pow256(2) == 0x1_0000;
    assert Pow256(4) == 0x1_0000_0000;
  }

  /** `readdataK`: `k` bytes read as a little-endian unsigned value. */
  function ReadLe(c: Cursor, k: nat): Result<(nat, Cursor)> {
    var p :- ReadBytes(c, k);
    Success((LittleEndian(p.0), p.1))
  }

  lemma {:induction false} ReadLeBound(c: Cursor, k: nat)
    requires ReadLe(c, k).Success?
    ensures ReadLe(c, k).value.0 < Pow256(k)
  {
    LittleEndianBound(c.data[c.pos..c.pos + k]);
  }

  lemma SliceConcat<T>(s: seq<T>, a: nat, b: nat, c: nat)
    requires a <= b <= c <= |s|
    ensures s[a..b] + s[b..c] == s[a..c]
  {
  }

  // ---------------------------------------------------------------------------
  // CompactSize (read_compact_int)
  // ---------------------------------------------------------------------------

  /** Rejects a decoded value below the smallest one its tag may carry. */
  function AtLeast(r: Result<(nat, Cursor)>, least: nat): Result<(nat, Cursor)> {
    if r.Success? && r.value.0 < least then Failure(NonCanonical) else r
  }

  /** CompactSize as the reader decodes it: a tag byte, then 0, 2, 4 or 8 bytes. */
  function CompactSize(c: Cursor): (r: Result<(nat, Cursor)>)
    ensures r.Success? ==> r.value.0 <= MAX_SIZE && Advances(c, r.value.1)
  {
    var tag :- ReadLe(c, 1);
    var v :- if tag.0 < 253 then Success(tag)
             else if tag.0 == 253 then AtLeast(ReadLe(tag.1, 2), 253)
             else if tag.0 == 254 then AtLeast(ReadLe(tag.1, 4), 0x1_0000)
             else AtLeast(ReadLe(tag.1, 8), 0x1_0000_0000);
    if v.0 > MAX_SIZE then Failure(TooLarge) else Success(v)
  }

  /** The minimal CompactSize encoding of `v`. */
  function CompactSizeBytes(v: nat): (bs: seq<byte>)
    requires v < TWO_TO_64
    ensures |bs| in {1, 3, 5, 9}
  {
    if v < 253 then [v]
    else if v < 0x1_0000 then [253] + ToLittleEndian(v, 2)
    else if v < 0x1_0000_0000 then [254] + ToLittleEndian(v, 4)
    else [255] + ToLittleEndian(v, 8)
  }

  /** The cursor holds `bs` at its position, within the limit and the source. */
  predicate HoldsAt(c: Cursor, bs: seq<byte>) {
    c.pos + |bs| <= c.limit && c.pos + |bs| <= |c.data| && c.data[c.pos..c.pos + |bs|] == bs
  }

  lemma ReadLeOfEncoding(c: Cursor, v: nat, k: nat)
    requires v < Pow256(k) && HoldsAt(c, ToLittleEndian(v, k))
    ensures ReadLe(c, k) == Success((v, c.(pos := c.pos + k)))
  {
    LittleEndianOfEncoding(v, k);
  }

  /** The same for the three widths `readdata8/32/64` read. */
  lemma ReadUintOfEncoding(c: Cursor, v: nat, k: nat)
    requires (k == 1 && v < 0x100) || (k == 4 && v < 0x1_0000_0000) || (k == 8 && v < TWO_TO_64)
    requires HoldsAt(c, ToLittleEndian(v, k))
    ensures ReadLe(c, k) == Success((v, c.(pos := c.pos + k)))
  {
    Pow256Widths();
    ReadLeOfEncoding(c, v, k);
  }

  lemma HoldsAtTail(c: Cursor, b: byte, bs: seq<byte>)
    requires HoldsAt(c, [b] + bs)
    ensures c.data[c.pos] == b && HoldsAt(c.(pos := c.pos + 1), bs)
  {
    assert c.data[c.pos + 1..c.pos + 1 + |bs|] == c.data[c.pos..c.pos + 1 + |bs|][1..];
  }

  /** A minimally encoded value decodes to itself when it is within MAX_SIZE, and
      is rejected as too large otherwise, whichever tag carries it. */
  lemma CompactSizeOfEncoding(c: Cursor, v: nat)
    requires v < TWO_TO_64 && HoldsAt(c, CompactSizeBytes(v))
    ensures v <= MAX_SIZE ==> CompactSize(c) == Success((v, c.(pos := c.pos + |CompactSizeBytes(v)|)))
    ensures v > MAX_SIZE ==> CompactSize(c) == Failure(TooLarge)
  {
    Pow256Widths();
    var bs := CompactSizeBytes(v);
    HoldsAtTail(c, bs[0], bs[1..]);
    assert [bs[0]] + bs[1..] == bs;
    assert ReadLe(c, 1) == Success((bs[0], c.(pos := c.pos + 1))) by {
      assert c.data[c.pos..c.pos + 1] == [bs[0]];
      assert LittleEndian([bs[0]]) == bs[0] + 256 * LittleEndian([]);
    }
    var c1 := c.(pos := c.pos + 1);
    if v < 253 {
    } else if v < 0x1_0000 {
      ReadLeOfEncoding(c1, v, 2);
    } else if v < 0x1_0000_0000 {
      ReadLeOfEncoding(c1, v, 4);
    } else {
      ReadLeOfEncoding(c1, v, 8);
    }
  }

  /** Canonicity: whatever CompactSize accepts, it accepts only from the minimal
      encoding of the value it returns; every non-minimal encoding is rejected. */
  lemma CompactSizeIsMinimal(c: Cursor)
    requires CompactSize(c).Success?
    ensures var (v, d) := CompactSize(c).value;
      d.pos == c.pos + |CompactSizeBytes(v)| && c.data[c.pos..d.pos] == CompactSizeBytes(v)
  {
    Pow256Widths();
    var (v, d) := CompactSize(c).value;
    var tag := c.data[c.pos];
    assert c.data[c.pos..c.pos + 1] == [tag];
    assert LittleEndian([tag]) == tag + 256 * LittleEndian([]);
    if tag >= 253 {
      var k := if tag == 253 then 2 else if tag == 254 then 4 else 8;
      var c1 := c.(pos := c.pos + 1);
      var payload := c.data[c.pos + 1..c.pos + 1 + k];
      assert ReadLe(c1, k) == Success((v, c1.(pos := c1.pos + k)));
      assert v == LittleEndian(payload) && d.pos == c.pos + 1 + k;
      LittleEndianBound(payload);
      EncodingOfLittleEndian(payload);
      assert CompactSizeBytes(v) == [tag] + payload;
      SliceConcat(c.data, c.pos, c.pos + 1, d.pos);
    }
  }

  /** Tag 255 always fails: its smallest admissible value already exceeds MAX_SIZE. */
  lemma {:induction false} CompactSizeRejectsTag255(c: Cursor)
    requires c.pos < |c.data| && c.data[c.pos] == 255
    ensures CompactSize(c).Failure?
  {
    assert c.data[c.pos..c.pos + 1] == [255];
  }

  // ---------------------------------------------------------------------------
  // Structural decoding (the unserialize overloads)
  // ---------------------------------------------------------------------------

  /** The shape of a serialized object. */
  datatype Field =
    | U8                        // unserialize(unsigned char&)
    | U32                       // unserialize(uint32_t&)
    | U64                       // unserialize(uint64_t&)
    | Blob(size: nat)           // unserialize(uint256_t&): fixed-size raw bytes
    | VectorOf(elem: Field)     // the three std::vector overloads
    | Record(fields: seq<Field>) // an object's own unserialize: its members in order

  datatype Value = Num(n: nat) | Raw(bytes: seq<byte>) | Items(items: seq<Value>)

  function Decode(f: Field, c: Cursor): (r: Result<(Value, Cursor)>)
    ensures r.Success? ==> Advances(c, r.value.1)
    decreases f, 1
  {
    match f
    case U8 => var p :- ReadLe(c, 1); Success((Num(p.0), p.1))
    case U32 => var p :- ReadLe(c, 4); Success((Num(p.0), p.1))
    case U64 => var p :- ReadLe(c, 8); Success((Num(p.0), p.1))
    case Blob(n) => var p :- ReadBytes(c, n); Success((Raw(p.0), p.1))
    case VectorOf(elem) =>
      var p :- DecodeVector(elem, c);
      Success((Items(p.0), p.1))
    case Record(fs) =>
      var p :- DecodeFields(fs, c);
      Success((Items(p.0), p.1))
  }

  /** A vector: its CompactSize count, then that many elements. */
  function DecodeVector(elem: Field, c: Cursor): (r: Result<(seq<Value>, Cursor)>)
    ensures r.Success? ==> Advances(c, r.value.1)
    decreases elem, 3
  {
    var n :- CompactSize(c);
    DecodeItems(elem, n.0, n.1)
  }

  /** One element of a vector. */
  function DecodeElement(elem: Field, c: Cursor): (r: Result<(Value, Cursor)>)
    ensures r.Success? ==> Advances(c, r.value.1)
    decreases elem, 2, 0
  {
    Decode(elem, c)
  }

  /** `count` consecutive elements of shape `elem`. */
  function DecodeItems(elem: Field, count: nat, c: Cursor): (r: Result<(seq<Value>, Cursor)>)
    ensures r.Success? ==> |r.value.0| == count && Advances(c, r.value.1)
    decreases elem, 2, count + 1
  {
    if count == 0 then Success(([], c))
    else
      var h :- DecodeElement(elem, c);
      var t :- DecodeItems(elem, count - 1, h.1);
      Success(([h.0] + t.0, t.1))
  }

  /** The fields `fs`, one after the other. */
  function DecodeFields(fs: seq<Field>, c: Cursor): (r: Result<(seq<Value>, Cursor)>)
    ensures r.Success? ==> |r.value.0| == |fs| && Advances(c, r.value.1)
    decreases fs
  {
    if fs == [] then Success(([], c))
    else
      var h :- Decode(fs[0], c);
      var t :- DecodeFields(fs[1..], h.1);
      Success(([h.0] + t.0, t.1))
  }

  /** `r` with `vs` put in front of its values. */
  function Prepend(vs: seq<Value>, r: Result<(seq<Value>, Cursor)>): Result<(seq<Value>, Cursor)> {
    match r
    case Success(p) => Success((vs + p.0, p.1))
    case Failure(e) => Failure(e)
  }

  lemma PrependNothing(r: Result<(seq<Value>, Cursor)>)
    ensures Prepend([], r) == r
  {
    if r.Success? {
      assert [] + r.value.0 == r.value.0;
    }
  }

  lemma PrependTwice(a: seq<Value>, b: seq<Value>, r: Result<(seq<Value>, Cursor)>)
    ensures Prepend(a, Prepend(b, r)) == Prepend(a + b, r)
  {
    if r.Success? {
      assert a + (b + r.value.0) == (a + b) + r.value.0;
    }
  }

  /** Elements decoded one after the other, each from the cursor where the
      previous one stopped, are the first elements of a vector decoding. */
  lemma {:induction false} DecodeItemsChain(elem: Field, count: nat, cs: seq<Cursor>, vs: seq<Value>)
    requires |cs| == |vs| + 1 && |vs| <= count
    requires forall k :: 0 <= k < |vs| ==> Decode(elem, cs[k]) == Success((vs[k], cs[k + 1]))
    ensures DecodeItems(elem, count, cs[0]) == Prepend(vs, DecodeItems(elem, count - |vs|, cs[|vs|]))
    decreases |vs|
  {
    if vs == [] {
      PrependNothing(DecodeItems(elem, count, cs[0]));
    } else {
      var rest := DecodeItems(elem, count - |vs|, cs[|vs|]);
      assert Decode(elem, cs[0]) == Success((vs[0], cs[1]));
      forall k | 0 <= k < |vs| - 1
        ensures Decode(elem, cs[1..][k]) == Success((vs[1..][k], cs[1..][k + 1]))
      {
        assert Decode(elem, cs[k + 1]) == Success((vs[k + 1], cs[k + 2]));
      }
      calc {
        DecodeItems(elem, count, cs[0]);
        == { DecodeItemsStep(elem, count, cs[0]); }
        Prepend([vs[0]], DecodeItems(elem, count - 1, cs[1]));
        == { DecodeItemsChain(elem, count - 1, cs[1..], vs[1..]); }
        Prepend([vs[0]], Prepend(vs[1..], rest));
        == { PrependTwice([vs[0]], vs[1..], rest); assert [vs[0]] + vs[1..] == vs; }
        Prepend(vs, rest);
      }
    }
  }

  /** A complete chain of `count` element decodings is the vector's decoding. */
  lemma DecodeItemsOfChain(elem: Field, cs: seq<Cursor>, vs: seq<Value>)
    requires |cs| == |vs| + 1
    requires forall k :: 0 <= k < |vs| ==> Decode(elem, cs[k]) == Success((vs[k], cs[k + 1]))
    ensures DecodeItems(elem, |vs|, cs[0]) == Success((vs, cs[|vs|]))
  {
    DecodeItemsChain(elem, |vs|, cs, vs);
    assert vs + [] == vs;
  }

  /** A chain broken by an element that fails to decode makes the vector fail
      with that element's error. */
  lemma DecodeItemsOfBrokenChain(elem: Field, count: nat, cs: seq<Cursor>, vs: seq<Value>)
    requires |cs| == |vs| + 1 && |vs| < count
    requires forall k :: 0 <= k < |vs| ==> Decode(elem, cs[k]) == Success((vs[k], cs[k + 1]))
    requires Decode(elem, cs[|vs|]).Failure?
    ensures DecodeItems(elem, count, cs[0]) == Failure(Decode(elem, cs[|vs|]).error)
  {
    DecodeItemsChain(elem, count, cs, vs);
    DecodeItemsStep(elem, count - |vs|, cs[|vs|]);
  }

  /** Decoding `count > 0` elements is decoding one, then the other `count - 1`. */
  lemma DecodeItemsStep(elem: Field, count: nat, c: Cursor)
    requires count > 0
    ensures DecodeItems(elem, count, c) == match Decode(elem, c)
      case Success(h) => Prepend([h.0], DecodeItems(elem, count - 1, h.1))
      case Failure(e) => Failure(e)
  {
  }

  /** Decoding a vector is decoding its CompactSize count, then that many elements. */
  lemma DecodeVectorStep(elem: Field, c: Cursor)
    ensures CompactSize(c).Failure? ==> Decode(VectorOf(elem), c) == Failure(CompactSize(c).error)
    ensures CompactSize(c).Success? ==>
      var k := CompactSize(c).value;
      Decode(VectorOf(elem), c) == match DecodeItems(elem, k.0, k.1)
        case Failure(e) => Failure(e)
        case Success(p) => Success((Items(p.0), p.1))
  {
  }

  /** Decoding a non-empty field list is decoding its first field, then the rest. */
  lemma DecodeFieldsStep(fs: seq<Field>, c: Cursor)
    requires fs != []
    ensures DecodeFields(fs, c) == match Decode(fs[0], c)
      case Success(h) => Prepend([h.0], DecodeFields(fs[1..], h.1))
      case Failure(e) => Failure(e)
  {
  }

  /** On success a vector holds exactly as many elements as its CompactSize count said. */
  lemma VectorLengthIsCount(elem: Field, c: Cursor)
    requires Decode(VectorOf(elem), c).Success?
    ensures CompactSize(c).Success?
    ensures Decode(VectorOf(elem), c).value.0 == Items(Decode(VectorOf(elem), c).value.0.items)
    ensures |Decode(VectorOf(elem), c).value.0.items| == CompactSize(c).value.0
  {
  }

  // ---------------------------------------------------------------------------
  // The matching encoder, and the round trip
  // ---------------------------------------------------------------------------

  /** `v` is a value of shape `f` that the format can carry. */
  predicate Fits(f: Field, v: Value)
    decreases f, 1
  {
    match f
    case U8 => v.Num? && v.n < 0x100
    case U32 => v.Num? && v.n < 0x1_0000_0000
    case U64 => v.Num? && v.n < TWO_TO_64
    case Blob(n) => v.Raw? && |v.bytes| == n
    case VectorOf(elem) => v.Items? && |v.items| <= MAX_SIZE && AllFit(elem, v.items)
    case Record(fs) => v.Items? && FieldsFit(fs, v.items)
  }

  predicate AllFit(elem: Field, vs: seq<Value>)
    decreases elem, 2, |vs|
  {
    vs == [] || (Fits(elem, vs[0]) && AllFit(elem, vs[1..]))
  }

  predicate FieldsFit(fs: seq<Field>, vs: seq<Value>)
    decreases fs
  {
    |fs| == |vs| && (fs == [] || (Fits(fs[0], vs[0]) && FieldsFit(fs[1..], vs[1..])))
  }

  function Encode(f: Field, v: Value): seq<byte>
    requires Fits(f, v)
    decreases f, 1
  {
    match f
    case U8 => ToLittleEndian(v.n, 1)
    case U32 => ToLittleEndian(v.n, 4)
    case U64 => ToLittleEndian(v.n, 8)
    case Blob(_) => v.bytes
    case VectorOf(elem) => CompactSizeBytes(|v.items|) + EncodeItems(elem, v.items)
    case Record(fs) => EncodeFields(fs, v.items)
  }

  /** One element of a vector. */
  function EncodeElement(elem: Field, v: Value): seq<byte>
    requires Fits(elem, v)
    decreases elem, 2, 0
  {
    Encode(elem, v)
  }

  function EncodeItems(elem: Field, vs: seq<Value>): seq<byte>
    requires AllFit(elem, vs)
    decreases elem, 2, |vs| + 1
  {
    if vs == [] then [] else EncodeElement(elem, vs[0]) + EncodeItems(elem, vs[1..])
  }

  function EncodeFields(fs: seq<Field>, vs: seq<Value>): seq<byte>
    requires FieldsFit(fs, vs)
    decreases fs
  {
    if fs == [] then [] else Encode(fs[0], vs[0]) + EncodeFields(fs[1..], vs[1..])
  }

  lemma HoldsAtSplit(c: Cursor, a: seq<byte>, b: seq<byte>)
    requires HoldsAt(c, a + b)
    ensures HoldsAt(c, a) && HoldsAt(c.(pos := c.pos + |a|), b)
  {
    assert c.data[c.pos..c.pos + |a|] == (a + b)[..|a|];
    assert c.data[c.pos + |a|..c.pos + |a| + |b|] == (a + b)[|a|..];
  }

  /** Round trip: decoding the encoding of a fitting value gives the value back and
      consumes exactly its encoding. */
  lemma {:induction false} DecodeOfEncode(f: Field, v: Value, c: Cursor)
    requires Fits(f, v) && HoldsAt(c, Encode(f, v))
    ensures Decode(f, c) == Success((v, c.(pos := c.pos + |Encode(f, v)|)))
    decreases f, 1
  {
    match f
    case VectorOf(elem) => DecodeVectorOfEncode(elem, v.items, c);
    case Record(fs) => DecodeFieldsOfEncode(fs, v.items, c);
    case _ => DecodeScalarOfEncode(f, v, c);
  }

  /** The round trip for the shapes without components. */
  lemma DecodeScalarOfEncode(f: Field, v: Value, c: Cursor)
    requires !f.VectorOf? && !f.Record?
    requires Fits(f, v) && HoldsAt(c, Encode(f, v))
    ensures Decode(f, c) == Success((v, c.(pos := c.pos + |Encode(f, v)|)))
  {
    if f.Blob? {
      assert Encode(f, v) == v.bytes;
    } else {
      var k := if f.U8? then 1 else if f.U32? then 4 else 8;
      assert Encode(f, v) == ToLittleEndian(v.n, k);
      ReadUintOfEncoding(c, v.n, k);
    }
  }

  lemma {:induction false} DecodeVectorOfEncode(elem: Field, vs: seq<Value>, c: Cursor)
    requires |vs| <= MAX_SIZE && AllFit(elem, vs)
    requires HoldsAt(c, CompactSizeBytes(|vs|) + EncodeItems(elem, vs))
    ensures DecodeVector(elem, c) == Success((vs, c.(pos := c.pos + |CompactSizeBytes(|vs|) + EncodeItems(elem, vs)|)))
    decreases elem, 3
  {
    var head := CompactSizeBytes(|vs|);
    var c1 := c.(pos := c.pos + |head|);
    HoldsAtSplit(c, head, EncodeItems(elem, vs));
    CompactSizeOfEncoding(c, |vs|);
    DecodeItemsOfEncode(elem, vs, c1);
  }

  lemma {:induction false} DecodeItemsOfEncode(elem: Field, vs: seq<Value>, c: Cursor)
    requires AllFit(elem, vs) && HoldsAt(c, EncodeItems(elem, vs))
    ensures DecodeItems(elem, |vs|, c) == Success((vs, c.(pos := c.pos + |EncodeItems(elem, vs)|)))
    decreases elem, 2, |vs|, 1
  {
    if vs != [] {
      var t := c.(pos := c.pos + |EncodeElement(elem, vs[0])|);
      HoldsAtRest(c, elem, vs);
      DecodeItemsOfEncode(elem, vs[1..], t);
      DecodeFirstOfEncode(elem, vs, c, t.(pos := t.pos + |EncodeItems(elem, vs[1..])|));
    }
  }

  /** Where the encoded items hold, the items after the first hold right after
      the first one's encoding. */
  lemma HoldsAtRest(c: Cursor, elem: Field, vs: seq<Value>)
    requires vs != [] && AllFit(elem, vs) && HoldsAt(c, EncodeItems(elem, vs))
    ensures var e := EncodeElement(elem, vs[0]);
      && HoldsAt(c.(pos := c.pos + |e|), EncodeItems(elem, vs[1..]))
      && |EncodeItems(elem, vs)| == |e| + |EncodeItems(elem, vs[1..])|
  {
    HoldsAtSplit(c, EncodeElement(elem, vs[0]), EncodeItems(elem, vs[1..]));
  }

  /** The first element comes back from its encoding, so once the others decode
      after it, all of them do. */
  lemma {:induction false} DecodeFirstOfEncode(elem: Field, vs: seq<Value>, c: Cursor, u: Cursor)
    requires vs != [] && AllFit(elem, vs) && HoldsAt(c, EncodeItems(elem, vs))
    requires DecodeItems(elem, |vs| - 1, c.(pos := c.pos + |EncodeElement(elem, vs[0])|)) == Success((vs[1..], u))
    ensures DecodeItems(elem, |vs|, c) == Success((vs, u))
    decreases elem, 2, |vs|, 0
  {
    HoldsAtSplit(c, EncodeElement(elem, vs[0]), EncodeItems(elem, vs[1..]));
    DecodeOfEncode(elem, vs[0], c);
    assert [vs[0]] + vs[1..] == vs;
  }

  lemma {:induction false} DecodeFieldsOfEncode(fs: seq<Field>, vs: seq<Value>, c: Cursor)
    requires FieldsFit(fs, vs) && HoldsAt(c, EncodeFields(fs, vs))
    ensures DecodeFields(fs, c) == Success((vs, c.(pos := c.pos + |EncodeFields(fs, vs)|)))
    decreases fs
  {
    if fs != [] {
      var e := Encode(fs[0], vs[0]);
      HoldsAtSplit(c, e, EncodeFields(fs[1..], vs[1..]));
      DecodeOfEncode(fs[0], vs[0], c);
      DecodeFieldsOfEncode(fs[1..], vs[1..], c.(pos := c.pos + |e|));
      assert [vs[0]] + vs[1..] == vs;
    }
  }
}
