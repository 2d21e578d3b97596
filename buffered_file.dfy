/** The ring-buffered forward reader over a block file (`buffered_file_t`) and the
    C stdio file it reads from. */
module BufferedFiles {
  import opened Bytes
  import opened Serialize

  /** `std::numeric_limits<uint64_t>::max()`: the read limit when none is set. */
  const NO_LIMIT: nat := TWO_TO_64 - 1

  /** A file offset is a signed 64-bit `long`, so no file holds 2^63 bytes or more. */
  const TWO_TO_63: nat := 0x8000_0000_0000_0000

  function Max(a: nat, b: nat): nat {
    if a < b then b else a
  }

  /** A reader method returned `r` where the specification gives `spec`, and the
      reader now stands at `now`. */
  ghost predicate Agrees<T>(r: Result<T>, spec: Result<(T, Cursor)>, now: Cursor) {
    match spec
    case Success(p) => r == Success(p.0) && now == p.1
    case Failure(e) => r == Failure(e)
  }

  /** An open `FILE*` read sequentially: its contents, its position and its
      end-of-file indicator. */
  class CFile {
    const data: seq<byte>
    var pos: nat
    var eof: bool

    ghost predicate Valid()
      reads this
    {
      |data| < TWO_TO_63 && pos <= |data| && (eof ==> pos == |data|)
    }

    constructor Open(contents: seq<byte>)
      requires |contents| < TWO_TO_63
      ensures Valid() && data == contents && pos == 0 && !eof
    {
      data := contents;
      pos := 0;
      eof := false;
    }

    /** `fread(buf, 1, n, file)`: delivers the next 1 to `n` bytes, or none only
        when the file is exhausted; a request that comes up short at the end sets
        the end-of-file indicator. */
    method Read(n: nat) returns (chunk: seq<byte>)
      requires Valid()
      modifies this
      ensures Valid()
      ensures old(pos) <= pos && chunk == data[old(pos)..pos] && |chunk| <= n
      ensures n > 0 && old(pos) < |data| ==> |chunk| > 0
      ensures eof == (old(eof) || (|chunk| < n && pos == |data|))
    {
      var most := if n < |data| - pos then n else |data| - pos;
      var k: nat :| k <= most && (most > 0 ==> k > 0);
      chunk := data[pos..pos + k];
      pos := pos + k;
      eof := eof || (k < n && pos == |data|);
    }
  }

  lemma MulAtLeast(a: int, b: int)
    requires 1 <= a && 0 < b
    ensures a * b >= b
  {
    var k := a - 1;
    assert a * b == k * b + b;
    assert k * b >= 0;
  }

  /** `x % size` is the only remainder that writes `x` as a multiple of `size` plus it. */
  lemma ModUnique(x: int, size: int, q: int, r: int)
    requires 0 < size && x == q * size + r && 0 <= r < size
    ensures x % size == r
  {
    var q2, r2 := x / size, x % size;
    assert q * size + r == q2 * size + r2;
    if q > q2 {
      assert (q - q2) * size == r2 - r;
      MulAtLeast(q - q2, size);
    } else if q < q2 {
      assert (q2 - q) * size == r - r2;
      MulAtLeast(q2 - q, size);
    }
  }

  /** Within one turn of the ring, consecutive offsets occupy consecutive slots. */
  lemma RingSlotStep(i: nat, t: nat, size: nat)
    requires 0 < size && i % size + t < size
    ensures (i + t) % size == i % size + t
  {
    ModUnique(i + t, size, i / size, i % size + t);
  }

  /** The `size - k` offsets before `s` occupy the ring slots outside the `k`
      slots from `s % size` on. */
  lemma RingSlotBehind(i: nat, s: nat, k: nat, size: nat)
    requires 0 < size && s % size + k <= size && s + k <= i + size && i < s
    ensures i % size < s % size || s % size + k <= i % size
  {
    var pos, d := s % size, s - i;
    if d <= pos {
      ModUnique(i, size, s / size, pos - d);
    } else {
      ModUnique(i, size, s / size - 1, pos - d + size);
    }
  }

  /** Writing the `chunk` of source bytes that follows offset `s` into the ring
      at `s`'s slot keeps every slot of the last ring's worth of offsets right. */
  lemma RingAfterFill(before: seq<byte>, after: seq<byte>, data: seq<byte>, s: nat, chunk: seq<byte>)
    requires |before| == |after| > 0 && s % |before| + |chunk| <= |before|
    requires s + |chunk| <= |data| && chunk == data[s..s + |chunk|]
    requires forall i :: 0 <= i < s && s <= i + |before| ==> before[i % |before|] == data[i]
    requires forall j :: 0 <= j < |chunk| ==> after[s % |before| + j] == chunk[j]
    requires forall x :: 0 <= x < |after| && !(s % |before| <= x < s % |before| + |chunk|) ==> after[x] == before[x]
    ensures forall i :: 0 <= i < s + |chunk| && s + |chunk| <= i + |after| ==> after[i % |after|] == data[i]
  {
    var size := |before|;
    forall i | 0 <= i < s + |chunk| && s + |chunk| <= i + size
      ensures after[i % size] == data[i]
    {
      if i < s {
        RingSlotBehind(i, s, |chunk|, size);
      } else {
        RingSlotStep(s, i - s, size);
        assert after[s % size + (i - s)] == chunk[i - s];
      }
    }
  }

  class BufferedFile {
    const src: CFile
    var nSrcPos: nat        // bytes pulled from the source so far
    var nReadPos: nat       // bytes delivered to the caller so far
    var nReadLimit: nat     // reads may not end beyond this position
    const nRewind: nat      // bytes behind the read position that stay buffered
    const vchBuf: array<byte>
    /** The furthest read position reached so far. */
    ghost var maxReadPos: nat

    /** Object invariant. The last `vchBuf.Length` bytes pulled from the source sit
        in the ring at their offset modulo its length; the read position lies in
        that window; a fill never pulls so far ahead that the `nRewind` bytes
        before the furthest read position drop out of it. */
    ghost predicate Valid()
      reads this, src, vchBuf
    {
      && src.Valid()
      && nRewind < vchBuf.Length
      && nSrcPos == src.pos
      && nReadPos <= maxReadPos <= nSrcPos
      && nSrcPos <= nReadPos + vchBuf.Length
      && nSrcPos + nRewind <= maxReadPos + vchBuf.Length
      && (forall i :: 0 <= i < nSrcPos && nSrcPos <= i + vchBuf.Length ==>
            vchBuf[i % vchBuf.Length] == src.data[i])
    }

    /** The reader as the decoding functions see it. */
    ghost function Cur(): Cursor
      reads this, src
    {
      Cursor(src.data, nReadPos, nReadLimit)
    }

    /** What every reading operation keeps, whether it succeeds or fails: the
        limit, positions that only grow, and a read position and furthest read
        position that do not pass the limit. */
    ghost predicate Stepped(srcPos0: nat, readPos0: nat, limit0: nat, maxPos0: nat)
      reads this
    {
      && nReadLimit == limit0 && srcPos0 <= nSrcPos && readPos0 <= nReadPos
      && nReadPos <= Max(readPos0, nReadLimit)
      && maxReadPos <= Max(maxPos0, nReadLimit)
    }

    /** Everything in the source has been pulled and read, and the source has
        reported its end: the state a read that ran out of data leaves behind. */
    ghost predicate AtEnd()
      reads this, src
    {
      nReadPos == nSrcPos == |src.data| && src.eof
    }

    constructor (fileIn: CFile, nBufSize: nat, nRewindIn: nat)
      requires fileIn.Valid() && fileIn.pos == 0
      requires nRewindIn < nBufSize
      ensures Valid() && fresh(vchBuf)
      ensures src == fileIn && vchBuf.Length == nBufSize && nRewind == nRewindIn
      ensures nSrcPos == 0 && nReadPos == 0 && nReadLimit == NO_LIMIT && maxReadPos == 0
    {
      src := fileIn;
      nSrcPos, nReadPos, nReadLimit := 0, 0, NO_LIMIT;
      nRewind := nRewindIn;
      vchBuf := new byte[nBufSize](_ => 0);
      maxReadPos := 0;
    }

    /** The constructor's check: a rewind guarantee that is not below the buffer
        size is refused. */
    static method Open(fileIn: CFile, nBufSize: nat, nRewindIn: nat) returns (r: Result<BufferedFile>)
      requires fileIn.Valid() && fileIn.pos == 0
      ensures r.Failure? <==> nRewindIn >= nBufSize
      ensures r.Failure? ==> r.error == BadRewind
      ensures r.Success? ==> var b := r.value;
        && fresh(b) && fresh(b.vchBuf) && b.Valid() && b.src == fileIn
        && b.vchBuf.Length == nBufSize && b.nRewind == nRewindIn
        && b.nSrcPos == 0 && b.nReadPos == 0 && b.nReadLimit == NO_LIMIT
    {
      if nRewindIn >= nBufSize {
        return Failure(BadRewind);
      }
      var b := new BufferedFile(fileIn, nBufSize, nRewindIn);
      return Success(b);
    }

    /** `eof()`: nothing buffered is left unread and the source reported its end. */
    predicate Eof(): (b: bool)
      reads this, src, vchBuf
      ensures b && Valid() ==> nReadPos == nSrcPos == |src.data|
    {
      nReadPos == nSrcPos && src.eof
    }

    /** `GetPos()`. */
    function GetPos(): (p: nat)
      reads this, src, vchBuf
      ensures Valid() ==> p <= nSrcPos <= p + vchBuf.Length
    {
      nReadPos
    }

    /** The bytes in the ring from the read position onwards are the source's. */
    lemma BufferedSlice(pos: nat, k: nat)
      requires Valid() && pos == nReadPos % vchBuf.Length
      requires pos + k <= vchBuf.Length && nReadPos + k <= nSrcPos
      ensures vchBuf[pos..pos + k] == src.data[nReadPos..nReadPos + k]
    {
      forall x | pos <= x < pos + k
        ensures vchBuf[x] == src.data[nReadPos - pos + x]
      {
        RingSlotStep(nReadPos, x - pos, vchBuf.Length);
      }
    }

    /** `Fill()`: pulls the next bytes of the source into the ring at
        `nSrcPos % size`, never past the ring's end and never so many that the
        `nRewind` bytes before the read position would be overwritten. */
    method Fill() returns (r: Outcome)
      requires Valid() && nReadPos == nSrcPos
      modifies this, src, vchBuf
      ensures Valid()
      ensures nReadPos == old(nReadPos) && nReadLimit == old(nReadLimit)
      ensures maxReadPos == old(maxReadPos) && old(nSrcPos) <= nSrcPos
      ensures r.Pass? <==> old(nSrcPos) < |src.data|
      ensures r.Pass? ==> old(nSrcPos) < nSrcPos
      ensures r.Fail? ==> r.error == EndOfFile && nSrcPos == old(nSrcPos) && src.eof
    {
      var size := vchBuf.Length;
      var pos := nSrcPos % size;
      var readNow := size - pos;
      var nAvail := size - (nSrcPos - nReadPos) - nRewind;
      if nAvail < readNow {
        readNow := nAvail;
      }
      // Fill only runs with nothing buffered ahead and nRewind < size, so the
      // `readNow == 0` early return cannot be taken.
      assert readNow > 0;
      ghost var before := vchBuf[..];
      ghost var s := nSrcPos;
      var chunk := src.Read(readNow);
      if |chunk| == 0 {
        return Fail(EndOfFile);
      }
      forall j | 0 <= j < |chunk| {
        vchBuf[pos + j] := chunk[j];
      }
      RingAfterFill(before, vchBuf[..], src.data, s, chunk);
      nSrcPos := nSrcPos + |chunk|;
      return Pass;
    }

    /** One pass of `read`'s copy loop: up to `nSize` buffered bytes from the
        read position, stopping at the end of the array or of the buffered data. */
    method TakeBuffered(nSize: nat) returns (chunk: seq<byte>)
      requires Valid() && nReadPos < nSrcPos && nSize > 0
      modifies this
      ensures Valid() && 0 < |chunk| <= nSize
      ensures nReadPos == old(nReadPos) + |chunk| && chunk == src.data[old(nReadPos)..nReadPos]
      ensures nSrcPos == old(nSrcPos) && nReadLimit == old(nReadLimit)
      ensures maxReadPos == Max(old(maxReadPos), nReadPos)
    {
      var size := vchBuf.Length;
      var pos := nReadPos % size;
      var nNow := nSize;
      if nNow + pos > size {
        nNow := size - pos;
      }
      if nNow + nReadPos > nSrcPos {
        nNow := nSrcPos - nReadPos;
      }
      BufferedSlice(pos, nNow);
      chunk := vchBuf[pos..pos + nNow];
      nReadPos := nReadPos + nNow;
      maxReadPos := Max(maxReadPos, nReadPos);
    }

    /** `read(pch, n)`: `n` bytes from the read position. A read ending past the
        limit fails before anything changes; an exhausted source fails after the
        bytes that were there have been consumed. */
    method Read(n: nat) returns (r: Result<seq<byte>>)
      requires Valid()
      modifies this, src, vchBuf
      ensures Valid() && Agrees(r, ReadBytes(old(Cur()), n), Cur())
      ensures Stepped(old(nSrcPos), old(nReadPos), old(nReadLimit), old(maxReadPos))
      ensures r.Success? ==> maxReadPos == Max(old(maxReadPos), nReadPos)
      ensures r == Failure(LimitExceeded) ==> nReadPos == old(nReadPos) && nSrcPos == old(nSrcPos)
      ensures r == Failure(EndOfFile) ==> AtEnd()
    {
      if n + nReadPos > nReadLimit {
        return Failure(LimitExceeded);
      }
      ghost var start := nReadPos;
      var out: seq<byte> := [];
      var nSize: nat := n;
      while nSize > 0
        invariant Valid()
        invariant start <= nReadPos && nReadPos + nSize == start + n
        invariant out == src.data[start..nReadPos]
        invariant nReadLimit == old(nReadLimit) && old(nSrcPos) <= nSrcPos
        invariant maxReadPos == Max(old(maxReadPos), nReadPos)
        decreases nSize
      {
        if nReadPos == nSrcPos {
          var filled := Fill();
          if filled.Fail? {
            return Failure(filled.error);
          }
        }
        ghost var before := nReadPos;
        var chunk := TakeBuffered(nSize);
        SliceConcat(src.data, start, before, nReadPos);
        out := out + chunk;
        nSize := nSize - |chunk|;
      }
      assert nReadPos == start + n && Cur() == old(Cur()).(pos := start + n);
      return Success(out);
    }

    /** `readdata8/16/32/64`: `k` bytes decoded little-endian. */
    method ReadLe(k: nat) returns (r: Result<nat>)
      requires Valid()
      modifies this, src, vchBuf
      ensures Valid() && Agrees(r, Serialize.ReadLe(old(Cur()), k), Cur())
      ensures Stepped(old(nSrcPos), old(nReadPos), old(nReadLimit), old(maxReadPos))
      ensures r == Failure(EndOfFile) ==> AtEnd()
    {
      var bytes := Read(k);
      if bytes.Failure? {
        return Failure(bytes.error);
      }
      return Success(LittleEndian(bytes.value));
    }

    /** `read_compact_int()`. */
    method ReadCompactInt() returns (r: Result<nat>)
      requires Valid()
      modifies this, src, vchBuf
      ensures Valid() && Agrees(r, CompactSize(old(Cur())), Cur())
      ensures Stepped(old(nSrcPos), old(nReadPos), old(nReadLimit), old(maxReadPos))
      ensures r == Failure(EndOfFile) ==> AtEnd()
    {
      var ciSize := ReadLe(1);
      if ciSize.Failure? {
        return Failure(ciSize.error);
      }
      var res: nat;
      if ciSize.value < 253 {
        res := ciSize.value;
      } else if ciSize.value == 253 {
        var x := ReadLe(2);
        if x.Failure? {
          return Failure(x.error);
        }
        res := x.value;
        if res < 253 {
          return Failure(NonCanonical);
        }
      } else if ciSize.value == 254 {
        var x := ReadLe(4);
        if x.Failure? {
          return Failure(x.error);
        }
        res := x.value;
        if res < 0x1_0000 {
          return Failure(NonCanonical);
        }
      } else {
        var x := ReadLe(8);
        if x.Failure? {
          return Failure(x.error);
        }
        res := x.value;
        if res < 0x1_0000_0000 {
          return Failure(NonCanonical);
        }
      }
      if res > MAX_SIZE {
        return Failure(TooLarge);
      }
      return Success(res);
    }

    /** The `unserialize` overloads: decodes one object of shape `f`. */
    method Unserialize(f: Field) returns (r: Result<Value>)
      requires Valid()
      modifies this, src, vchBuf
      ensures Valid() && Agrees(r, Decode(f, old(Cur())), Cur())
      ensures Stepped(old(nSrcPos), old(nReadPos), old(nReadLimit), old(maxReadPos))
      ensures r == Failure(EndOfFile) ==> AtEnd()
      decreases f, 1
    {
      match f
      case U8 =>
        var x := ReadLe(1);
        r := if x.Success? then Success(Num(x.value)) else Failure(x.error);
      case U32 =>
        var x := ReadLe(4);
        r := if x.Success? then Success(Num(x.value)) else Failure(x.error);
      case U64 =>
        var x := ReadLe(8);
        r := if x.Success? then Success(Num(x.value)) else Failure(x.error);
      case Blob(n) =>
        var x := Read(n);
        r := if x.Success? then Success(Raw(x.value)) else Failure(x.error);
      case VectorOf(elem) =>
        r := UnserializeVector(elem);
      case Record(fs) =>
        r := UnserializeRecord(fs);
    }

    /** `unserialize(std::vector<T>&)`: clears the vector, reads a CompactSize
        count, then decodes that many elements in order. */
    method UnserializeVector(elem: Field) returns (r: Result<Value>)
      requires Valid()
      modifies this, src, vchBuf
      ensures Valid() && Agrees(r, Decode(VectorOf(elem), old(Cur())), Cur())
      ensures Stepped(old(nSrcPos), old(nReadPos), old(nReadLimit), old(maxReadPos))
      ensures r == Failure(EndOfFile) ==> AtEnd()
      decreases elem, 3
    {
      DecodeVectorStep(elem, Cur());
      var count := ReadCompactInt();
      if count.Failure? {
        return Failure(count.error);
      }
      var items := UnserializeItems(elem, count.value);
      r := if items.Success? then Success(Items(items.value)) else Failure(items.error);
    }

    /** The element loop of `unserialize(std::vector<T>&)`: `count` elements of
        shape `elem`, appended in order. */
    method UnserializeItems(elem: Field, count: nat) returns (r: Result<seq<Value>>)
      requires Valid()
      modifies this, src, vchBuf
      ensures Valid() && Agrees(r, DecodeItems(elem, count, old(Cur())), Cur())
      ensures Stepped(old(nSrcPos), old(nReadPos), old(nReadLimit), old(maxReadPos))
      ensures r == Failure(EndOfFile) ==> AtEnd()
      decreases elem, 2
    {
      var v: seq<Value> := [];
      // the cursor before each element, and after the last one
      ghost var cs := [Cur()];
      for i := 0 to count
        invariant Valid() && |v| == i && |cs| == i + 1 && cs[0] == old(Cur()) && cs[i] == Cur()
        invariant forall k :: 0 <= k < i ==> Decode(elem, cs[k]) == Success((v[k], cs[k + 1]))
        invariant Stepped(old(nSrcPos), old(nReadPos), old(nReadLimit), old(maxReadPos))
      {
        var x := Unserialize(elem);
        if x.Failure? {
          DecodeItemsOfBrokenChain(elem, count, cs, v);
          return Failure(x.error);
        }
        v := v + [x.value];
        cs := cs + [Cur()];
      }
      DecodeItemsOfChain(elem, cs, v);
      return Success(v);
    }

    /** An object's own `unserialize`: its fields, in declaration order. */
    method UnserializeRecord(fs: seq<Field>) returns (r: Result<Value>)
      requires Valid()
      modifies this, src, vchBuf
      ensures Valid() && Agrees(r, Decode(Record(fs), old(Cur())), Cur())
      ensures Stepped(old(nSrcPos), old(nReadPos), old(nReadLimit), old(maxReadPos))
      ensures r == Failure(EndOfFile) ==> AtEnd()
      decreases fs
    {
      var v: seq<Value> := [];
      ghost var c0 := Cur();
      PrependNothing(DecodeFields(fs, c0));
      for i := 0 to |fs|
        invariant Valid() && |v| == i
        invariant DecodeFields(fs, c0) == Prepend(v, DecodeFields(fs[i..], Cur()))
        invariant Stepped(old(nSrcPos), old(nReadPos), old(nReadLimit), old(maxReadPos))
      {
        ghost var ci := Cur();
        var x := Unserialize(fs[i]);
        if x.Failure? {
          return Failure(x.error);
        }
        assert fs[i..][0] == fs[i] && fs[i..][1..] == fs[i + 1..];
        DecodeFieldsStep(fs[i..], ci);
        PrependTwice(v, [x.value], DecodeFields(fs[i + 1..], Cur()));
        v := v + [x.value];
      }
      assert fs[|fs|..] == [] && v + [] == v;
      assert DecodeFields(fs, c0) == Success((v, Cur()));
      return Success(Items(v));
    }

    /** `SetPos(nPos)`: moves the read position to `nPos` when it lies in the
        buffered window `[nSrcPos - size, nSrcPos]`, and otherwise to the nearer
        end of that window, reporting whether the target was reached. */
    method SetPos(nPos: nat) returns (ok: bool)
      requires Valid()
      modifies this
      ensures Valid()
      ensures ok <==> nSrcPos <= nPos + vchBuf.Length && nPos <= nSrcPos
      ensures nReadPos == if nPos + vchBuf.Length < nSrcPos then nSrcPos - vchBuf.Length
                          else if nPos > nSrcPos then nSrcPos
                          else nPos
      ensures nSrcPos == old(nSrcPos) && nReadLimit == old(nReadLimit)
      ensures maxReadPos == Max(old(maxReadPos), nReadPos)
      // the rewind guarantee
      ensures old(maxReadPos) <= nPos + nRewind && nPos <= nSrcPos ==> ok
    {
      var bufsize := vchBuf.Length;
      if nPos + bufsize < nSrcPos {
        nReadPos := nSrcPos - bufsize;
        maxReadPos := Max(maxReadPos, nReadPos);
        return false;
      }
      if nPos > nSrcPos {
        nReadPos := nSrcPos;
        maxReadPos := Max(maxReadPos, nReadPos);
        return false;
      }
      nReadPos := nPos;
      maxReadPos := Max(maxReadPos, nReadPos);
      return true;
    }

    /** `SetLimit(nPos)`; without an argument it removes the limit. */
    method SetLimit(nPos: nat := NO_LIMIT) returns (ok: bool)
      requires Valid()
      modifies this
      ensures Valid()
      ensures ok <==> old(nReadPos) <= nPos
      ensures nReadLimit == if ok then nPos else old(nReadLimit)
      ensures nReadPos == old(nReadPos) && nSrcPos == old(nSrcPos) && maxReadPos == old(maxReadPos)
    {
      if nPos < nReadPos {
        return false;
      }
      nReadLimit := nPos;
      return true;
    }

    /** `FindByte(ch)`: advances to the next occurrence of `ch`, pulling from the
        source as needed, whatever the read limit. */
    method FindByte(ch: byte) returns (r: Outcome)
      requires Valid()
      modifies this, src, vchBuf
      ensures Valid()
      ensures nReadLimit == old(nReadLimit) && old(nSrcPos) <= nSrcPos
      ensures old(nReadPos) <= nReadPos && maxReadPos == Max(old(maxReadPos), nReadPos)
      ensures forall i :: old(nReadPos) <= i < nReadPos ==> src.data[i] != ch
      ensures r.Pass? ==> nReadPos < nSrcPos && src.data[nReadPos] == ch
      ensures r.Fail? ==> r.error == EndOfFile && AtEnd()
    {
      while true
        invariant Valid()
        invariant nReadLimit == old(nReadLimit) && old(nSrcPos) <= nSrcPos
        invariant old(nReadPos) <= nReadPos && maxReadPos == Max(old(maxReadPos), nReadPos)
        invariant forall i :: old(nReadPos) <= i < nReadPos ==> src.data[i] != ch
        decreases |src.data| - nReadPos
      {
        if nReadPos == nSrcPos {
          var filled := Fill();
          if filled.Fail? {
            return filled;
          }
        }
        if vchBuf[nReadPos % vchBuf.Length] == ch {
          break;
        }
        nReadPos := nReadPos + 1;
        maxReadPos := Max(maxReadPos, nReadPos);
      }
      return Pass;
    }
  }
}
