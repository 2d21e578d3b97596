// The block-file scanner: walks a block file through a rewindable buffered
// reader, looking for the network's marker, a plausible size and a block that
// decodes within that size, and resynchronises one byte further on whenever
// one of those fails.

module BlockScanner {
  import opened Bytes
  import opened Serialize
  import opened BufferedFiles
  import opened ChainParams

  /** The smallest size a block record may claim: a bare block header. */
  const MIN_BLOCK_SIZE: nat := 80

  /** The reader's buffer: room for two maximal blocks. */
  const SCAN_BUFFER_SIZE: nat := 2 * MAX_BLOCK_SERIALIZED_SIZE

  /** How far back the reader must always be able to return: one maximal block
      and its eight-byte record header. */
  const SCAN_REWIND: nat := MAX_BLOCK_SERIALIZED_SIZE + 8

  /** A block the scanner accepted: its payload starts at `start`, its record
      header claimed `size` bytes, and decoding stopped at `end`. */
  datatype Found = Found(start: nat, size: nat, end: nat, block: Value)

  /** An acceptable record header at `at`: the marker, then a little-endian
      size the scanner accepts. */
  predicate HeaderAt(data: seq<byte>, marker: seq<byte>, at: nat, size: nat) {
    && at + 8 <= |data|
    && data[at..at + 4] == marker
    && LittleEndian(data[at + 4..at + 8]) == size
    && MIN_BLOCK_SIZE <= size <= MAX_BLOCK_SERIALIZED_SIZE
  }

  /** `b` is a block record of `data`: an acceptable header in the eight bytes
      before `b.start`, then a block of shape `schema` decoded from `b.start`
      without reading past the size the header claims. */
  predicate IsBlockAt(data: seq<byte>, marker: seq<byte>, schema: Field, b: Found) {
    && 8 <= b.start
    && HeaderAt(data, marker, b.start - 8, b.size)
    && Decode(schema, Cursor(data, b.start, b.start + b.size))
       == Success((b.block, Cursor(data, b.end, b.start + b.size)))
  }

  /** Blocks in file order, each one starting after the previous one's end and
      its own eight-byte record header. */
  predicate InFileOrder(found: seq<Found>) {
    forall j, k :: 0 <= j < k < |found| ==> found[j].end + 8 <= found[k].start
  }

  /** The scanner's record so far: genuine blocks, in file order, none of them
      ending after `bound`. */
  predicate Scanned(data: seq<byte>, marker: seq<byte>, schema: Field, found: seq<Found>, bound: nat) {
    && (forall j :: 0 <= j < |found| ==> IsBlockAt(data, marker, schema, found[j]))
    && (forall j :: 0 <= j < |found| ==> found[j].end <= bound)
    && InFileOrder(found)
  }

  lemma ScannedWider(data: seq<byte>, marker: seq<byte>, schema: Field, found: seq<Found>, bound: nat, bound2: nat)
    requires Scanned(data, marker, schema, found, bound) && bound <= bound2
    ensures Scanned(data, marker, schema, found, bound2)
  {
  }

  /** A block that starts at least a record header after `bound` extends the record. */
  lemma ScannedAppend(data: seq<byte>, marker: seq<byte>, schema: Field, found: seq<Found>, bound: nat, b: Found)
    requires Scanned(data, marker, schema, found, bound)
    requires IsBlockAt(data, marker, schema, b) && bound + 8 <= b.start <= b.end
    ensures Scanned(data, marker, schema, found + [b], b.end)
  {
    var found2 := found + [b];
    forall j, k | 0 <= j < k < |found2|
      ensures found2[j].end + 8 <= found2[k].start
    {
      if k < |found| {
        assert found2[j] == found[j] && found2[k] == found[k];
      }
    }
  }

  /** A record header starts at `at`: the marker and an acceptable size field. */
  predicate HeaderStartsAt(data: seq<byte>, marker: seq<byte>, at: nat) {
    at + 8 <= |data| && HeaderAt(data, marker, at, LittleEndian(data[at + 4..at + 8]))
  }

  /** The block record announced at `at` does not end before the file does: an
      acceptable header whose claimed size reaches the end of the file. Decoding
      such a block can run the reader to the end of the file, and the scan stops. */
  predicate OverrunsFile(data: seq<byte>, marker: seq<byte>, at: nat) {
    HeaderStartsAt(data, marker, at) && |data| <= at + 8 + LittleEndian(data[at + 4..at + 8])
  }

  /** A complete block record starts at `at`: a record header, then a block of
      shape `schema` that decodes within the size the header claims. */
  predicate RecordAt(data: seq<byte>, marker: seq<byte>, schema: Field, at: nat) {
    && HeaderStartsAt(data, marker, at)
    && var size := LittleEndian(data[at + 4..at + 8]);
       Decode(schema, Cursor(data, at + 8, at + 8 + size)).Success?
  }

  /** Offset `at` lies in one of the found records, header included. */
  predicate Inside(found: seq<Found>, at: nat) {
    exists j :: 0 <= j < |found| && found[j].start <= at + 8 && at < found[j].end
  }

  /** Every block record starting before `bound` lies in a found record. */
  predicate Covers(data: seq<byte>, marker: seq<byte>, schema: Field, found: seq<Found>, bound: nat) {
    forall at :: 0 <= at < bound && RecordAt(data, marker, schema, at) ==> Inside(found, at)
  }

  /** Every accepted block is a record start in the sense of `RecordAt`. */
  lemma BlockIsRecord(data: seq<byte>, marker: seq<byte>, schema: Field, b: Found)
    requires IsBlockAt(data, marker, schema, b)
    ensures RecordAt(data, marker, schema, b.start - 8)
  {
  }

  lemma NoHeaderNoRecord(data: seq<byte>, marker: seq<byte>, schema: Field, at: nat)
    requires !HeaderStartsAt(data, marker, at)
    ensures !RecordAt(data, marker, schema, at)
  {
  }

  /** A block record opens with the marker's first byte. */
  lemma RecordOpensWithMarker(data: seq<byte>, marker: seq<byte>, schema: Field, at: nat)
    requires |marker| == MESSAGE_START_SIZE && RecordAt(data, marker, schema, at)
    ensures at < |data| && data[at] == marker[0]
  {
    assert data[at..at + 4][0] == data[at];
  }

  /** Skipping bytes that cannot open a header, then a candidate that is not a
      record, keeps every record before the new bound covered. */
  lemma CoversResume(data: seq<byte>, marker: seq<byte>, schema: Field, found: seq<Found>, bound: nat, from: nat)
    requires |marker| == MESSAGE_START_SIZE && Covers(data, marker, schema, found, bound) && bound < from
    requires forall i :: bound <= i < from - 1 && i < |data| ==> data[i] != marker[0]
    requires !RecordAt(data, marker, schema, from - 1)
    ensures Covers(data, marker, schema, found, from)
  {
    forall at | 0 <= at < from && RecordAt(data, marker, schema, at)
      ensures Inside(found, at)
    {
      RecordOpensWithMarker(data, marker, schema, at);
    }
  }

  /** Skipping bytes that cannot open a header, then accepting a block, covers
      every record up to the block's end. */
  lemma CoversAccept(data: seq<byte>, marker: seq<byte>, schema: Field, found: seq<Found>, bound: nat, b: Found)
    requires |marker| == MESSAGE_START_SIZE && Covers(data, marker, schema, found, bound)
    requires 8 <= b.start && bound <= b.start - 8 && b.start <= b.end
    requires forall i :: bound <= i < b.start - 8 && i < |data| ==> data[i] != marker[0]
    ensures Covers(data, marker, schema, found + [b], b.end)
  {
    var found2 := found + [b];
    forall at | 0 <= at < b.end && RecordAt(data, marker, schema, at)
      ensures Inside(found2, at)
    {
      RecordOpensWithMarker(data, marker, schema, at);
      if at < bound {
        var j :| 0 <= j < |found| && found[j].start <= at + 8 && at < found[j].end;
        assert found2[j] == found[j];
      } else {
        assert found2[|found|] == b;
      }
    }
  }

  /** No candidate byte where a header would still fit: every record of the file
      is covered. */
  lemma CoversStop(data: seq<byte>, marker: seq<byte>, schema: Field, found: seq<Found>, bound: nat)
    requires |marker| == MESSAGE_START_SIZE && Covers(data, marker, schema, found, bound)
    requires forall i :: bound <= i && i + 8 <= |data| ==> data[i] != marker[0]
    ensures Covers(data, marker, schema, found, |data|)
  {
    forall at | 0 <= at < |data| && RecordAt(data, marker, schema, at)
      ensures Inside(found, at)
    {
      RecordOpensWithMarker(data, marker, schema, at);
    }
  }

  /** What the search for a record header found: the end of the file, a marker
      byte at `at` that does not open an acceptable header, or a header at `at`
      whose size field says `size`. */
  datatype Header = Exhausted | Rejected(at: nat) | Accepted(at: nat, size: nat)

  /** The header search of one scanning pass: lift the read limit, find the
      marker's first byte, then read the header there. */
  method FindHeader(blkdat: BufferedFile, marker: seq<byte>) returns (h: Header)
    requires blkdat.Valid() && |marker| == MESSAGE_START_SIZE
    modifies blkdat, blkdat.src, blkdat.vchBuf
    ensures blkdat.Valid() && blkdat.nSrcPos >= old(blkdat.nSrcPos)
    ensures h.Exhausted? ==>
      && blkdat.src.eof && blkdat.src.pos == |blkdat.src.data|
      && forall i :: old(blkdat.nReadPos) <= i && i + 8 <= |blkdat.src.data| ==> blkdat.src.data[i] != marker[0]
    ensures h.Rejected? ==>
      && old(blkdat.nReadPos) <= h.at < blkdat.nSrcPos && blkdat.nReadPos <= h.at + 8
      && blkdat.maxReadPos <= Max(old(blkdat.maxReadPos), h.at + 8)
      && !HeaderStartsAt(blkdat.src.data, marker, h.at)
    ensures h.Accepted? ==>
      && old(blkdat.nReadPos) <= h.at && blkdat.nReadPos == h.at + 8
      && blkdat.maxReadPos == Max(old(blkdat.maxReadPos), h.at + 8)
      && HeaderAt(blkdat.src.data, marker, h.at, h.size)
    // the search stops at the first byte equal to the marker's first byte
    ensures !h.Exhausted? ==>
      && h.at < |blkdat.src.data| && blkdat.src.data[h.at] == marker[0]
      && forall i :: old(blkdat.nReadPos) <= i < h.at ==> blkdat.src.data[i] != marker[0]
  {
    var _ := blkdat.SetLimit();
    var hit := blkdat.FindByte(marker[0]);
    if hit.Fail? {
      return Exhausted;
    }
    var at := blkdat.GetPos();
    h := ReadHeader(blkdat, marker, at);
  }

  /** The header read at `at`, where the marker's first byte was found: the full
      marker, then the size field, then the size's range check. */
  method ReadHeader(blkdat: BufferedFile, marker: seq<byte>, at: nat) returns (h: Header)
    requires blkdat.Valid() && |marker| == MESSAGE_START_SIZE
    requires blkdat.nReadLimit == NO_LIMIT && blkdat.nReadPos == at < blkdat.nSrcPos
    modifies blkdat, blkdat.src, blkdat.vchBuf
    ensures blkdat.Valid() && blkdat.nSrcPos >= old(blkdat.nSrcPos)
    ensures h.Exhausted? ==>
      blkdat.src.eof && blkdat.src.pos == |blkdat.src.data| && |blkdat.src.data| < at + 8
    ensures h.Rejected? ==>
      && h.at == at && blkdat.nReadPos <= at + 8
      && blkdat.maxReadPos <= Max(old(blkdat.maxReadPos), at + 8)
      && !HeaderStartsAt(blkdat.src.data, marker, at)
    ensures h.Accepted? ==>
      && h.at == at && blkdat.nReadPos == at + 8
      && blkdat.maxReadPos == Max(old(blkdat.maxReadPos), at + 8)
      && HeaderAt(blkdat.src.data, marker, at, h.size)
  {
    var start := blkdat.Read(MESSAGE_START_SIZE);
    if start.Failure? {
      return Exhausted;
    }
    if start.value != marker {
      return Rejected(at);
    }
    var sizeBytes := blkdat.Read(4);
    if sizeBytes.Failure? {
      return Exhausted;
    }
    var nSize := LittleEndian(sizeBytes.value);
    if nSize < MIN_BLOCK_SIZE || nSize > MAX_BLOCK_SERIALIZED_SIZE {
      return Rejected(at);
    }
    return Accepted(at, nSize);
  }

  /** The block read of one scanning pass, after an acceptable header at `at`:
      a block of shape `schema` from the read position, with reading limited to
      the `size` bytes the header claims. */
  method ReadBlock(blkdat: BufferedFile, marker: seq<byte>, schema: Field, at: nat, size: nat) returns (r: Result<Found>)
    requires blkdat.Valid() && blkdat.nReadPos == at + 8
    requires HeaderAt(blkdat.src.data, marker, at, size)
    modifies blkdat, blkdat.src, blkdat.vchBuf
    ensures blkdat.Valid() && blkdat.nSrcPos >= old(blkdat.nSrcPos)
    ensures blkdat.maxReadPos <= Max(old(blkdat.maxReadPos), at + 8 + size)
    ensures r.Success? ==>
      && r.value.start == at + 8 && r.value.start <= r.value.end == blkdat.nReadPos <= blkdat.nSrcPos
      && IsBlockAt(blkdat.src.data, marker, schema, r.value)
    ensures r.Failure? ==> !RecordAt(blkdat.src.data, marker, schema, at)
    // a failed block leaves the reader no further than the claimed size allows
    ensures r.Failure? ==> blkdat.nReadPos <= at + 8 + size
  {
    var nBlockPos := blkdat.GetPos();
    var _ := blkdat.SetLimit(nBlockPos + size);
    var _ := blkdat.SetPos(nBlockPos);
    var block := blkdat.Unserialize(schema);
    if block.Failure? {
      return Failure(block.error);
    }
    var end := blkdat.GetPos();
    return Success(Found(nBlockPos, size, end, block.value));
  }

  /** How one scanning pass ended: with the file exhausted, with the next pass
      to start at `from`, or with block `b` read, the next pass starting at its end. */
  datatype Pass = Stop | Resume(from: nat) | Accept(b: Found)

  /** One pass of `ParseBlockFile`'s loop: rewind to `nRewind`, search for a
      header, and read the block it announces. */
  method ScanPass(blkdat: BufferedFile, marker: seq<byte>, schema: Field, nRewind: nat) returns (p: Pass)
    requires blkdat.Valid() && |marker| == MESSAGE_START_SIZE && blkdat.nRewind == SCAN_REWIND
    requires nRewind <= blkdat.nSrcPos && blkdat.maxReadPos < nRewind + SCAN_REWIND
    modifies blkdat, blkdat.src, blkdat.vchBuf
    ensures blkdat.Valid()
    ensures p.Stop? ==>
      && blkdat.src.eof && blkdat.src.pos == |blkdat.src.data|
      && forall i :: nRewind <= i && i + 8 <= |blkdat.src.data| ==> blkdat.src.data[i] != marker[0]
    ensures p.Resume? ==>
      nRewind < p.from <= blkdat.nSrcPos && blkdat.maxReadPos < p.from + SCAN_REWIND
    ensures p.Accept? ==>
      && nRewind + 8 <= p.b.start <= p.b.end == blkdat.nReadPos <= blkdat.nSrcPos
      && blkdat.maxReadPos < p.b.end + SCAN_REWIND
      && IsBlockAt(blkdat.src.data, marker, schema, p.b)
    // a pass resumes just past the first candidate marker byte after `nRewind`,
    // and a block is accepted only at the first one
    ensures p.Resume? ==>
      && blkdat.src.data[p.from - 1] == marker[0]
      && !RecordAt(blkdat.src.data, marker, schema, p.from - 1)
      && forall i :: nRewind <= i < p.from - 1 ==> blkdat.src.data[i] != marker[0]
    ensures p.Accept? ==>
      forall i :: nRewind <= i < p.b.start - 8 ==> blkdat.src.data[i] != marker[0]
    // a pass that resumes with the whole file read either left no room for
    // another header, or gave up on a block that reaches the end of the file
    ensures p.Resume? && blkdat.nReadPos == |blkdat.src.data| ==> ScanEnded(blkdat.src.data, marker, schema, p.from)
  {
    // the buffer still holds every byte from nRewind on
    // the source's `nRewind++` before the search is not needed here: every
    // pass that does not stop returns its own resume point
    var rewound := blkdat.SetPos(nRewind);
    assert rewound;
    var header := FindHeader(blkdat, marker);
    if header.Exhausted? {
      return Stop;
    }
    if header.Rejected? {
      NoHeaderNoRecord(blkdat.src.data, marker, schema, header.at);
      assert blkdat.nReadPos <= header.at + 8;
      return Resume(header.at + 1);
    }
    var block := ReadBlock(blkdat, marker, schema, header.at, header.size);
    if block.Failure? {
      assert blkdat.nReadPos == |blkdat.src.data| ==> OverrunsFile(blkdat.src.data, marker, header.at);
      return Resume(header.at + 1);
    }
    return Accept(block.value);
  }

  /** Where a scan that has read the whole file may end: with no room left for
      another record header, or just past the marker byte of a candidate that
      is no record and whose claimed block overruns the file. */
  predicate ScanEnded(data: seq<byte>, marker: seq<byte>, schema: Field, bound: nat) {
    || |data| <= bound + 7
    || (0 < bound && OverrunsFile(data, marker, bound - 1) && !RecordAt(data, marker, schema, bound - 1))
  }

  /** A pass that resumes at `from` keeps the scanner's record and its coverage. */
  lemma ResumeKeeps(data: seq<byte>, marker: seq<byte>, schema: Field, found: seq<Found>, bound: nat, from: nat)
    requires |marker| == MESSAGE_START_SIZE && bound < from
    requires Scanned(data, marker, schema, found, bound) && Covers(data, marker, schema, found, bound)
    requires forall i :: bound <= i < from - 1 && i < |data| ==> data[i] != marker[0]
    requires !RecordAt(data, marker, schema, from - 1)
    ensures Scanned(data, marker, schema, found, from) && Covers(data, marker, schema, found, from)
  {
    ScannedWider(data, marker, schema, found, bound, from);
    CoversResume(data, marker, schema, found, bound, from);
  }

  /** A pass that accepts block `b` extends the scanner's record and its coverage
      to the block's end. */
  lemma AcceptKeeps(data: seq<byte>, marker: seq<byte>, schema: Field, found: seq<Found>, bound: nat, b: Found)
    requires |marker| == MESSAGE_START_SIZE
    requires Scanned(data, marker, schema, found, bound) && Covers(data, marker, schema, found, bound)
    requires IsBlockAt(data, marker, schema, b) && bound + 8 <= b.start <= b.end
    requires forall i :: bound <= i < b.start - 8 && i < |data| ==> data[i] != marker[0]
    ensures Scanned(data, marker, schema, found + [b], b.end) && Covers(data, marker, schema, found + [b], b.end)
  {
    ScannedAppend(data, marker, schema, found, bound, b);
    CoversAccept(data, marker, schema, found, bound, b);
  }

  /** `ParseBlockFile`: every block it hands on is a genuine block record of the
      file, in file order, and the scan only ends once the whole file has been
      read. Every block record that starts before `scanned` lies in a block it
      handed on. `scanned` is the end of the file, unless the last candidate
      had an acceptable header whose claimed size reaches the end of the file,
      and no block decoded there: the reader then ran to the end while decoding
      it, the loop's end-of-file test stopped the scan, and `scanned` is just
      past that candidate's marker byte. The marker is `net`'s; `schema` is the shape of a block. */
  method ParseBlockFile(f: CFile, net: Network, schema: Field) returns (found: seq<Found>, ghost scanned: nat)
    requires f.Valid() && f.pos == 0
    modifies f
    ensures f.eof && f.pos == |f.data|
    ensures forall j :: 0 <= j < |found| ==> IsBlockAt(f.data, MessageStart(net), schema, found[j])
    ensures InFileOrder(found)
    ensures Covers(f.data, MessageStart(net), schema, found, scanned)
    ensures || scanned == |f.data|
            || (&& 0 < scanned && OverrunsFile(f.data, MessageStart(net), scanned - 1)
                && !RecordAt(f.data, MessageStart(net), schema, scanned - 1))
    ensures scanned <= |f.data| < scanned + SCAN_REWIND
  {
    var marker := MessageStart(net);
    var blkdat := new BufferedFile(f, SCAN_BUFFER_SIZE, SCAN_REWIND);
    var nRewind := blkdat.GetPos();
    found := [];
    while !blkdat.Eof()
      invariant blkdat.Valid() && fresh(blkdat) && fresh(blkdat.vchBuf) && blkdat.src == f
      invariant blkdat.nRewind == SCAN_REWIND
      invariant nRewind <= blkdat.nSrcPos && blkdat.maxReadPos < nRewind + SCAN_REWIND
      invariant Scanned(f.data, marker, schema, found, nRewind)
      invariant Covers(f.data, marker, schema, found, nRewind)
      invariant blkdat.Eof() ==> ScanEnded(f.data, marker, schema, nRewind)
      decreases |f.data| - nRewind
    {
      var pass := ScanPass(blkdat, marker, schema, nRewind);
      match pass
      case Stop =>
        CoversStop(f.data, marker, schema, found, nRewind);
        return found, |f.data|;
      case Resume(from) =>
        ResumeKeeps(f.data, marker, schema, found, nRewind, from);
        nRewind := from;
      case Accept(b) =>
        AcceptKeeps(f.data, marker, schema, found, nRewind, b);
        found := found + [b];
        nRewind := b.end;
    }
    if 0 < nRewind && OverrunsFile(f.data, marker, nRewind - 1) && !RecordAt(f.data, marker, schema, nRewind - 1) {
      scanned := nRewind;
    } else {
      // no header fits after nRewind
      CoversStop(f.data, marker, schema, found, nRewind);
      scanned := |f.data|;
    }
  }

  /** A file holding exactly one mainnet block record: the marker, a size of 80,
      and an 80-byte block. */
  function OneRecordFile(): (data: seq<byte>)
    ensures |data| == 88
  {
    MessageStart(Mainnet) + [80, 0, 0, 0] + seq(80, _ => 0)
  }

  /** The marker's first byte occurs in that file only where the record starts. */
  lemma MarkerOnlyAtStart(k: nat)
    requires 0 < k < |OneRecordFile()|
    ensures OneRecordFile()[k] != MessageStart(Mainnet)[0]
  {
    var tail: seq<byte> := [80, 0, 0, 0] + seq(80, _ => 0);
    assert OneRecordFile() == MessageStart(Mainnet) + tail;
    if k >= 4 {
      assert OneRecordFile()[k] == tail[k - 4];
    }
  }

  /** What `ParseBlockFile` promises leaves it no way out on a file holding one
      record: the scan ends at the end of the file, and the record's block is
      among those returned. */
  lemma OneRecordFileYieldsBlock(found: seq<Found>, scanned: nat)
    requires
      var data, m := OneRecordFile(), MessageStart(Mainnet);
      && (|| scanned == |data|
          || (0 < scanned && OverrunsFile(data, m, scanned - 1) && !RecordAt(data, m, Blob(80), scanned - 1)))
      && Covers(data, m, Blob(80), found, scanned)
    ensures scanned == |OneRecordFile()| && |found| > 0
  {
    var data, m := OneRecordFile(), MessageStart(Mainnet);
    assert data[0..4] == m && data[4..8] == [80, 0, 0, 0];
    var size: seq<byte> := [80, 0, 0, 0];
    assert size[1..] == [0, 0, 0] && size[1..][1..] == [0, 0] && size[1..][1..][1..] == [0];
    assert [0 as byte][1..] == [];
    assert LittleEndian(size) == 80;
    assert RecordAt(data, m, Blob(80), 0);
    if scanned != |data| {
      // only the candidate at 0 has an acceptable header, and it is a record
      var k := scanned - 1;
      if k > 0 {
        MarkerOnlyAtStart(k);
      }
      assert false;
    }
    assert Inside(found, 0);
  }
}
