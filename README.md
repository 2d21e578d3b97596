# Block-file scanner of the address parser

This project models the part of the address parser that reads a Bitcoin node's
raw block files (`blkNNNNN.dat`) and proves properties of that model.

The block files are a stream of records. Each record is the network's four-byte
message-start marker, then a little-endian 32-bit size, then a serialized block.
Between records, or instead of them, the file may hold garbage. The scanner
reads the file through a ring-buffered reader (`buffered_file_t`) that can
rewind a bounded distance. It searches for the marker's first byte, checks the
marker and the size, and decodes a block within the size the header claims.
When any of these steps fails, it starts again one byte after the last
candidate.

Modules:

- `Bytes`: the octet type shared by the other modules.
- `ChainParams`: the three networks, their markers (`message_start()`), the
  default network, and `MAX_BLOCK_SERIALIZED_SIZE`.
- `BlockPath`: `compose_block_file_path`, the zero-padded `blk%05u.dat` name
  placed in the block directory.
- `Serialize`: the reader's decoding as pure functions over a `Cursor`. A
  cursor holds the file's bytes, the read position and the read limit. The
  functions cover:
  - fixed-width little-endian integers;
  - the compact-size length prefix, bounded by `MAX_SIZE`;
  - vectors and records of a block shape.
  Beside each decoder is an encoder, and lemmas prove that decoding an encoding
  gives back the value.
- `BufferedFiles`: the C file the reader pulls from (`CFile`, with `fread` and
  `feof`) and the reader itself (`BufferedFile`). The reader is a class over an
  `array` ring buffer with the source's fields: `nSrcPos`, `nReadPos`,
  `nReadLimit`, `nRewind` and `vchBuf`. Each reading method is proved to agree
  with the matching `Serialize` function. Each one also keeps the ring
  invariant: the last `vchBuf.Length` bytes pulled from the file sit in the
  ring at their offset modulo its length.
- `BlockScanner`: `ParseBlockFile` and its phases. Every block it returns is a
  genuine record of the file, and the blocks come in file order. Every record
  that starts before the point where the scan ended lies inside a returned
  block.

## Model

| member | source | states |
|---|---|---|
| ChainParams.MessageStart | btc_utils/chainparams.cpp:17-33 | each network's marker is four bytes; the mainnet and regtest markers use only bytes of 0x80 and above |
| ChainParams.MessageStartIdentifiesNetwork | btc_utils/chainparams.cpp:17-19 | two networks share a marker, and even the marker's first byte (the one the scanner searches for), only when they are the same network |
| BlockPath.ComposeBlockFilePath | addr_parser/main.cpp:31-39 | with an empty directory the path is the file name alone; otherwise it is the directory, then a `/` exactly when the directory does not already end in one, then the file name |
| BlockPath.BlockFileIndexOfPath | addr_parser/main.cpp:31-39 | the last component of a composed path is the block file's name, and the index read back from it is the index the path was made from |
| BlockPath.BlockFileIndexOfName | addr_parser/main.cpp:33 | the `%05u` name `blk<digits>.dat` carries its index: reading the digits back gives the index |
| BlockPath.BlockFileNameInjective | addr_parser/main.cpp:33 | two block files have the same name if and only if they have the same index |
| BlockPath.PaddedValue | addr_parser/main.cpp:33 | zero-padding to five digits keeps the number the digits denote |
| BlockPath.PaddedWidth | addr_parser/main.cpp:33 | the `%05u` digits are exactly five characters long if and only if the index is below 100000; `Padded` itself states that a longer result is the unpadded decimal |
| BufferedFiles.CFile.Read | addr_parser/main.cpp:66 | `fread` returns the next bytes of the file, at most as many as asked, at least one unless the file is at its end; the end-of-file flag is set when a short read reaches the end |
| BufferedFiles.BufferedFile.constructor | addr_parser/main.cpp:76-82 | a new reader stands at offset 0 with no limit, its ring sized as asked, and the ring invariant holding |
| BufferedFiles.BufferedFile.Open | addr_parser/main.cpp:76-82 | the reader is refused, with an error, exactly when the rewind guarantee is not below the buffer size |
| BufferedFiles.BufferedFile.Fill | addr_parser/main.cpp:59-73 | a fill succeeds exactly when the file has bytes left and then pulls at least one more byte into the ring; at the end it fails with end-of-file; the read position and the limit are unchanged, and the ring invariant is kept |
| BufferedFiles.BufferedFile.Read | addr_parser/main.cpp:107-124 | reading `n` bytes agrees with `Serialize.ReadBytes`: the same bytes and new position, or the same error (limit exceeded, leaving the reader where it was; or end of file) |
| BufferedFiles.BufferedFile.ReadLe | addr_parser/main.cpp:126-152 | `readdata8/32/64` agree with little-endian decoding of 1, 4 or 8 bytes; on any outcome the read position stays within the limit, and a read that ran out of data leaves the whole file pulled and read |
| BufferedFiles.BufferedFile.ReadCompactInt | addr_parser/main.cpp:154-183 | `read_compact_int` agrees with `Serialize.CompactSize`, including its error for non-minimal encodings and for values above `MAX_SIZE`; there is no rollback on failure: the position only grows and stays within the limit, and an end-of-file failure leaves the whole file pulled and read |
| BufferedFiles.BufferedFile.Unserialize | addr_parser/main.cpp:185-231 | unserializing a field of any shape agrees with `Serialize.Decode`; there is no rollback on failure: the position only grows, stays within the limit, and after an end-of-file failure stands at the end of the file |
| BufferedFiles.BufferedFile.UnserializeVector | addr_parser/main.cpp:200-226 | a vector, a compact-size count and then that many elements, agrees with `Serialize.Decode`; the reader after a failure is as for `Unserialize` |
| BufferedFiles.BufferedFile.UnserializeItems | addr_parser/main.cpp:206-207 | the element loop agrees with `Serialize.DecodeItems` for the given count; the reader after a failed element is as for `Unserialize` |
| BufferedFiles.BufferedFile.UnserializeRecord | addr_parser/main.cpp:276-281 | a record's fields, read in order, agree with `Serialize.Decode`; the reader after a failed field is as for `Unserialize` |
| BufferedFiles.BufferedFile.Eof | addr_parser/main.cpp:102-104 | at `eof()` every byte of the file has been pulled and read |
| BufferedFiles.BufferedFile.GetPos | addr_parser/main.cpp:234-236 | the read position lies in the ring's window, behind the source position by at most the buffer size |
| BufferedFiles.BufferedFile.SetPos | addr_parser/main.cpp:239-253 | succeeds exactly when the target is within the buffered window; otherwise it clamps to the nearest end of the window; a target no further back than the rewind guarantee from the furthest position read always succeeds |
| BufferedFiles.BufferedFile.SetLimit | addr_parser/main.cpp:269-274 | succeeds exactly when the limit is not behind the read position, and only then changes the limit |
| BufferedFiles.BufferedFile.FindByte | addr_parser/main.cpp:284-292 | stops on the first occurrence of the byte at or after the read position, having skipped only other bytes; fails with end-of-file, having read the whole file, when there is none |
| Serialize.CompactSizeOfEncoding | addr_parser/main.cpp:154-183 | the minimal compact-size encoding of a 64-bit value decodes to that value when it is at most `MAX_SIZE`, and is refused as too large otherwise |
| Serialize.CompactSizeIsMinimal | addr_parser/main.cpp:164-176 | every value that decodes is the minimal encoding of that value, so the encoding is unique |
| Serialize.CompactSizeRejectsTag255 | addr_parser/main.cpp:172-180 | the nine-byte form, tag 255, never decodes, because any value it can carry passes the size check only when it is non-minimal |
| Serialize.LittleEndianOfEncoding | addr_parser/main.cpp:126-152 | a value below 256^k written as k little-endian bytes reads back as itself |
| Serialize.EncodingOfLittleEndian | addr_parser/main.cpp:126-152 | k bytes are the little-endian encoding of the value they denote |
| Serialize.DecodeOfEncode | addr_parser/main.cpp:185-231 | any value that fits its field shape, encoded where the limit allows, decodes back to the value, with the cursor just past the encoding |
| Serialize.DecodeVectorOfEncode | addr_parser/main.cpp:200-226 | a count prefix and encoded elements decode back to the vector |
| Serialize.DecodeItemsOfEncode | addr_parser/main.cpp:206-207 | encoded elements, one after another, decode back to the sequence of elements |
| Serialize.DecodeFieldsOfEncode | addr_parser/main.cpp:276-281 | a record's encoded fields decode back to the record |
| Serialize.VectorLengthIsCount | addr_parser/main.cpp:200-207 | a decoded vector has exactly as many elements as its count prefix said |
| Serialize.DecodeItemsOfChain | addr_parser/main.cpp:206-207 | when each element decodes right after the previous one, the whole sequence decodes to them |
| Serialize.DecodeItemsOfBrokenChain | addr_parser/main.cpp:206-207 | when one element fails, the whole sequence fails with that element's error |
| BlockScanner.BlockIsRecord | addr_parser/main.cpp:308-327 | every accepted block begins a complete record: marker, acceptable size, and a block that decodes within that size |
| BlockScanner.RecordOpensWithMarker | addr_parser/main.cpp:310-314 | a record starts on the marker's first byte, the byte the scanner searches for |
| BlockScanner.NoHeaderNoRecord | addr_parser/main.cpp:313-320 | where the marker or the size check fails, no record starts |
| BlockScanner.CoversResume | addr_parser/main.cpp:301-321 | resuming one byte past a rejected candidate loses no record |
| BlockScanner.CoversAccept | addr_parser/main.cpp:322-330 | accepting a block and resuming at its end loses no record |
| BlockScanner.CoversStop | addr_parser/main.cpp:317-321 | stopping when no marker byte is left with room for a header loses no record |
| BlockScanner.FindHeader | addr_parser/main.cpp:308-321 | the search stops at the first marker byte at or after the read position; the header there is accepted exactly when it is a record header, and the search runs out only when no header fits after that position |
| BlockScanner.ReadHeader | addr_parser/main.cpp:310-319 | reads the marker and the size at a candidate; accepts exactly an acceptable record header |
| BlockScanner.ReadBlock | addr_parser/main.cpp:322-347 | under the limit of the claimed size, the block decoded is a record of the file and the reader stands at its end; a failure means no record starts at that header, and leaves the reader no further than the claimed size |
| BlockScanner.ScanPass | addr_parser/main.cpp:301-347 | one pass from the resume point either stops with no marker byte left, or resumes just past a candidate that starts no record, or accepts the first record after the resume point; the furthest position read stays within one rewind distance of the next resume point; a resumed pass that read the whole file either left no room for another header or gave up on a block that overruns the file |
| BlockScanner.ParseBlockFile | addr_parser/main.cpp:295-352 | reads the file to its end; every block returned is a record of the file, in file order; every record starting before the point where the scan ended lies in a returned block; that point is the end of the file, unless the last candidate had an acceptable header whose claimed size reaches the end of the file, and then it is just past that candidate's marker byte |
| BlockScanner.OneRecordFileYieldsBlock | addr_parser/main.cpp:301-329 | on a file holding one 80-byte mainnet block record, any result `ParseBlockFile` may give ends the scan at the end of the file and returns a block |

## Left out

- `buffered_file_t::Seek` (addr_parser/main.cpp:255-265), the `fclose` in the destructor, and `fseek`/`ftell` are not modelled; the scanner does not use them.
- The address output of `ParseBlockFile`, which writes each transaction output's addresses with `fwrite`, is not modelled. Neither is its logging. `block.h` and the address extraction are not part of this model.
- The block type is replaced by an abstract block shape `Serialize.Field`: bytes, 8-, 32- and 64-bit integers, fixed-size blobs such as `uint256`, vectors and records. The scanner is proved for every shape.
- The counter `nLoaded` is not modelled. The source increments it only inside a logging branch taken when it is already 1 modulo 100, and its value feeds nothing but that log line.
- `BufferedFiles.BufferedFile.Fill` is called only when every buffered byte has been read, as all its callers do. Its `false` return for a full buffer then cannot happen and is not modelled.
- `BufferedFiles.CFile.Read`: `fread` may return any count from one up to what is asked and left, so the model covers every short-read pattern. A read error away from the end of the file, which the source reports as a failure, is not modelled.
- `BufferedFiles.BufferedFile.Read`: the 64-bit wrap-around of `nReadPos + n` against the limit is not modelled. Files are shorter than 2^63 bytes, so the sum never wraps for the counts the scanner and the decoder ask for.
- The size field is read into a native `unsigned int`. The model reads it little-endian, as on the hosts the program is built for; a big-endian host is not modelled.
- The global network setting becomes a parameter of `ParseBlockFile`. `message_start()`'s throw for an unknown network cannot happen with the three-valued network type, so it is not modelled.
- The comment on the markers says they use rarely used upper-ASCII bytes. That holds for mainnet and regtest but not for the testnet marker; `ChainParams.MessageStart` states it for those two only.
- The default network is testnet, as in btc_utils/chainparams.cpp:7. The program's usage text at addr_parser/main.cpp:359 says mainnet.
- `ReadCompactInt` compares with `MAX_SIZE` = 0x02000000, as in addr_parser/main.cpp:16. It does not compare with the maximum block size.
- `SetPos` accepts any target between `nSrcPos` minus the buffer size and `nSrcPos`, as in addr_parser/main.cpp:239-253. The window is not narrowed by the rewind guarantee.
- `BlockScanner.ParseBlockFile`: the coverage guarantee stops short of the end of the file in one case only. That case is a last candidate with an acceptable header whose claimed size reaches the end of the file. Decoding that block can read up to the end of the file, and then the loop's `eof()` test (addr_parser/main.cpp:301) ends the scan. Records that start after that candidate's marker byte are not looked for. This is what the source does; the contract names the candidate, and the gap is less than one rewind distance (`MAX_BLOCK_SERIALIZED_SIZE + 8` bytes).
- `BlockScanner.ScanPass`: the source's `nRewind++` before each search (addr_parser/main.cpp:303) is not modelled. The resume point it sets matters only when the header search throws, and then the loop ends at once. Every pass in the model that does not stop returns its own resume point.
- Exceptions are modelled as `Result` failures. The `std::runtime_error` catch around the whole scan only guards the constructor, which the scanner always calls with a valid rewind guarantee.
