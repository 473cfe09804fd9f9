# Bitxtractor-Go block-file reader, modelled in Dafny

Bitxtractor-Go reads a Bitcoin Core block file (`blk*.dat`). Bitcoin Core may
store these files masked with an 8-byte key. The program unmasks the file as
it reads it, through `xorReader`, which XORs the byte at absolute offset `o`
with `key[o & 7]`. It then walks the records of the unmasked stream. Each
record is:

- the 4-byte little-endian mainnet magic `0xD9B4BEF9`;
- a 4-byte little-endian payload length;
- that many payload bytes, which are handed to the block decoder.

An end of file exactly where a magic should start ends the walk normally.
Every other shortfall or mismatch is fatal.

The project has five modules:

- `Bytes` (`bytes.dfy`):
  - bytes as integers in [0, 256);
  - Go's `^` on bytes (`Xor`, main.go:31), defined bit by bit;
  - the little-endian 32-bit reading done by `binary.Read` (`LE32`) and its inverse (`LE32Bytes`).
- `Deobfuscation` (`deobfuscation.dfy`):
  - the 8-byte `Key` and the all-zero default key;
  - the unmasked stream `Deobf` as a function of the absolute start offset;
  - the `XorReader` class, whose constructor builds the reader of main.go:73 with `pos` at zero, and whose `Read` does what `xorReader.Read` does, including the 64-bit wrap of `pos`;
  - `ReadInChunks`, which feeds a stream through one reader in chunks of any sizes.
- `Framing` (`framing.dfy`):
  - one pass of the `for` loop (`NextFrame`);
  - the whole loop (`ReadFrames`), giving a `Scan` of the payloads delivered and a `Stop` that says why the loop ended:
    - `Eof` is the normal end;
    - `BadMagic(m)`, `ShortLength` and `ShortPayload` are the three fatal errors;
  - the loop as an iterative method (`ScanFrames`);
  - the storage side (`EncodeFrame`, `EncodeFrames`) that the round trips are stated against.
- `Offsets` (`offsets.dfy`): the offset in the unmasked stream at which the record loop stops (`StopOffset`).
- `BlockFile` (`block_file.dfy`):
  - the composition of the file, the `xorReader` and the record loop (`ReadBlockFile`, main.go:73-94);
  - the offset that the bad-magic message reports.

The wrapped reader's `Read` is a call into code outside the model. Its
effect enters `XorReader.Read` as parameters: the contents of `p` on entry,
the count `n` and the status `err`. When several payloads come before a
fatal error, the model keeps them in the `Scan`. The source has already
decoded and printed them by the time `log.Fatal` ends the process.

## Model

| member | source | states |
|---|---|---|
| Bytes.XorInvolutive | main.go:31 | XOR with the same key byte twice restores the byte, so masking and unmasking are the same operation |
| Bytes.XorZero | main.go:31 | XOR with a zero key byte leaves the byte unchanged |
| Bytes.LE32OfLE32Bytes | main.go:79 | reading back the four little-endian bytes of any 32-bit value gives the value |
| Bytes.LE32BytesOfLE32 | main.go:79 | any four bytes are the little-endian encoding of the value they read as; together with the previous row, the reading is a bijection between 4-byte groups and 32-bit values |
| Bytes.LE32 | main.go:79 | the value assembled from four bytes, least significant first, is below 2^32: it fits the `uint32` that `binary.Read` fills |
| Framing.MagicMatch | main.go:79-82 | a 4-byte group reads as the mainnet magic 0xD9B4BEF9 (main.go line 19) exactly when it is the bytes F9 BE B4 D9 |
| Deobfuscation.Deobf | main.go:30-31 | unmasking yields exactly one byte per input byte; what each byte is, is stated by `Deobfuscation.DeobfAt` |
| Deobfuscation.DeobfAt | main.go:30-31 | each output byte is its input byte XOR the key byte chosen by its absolute offset modulo 8 |
| Deobfuscation.DeobfSplit | main.go:28-35 | unmasking two adjacent pieces, the second starting at the offset where the first ends, gives the unmasked concatenation |
| Deobfuscation.DeobfCongruent | main.go:31 | only the offset modulo 8 selects the key byte |
| Deobfuscation.DeobfInvolutive | main.go:31 | unmasking twice from the same offset restores the stream |
| Deobfuscation.DeobfZeroKey | main.go:31-38 | the all-zero default key leaves every stream unchanged |
| Deobfuscation.ModTwo64Mod8 | main.go:31 | the key index of the wrapped 64-bit sum `pos + i` equals `(pos + i) mod 8`, because 8 divides 2^64 |
| Deobfuscation.XorReader.Read | main.go:28-35 | the call returns the wrapped reader's count and error unchanged. The first `n` bytes of `p` are unmasked by their absolute offsets, the rest of `p` is untouched, and `pos` advances by `n` modulo 2^64 |
| Deobfuscation.ChunkStep | main.go:28-35 | one more chunk read through the reader extends the unmasked output exactly as unmasking the longer prefix would |
| Deobfuscation.ReadInChunks | main.go:22-35 | one reader fed a stream in chunks of any sizes returns the whole stream unmasked from offset 0, whatever the chunking |
| Framing.NextFrame | main.go:86-94 | a pass that delivers a payload has consumed exactly one stored record: magic, little-endian length, then the payload |
| Framing.NextFrameOfEncodeFrame | main.go:78-94 | a stored record is read back by one pass as exactly its payload, and the next pass starts right after its `8 + length` bytes |
| Framing.NextFrameCases | main.go:78-93 | how one pass ends, with each case in both directions. It ends normally exactly when no byte is left. It rejects the magic exactly when some byte is left but the first four are not F9 BE B4 D9; fewer than four bytes leave the magic 0, and the rejected value is never the mainnet magic. After a good magic it fails on a short length field, or on fewer payload bytes than announced, or else delivers a payload |
| Framing.BadMagicAt | main.go:78-83 | a rejected magic is the value of the four bytes at the offset where the pass started, or 0 when fewer than four remain |
| Framing.ReadFrames | main.go:77-94 | every payload the loop delivers has a length that fits the 32-bit length field; which payloads and which stop are stated by `Framing.ReadFramesStops` and `Framing.ReadFramesOfEncoded` |
| Framing.ReadFramesStops | main.go:77-94 | the payloads delivered are stored records making up a prefix of the stream. The loop stops where, and for the reason, one pass over what follows them stops. It ends normally exactly when the stream is nothing but records |
| Framing.ReadFramesAfterFrames | main.go:77-94 | records in front of any stream are delivered in order ahead of what that stream yields, and the loop then stops as it would on that stream alone |
| Framing.ReadFramesOfEncoded | main.go:77-94 | N well-formed records and nothing after them yield exactly those N payloads, in order, and a normal end |
| Framing.BadMagicHaltsFirst | main.go:79-84 | a stream whose first four bytes are not the magic halts with that value and no payload. Nothing after those four bytes is read: the outcome is the same whatever follows |
| Framing.TruncatedRecord | main.go:78-93 | after N whole records, a record cut short anywhere yields the N payloads and nothing from the cut record. A cut inside the magic is a zero magic, a cut inside the length is a short length, and a cut inside the payload is a short payload |
| Framing.ScanFrames | main.go:77-94 | the iterative loop gives what `ReadFrames` gives. It stops at an offset `at` that follows exactly the delivered records. On a wrong magic, `at` lies inside the stream and the value reported is read at `at`. `at` is the model's own offset, not the number main.go:83 prints |
| Offsets.StopOffsetStops | main.go:77-94 | the offset at which the loop stops lies within the stream, the bytes before it are exactly the records delivered, and one pass from there halts for the loop's reason |
| BlockFile.ReadBlockFileChunked | main.go:73-94 | the file read in chunks of any sizes through one `xorReader`, then scanned, gives the records of the whole unmasked file. The offset at which it stops is `StopOffset` of the unmasked file: it follows exactly the records delivered and, on a wrong magic, lies inside the file |
| BlockFile.MaskedRecordsRoundTrip | main.go:73-94 | records stored masked with any key are read back exactly, in order, with a normal end |
| BlockFile.UnmaskedFile | main.go:38 | without a key file the stored bytes are framed as they are |
| BlockFile.SecondRecordBadMagic | main.go:77-87 | a good record followed by a wrong magic delivers the first payload, then halts with the wrong value at offset `8 + length` of the unmasked stream, where the second record starts |
| BlockFile.ReportedOffset | main.go:83 | the offset the bad-magic message prints is the reader's count less four in `uint64` arithmetic, which wraps below zero |
| BlockFile.ShortFileOffsetWraps | main.go:79-83 | a block file of one to three bytes halts with a zero magic, and the offset printed for it lies within four of 2^64, past the end of the file |

## Left out

- Block decoding (`wire.MsgBlock.Deserialize`), block and transaction hashes, and the per-block printout of main.go:95-132 are left out. They belong to an external library and to console output. A payload that fails to decode is fatal in the program; the model stops at delivering the payload, so its `Eof` means the framing was sound.
- Loading the key file (main.go:40-65) is left out. It is file-system I/O and log output. The key is a parameter, and `ZeroKey` is the default when no key file is used.
- Opening the block file (main.go:67-71) is left out. A failure there returns before any record is read.
- The two `bufio.Reader` layers are left out. They pass bytes through unchanged, so the record loop is modelled over the plain unmasked byte sequence.
- The offset at which the reader's running count stands when a message is printed depends on how far `bufio` has read ahead. That read-ahead is not modelled, so `ReportedOffset` takes the count as a parameter.
- The stop offset `at` of `Framing.ScanFrames` and `BlockFile.ReadBlockFileChunked` (`Offsets.StopOffset`) is the model's own choice: the start, in the unmasked stream, of the record that failed. It is not the number the bad-magic message of main.go:83 prints, for files of any length. That number is taken from the reader's running count, which includes the bytes `bufio` has read ahead; for a file smaller than the buffer it is typically the file length less four.
- An I/O error other than end of file while reading the magic would also leave the magic 0 and be reported as a wrong magic. I/O errors are not modelled; streams are finite byte sequences.
- `log.Fatal` and `log.Fatalf` are modelled as the `Stop` values that end the scan, not as process exit. The messages' text is not modelled.
- `Deobfuscation.XorReader.Read`: its contract speaks about the array `p` and the field `pos` through `old`. The pure statement of the same behaviour is `Deobfuscation.DeobfAt` together with `Deobfuscation.ReadInChunks`.

## Findings

| source | as written | input that shows it | evidently intended | confidence | as-written member | corrected member |
|---|---|---|---|---|---|---|
| main.go:83 | the bad-magic message reports `xr.pos-4`, where `xr.pos` is a `uint64` count of bytes delivered by the reader | a block file holding the single byte 0x01: the magic is read short, stays 0 and is rejected, while `xr.pos` is 1, so the offset printed is 2^64 - 3 | the offset of the rejected magic, which is 0 here and always lies inside the file | not executed; the wrap follows from `uint64` subtraction | BlockFile.ShortFileOffsetWraps | Framing.ScanFrames |
