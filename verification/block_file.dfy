/** `readBlockFile` from the opened block file to the payloads: the file is
    read through an `XorReader` holding the key, and the unmasked stream is
    split into records. The key is a parameter; without a key file it is the
    all-zero key. */
module BlockFile {
  import opened Bytes
  import opened Deobfuscation
  import opened Framing
  import opened Offsets

  /** The records of a stored block file, unmasked with `key` from offset 0. */
  function ReadBlockFile(key: Key, file: seq<byte>): Scan
  {
    ReadFrames(Deobf(key, 0, file))
  }

  /** The pipeline as it runs: the file arrives from the operating system in
      `chunks` of any sizes, each passes through one `XorReader`, and the
      frame loop runs over what comes out. The outcome is that of the whole
      file, whatever the chunking, and `at` is the offset in the unmasked
      stream at which the loop stopped. */
  method ReadBlockFileChunked(key: Key, chunks: seq<seq<byte>>) returns (payloads: seq<seq<byte>>, stop: Stop, at: nat)
    ensures Scan(payloads, stop) == ReadBlockFile(key, Concat(chunks))
    ensures at <= |Concat(chunks)| && Deobf(key, 0, Concat(chunks))[..at] == EncodeFrames(payloads)
    ensures at == StopOffset(Deobf(key, 0, Concat(chunks)))
    ensures stop.BadMagic? ==> at < |Concat(chunks)|
  {
    var stream := ReadInChunks(key, chunks);
    payloads, stop, at := ScanFrames(stream);
  }

  /** Records stored masked with `key` are read back exactly, in order, with
      a normal end. */
  lemma MaskedRecordsRoundTrip(key: Key, ps: seq<seq<byte>>)
    requires Framable(ps)
    ensures ReadBlockFile(key, Deobf(key, 0, EncodeFrames(ps))) == Scan(ps, Eof)
  {
    DeobfInvolutive(key, 0, EncodeFrames(ps));
    ReadFramesOfEncoded(ps);
  }

  /** Without a key file the stored bytes are read as they are. */
  lemma UnmaskedFile(file: seq<byte>)
    ensures ReadBlockFile(ZeroKey, file) == ReadFrames(file)
  {
    DeobfZeroKey(0, file);
  }

  /** A masked file holding one good record followed by a record whose magic
      is wrong: the first payload is delivered, then the run halts with the
      wrong magic, at offset `8 + |p|` of the unmasked stream, where the
      second record starts. */
  lemma SecondRecordBadMagic(key: Key, p: seq<byte>, bad: seq<byte>)
    requires |p| < TWO32
    requires |bad| >= 4 && bad[..4] != MagicBytes
    ensures var file := Deobf(key, 0, EncodeFrame(p) + bad);
      && ReadBlockFile(key, file) == Scan([p], BadMagic(LE32(bad[..4])))
      && StopOffset(Deobf(key, 0, file)) == 8 + |p|
  {
    var stream := EncodeFrame(p) + bad;
    DeobfInvolutive(key, 0, stream);
    assert Framable([p]);
    assert EncodeFrames([p]) == EncodeFrame(p) by {
      assert [p][1..] == [];
    }
    ReadFramesAfterFrames([p], bad);
    BadMagicHaltsFirst(bad, []);
    assert ReadFrames(stream) == Scan([p], BadMagic(LE32(bad[..4])));
    assert StopOffset(stream) == |EncodeFrame(p)|;
  }

  /** The offset the bad-magic message reports, as written: the reader's
      running count `pos` less four, in `uint64` arithmetic. */
  function ReportedOffset(pos: nat): (offset: nat)
    requires pos < TWO64
    ensures offset < TWO64
    ensures pos >= 4 ==> offset == pos - 4
    ensures pos < 4 ==> offset == TWO64 - (4 - pos)
  {
    (pos + TWO64 - 4) % TWO64
  }

  /** A block file of one to three bytes is rejected as a zero magic. The
      reader cannot have delivered more bytes than the file holds, so the
      offset the message reports wraps round to within four of 2^64, far
      past the end of the file, instead of pointing at the record. */
  lemma ShortFileOffsetWraps(key: Key, file: seq<byte>, pos: nat)
    requires 0 < |file| < 4 && pos <= |file|
    ensures ReadBlockFile(key, file) == Scan([], BadMagic(0))
    ensures ReportedOffset(pos) >= TWO64 - 4 && ReportedOffset(pos) > |file|
  {
    var s := Deobf(key, 0, file);
    assert NextFrame(s) == Halt(BadMagic(0));
  }
}
