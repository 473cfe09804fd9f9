/** The offset in the unmasked stream at which the record loop of
    `readBlockFile` stops: the start of the record that failed, or the end of
    the stream. This is the model's own measure of where a run ended; the
    program's bad-magic message prints a number taken from the reader's
    running count instead. */
module Offsets {
  import opened Bytes
  import opened Framing

  /** The offset in the unmasked stream `s` at which the record loop stops:
      just past the records it delivered. */
  function StopOffset(s: seq<byte>): nat
  {
    |EncodeFrames(ReadFrames(s).payloads)|
  }

  /** The stop offset lies within the stream, at the start of the record that
      failed or at the end; the bytes before it are the records delivered;
      and one pass from there halts for the loop's reason. */
  lemma StopOffsetStops(s: seq<byte>)
    ensures StopOffset(s) <= |s| && s[..StopOffset(s)] == EncodeFrames(ReadFrames(s).payloads)
    ensures NextFrame(s[StopOffset(s)..]) == Halt(ReadFrames(s).stop)
  {
    ReadFramesStops(s);
    PrefixSlice(EncodeFrames(ReadFrames(s).payloads), s);
  }

  lemma PrefixSlice<T>(a: seq<T>, s: seq<T>)
    requires a <= s
    ensures s[..|a|] == a
  {
  }
}
