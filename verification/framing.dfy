/** The frame reader: the `for` loop of `readBlockFile` in main.go. The
    unmasked block file is a sequence of records, each a 4-byte little-endian
    magic that must be the mainnet identifier, a 4-byte little-endian length,
    and that many payload bytes. The loop ends normally only when no byte at
    all is left where a magic should start; every other shortfall or mismatch
    is fatal and halts the run.

    The two `bufio.Reader` layers pass bytes through unchanged, so the loop is
    modelled over the plain unmasked byte sequence. */
module Framing {
  import opened Bytes

  /** The mainnet network identifier every record starts with. */
  const MainnetMagic: nat := 0xD9B4BEF9

  /** `MainnetMagic` as it is stored, least significant byte first. */
  const MagicBytes: seq<byte> := [0xF9, 0xBE, 0xB4, 0xD9]

  /** Why the loop stopped. Only `Eof` is a normal end; the others are the
      fatal errors that end the process. */
  datatype Stop =
    | Eof                  // nothing left at a record boundary
    | BadMagic(magic: nat) // the magic read (zero if it could not be read in full)
    | ShortLength          // the length field ran past the end of the file
    | ShortPayload         // fewer payload bytes left than the length announced

  /** One pass of the loop: a payload and what follows it, or a stop. */
  datatype Step = Frame(payload: seq<byte>, rest: seq<byte>) | Halt(stop: Stop)

  /** The whole loop: the payloads handed on, in order, and why it stopped.
      Payloads delivered before a fatal stop are kept: each was already
      decoded and reported before the failing record was reached. */
  datatype Scan = Scan(payloads: seq<seq<byte>>, stop: Stop)

  lemma MagicMatch(b: seq<byte>)
    requires |b| == 4
    ensures LE32(b) == MainnetMagic <==> b == MagicBytes
  {
    assert LE32(MagicBytes) == MainnetMagic;
    if LE32(b) == MainnetMagic {
      LE32Injective(b, MagicBytes);
    }
  }

  /** One record as it is stored. */
  function EncodeFrame(payload: seq<byte>): (r: seq<byte>)
    requires |payload| < TWO32
    ensures |r| == 8 + |payload|
  {
    MagicBytes + LE32Bytes(|payload|) + payload
  }

  /** Every payload's length fits the 32-bit length field. */
  predicate Framable(ps: seq<seq<byte>>)
  {
    forall k :: 0 <= k < |ps| ==> |ps[k]| < TWO32
  }

  /** Records one after another, nothing between or after them. */
  function EncodeFrames(ps: seq<seq<byte>>): seq<byte>
    requires Framable(ps)
  {
    if |ps| == 0 then [] else EncodeFrame(ps[0]) + EncodeFrames(ps[1..])
  }

  /** One pass of the loop over what is left of the stream `s`. A magic that
      cannot be read at all is the end; a magic read short stays zero and is
      rejected like any other wrong magic; the length and the payload must
      then be there in full. A pass that yields a payload has consumed
      exactly one stored record. */
  function NextFrame(s: seq<byte>): (r: Step)
    ensures r.Frame? ==> |r.payload| < TWO32 && s == EncodeFrame(r.payload) + r.rest
  {
    if |s| == 0 then Halt(Eof)
    else if |s| < 4 then Halt(BadMagic(0))
    else
      var magic := LE32(s[..4]);
      if magic != MainnetMagic then Halt(BadMagic(magic))
      else if |s| < 8 then Halt(ShortLength)
      else
        var length := LE32(s[4..8]);
        if |s| - 8 < length then Halt(ShortPayload)
        else
          MagicMatch(s[..4]);
          LE32BytesOfLE32(s[4..8]);
          assert s == s[..4] + s[4..8] + s[8..8 + length] + s[8 + length..];
          Frame(s[8..8 + length], s[8 + length..])
  }

  /** How a pass ends, stated on the stored bytes: it ends normally exactly
      on an empty rest; it rejects the magic exactly when some byte is left
      but the first four are not the mainnet magic; and with a good magic, it
      fails on a short length field, fails on a short payload, or delivers a
      payload. */
  lemma NextFrameCases(s: seq<byte>)
    ensures NextFrame(s) == Halt(Eof) <==> |s| == 0
    ensures (NextFrame(s).Halt? && NextFrame(s).stop.BadMagic?) <==> 0 < |s| && (|s| < 4 || s[..4] != MagicBytes)
    ensures NextFrame(s).Halt? && NextFrame(s).stop.BadMagic? ==> NextFrame(s).stop.magic != MainnetMagic
    ensures NextFrame(s) == Halt(ShortLength) <==> 4 <= |s| < 8 && s[..4] == MagicBytes
    ensures NextFrame(s) == Halt(ShortPayload) <==> 8 <= |s| && s[..4] == MagicBytes && |s| - 8 < LE32(s[4..8])
    ensures NextFrame(s).Frame? <==> 8 <= |s| && s[..4] == MagicBytes && LE32(s[4..8]) <= |s| - 8
  {
    if |s| >= 4 {
      MagicMatch(s[..4]);
    }
  }

  /** Records, one after another, in front of whatever follows them. */
  lemma EncodeFramesCons(p: seq<byte>, ps: seq<seq<byte>>)
    requires |p| < TWO32 && Framable(ps)
    ensures Framable([p] + ps)
    ensures EncodeFrames([p] + ps) == EncodeFrame(p) + EncodeFrames(ps)
  {
    assert ([p] + ps)[1..] == ps;
  }

  /** The loop, run over the whole stream `s`. */
  function ReadFrames(s: seq<byte>): (r: Scan)
    ensures Framable(r.payloads)
    decreases |s|
  {
    match NextFrame(s)
    case Halt(stop) => Scan([], stop)
    case Frame(p, rest) =>
      var tail := ReadFrames(rest);
      EncodeFramesCons(p, tail.payloads);
      Scan([p] + tail.payloads, tail.stop)
  }

  /** What the loop delivers is a prefix of `s` made of well-formed records
      only; it stops where one pass over what follows them would stop, for
      the reason that pass gives; so it ends normally exactly when `s` is
      nothing but records. */
  lemma {:induction false} ReadFramesStops(s: seq<byte>)
    ensures EncodeFrames(ReadFrames(s).payloads) <= s
    ensures NextFrame(s[|EncodeFrames(ReadFrames(s).payloads)|..]) == Halt(ReadFrames(s).stop)
    ensures ReadFrames(s).stop == Eof <==> s == EncodeFrames(ReadFrames(s).payloads)
    decreases |s|
  {
    match NextFrame(s)
    case Halt(stop) =>
      NextFrameCases(s);
    case Frame(p, rest) =>
      var tail := ReadFrames(rest);
      ReadFramesStops(rest);
      EncodeFramesCons(p, tail.payloads);
      assert s[|EncodeFrames([p] + tail.payloads)|..] == rest[|EncodeFrames(tail.payloads)|..];
      NextFrameCases(s[|EncodeFrames([p] + tail.payloads)|..]);
  }

  lemma ConsAppend<T>(xs: seq<T>, ys: seq<T>)
    requires |xs| > 0
    ensures [xs[0]] + (xs[1..] + ys) == xs + ys
  {
    assert xs == [xs[0]] + xs[1..];
  }

  /** A well-formed record is read back as its payload, and the pass resumes
      right after its `8 + length` bytes. */
  lemma NextFrameOfEncodeFrame(p: seq<byte>, rest: seq<byte>)
    requires |p| < TWO32
    ensures NextFrame(EncodeFrame(p) + rest) == Frame(p, rest)
  {
    var s := EncodeFrame(p) + rest;
    assert s[..4] == MagicBytes;
    assert s[4..8] == LE32Bytes(|p|);
    LE32OfLE32Bytes(|p|);
    assert s[8..8 + |p|] == p;
    assert s[8 + |p|..] == rest;
  }

  /** Records in front of a stream `t` are delivered, in order, ahead of
      whatever `t` yields, and the loop then stops as it would on `t` alone. */
  lemma {:induction false} ReadFramesAfterFrames(ps: seq<seq<byte>>, t: seq<byte>)
    requires Framable(ps)
    ensures ReadFrames(EncodeFrames(ps) + t) == Scan(ps + ReadFrames(t).payloads, ReadFrames(t).stop)
    decreases |ps|
  {
    if |ps| == 0 {
      assert EncodeFrames(ps) + t == t;
    } else {
      assert EncodeFrames(ps) + t == EncodeFrame(ps[0]) + (EncodeFrames(ps[1..]) + t);
      NextFrameOfEncodeFrame(ps[0], EncodeFrames(ps[1..]) + t);
      ReadFramesAfterFrames(ps[1..], t);
      ConsAppend(ps, ReadFrames(t).payloads);
    }
  }

  /** N well-formed records and nothing after them: exactly the N payloads,
      in order, and a normal end. */
  lemma ReadFramesOfEncoded(ps: seq<seq<byte>>)
    requires Framable(ps)
    ensures ReadFrames(EncodeFrames(ps)) == Scan(ps, Eof)
  {
    ReadFramesAfterFrames(ps, []);
    assert EncodeFrames(ps) + [] == EncodeFrames(ps);
    assert ps + [] == ps;
  }

  /** A stream whose first four bytes are not the mainnet magic is rejected
      with the magic read, before any length or payload byte is looked at:
      the outcome is the same whatever follows those four bytes. */
  lemma BadMagicHaltsFirst(s: seq<byte>, t: seq<byte>)
    requires |s| >= 4 && s[..4] != MagicBytes
    ensures ReadFrames(s) == Scan([], BadMagic(LE32(s[..4])))
    ensures ReadFrames(s[..4] + t) == ReadFrames(s)
  {
    MagicMatch(s[..4]);
    assert (s[..4] + t)[..4] == s[..4];
  }

  /** Why a pass stops on the first `cut` bytes of a record. */
  function CutStop(cut: nat): Stop
  {
    if cut < 4 then BadMagic(0) else if cut < 8 then ShortLength else ShortPayload
  }

  /** One pass over a record cut short after `cut` bytes halts without a
      payload. */
  lemma NextFrameOfCutRecord(p: seq<byte>, cut: nat)
    requires |p| < TWO32 && 0 < cut < 8 + |p|
    ensures NextFrame(EncodeFrame(p)[..cut]) == Halt(CutStop(cut))
  {
    var e := EncodeFrame(p);
    var t := e[..cut];
    if cut >= 4 {
      assert e[..4] == MagicBytes;
      assert t[..4] == e[..4];
    }
    if cut >= 8 {
      assert e[4..8] == LE32Bytes(|p|);
      assert t[4..8] == e[4..8];
      LE32OfLE32Bytes(|p|);
    }
  }

  /** A record cut short anywhere, after N whole records: the N payloads are
      delivered and the cut record yields none. Cut inside the magic, it is
      rejected as a zero magic; inside the length, as a short length; inside
      the payload, as a short payload. */
  lemma TruncatedRecord(ps: seq<seq<byte>>, p: seq<byte>, cut: nat)
    requires Framable(ps) && |p| < TWO32
    requires 0 < cut < 8 + |p|
    ensures ReadFrames(EncodeFrames(ps) + EncodeFrame(p)[..cut])
         == Scan(ps, if cut < 4 then BadMagic(0) else if cut < 8 then ShortLength else ShortPayload)
  {
    var t := EncodeFrame(p)[..cut];
    NextFrameOfCutRecord(p, cut);
    assert ReadFrames(t) == Scan([], CutStop(cut));
    ReadFramesAfterFrames(ps, t);
    assert ps + [] == ps;
  }

  /** The loop of `readBlockFile` over the unmasked stream `s`: one pass over
      what is left after another until a pass halts. `at` is the offset at
      which the loop stopped: the start of the record that failed, or the
      end of the stream. On a wrong magic, `at` is the offset of the magic
      rejected, inside the stream, and the value reported is read there.
      This offset is the model's own; it is not the number the program's
      bad-magic message prints, which is taken from the reader's running
      count and so includes whatever the buffered reader has read ahead. */
  method ScanFrames(s: seq<byte>) returns (payloads: seq<seq<byte>>, stop: Stop, at: nat)
    ensures Scan(payloads, stop) == ReadFrames(s)
    ensures at <= |s| && s[..at] == EncodeFrames(payloads)
    ensures stop.BadMagic? ==> at < |s| && stop.magic == (if |s| - at < 4 then 0 else LE32(s[at..at + 4]))
  {
    payloads := [];
    var left := s;
    while true
      invariant Scanned(s, payloads, left)
      decreases |left|
    {
      match NextFrame(left)
      case Halt(why) =>
        ScanHalts(s, payloads, left, why);
        stop := why;
        at := |s| - |left|;
        BadMagicAt(s, at, why);
        return;
      case Frame(payload, rest) =>
        ScanAdvances(s, payloads, left, payload, rest);
        payloads := payloads + [payload];
        left := rest;
    }
  }

  /** What `ScanFrames` keeps true: the stream is the records delivered so far
      followed by what is left, and the loop over what is left delivers what
      the whole loop delivers after them. */
  ghost predicate Scanned(s: seq<byte>, payloads: seq<seq<byte>>, left: seq<byte>)
  {
    && Framable(payloads)
    && s == EncodeFrames(payloads) + left
    && ReadFrames(s) == Scan(payloads + ReadFrames(left).payloads, ReadFrames(left).stop)
  }

  /** A pass that halts ends the loop with the whole loop's outcome. */
  lemma ScanHalts(s: seq<byte>, payloads: seq<seq<byte>>, left: seq<byte>, why: Stop)
    requires Scanned(s, payloads, left)
    requires NextFrame(left) == Halt(why)
    ensures Scan(payloads, why) == ReadFrames(s)
    ensures |left| <= |s| && s[..|s| - |left|] == EncodeFrames(payloads) && s[|s| - |left|..] == left
  {
    assert ReadFrames(left) == Scan([], why);
    assert payloads + [] == payloads;
  }

  /** A pass over what follows offset `at` that rejects the magic rejects the
      four bytes at `at`, or reports zero when fewer are left. */
  lemma BadMagicAt(s: seq<byte>, at: nat, why: Stop)
    requires at <= |s| && NextFrame(s[at..]) == Halt(why)
    ensures why.BadMagic? ==> at < |s| && why.magic == (if |s| - at < 4 then 0 else LE32(s[at..at + 4]))
  {
    if |s| - at >= 4 {
      assert s[at..][..4] == s[at..at + 4];
    }
  }

  /** A pass that delivers a record moves past it. */
  lemma ScanAdvances(s: seq<byte>, payloads: seq<seq<byte>>, left: seq<byte>, payload: seq<byte>, rest: seq<byte>)
    requires Scanned(s, payloads, left)
    requires NextFrame(left) == Frame(payload, rest)
    ensures |rest| < |left|
    ensures Scanned(s, payloads + [payload], rest)
  {
    EncodeFramesSnoc(payloads, payload);
    AppendAssoc(EncodeFrames(payloads), EncodeFrame(payload), rest);
    assert ReadFrames(left) == Scan([payload] + ReadFrames(rest).payloads, ReadFrames(rest).stop);
    AppendAssoc(payloads, [payload], ReadFrames(rest).payloads);
  }

  lemma AppendAssoc<T>(a: seq<T>, b: seq<T>, c: seq<T>)
    ensures a + (b + c) == (a + b) + c
  {
  }

  lemma {:induction false} EncodeFramesSnoc(ps: seq<seq<byte>>, p: seq<byte>)
    requires Framable(ps) && |p| < TWO32
    ensures Framable(ps + [p])
    ensures EncodeFrames(ps + [p]) == EncodeFrames(ps) + EncodeFrame(p)
    decreases |ps|
  {
    assert Framable(ps + [p]) by {
      forall k | 0 <= k < |ps + [p]|
        ensures |(ps + [p])[k]| < TWO32
      {
        if k < |ps| {
          assert (ps + [p])[k] == ps[k];
        }
      }
    }
    if |ps| == 0 {
      assert ps + [p] == [p];
      assert [p][1..] == [];
    } else {
      var q, qs := ps[0], ps[1..];
      assert (ps + [p])[0] == q;
      assert (ps + [p])[1..] == qs + [p];
      EncodeFramesSnoc(qs, p);
      calc {
        EncodeFrames(ps + [p]);
        EncodeFrame(q) + EncodeFrames(qs + [p]);
        EncodeFrame(q) + (EncodeFrames(qs) + EncodeFrame(p));
        { AppendAssoc(EncodeFrame(q), EncodeFrames(qs), EncodeFrame(p)); }
        EncodeFrames(ps) + EncodeFrame(p);
      }
    }
  }
}
