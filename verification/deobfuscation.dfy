/** The deobfuscation stream: `xorReader` in main.go. Block files may be
    stored masked by a repeating 8-byte key; the byte at absolute stream
    offset `o` is unmasked by XOR with `key[o % 8]`. The reader keeps the
    running offset `pos` across calls, so the unmasked stream does not depend
    on how the caller chunks its reads. */
module Deobfuscation {
  import opened Bytes

  /** 2^64: `pos` is a Go `uint64` and wraps modulo this. */
  const TWO64: nat := 0x1_0000_0000_0000_0000

  /** The obfuscation key: exactly eight bytes. */
  type Key = k: seq<byte> | |k| == 8 witness [0, 0, 0, 0, 0, 0, 0, 0]

  /** The key used when no key file is present or it is empty. */
  const ZeroKey: Key := [0, 0, 0, 0, 0, 0, 0, 0]

  /** The stream `data` unmasked, when its first byte sits at absolute
      offset `start`. */
  function Deobf(key: Key, start: nat, data: seq<byte>): (r: seq<byte>)
    ensures |r| == |data|
    decreases |data|
  {
    if |data| == 0 then []
    else [Xor(data[0], key[start % 8])] + Deobf(key, start + 1, data[1..])
  }

  /** Every output byte is its input byte XOR the key byte of its absolute offset. */
  lemma {:induction false} DeobfAt(key: Key, start: nat, data: seq<byte>)
    ensures forall i :: 0 <= i < |data| ==> Deobf(key, start, data)[i] == Xor(data[i], key[(start + i) % 8])
    decreases |data|
  {
    if |data| > 0 {
      DeobfAt(key, start + 1, data[1..]);
      forall i | 1 <= i < |data|
        ensures Deobf(key, start, data)[i] == Xor(data[i], key[(start + i) % 8])
      {
        assert Deobf(key, start, data)[i] == Deobf(key, start + 1, data[1..])[i - 1];
      }
    }
  }

  /** A sequence that agrees byte for byte with the unmasked `data` is it. */
  lemma Unmasked(key: Key, start: nat, data: seq<byte>, out: seq<byte>)
    requires |out| == |data|
    requires forall i :: 0 <= i < |data| ==> out[i] == Xor(data[i], key[(start + i) % 8])
    ensures out == Deobf(key, start, data)
  {
    DeobfAt(key, start, data);
  }

  /** Unmasking two adjacent pieces separately, the second starting where the
      first ends, is unmasking their concatenation. */
  lemma {:induction false} DeobfSplit(key: Key, start: nat, a: seq<byte>, b: seq<byte>)
    ensures Deobf(key, start, a + b) == Deobf(key, start, a) + Deobf(key, start + |a|, b)
    decreases |a|
  {
    if |a| > 0 {
      assert (a + b)[1..] == a[1..] + b;
      DeobfSplit(key, start + 1, a[1..], b);
    } else {
      assert a + b == b;
    }
  }

  /** Only the offset modulo 8 matters. */
  lemma {:induction false} DeobfCongruent(key: Key, s: nat, t: nat, data: seq<byte>)
    requires s % 8 == t % 8
    ensures Deobf(key, s, data) == Deobf(key, t, data)
    decreases |data|
  {
    if |data| > 0 {
      DeobfCongruent(key, s + 1, t + 1, data[1..]);
    }
  }

  /** The transform is its own inverse. */
  lemma {:induction false} DeobfInvolutive(key: Key, start: nat, data: seq<byte>)
    ensures Deobf(key, start, Deobf(key, start, data)) == data
    decreases |data|
  {
    if |data| > 0 {
      XorInvolutive(data[0], key[start % 8]);
      DeobfInvolutive(key, start + 1, data[1..]);
      assert Deobf(key, start, data)[1..] == Deobf(key, start + 1, data[1..]);
    }
  }

  /** The all-zero key is the identity. */
  lemma {:induction false} DeobfZeroKey(start: nat, data: seq<byte>)
    ensures Deobf(ZeroKey, start, data) == data
    decreases |data|
  {
    if |data| > 0 {
      XorZero(data[0]);
      DeobfZeroKey(start + 1, data[1..]);
    }
  }

  /** A wrapped 64-bit offset selects the same key byte: 8 divides 2^64. */
  lemma ModTwo64Mod8(a: nat)
    ensures (a % TWO64) % 8 == a % 8
  {
    var q, r := a / TWO64, a % TWO64;
    assert a == 8 * (0x2000_0000_0000_0000 * q) + r;
    MultipleOf8Plus(0x2000_0000_0000_0000 * q, r);
  }

  lemma MultipleOf8Plus(m: nat, r: nat)
    ensures (8 * m + r) % 8 == r % 8
  {
  }

  /** Adding to a wrapped counter wraps the same way as adding first. */
  lemma ModTwo64Add(a: nat, b: nat)
    ensures (a % TWO64 + b) % TWO64 == (a + b) % TWO64
  {
    var q := a / TWO64;
    assert a + b == TWO64 * q + (a % TWO64 + b);
  }

  /** What the wrapped reader reported alongside its byte count. */
  datatype ReadStatus = NoError | EndOfFile | Failed

  /** `xorReader`: the wrapped reader's output unmasked with `key`, keeping
      the number of bytes delivered so far in `pos`. */
  class XorReader {
    const key: Key
    var pos: nat

    ghost predicate Valid()
      reads this
    {
      pos < TWO64
    }

    constructor (key: Key)
      ensures this.key == key && pos == 0 && Valid()
    {
      this.key := key;
      pos := 0;
    }

    /** `xorReader.Read`. The wrapped reader's `Read(p)` is a call into
        another reader: its effect arrives as the contents of `p` on entry
        together with the count `n` and the status `err` it returned. The
        first `n` bytes are unmasked by their absolute offsets whatever
        `err` is, the rest of `p` is left alone, and `pos` advances by `n`. */
    method Read(p: array<byte>, n: nat, err: ReadStatus) returns (count: nat, status: ReadStatus)
      requires Valid() && n <= p.Length
      modifies this, p
      ensures Valid()
      ensures count == n && status == err
      ensures forall i :: 0 <= i < n ==> p[i] == Xor(old(p[i]), key[(old(pos) + i) % 8])
      ensures p[..n] == Deobf(key, old(pos), old(p[..n]))
      ensures p[n..] == old(p[n..])
      ensures pos == (old(pos) + n) % TWO64
    {
      var start, i := pos, 0;
      while i < n
        invariant 0 <= i <= n
        invariant pos == start == old(pos)
        invariant forall j :: 0 <= j < i ==> p[j] == Xor(old(p[j]), key[(start + j) % 8])
        invariant forall j :: i <= j < p.Length ==> p[j] == old(p[j])
      {
        // The key index is the low three bits of the running count plus `i`,
        // summed in 64-bit unsigned arithmetic; the low three bits of an
        // unsigned value are its remainder modulo 8.
        ModTwo64Mod8(start + i);
        p[i] := Xor(p[i], key[((start + i) % TWO64) % 8]);
        i := i + 1;
      }
      Unmasked(key, start, old(p[..n]), p[..n]);
      pos := (start + n) % TWO64;
      count, status := n, err;
    }
  }

  /** The chunks of a stream put back together. */
  function Concat(chunks: seq<seq<byte>>): seq<byte>
  {
    if |chunks| == 0 then [] else Concat(chunks[..|chunks| - 1]) + chunks[|chunks| - 1]
  }

  lemma ConcatPrefix(chunks: seq<seq<byte>>, k: nat)
    requires k < |chunks|
    ensures Concat(chunks[..k + 1]) == Concat(chunks[..k]) + chunks[k]
  {
    assert chunks[..k + 1][..k] == chunks[..k];
  }

  /** One more chunk through the reader: the output so far plus the chunk
      unmasked from an offset congruent to the prefix length modulo 8 is the
      longer prefix unmasked. */
  lemma ChunkStep(key: Key, done: seq<byte>, c: seq<byte>, pos: nat, piece: seq<byte>)
    requires pos % 8 == |done| % 8
    requires piece == Deobf(key, pos, c)
    ensures Deobf(key, 0, done) + piece == Deobf(key, 0, done + c)
  {
    DeobfCongruent(key, pos, |done|, c);
    DeobfSplit(key, 0, done, c);
  }

  /** Feeds a stream through one `XorReader` in the given chunks, the last of
      them delivered together with end-of-file, and collects what it returns:
      whatever the chunking, the result is the whole stream unmasked from
      offset 0. */
  method ReadInChunks(key: Key, chunks: seq<seq<byte>>) returns (out: seq<byte>)
    ensures out == Deobf(key, 0, Concat(chunks))
  {
    var xr := new XorReader(key);
    out := [];
    var k := 0;
    while k < |chunks|
      invariant 0 <= k <= |chunks|
      invariant fresh(xr)
      invariant xr.key == key && xr.Valid()
      invariant xr.pos == |Concat(chunks[..k])| % TWO64
      invariant out == Deobf(key, 0, Concat(chunks[..k]))
    {
      var c, done := chunks[k], Concat(chunks[..k]);
      var p := new byte[|c|](i requires 0 <= i < |c| => c[i]);
      assert p[..|c|] == c;
      var before := xr.pos;
      var n, _ := xr.Read(p, |c|, if k == |chunks| - 1 then EndOfFile else NoError);
      ModTwo64Mod8(|done|);
      ChunkStep(key, done, c, before, p[..n]);
      ModTwo64Add(|done|, |c|);
      ConcatPrefix(chunks, k);
      assert xr.pos == |done + c| % TWO64;
      out := out + p[..n];
      k := k + 1;
    }
    assert chunks[..k] == chunks;
  }
}
