/** cdev_xvc.c: shifting a JTAG bit stream through a 32-bit register window. */
module Xvc {
  import opened Words
  import opened Errno
  import opened Bits

  type Byte = b: nat | b < 256

  // ----- Bits of words and buffers, least significant first -----

  function BitsOf(x: nat, n: nat): (r: seq<bool>)
    ensures |r| == n
  {
    if n == 0 then [] else [x % 2 == 1] + BitsOf(x / 2, n - 1)
  }

  function BufBits(buf: seq<Byte>): (r: seq<bool>)
    ensures |r| == 8 * |buf|
  {
    if buf == [] then [] else BitsOf(buf[0], 8) + BufBits(buf[1..])
  }

  /** memcpy of bytes into a little-endian word, and of a word's low bytes out. */
  function WordOf(bytes: seq<Byte>): nat {
    if bytes == [] then 0 else bytes[0] + 256 * WordOf(bytes[1..])
  }

  function BytesOf(w: nat, n: nat): (r: seq<Byte>)
    ensures |r| == n
  {
    if n == 0 then [] else [w % 256] + BytesOf(w / 256, n - 1)
  }

  lemma {:induction false} BitsOfSplit(b: nat, w: nat, k: nat, n: nat)
    requires b < Pow2(k)
    ensures BitsOf(b + Pow2(k) * w, k + n) == BitsOf(b, k) + BitsOf(w, n)
    decreases k
  {
    if k == 0 {
      assert b + Pow2(k) * w == w;
    } else {
      var x := b + Pow2(k) * w;
      assert Pow2(k) * w == 2 * (Pow2(k - 1) * w) by { assert Pow2(k) == 2 * Pow2(k - 1); }
      assert x / 2 == b / 2 + Pow2(k - 1) * w && x % 2 == b % 2;
      BitsOfSplit(b / 2, w, k - 1, n);
    }
  }

  lemma ByteSplit(b: nat, w: nat, n: nat)
    requires b < 256
    ensures BitsOf(b + 256 * w, 8 + n) == BitsOf(b, 8) + BitsOf(w, n)
  {
    assert Pow2(4) == 16;
    Pow2Add(4, 4);
    BitsOfSplit(b, w, 8, n);
  }

  lemma {:induction false} WordOfBits(bytes: seq<Byte>)
    ensures BitsOf(WordOf(bytes), 8 * |bytes|) == BufBits(bytes)
  {
    if bytes != [] {
      WordOfBits(bytes[1..]);
      ByteSplit(bytes[0], WordOf(bytes[1..]), 8 * |bytes[1..]|);
    }
  }

  lemma {:induction false} BytesOfBits(w: nat, n: nat)
    ensures BufBits(BytesOf(w, n)) == BitsOf(w, 8 * n)
    decreases n
  {
    if n > 0 {
      BytesOfBits(w / 256, n - 1);
      ByteSplit(w % 256, w / 256, 8 * (n - 1));
      assert BytesOf(w, n)[1..] == BytesOf(w / 256, n - 1);
      assert w == w % 256 + 256 * (w / 256);
    }
  }

  lemma {:induction false} BitsOfPrefix(w: nat, n: nat, m: nat)
    requires m <= n
    ensures BitsOf(w, n)[..m] == BitsOf(w, m)
    decreases m
  {
    if m > 0 {
      BitsOfPrefix(w / 2, n - 1, m - 1);
      assert BitsOf(w, n)[..m] == [w % 2 == 1] + BitsOf(w / 2, n - 1)[..m - 1];
    }
  }

  lemma {:induction false} BufBitsConcat(a: seq<Byte>, b: seq<Byte>)
    ensures BufBits(a + b) == BufBits(a) + BufBits(b)
  {
    if a == [] {
      assert a + b == b;
    } else {
      assert (a + b)[1..] == a[1..] + b;
      BufBitsConcat(a[1..], b);
    }
  }

  // ----- The serial reference -----

  /** The target driven one bit at a time: its final state and the bits it returns. */
  function Serial<S>(step: (S, bool, bool) -> (S, bool), s: S, tms: seq<bool>, tdi: seq<bool>): (r: (S, seq<bool>))
    requires |tms| == |tdi|
    ensures |r.1| == |tms|
    decreases |tms|
  {
    if tms == [] then (s, [])
    else
      var (t, tdo) := step(s, tms[0], tdi[0]);
      var (u, rest) := Serial(step, t, tms[1..], tdi[1..]);
      (u, [tdo] + rest)
  }

  lemma {:induction false} SerialConcat<S>(
    step: (S, bool, bool) -> (S, bool), s: S, a: seq<bool>, b: seq<bool>, c: seq<bool>, d: seq<bool>)
    requires |a| == |b| && |c| == |d|
    ensures var (t, x) := Serial(step, s, a, b);
      var (u, y) := Serial(step, t, c, d);
      Serial(step, s, a + c, b + d) == (u, x + y)
    decreases |a|
  {
    if a == [] {
      assert a + c == c && b + d == d;
      var y := Serial(step, s, c, d).1;
      assert [] + y == y;
    } else {
      assert (a + c)[1..] == a[1..] + c && (b + d)[1..] == b[1..] + d;
      var (t, tdo) := step(s, a[0], b[0]);
      SerialConcat(step, t, a[1..], b[1..], c, d);
      var (u, x) := Serial(step, t, a[1..], b[1..]);
      var y := Serial(step, u, c, d).1;
      assert [tdo] + (x + y) == [tdo] + x + y;
    }
  }

  // ----- The register window -----

  const COMPLETION_LOOP_MAX := 100

  /** The XVC registers and the JTAG target behind them. */
  class XvcBar<S> {
    const step: (S, bool, bool) -> (S, bool)
    var target: S
    var lengthReg: nat
    var tmsReg: nat
    var tdiReg: nat
    var tdoReg: nat

    constructor (step: (S, bool, bool) -> (S, bool), target: S)
      ensures this.step == step && this.target == target
    {
      this.step, this.target := step, target;
      lengthReg, tmsReg, tdiReg, tdoReg := 0, 0, 0, 0;
    }

    /** What the hardware does on a write to the control register: shift `lengthReg` bits; the bits
        of TDO beyond them are whatever `junk` says. */
    method Shift(junk: nat)
      modifies this`target, this`tdoReg
      ensures var r := Serial(step, old(target), BitsOf(tmsReg, lengthReg), BitsOf(tdiReg, lengthReg));
        target == r.0 && BitsOf(tdoReg, lengthReg) == r.1
    {
      var r := Serial(step, target, BitsOf(tmsReg, lengthReg), BitsOf(tdiReg, lengthReg));
      target := r.0;
      tdoReg := FromBits(r.1, junk);
    }
  }

  /** A word with the given low bits. */
  function FromBits(bits: seq<bool>, junk: nat): (w: nat)
    ensures BitsOf(w, |bits|) == bits
  {
    if bits == [] then junk else (if bits[0] then 1 else 0) + 2 * FromBits(bits[1..], junk)
  }

  // ----- xvc_shift_bits -----

  /** Shifts one word. Times out exactly if the control register stays busy for all the reads; then
      nothing is known of the target. */
  method ShiftBits<S>(bar: XvcBar<S>, tmsBits: nat, tdiBits: nat, busyReads: nat, junk: nat)
    returns (rv: int, tdoBits: nat)
    modifies bar
    ensures rv == if busyReads >= COMPLETION_LOOP_MAX then -ETIMEDOUT else 0
    ensures bar.lengthReg == old(bar.lengthReg)
    ensures rv == 0 ==>
      var r := Serial(bar.step, old(bar.target), BitsOf(tmsBits, bar.lengthReg), BitsOf(tdiBits, bar.lengthReg));
      bar.target == r.0 && BitsOf(tdoBits, bar.lengthReg) == r.1
  {
    bar.tmsReg := tmsBits;
    bar.tdiReg := tdiBits;
    bar.Shift(junk);
    var count, polls := COMPLETION_LOOP_MAX, 0;
    while count > 0
      invariant 0 <= count && count + polls == COMPLETION_LOOP_MAX && polls <= busyReads
    {
      if polls >= busyReads {
        break;
      }
      polls := polls + 1;
      count := count - 1;
    }
    if count == 0 {
      return -ETIMEDOUT, 0;
    }
    rv, tdoBits := 0, bar.tdoReg;
  }

  // ----- xvc_ioctl -----

  function ByteCount(bits: nat): nat { (bits + 7) / 8 }

  lemma {:induction false} BufBitsSlice(buf: seq<Byte>, a: nat, b: nat)
    requires a <= b <= |buf|
    ensures BufBits(buf)[8 * a..8 * b] == BufBits(buf[a..b])
  {
    assert buf == buf[..a] + buf[a..b] + buf[b..];
    BufBitsConcat(buf[..a] + buf[a..b], buf[b..]);
    BufBitsConcat(buf[..a], buf[a..b]);
  }

  lemma SliceOfSlice(s: seq<bool>, a: nat, b: nat, n: nat)
    requires a + n <= b <= |s|
    ensures s[a..b][..n] == s[a..a + n]
  {
  }

  lemma TakeAppend(a: seq<bool>, b: seq<bool>, n: nat)
    requires n <= |b|
    ensures (a + b)[..|a| + n] == a + b[..n]
  {
  }

  /** The word copied from a buffer carries its next n bits. */
  lemma ChunkBits(buf: seq<Byte>, a: nat, n: nat)
    requires a + ByteCount(n) <= |buf|
    ensures BitsOf(WordOf(buf[a..a + ByteCount(n)]), n) == BufBits(buf)[8 * a..8 * a + n]
  {
    hide BufBits, BitsOf, WordOf;
    var k := ByteCount(n);
    WordOfBits(buf[a..a + k]);
    BitsOfPrefix(WordOf(buf[a..a + k]), 8 * k, n);
    BufBitsSlice(buf, a, a + k);
    SliceOfSlice(BufBits(buf), 8 * a, 8 * (a + k), n);
  }

  /** Bytes copied from a word extend the output by its first n bits. */
  lemma ChunkOut(prefix: seq<Byte>, word: nat, n: nat)
    ensures BufBits(prefix + BytesOf(word, ByteCount(n)))[..8 * |prefix| + n] == BufBits(prefix) + BitsOf(word, n)
  {
    hide BufBits, BitsOf, BytesOf;
    var k := ByteCount(n);
    BufBitsConcat(prefix, BytesOf(word, k));
    BytesOfBits(word, k);
    BitsOfPrefix(word, 8 * k, n);
    TakeAppend(BufBits(prefix), BitsOf(word, 8 * k), n);
  }

  /** The first `done` bits have gone through the target as one serial shift would have sent them. */
  ghost predicate ShiftedSoFar<S>(
    step: (S, bool, bool) -> (S, bool), s: S, tms: seq<bool>, tdi: seq<bool>, done: nat, t: S, out: seq<bool>)
  {
    done <= |tms| && done <= |tdi| && Serial(step, s, tms[..done], tdi[..done]) == (t, out)
  }

  lemma ShiftOneMore<S>(
    step: (S, bool, bool) -> (S, bool), s: S, tms: seq<bool>, tdi: seq<bool>, done: nat, n: nat, t: S, out: seq<bool>)
    requires ShiftedSoFar(step, s, tms, tdi, done, t, out)
    requires done + n <= |tms| && done + n <= |tdi|
    ensures var (u, more) := Serial(step, t, tms[done..done + n], tdi[done..done + n]);
      ShiftedSoFar(step, s, tms, tdi, done + n, u, out + more)
  {
    assert tms[..done + n] == tms[..done] + tms[done..done + n];
    assert tdi[..done + n] == tdi[..done] + tdi[done..done + n];
    SerialConcat(step, s, tms[..done], tdi[..done], tms[done..done + n], tdi[done..done + n]);
  }

  lemma OutputGrows(before: seq<Byte>, after: seq<Byte>, word: nat, n: nat, tdo: seq<bool>)
    requires after == before + BytesOf(word, ByteCount(n))
    requires BufBits(before) == tdo
    ensures |tdo| + n <= |BufBits(after)|
    ensures BufBits(after)[..|tdo| + n] == tdo + BitsOf(word, n)
  {
    ChunkOut(before, word, n);
  }

  /** The output buffer carries the bits returned so far. */
  ghost predicate OutputSoFar(buf: seq<Byte>, done: nat, tdo: seq<bool>) {
    ByteCount(done) <= |buf| && |tdo| == done && BufBits(buf[..ByteCount(done)])[..done] == tdo
  }

  lemma WholeBytes(buf: seq<Byte>, bits: nat, tdo: seq<bool>)
    requires bits % 32 == 0 && OutputSoFar(buf, bits, tdo)
    ensures bits / 8 <= |buf| && |BufBits(buf[..bits / 8])| == bits && BufBits(buf[..bits / 8]) == tdo
  {
    assert BufBits(buf[..bits / 8])[..bits] == BufBits(buf[..bits / 8]);
  }

  lemma WordBoundary(bits: nat, n: nat)
    requires bits % 32 == 0
    ensures ByteCount(bits + n) == bits / 8 + ByteCount(n)
  {
  }

  /** One round of the loop: the next n bits, n being 32 except for a shorter rest. The length
      register holds n when the shift starts. */
  method ShiftWord<S>(bar: XvcBar<S>, bits: nat, bitsLeft: nat, tmsBuf: seq<Byte>, tdiBuf: seq<Byte>,
                      tdoBuf: array<Byte>, busyReads: nat, junk: nat, ghost s0: S, ghost tdo: seq<bool>)
    returns (rv: int, ghost n: nat, ghost tdo': seq<bool>)
    requires bits % 32 == 0 && bitsLeft > 0
    requires |tmsBuf| == |tdiBuf| == tdoBuf.Length == ByteCount(bits + bitsLeft)
    requires bitsLeft >= 32 ==> bar.lengthReg == 32
    requires ShiftedSoFar(bar.step, s0, BufBits(tmsBuf), BufBits(tdiBuf), bits, bar.target, tdo)
    requires OutputSoFar(tdoBuf[..], bits, tdo)
    modifies bar, tdoBuf
    ensures rv == if busyReads >= COMPLETION_LOOP_MAX then -ETIMEDOUT else 0
    ensures n == bar.lengthReg == if bitsLeft < 32 then bitsLeft else 32
    ensures rv == 0 ==>
      && ShiftedSoFar(bar.step, s0, BufBits(tmsBuf), BufBits(tdiBuf), bits + n, bar.target, tdo')
      && OutputSoFar(tdoBuf[..], bits + n, tdo')
  {
    hide BufBits, BitsOf, WordOf, BytesOf, Serial;
    WholeBytes(tdoBuf[..], bits, tdo);
    var bytes := bits / 8;
    var shiftBytes := 4;
    if bitsLeft < 32 {
      bar.lengthReg := bitsLeft;
      shiftBytes := ByteCount(bitsLeft);
    }
    n := bar.lengthReg;
    tdo' := tdo;
    assert shiftBytes == ByteCount(n);
    assert bytes + shiftBytes <= tdoBuf.Length;
    var tmsStore := WordOf(tmsBuf[bytes..bytes + shiftBytes]);
    var tdiStore := WordOf(tdiBuf[bytes..bytes + shiftBytes]);
    ChunkBits(tmsBuf, bytes, n);
    ChunkBits(tdiBuf, bytes, n);
    ghost var t := bar.target;
    var tdoStore;
    rv, tdoStore := ShiftBits(bar, tmsStore, tdiStore, busyReads, junk);
    if rv < 0 {
      return;
    }
    ghost var before := tdoBuf[..bytes];
    var stored := BytesOf(tdoStore, shiftBytes);
    forall j | 0 <= j < shiftBytes {
      tdoBuf[bytes + j] := stored[j];
    }
    assert tdoBuf[..bytes + shiftBytes] == before + stored;
    assert tdoBuf[..][..bytes + shiftBytes] == tdoBuf[..bytes + shiftBytes];
    WordBoundary(bits, n);
    OutputGrows(before, tdoBuf[..bytes + shiftBytes], tdoStore, n, tdo);
    ShiftOneMore(bar.step, s0, BufBits(tmsBuf), BufBits(tdiBuf), bits, n, t, tdo);
    tdo' := tdo + BitsOf(tdoStore, n);
  }

  /** The loop of xvc_ioctl. */
  method ShiftAll<S>(bar: XvcBar<S>, totalBits: nat, tmsBuf: seq<Byte>, tdiBuf: seq<Byte>,
                     tdoBuf: array<Byte>, busyReads: nat -> nat, junk: nat -> nat)
    returns (rv: int, ghost tdo: seq<bool>)
    requires totalBits <= U32 - 32
    requires |tmsBuf| == |tdiBuf| == tdoBuf.Length == ByteCount(totalBits)
    modifies bar, tdoBuf
    ensures rv == 0 || rv == -ETIMEDOUT
    ensures rv == 0 <==> forall k: nat :: 32 * k < totalBits ==> busyReads(k) < COMPLETION_LOOP_MAX
    ensures rv == 0 ==>
      && ShiftedSoFar(bar.step, old(bar.target), BufBits(tmsBuf), BufBits(tdiBuf), totalBits, bar.target, tdo)
      && totalBits <= |BufBits(tdoBuf[..])|
      && BufBits(tdoBuf[..])[..totalBits] == tdo
  {
    hide BufBits, Serial, ShiftedSoFar, OutputSoFar;
    ghost var s0 := bar.target;
    tdo := [];
    ghost var done := 0;
    NothingShifted(bar.step, s0, BufBits(tmsBuf), BufBits(tdiBuf), tdoBuf[..]);
    if totalBits >= 32 {
      bar.lengthReg := 0x20;
    }
    var bits, bitsLeft, word := 0, totalBits as int, 0;
    rv := 0;
    while bits < totalBits
      invariant rv == 0 && bits == 32 * word && bitsLeft == totalBits - bits
      invariant done == if bits <= totalBits then bits else totalBits
      invariant bitsLeft >= 32 ==> bar.lengthReg == 32
      invariant ShiftedSoFar(bar.step, s0, BufBits(tmsBuf), BufBits(tdiBuf), done, bar.target, tdo)
      invariant OutputSoFar(tdoBuf[..], done, tdo)
      invariant forall k: nat :: k < word ==> busyReads(k) < COMPLETION_LOOP_MAX
      decreases totalBits - bits
    {
      ghost var n: nat;
      rv, n, tdo := ShiftWord(bar, bits, bitsLeft, tmsBuf, tdiBuf, tdoBuf, busyReads(word), junk(word), s0, tdo);
      if rv < 0 {
        return;
      }
      done := done + n;
      bits := bits + 32;
      bitsLeft := bitsLeft - 32;
      word := word + 1;
    }
    AllOutput(tdoBuf[..], totalBits, tdo);
  }

  lemma AllOutput(buf: seq<Byte>, bits: nat, tdo: seq<bool>)
    requires |buf| == ByteCount(bits) && OutputSoFar(buf, bits, tdo)
    ensures bits <= |BufBits(buf)| && BufBits(buf)[..bits] == tdo
  {
    assert buf[..ByteCount(bits)] == buf;
  }

  /** xvc_ioctl after the buffers are copied in. If no word times out, the target has gone through
      exactly one serial shift of all the bits and the buffer returned holds its TDO bits; opcode 2
      returns the TDI buffer instead. */
  method XvcIoctl<S>(bar: XvcBar<S>, opcode: nat, totalBits: nat, tmsBuf: seq<Byte>, tdiBuf: seq<Byte>,
                     busyReads: nat -> nat, junk: nat -> nat)
    returns (rv: int, out: seq<Byte>)
    requires totalBits <= U32 - 32
    requires |tmsBuf| == |tdiBuf| == ByteCount(totalBits)
    modifies bar
    ensures opcode != 1 && opcode != 2 ==> rv == -EINVAL && bar.target == old(bar.target)
    ensures rv == 0 <==>
      && (opcode == 1 || opcode == 2)
      && forall k: nat :: 32 * k < totalBits ==> busyReads(k) < COMPLETION_LOOP_MAX
    ensures rv == 0 ==> |out| == ByteCount(totalBits)
    ensures rv == 0 ==>
      var r := Serial(bar.step, old(bar.target), BufBits(tmsBuf)[..totalBits], BufBits(tdiBuf)[..totalBits]);
      && bar.target == r.0
      && (opcode == 1 ==> BufBits(out)[..totalBits] == r.1)
      && (opcode == 2 ==> out == tdiBuf)
  {
    hide BufBits, Serial;
    out := [];
    if opcode != 1 && opcode != 2 {
      return -EINVAL, out;
    }
    var tdoBuf := new Byte[ByteCount(totalBits)];
    ghost var tdo;
    rv, tdo := ShiftAll(bar, totalBits, tmsBuf, tdiBuf, tdoBuf, busyReads, junk);
    if rv < 0 {
      return;
    }
    out := if opcode == 2 then tdiBuf else tdoBuf[..];
  }

  lemma NothingShifted<S>(step: (S, bool, bool) -> (S, bool), s: S, tms: seq<bool>, tdi: seq<bool>, buf: seq<Byte>)
    ensures ShiftedSoFar(step, s, tms, tdi, 0, s, [])
    ensures OutputSoFar(buf, 0, [])
  {
  }
}
