/** The three length encoders of the library: a loop over the powers of 128
    from the top, a chain of independent tests, and a slice of a fixed
    five-byte array. Each builds its byte slice and hands it to one Write.
    Each builder is proved to produce LengthCodec.Prefix(n), which is the
    reference encoding Enc(n) for every n below 2^35. */
module Encoders {
  import opened GoBits
  import opened Errors
  import opened LengthCodec
  import opened Streams

  /** The continuation bytes the encoders emit for the groups above group `i`:
      one for each group `j` in `i+1 .. MaxLengthBytes-1` that `n` reaches */
  ghost function Upper(n: nat, i: nat): seq<byte>
    decreases MaxLengthBytes - i
  {
    if i + 1 >= MaxLengthBytes then []
    else Upper(n, i + 1) + (if n >= Pow128(i + 1) then [Digit(n, i + 1) + 0x80] else [])
  }

  /** Those bytes are the front of the prefix: all of it but the last byte once
      `i` is 0. */
  lemma {:induction false} UpperIsPrefixFront(n: nat, i: nat)
    ensures Upper(n, i) == Prefix(n)[..if |Prefix(n)| - 1 > i then |Prefix(n)| - 1 - i else 0]
    decreases MaxLengthBytes - i
  {
    var p := Prefix(n);
    var k := |p|;
    if i + 1 < MaxLengthBytes {
      UpperIsPrefixFront(n, i + 1);
      DigitsBound(n, i + 1);
      if n >= Pow128(i + 1) {
        assert k >= i + 2;
        var e := k - 2 - i;
        assert p[e] == Digit(n, i + 1) + 0x80 by {
          assert p == Fixed(n, k);
          FixedAt(n, k, e);
        }
        assert p[..e + 1] == p[..e] + [p[e]];
        assert Upper(n, i) == Upper(n, i + 1) + [Digit(n, i + 1) + 0x80];
      } else {
        assert k <= i + 1;
        assert Upper(n, i) == Upper(n, i + 1);
      }
    }
  }

  lemma UpperEnds(n: nat)
    ensures Prefix(n) == Upper(n, 0) + [n % 128]
  {
    var k := |Prefix(n)|;
    UpperIsPrefixFront(n, 0);
    FixedAt(n, k, k - 1);
    assert Prefix(n) == Prefix(n)[..k - 1] + [Prefix(n)[k - 1]];
  }

  /** `byte(n>>(7*i) | 0x80)` is group `i` of `n` with the continuation bit. */
  lemma ShiftedByte(n: nat, i: nat)
    ensures ToByte(OrHigh(Shr(n, 7 * i))) == Digit(n, i) + 0x80
  {
    var x := n / Pow128(i);
    assert Shr(n, 7 * i) == x by {
      Pow2Sevens(i);
    }
    DigitIsShifted(n, i);
    ToByteOrHigh(x);
  }

  /** The five candidate bytes of the no-append variant are the five-byte prefix. */
  lemma CandidateBytes(n: nat)
    ensures [ToByte(OrHigh(Shr(n, 28))), ToByte(OrHigh(Shr(n, 21))), ToByte(OrHigh(Shr(n, 14))),
             ToByte(OrHigh(Shr(n, 7))), ToByte(Low7(n))] == Fixed(n, MaxLengthBytes)
  {
    var f := Fixed(n, MaxLengthBytes);
    assert f[0] == Digit(n, 4) + 0x80 by { FixedAt(n, 5, 0); }
    assert f[1] == Digit(n, 3) + 0x80 by { FixedAt(n, 5, 1); }
    assert f[2] == Digit(n, 2) + 0x80 by { FixedAt(n, 5, 2); }
    assert f[3] == Digit(n, 1) + 0x80 by { FixedAt(n, 5, 3); }
    assert f[4] == n % 128 by { FixedAt(n, 5, 4); }
    ShiftedByte(n, 4);
    ShiftedByte(n, 3);
    ShiftedByte(n, 2);
    ShiftedByte(n, 1);
    ToByteLow7(n);
  }

  /** A shorter prefix is the tail of a longer one. */
  lemma FixedTail(n: nat, k: nat, j: nat)
    requires 1 <= j <= k
    ensures Fixed(n, k)[k - j..] == Fixed(n, j)
  {
    forall t | 0 <= t < j
      ensures Fixed(n, k)[k - j + t] == Fixed(n, j)[t]
    {
      FixedAt(n, k, k - j + t);
      FixedAt(n, j, t);
    }
  }

  lemma Thresholds()
    ensures Pow128(1) == 128 && Pow128(2) == 16384 && Pow128(3) == 2097152 && Pow128(4) == 268435456
  {
  }

  /** One unrolled step of the no-loop variant: group `g` is appended exactly
      when `n` reaches its threshold `t`. */
  lemma UpperStep(n: nat, g: nat, t: nat, lo: seq<byte>, hi: seq<byte>)
    requires 1 <= g < MaxLengthBytes && t == Pow128(g) && lo == Upper(n, g)
    requires hi == if n >= t then lo + [Digit(n, g) + 0x80] else lo
    ensures hi == Upper(n, g - 1)
  {
  }

  // ---------------------------------------------------------------------
  // Building the byte slice

  /** The reverse-loop variant: for i from MaxLengthBytes-1 down to 1, append
      `byte(n>>(7*i) | 0x80)` when `n >= pow(128, i)`; then `byte(n & 0x7f)`. */
  method ReverseBuffer(n: nat) returns (b: seq<byte>)
    ensures b == Prefix(n)
    ensures n < Bound ==> b == Enc(n)
  {
    b := [];
    var i: nat := MaxLengthBytes - 1;
    while i > 0
      invariant i < MaxLengthBytes
      invariant b == Upper(n, i)
    {
      var x := Pow128(i);
      if n >= x {
        var v := ToByte(OrHigh(Shr(n, 7 * i)));
        ShiftedByte(n, i);
        b := b + [v];
      }
      i := i - 1;
    }
    ghost var upper := b;
    b := b + [ToByte(Low7(n))];
    assert b == upper + [n % 128] by { ToByteLow7(n); }
    UpperEnds(n);
    PrefixIsEnc(n);
  }

  /** The variant without a loop: four independent tests against 2^28, 2^21,
      2^14 and 2^7. */
  method NoLoopBuffer(n: nat) returns (b: seq<byte>)
    ensures b == Prefix(n)
    ensures n < Bound ==> b == Enc(n)
  {
    b := [];
    Thresholds();
    ghost var lo;
    lo := b;
    if n >= 268435456 {
      var v := ToByte(OrHigh(Shr(n, 28)));
      assert v == Digit(n, 4) + 0x80 by { ShiftedByte(n, 4); }
      b := b + [v];
    }
    UpperStep(n, 4, 268435456, lo, b);
    lo := b;
    if n >= 2097152 {
      var v := ToByte(OrHigh(Shr(n, 21)));
      assert v == Digit(n, 3) + 0x80 by { ShiftedByte(n, 3); }
      b := b + [v];
    }
    UpperStep(n, 3, 2097152, lo, b);
    lo := b;
    if n >= 16384 {
      var v := ToByte(OrHigh(Shr(n, 14)));
      assert v == Digit(n, 2) + 0x80 by { ShiftedByte(n, 2); }
      b := b + [v];
    }
    UpperStep(n, 2, 16384, lo, b);
    lo := b;
    if n >= 128 {
      var v := ToByte(OrHigh(Shr(n, 7)));
      assert v == Digit(n, 1) + 0x80 by { ShiftedByte(n, 1); }
      b := b + [v];
    }
    UpperStep(n, 1, 128, lo, b);
    b := b + [ToByte(Low7(n))];
    assert b == Upper(n, 0) + [n % 128] by { ToByteLow7(n); }
    UpperEnds(n);
    PrefixIsEnc(n);
  }

  /** The variant without append: all five candidate bytes are computed, and
      the slice starts at the first one needed. */
  method NoAppendBuffer(n: nat) returns (b: seq<byte>)
    ensures b == Prefix(n)
    ensures n < Bound ==> b == Enc(n)
  {
    var all: seq<byte> := [
      ToByte(OrHigh(Shr(n, 28))),
      ToByte(OrHigh(Shr(n, 21))),
      ToByte(OrHigh(Shr(n, 14))),
      ToByte(OrHigh(Shr(n, 7))),
      ToByte(Low7(n))
    ];
    var i: nat;
    if n >= 268435456 {
      i := 0;
    } else if n >= 2097152 {
      i := 1;
    } else if n >= 16384 {
      i := 2;
    } else if n >= 128 {
      i := 3;
    } else {
      i := 4;
    }
    b := all[i..];

    ghost var k := |Prefix(n)|;
    assert k == MaxLengthBytes - i by { PrefixLength(n); }
    assert all == Fixed(n, MaxLengthBytes) by { CandidateBytes(n); }
    FixedTail(n, MaxLengthBytes, k);
    PrefixIsEnc(n);
  }

  /** All three variants emit the same bytes for every length. */
  method VariantsAgree(n: nat) returns (reverse: seq<byte>, noLoop: seq<byte>, noAppend: seq<byte>)
    ensures reverse == noLoop == noAppend == Prefix(n)
  {
    reverse := ReverseBuffer(n);
    noLoop := NoLoopBuffer(n);
    noAppend := NoAppendBuffer(n);
  }

  // ---------------------------------------------------------------------
  // The encoders: reject a negative length, build the slice, write it once

  method EncodeLengthReverse(length: GoInt, w: Stream?) returns (err: Outcome)
    requires length < 0 || w != null  // a nil writer panics at w.Write
    modifies w
    ensures length < 0 ==> err == Fail(InvalidLength) && (w != null ==> w.data == old(w.data))
    ensures 0 <= length && old(w.Writable()) ==> err == Pass && w.data == old(w.data) + Prefix(length)
    ensures 0 <= length && !old(w.Writable()) ==> err == Fail(CouldNotWrite(Transport)) && w.data == old(w.data)
    ensures w != null ==> w.closed == old(w.closed)
  {
    if length < 0 {
      return Fail(InvalidLength);
    }
    var b := ReverseBuffer(length);
    var _, e := w.Write(b);
    err := if e.Fail? then Fail(CouldNotWrite(e.error)) else Pass;
  }

  method EncodeLengthNoLoop(length: GoInt, w: Stream?) returns (err: Outcome)
    requires length < 0 || w != null  // a nil writer panics at w.Write
    modifies w
    ensures length < 0 ==> err == Fail(InvalidLength) && (w != null ==> w.data == old(w.data))
    ensures 0 <= length && old(w.Writable()) ==> err == Pass && w.data == old(w.data) + Prefix(length)
    ensures 0 <= length && !old(w.Writable()) ==> err == Fail(CouldNotWrite(Transport)) && w.data == old(w.data)
    ensures w != null ==> w.closed == old(w.closed)
  {
    if length < 0 {
      return Fail(InvalidLength);
    }
    var b := NoLoopBuffer(length);
    var _, e := w.Write(b);
    err := if e.Fail? then Fail(CouldNotWrite(e.error)) else Pass;
  }

  method EncodeLengthNoAppend(length: GoInt, w: Stream?) returns (err: Outcome)
    requires length < 0 || w != null  // a nil writer panics at w.Write
    modifies w
    ensures length < 0 ==> err == Fail(InvalidLength) && (w != null ==> w.data == old(w.data))
    ensures 0 <= length && old(w.Writable()) ==> err == Pass && w.data == old(w.data) + Prefix(length)
    ensures 0 <= length && !old(w.Writable()) ==> err == Fail(CouldNotWrite(Transport)) && w.data == old(w.data)
    ensures w != null ==> w.closed == old(w.closed)
  {
    if length < 0 {
      return Fail(InvalidLength);
    }
    var b := NoAppendBuffer(length);
    var _, e := w.Write(b);
    err := if e.Fail? then Fail(CouldNotWrite(e.error)) else Pass;
  }

  /** The library's length encoder as its tests pin it down: a negative length is
      refused first, then a nil writer is refused rather than written to;
      otherwise it writes what the three variants write. */
  method EncodeStringLength(length: GoInt, w: Stream?) returns (err: Outcome)
    modifies w
    ensures length < 0 ==> err == Fail(InvalidLength) && (w != null ==> w.data == old(w.data))
    ensures 0 <= length && w == null ==> err == Fail(NilWriter)
    ensures 0 <= length && w != null && old(w.Writable()) ==> err == Pass && w.data == old(w.data) + Prefix(length)
    ensures 0 <= length && w != null && !old(w.Writable()) ==>
      err == Fail(CouldNotWrite(Transport)) && w.data == old(w.data)
    ensures w != null ==> w.closed == old(w.closed)
  {
    if 0 <= length && w == null {
      return Fail(NilWriter);
    }
    err := EncodeLengthNoAppend(length, w);
  }

  /** A negative length is refused even when there is no writer. */
  method NegativeLengthRefused() returns (err: Outcome)
    ensures err == Fail(InvalidLength)
  {
    err := EncodeStringLength(-1, null);
  }

  /** A valid length with no writer is an error, not a crash. */
  method NilWriterRefused() returns (err: Outcome)
    ensures err.Fail? && err != Fail(InvalidLength)
  {
    err := EncodeStringLength(1, null);
  }

  /** Each test vector, encoded into a fresh buffer, is exactly the expected bytes. */
  method EncodeVectors() returns (out: seq<seq<byte>>)
    ensures out == [[0], [1], [127], [129, 0], [129, 128, 128, 128, 0]]
  {
    var lengths: seq<GoInt> := [0, 1, 127, 128, 268435456];
    out := [];
    var i := 0;
    while i < |lengths|
      invariant 0 <= i <= |lengths|
      invariant |out| == i && forall j :: 0 <= j < i ==> out[j] == Prefix(lengths[j])
    {
      var b := new Stream(false);
      var _ := EncodeStringLength(lengths[i], b);
      out := out + [b.data];
      i := i + 1;
    }
    assert out == [Prefix(0), Prefix(1), Prefix(127), Prefix(128), Prefix(268435456)];
    PrefixVectors();
  }

  /** The test vectors are what the encoders emit. */
  lemma PrefixVectors()
    ensures [Prefix(0), Prefix(1), Prefix(127), Prefix(128), Prefix(268435456)]
         == [[0], [1], [127], [129, 0], [129, 128, 128, 128, 0]]
  {
    Vectors();
    PrefixIsEnc(128);
    PrefixIsEnc(268435456);
  }

  /** A string on the wire: its length prefix, then its bytes */
  method EncodeString(s: seq<byte>, w: Stream) returns (n: nat, err: Outcome)
    requires |s| <= MaxInt
    modifies w
    ensures old(w.Writable()) ==> err == Pass && n == |Framed(s)| && w.data == old(w.data) + Framed(s)
    ensures !old(w.Writable()) ==> err.Fail? && n == 0 && w.data == old(w.data)
    ensures w.closed == old(w.closed)
  {
    err := EncodeStringLength(|s|, w);
    if err.Fail? {
      return 0, err;
    }
    var m;
    m, err := w.Write(s);
    n := |Prefix(|s|)| + m;
  }
}
