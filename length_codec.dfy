/** The minissdpd length prefix: a non-negative length written in base 128,
    most significant 7-bit group first, one group per byte; bit 7 (0x80) is set
    on every byte but the last. At most MaxLengthBytes bytes are read or
    written, so the codec covers lengths below Bound = 2^35.

    Enc is the reference (minimal, unbounded) encoding, Prefix is what the
    library's encoders emit (Enc cut to its last MaxLengthBytes bytes) and
    DecodeLength reads a prefix back from the front of a byte stream. */
module LengthCodec {
  import opened GoBits
  import opened Errors

  const MaxLengthBytes: nat := 5

  /** 128^MaxLengthBytes: the first length whose prefix would need six bytes */
  const Bound: nat := 0x8_0000_0000

  lemma BoundIsPow()
    ensures Pow128(MaxLengthBytes) == Bound
  {
  }

  /** `b & 0x80`: more bytes of the prefix follow */
  predicate More(b: byte) {
    b >= 0x80
  }

  /** `b & 0x7f`: the 7 payload bits */
  function Payload(b: byte): nat {
    Low7(b)
  }

  // ---------------------------------------------------------------------
  // Encoding

  /** The number of base-128 digits of `n` (1 for zero) */
  function Digits(n: nat): (k: nat)
    ensures k >= 1
  {
    if n < 128 then 1 else 1 + Digits(n / 128)
  }

  /** The `t`-th base-128 digit of `n`, counting from the least significant */
  function Digit(n: nat, t: nat): (d: nat)
    ensures d < 128
  {
    if t == 0 then n % 128 else Digit(n / 128, t - 1)
  }

  /** The low `j` base-128 digits of `m`, most significant first, each with the
      continuation bit set */
  function Continued(m: nat, j: nat): (r: seq<byte>)
    ensures |r| == j
  {
    if j == 0 then [] else Continued(m / 128, j - 1) + [m % 128 + 0x80]
  }

  /** The `k`-byte prefix carrying the low `k` digits of `n` */
  function Fixed(n: nat, k: nat): (r: seq<byte>)
    requires k >= 1
    ensures |r| == k
  {
    Continued(n / 128, k - 1) + [n % 128]
  }

  /** The reference encoding: every digit of `n`, and nothing more */
  function Enc(n: nat): (r: seq<byte>)
    ensures |r| == Digits(n)
  {
    Fixed(n, Digits(n))
  }

  function Min(a: nat, b: nat): nat {
    if a <= b then a else b
  }

  /** What the encoders emit: the prefix carries at most MaxLengthBytes digits */
  function Prefix(n: nat): (r: seq<byte>)
    ensures 1 <= |r| <= MaxLengthBytes
  {
    Fixed(n, Min(Digits(n), MaxLengthBytes))
  }

  // ---------------------------------------------------------------------
  // Decoding

  /** Reads a prefix from the front of `s`, where `acc` holds the value of the
      `read` continuation bytes consumed so far: `acc = acc<<7 | b&0x7f` per byte,
      stopping at the first byte without the continuation bit. Returns the
      length and the rest of the stream. */
  function DecodeFrom(s: seq<byte>, acc: nat, read: nat): (r: Result<(nat, seq<byte>)>)
    requires read < MaxLengthBytes
    ensures r.Success? ==> |r.value.1| < |s| <= |r.value.1| + MaxLengthBytes - read
    decreases MaxLengthBytes - read
  {
    if |s| == 0 then Failure(Eof)
    else if !More(s[0]) then Success((acc * 128 + Payload(s[0]), s[1..]))
    else if read + 1 == MaxLengthBytes then Failure(TooLong)
    else DecodeFrom(s[1..], acc * 128 + Payload(s[0]), read + 1)
  }

  function DecodeLength(s: seq<byte>): (r: Result<(nat, seq<byte>)>)
    ensures r.Success? ==> 1 <= |s| - |r.value.1| <= MaxLengthBytes
  {
    DecodeFrom(s, 0, 0)
  }

  /** What the decoder leaves is the stream after the bytes it consumed. */
  lemma {:induction false} DecodeLeavesSuffix(s: seq<byte>, acc: nat, read: nat)
    requires read < MaxLengthBytes
    requires DecodeFrom(s, acc, read).Success?
    ensures s == s[..|s| - |DecodeFrom(s, acc, read).value.1|] + DecodeFrom(s, acc, read).value.1
    decreases MaxLengthBytes - read
  {
    if More(s[0]) {
      DecodeLeavesSuffix(s[1..], acc * 128 + Payload(s[0]), read + 1);
      assert s == [s[0]] + s[1..];
    }
  }

  // ---------------------------------------------------------------------
  // Properties of the encoding

  /** `n` has more than `k` digits exactly when it reaches 128^k. */
  lemma {:induction false} DigitsBound(n: nat, k: nat)
    requires k >= 1
    ensures Digits(n) > k <==> n >= Pow128(k)
    decreases n
  {
    if n >= 128 && k > 1 {
      DigitsBound(n / 128, k - 1);
    }
  }

  /** The `t`-th digit is `(n / 128^t) % 128`, i.e. `(n >> 7t) & 0x7f`. */
  lemma {:induction false} DigitIsShifted(n: nat, t: nat)
    ensures Digit(n, t) == (n / Pow128(t)) % 128
  {
    if t > 0 {
      DigitIsShifted(n / 128, t - 1);
      DivDiv128(n, Pow128(t - 1));
    }
  }

  lemma {:induction false} ContinuedAt(m: nat, j: nat, i: nat)
    requires i < j
    ensures Continued(m, j)[i] == Digit(m, j - 1 - i) + 0x80
  {
    if i < j - 1 {
      ContinuedAt(m / 128, j - 1, i);
    }
  }

  /** Byte `t` of a `k`-byte prefix carries digit `k-1-t`; all bytes but the
      last carry the continuation bit. */
  lemma FixedAt(n: nat, k: nat, t: nat)
    requires 1 <= k && t < k
    ensures Fixed(n, k)[t] == Digit(n, k - 1 - t) + (if t < k - 1 then 0x80 else 0)
  {
    if t < k - 1 {
      ContinuedAt(n / 128, k - 1, t);
    }
  }

  /** Wire format: the continuation bit is on in every byte but the last, and
      the last byte is `n & 0x7f`. */
  lemma PrefixFormat(n: nat)
    ensures forall t :: 0 <= t < |Prefix(n)| - 1 ==> More(Prefix(n)[t])
    ensures Prefix(n)[|Prefix(n)| - 1] == n % 0x80 && !More(Prefix(n)[|Prefix(n)| - 1])
  {
    var k := |Prefix(n)|;
    forall t | 0 <= t < k - 1
      ensures More(Prefix(n)[t])
    {
      FixedAt(n, k, t);
    }
  }

  /** The prefix is 1 + (how many of 128, 2^14, 2^21, 2^28 the length reaches)
      bytes long. */
  lemma PrefixLength(n: nat)
    ensures |Prefix(n)| == 1 + (if n >= 128 then 1 else 0) + (if n >= 0x4000 then 1 else 0)
                             + (if n >= 0x20_0000 then 1 else 0) + (if n >= 0x1000_0000 then 1 else 0)
  {
    DigitsBound(n, 1);
    DigitsBound(n, 2);
    DigitsBound(n, 3);
    DigitsBound(n, 4);
  }

  /** Below Bound the encoders emit the reference encoding, and from Bound on
      they do not. */
  lemma PrefixIsEnc(n: nat)
    ensures Prefix(n) == Enc(n) <==> n < Bound
  {
    DigitsBound(n, MaxLengthBytes);
    BoundIsPow();
  }

  lemma {:induction false} LeadingDigit(n: nat)
    ensures Digit(n, Digits(n) - 1) != 0 || n == 0
    decreases n
  {
    if n >= 128 {
      LeadingDigit(n / 128);
    }
  }

  /** Minimality: when a prefix takes more than one byte, its leading byte's
      payload is not zero (no needless 0x80 in front). */
  lemma EncodingMinimal(n: nat)
    requires n < Bound
    ensures |Prefix(n)| > 1 ==> Payload(Prefix(n)[0]) != 0
  {
    PrefixIsEnc(n);
    if |Enc(n)| > 1 {
      FixedAt(n, Digits(n), 0);
      LeadingDigit(n);
    }
  }

  // ---------------------------------------------------------------------
  // Decoding what was encoded

  /** One continuation byte: shift the accumulator by 7 bits, add the payload. */
  lemma DecodeStep(b: byte, tail: seq<byte>, acc: nat, read: nat)
    requires More(b) && read + 1 < MaxLengthBytes
    ensures DecodeFrom([b] + tail, acc, read) == DecodeFrom(tail, acc * 128 + Payload(b), read + 1)
  {
    assert ([b] + tail)[0] == b && ([b] + tail)[1..] == tail;
  }

  /** The accumulator after reading the `j` continuation bytes of `m` on top of `acc` */
  function Accumulated(acc: nat, m: nat, j: nat): nat {
    if j == 0 then acc else Accumulated(acc, m / 128, j - 1) * 128 + m % 128
  }

  lemma {:induction false} AccumulatedFromZero(m: nat, j: nat)
    ensures Accumulated(0, m, j) == m % Pow128(j)
  {
    if j > 0 {
      AccumulatedFromZero(m / 128, j - 1);
      ModStep128(m, Pow128(j - 1));
    }
  }

  /** The accumulator after reading the continuation bytes `s` on top of `acc`,
      front to back as the decoder reads them */
  function Gathered(acc: nat, s: seq<byte>): nat
    decreases |s|
  {
    if |s| == 0 then acc else Gathered(acc * 128 + Payload(s[0]), s[1..])
  }

  /** Continuation bytes are consumed one by one, folding their payloads into
      the accumulator, as long as the byte budget is not exhausted. */
  lemma {:induction false} DecodeContinuation(s: seq<byte>, tail: seq<byte>, acc: nat, read: nat)
    requires read + |s| < MaxLengthBytes
    requires forall t :: 0 <= t < |s| ==> More(s[t])
    ensures DecodeFrom(s + tail, acc, read) == DecodeFrom(tail, Gathered(acc, s), read + |s|)
    decreases |s|
  {
    if |s| > 0 {
      assert s + tail == [s[0]] + (s[1..] + tail);
      DecodeStep(s[0], s[1..] + tail, acc, read);
      DecodeContinuation(s[1..], tail, acc * 128 + Payload(s[0]), read + 1);
    } else {
      assert s + tail == tail;
    }
  }

  /** Folding one more byte at the end shifts the accumulator by 7 bits. */
  lemma {:induction false} GatheredSnoc(acc: nat, s: seq<byte>, b: byte)
    ensures Gathered(acc, s + [b]) == Gathered(acc, s) * 128 + Payload(b)
    decreases |s|
  {
    if |s| == 0 {
      assert s + [b] == [b];
    } else {
      assert (s + [b])[0] == s[0] && (s + [b])[1..] == s[1..] + [b];
      GatheredSnoc(acc * 128 + Payload(s[0]), s[1..], b);
    }
  }

  /** Every byte of `Continued(m, j)` carries the continuation bit. */
  lemma ContinuedMore(m: nat, j: nat)
    ensures forall t :: 0 <= t < j ==> More(Continued(m, j)[t])
  {
    forall t | 0 <= t < j
      ensures More(Continued(m, j)[t])
    {
      ContinuedAt(m, j, t);
    }
  }

  /** Folding the continuation bytes of `m` gathers its low `j` groups. */
  lemma {:induction false} GatheredContinued(acc: nat, m: nat, j: nat)
    ensures Gathered(acc, Continued(m, j)) == Accumulated(acc, m, j)
  {
    if j > 0 {
      var b: byte := m % 128 + 0x80;
      GatheredContinued(acc, m / 128, j - 1);
      GatheredSnoc(acc, Continued(m / 128, j - 1), b);
      ContinuationPayload(m);
    }
  }

  /** A continuation byte carries its group as payload. */
  lemma ContinuationPayload(m: nat)
    ensures Payload(m % 128 + 0x80) == m % 128
  {
  }

  /** Reading the `j` continuation bytes of `m` gathers its low `j` groups. */
  lemma DecodeContinued(m: nat, j: nat, tail: seq<byte>, acc: nat, read: nat)
    requires read + j < MaxLengthBytes
    ensures DecodeFrom(Continued(m, j) + tail, acc, read) == DecodeFrom(tail, Accumulated(acc, m, j), read + j)
  {
    ContinuedMore(m, j);
    DecodeContinuation(Continued(m, j), tail, acc, read);
    GatheredContinued(acc, m, j);
  }

  /** The accumulator after all `k` groups of `n` is `n mod 128^k`. */
  lemma AccumulatedFixed(n: nat, k: nat)
    requires k >= 1
    ensures Accumulated(0, n / 128, k - 1) * 128 + n % 128 == n % Pow128(k)
  {
    var p := Pow128(k - 1);
    assert Pow128(k) == 128 * p;
    AccumulatedFromZero(n / 128, k - 1);
    ModStep128(n, p);
  }

  /** The final byte of a prefix ends the decoding. */
  lemma DecodeLast(last: byte, rest: seq<byte>, acc: nat, read: nat)
    requires last < 0x80 && read < MaxLengthBytes
    ensures DecodeFrom([last] + rest, acc, read) == Success((acc * 128 + last, rest))
  {
    assert ([last] + rest)[0] == last && ([last] + rest)[1..] == rest;
  }

  /** A fixed-width prefix is its continuation bytes, then its final byte. */
  lemma FixedSplit(n: nat, k: nat, rest: seq<byte>)
    requires k >= 1
    ensures Fixed(n, k) + rest == Continued(n / 128, k - 1) + ([n % 128] + rest)
  {
  }

  /** A `k`-byte prefix decodes to `n mod 128^k`, leaving the rest of the stream. */
  lemma DecodeFixed(n: nat, k: nat, rest: seq<byte>)
    requires 1 <= k <= MaxLengthBytes
    ensures DecodeLength(Fixed(n, k) + rest) == Success((n % Pow128(k), rest))
  {
    var last: byte := n % 128;
    var acc := Accumulated(0, n / 128, k - 1);
    calc {
      DecodeLength(Fixed(n, k) + rest);
      DecodeFrom(Fixed(n, k) + rest, 0, 0);
      { FixedSplit(n, k, rest); }
      DecodeFrom(Continued(n / 128, k - 1) + ([last] + rest), 0, 0);
      { DecodeContinued(n / 128, k - 1, [last] + rest, 0, 0); }
      DecodeFrom([last] + rest, acc, k - 1);
      { DecodeLast(last, rest, acc, k - 1); }
      Success((acc * 128 + last, rest));
      { AccumulatedFixed(n, k); }
      Success((n % Pow128(k), rest));
    }
  }

  /** Round trip: every length below Bound decodes back from its encoding. */
  lemma RoundTrip(n: nat, rest: seq<byte>)
    requires n < Bound
    ensures DecodeLength(Enc(n) + rest) == Success((n, rest))
  {
    var d := Digits(n);
    DigitsBound(n, MaxLengthBytes);
    BoundIsPow();
    assert d <= MaxLengthBytes;
    DigitsBound(n, d);
    assert n < Pow128(d);
    DivModUnique(n, Pow128(d), 0, n);
    DecodeFixed(n, d, rest);
  }

  /** What the encoders emit decodes to the length modulo 2^35: lengths from
      Bound on lose their high bits without an error. */
  lemma PrefixDecodes(n: nat, rest: seq<byte>)
    ensures DecodeLength(Prefix(n) + rest) == Success((n % Bound, rest))
  {
    BoundIsPow();
    DigitsBound(n, MaxLengthBytes);
    if n < Bound {
      RoundTrip(n, rest);
    } else {
      DecodeFixed(n, MaxLengthBytes, rest);
    }
  }

  /** Silent truncation, concretely: 2^35 goes out as a five-byte prefix that
      reads back as 0. */
  lemma TruncationExample()
    ensures Prefix(Bound) == [0x80, 0x80, 0x80, 0x80, 0x00]
    ensures DecodeLength(Prefix(Bound)) == Success((0, []))
  {
    PrefixDecodes(Bound, []);
    assert Prefix(Bound) + [] == Prefix(Bound);
  }

  /** The worked examples of the protocol, both ways. */
  lemma Vectors()
    ensures Enc(0) == [0] && Enc(1) == [1] && Enc(127) == [127]
    ensures Enc(128) == [129, 0]
    ensures Enc(268435456) == [129, 128, 128, 128, 0]
    ensures DecodeLength([0]) == Success((0, [])) && DecodeLength([1]) == Success((1, []))
    ensures DecodeLength([127]) == Success((127, [])) && DecodeLength([129, 0]) == Success((128, []))
    ensures DecodeLength([129, 128, 128, 128, 0]) == Success((268435456, []))
  {
  }

  // ---------------------------------------------------------------------
  // Properties of the decoder

  /** A decoded value is below 128^(bytes consumed), so always below Bound. */
  lemma {:induction false} DecodedBelow(s: seq<byte>, acc: nat, read: nat)
    requires read < MaxLengthBytes && acc < Pow128(read)
    requires DecodeFrom(s, acc, read).Success?
    ensures DecodeFrom(s, acc, read).value.0 < Pow128(read + |s| - |DecodeFrom(s, acc, read).value.1|)
    decreases MaxLengthBytes - read
  {
    var acc' := acc * 128 + Payload(s[0]);
    assert acc' < Pow128(read + 1);
    if More(s[0]) {
      DecodedBelow(s[1..], acc', read + 1);
    }
  }

  /** No byte string shorter than Enc(n) decodes to n: the encoding is the
      shortest possible. */
  lemma EncShortest(s: seq<byte>, n: nat, rest: seq<byte>)
    requires DecodeLength(s) == Success((n, rest))
    ensures n < Bound
    ensures |s| - |rest| >= |Enc(n)|
  {
    DecodedBelow(s, 0, 0);
    var used := |s| - |rest|;
    DigitsBound(n, used);
    assert Pow128(used) <= Pow128(MaxLengthBytes) by { Pow128Monotone(used, MaxLengthBytes); }
    BoundIsPow();
  }

  lemma {:induction false} Pow128Monotone(a: nat, b: nat)
    requires a <= b
    ensures Pow128(a) <= Pow128(b)
  {
    if a < b {
      Pow128Monotone(a, b - 1);
    }
  }

  /** Five bytes that all carry the continuation bit are rejected as too long. */
  lemma TooLongRejected(s: seq<byte>)
    requires |s| >= MaxLengthBytes
    requires forall t :: 0 <= t < MaxLengthBytes ==> More(s[t])
    ensures DecodeLength(s) == Failure(TooLong)
  {
    assert s[1..][1..][1..][1..][0] == s[4];
  }

  /** A stream that ends while the continuation bit is still set is cut short. */
  lemma {:induction false} EofRejected(s: seq<byte>, acc: nat, read: nat)
    requires read + |s| < MaxLengthBytes
    requires forall t :: 0 <= t < |s| ==> More(s[t])
    ensures DecodeFrom(s, acc, read) == Failure(Eof)
    decreases |s|
  {
    if |s| > 0 {
      EofRejected(s[1..], acc * 128 + Payload(s[0]), read + 1);
    }
  }

  // ---------------------------------------------------------------------
  // Length-prefixed strings

  /** A string as the client writes it: its length prefix, then its bytes */
  function Framed(p: seq<byte>): (r: seq<byte>)
    ensures |r| == |Prefix(|p|)| + |p|
  {
    Prefix(|p|) + p
  }

  /** Below 2^35 a framed string is the reference encoding of its length, then its bytes. */
  lemma FramedIsEnc(p: seq<byte>)
    requires |p| < Bound
    ensures Framed(p) == Enc(|p|) + p
  {
    PrefixIsEnc(|p|);
  }

  /** How the peer reads a string: decode the prefix, then take that many bytes. */
  function ReadString(s: seq<byte>): (r: Result<(seq<byte>, seq<byte>)>)
    ensures r.Success? ==> |r.value.0| + |r.value.1| < |s|
  {
    match DecodeLength(s)
    case Failure(e) => Failure(e)
    case Success((n, rest)) =>
      if |rest| < n then Failure(Eof) else Success((rest[..n], rest[n..]))
  }

  lemma FramedDecodes(p: seq<byte>, rest: seq<byte>)
    requires |p| < Bound
    ensures DecodeLength(Framed(p) + rest) == Success((|p|, p + rest))
  {
    var n := |p|;
    assert Framed(p) + rest == Prefix(n) + (p + rest);
    PrefixDecodes(n, p + rest);
    BelowBound(n);
  }

  lemma BelowBound(n: nat)
    requires n < Bound
    ensures n % Bound == n
  {
  }

  /** The peer gets back exactly the string the client framed. */
  lemma ReadFramed(p: seq<byte>, rest: seq<byte>)
    requires |p| < Bound
    ensures ReadString(Framed(p) + rest) == Success((p, rest))
  {
    FramedDecodes(p, rest);
    assert (p + rest)[..|p|] == p && (p + rest)[|p|..] == rest;
  }
}
