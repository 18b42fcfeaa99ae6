# minissdpc: the length-prefix codec and the client, in Dafny

minissdpc is a Go client for minissdpd, the SSDP daemon. It talks to the
daemon over a Unix socket with a small binary protocol. Every string on the
wire is preceded by its length, written as a variable-length prefix:

- the length is written in base 128, most significant 7-bit group first;
- every byte but the last carries the continuation bit 0x80;
- at most `MaxLengthBytes` = 5 bytes are used.

This project models two parts of it:

- **The length encoder.** `minissdpd_test.go` holds three implementations of
  it: a loop over `pow(128, i)`, a chain of independent `if`s, and a slice of
  a fixed five-byte array. Each is modelled as an imperative method building
  the byte slice, and each is proved to emit exactly `Prefix(n)`.
  - `Enc` is the reference encoding. `DecodeLength` is the reference decoder.
  - Proved: round trip, wire format, prefix length, minimality and the test
    vectors.
- **The client.** A `Client` holds at most one connection. `Connect`,
  `Close`, `Write`, `WriteString` and `RegisterService` are methods with
  contracts matching what `client_test.go` asserts.
  - A connection is a `Stream` that records the bytes written to it.
  - The daemon's side is a pure reader of those bytes: `ReadString` and
    `ReadService`.

The encoders take any non-negative Go `int`. They do not require the length to
be below 2^35, because the code does not check it: `byte(n>>28|0x80)` keeps
only bits 28 to 34. The model keeps this behaviour as written:

- `PrefixIsEnc`: the emitted prefix is the reference encoding exactly when
  `n < 2^35`;
- `PrefixDecodes`: what is emitted always decodes to `n mod 2^35`;
- `TruncationExample`: 2^35 goes out as `[0x80, 0x80, 0x80, 0x80, 0x00]` and
  reads back as 0.

Go's bit operations are written out on unbounded integers in `GoBits`:

- `byte(x)` is `x % 256`;
- `x >> k` is division by `2^k`;
- `x | 0x80` sets bit 7;
- `x & 0x7f` is `x % 128`.

Files:

| file | module | contents |
|---|---|---|
| errors.dfy | Errors | error kinds, `Result` and `Outcome` (Go's `error`) |
| gobits.dfy | GoBits | `byte`, Go `int` range, shifts and masks as arithmetic |
| length_codec.dfy | LengthCodec | `Enc`, `Prefix`, `DecodeLength`, framed strings, their lemmas |
| streams.dfy | Streams | `Stream`, an `io.Writer` that records what it is given |
| encoders.dfy | Encoders | the three encoder variants, `EncodeStringLength`, `EncodeString` |
| client.dfy | Minissdpc | `Service`, its registration body, the `Client` class |
| client_scenarios.dfy | ClientScenarios | the client tests' exchanges as verified methods |

## Model

| member | source | states |
|---|---|---|
| GoBits.ToByteOrHigh | minissdpd_test.go:23 | `byte(x OR 0x80)` is the low 7 bits of `x` plus 0x80 |
| GoBits.ToByteLow7 | minissdpd_test.go:27 | `byte(x & 0x7f)` is the low 7 bits of `x` |
| GoBits.Pow2Sevens | minissdpd_test.go:21-23 | shifting right by `7*i` divides by `pow(128, i)` |
| GoBits.Shr | minissdpd_test.go:23 | `x >> k` is never larger than `x` |
| GoBits.ShrIsFloor | minissdpd_test.go:45-54 | `x >> k` is the floor of `x / 2^k`: `2^k * (x >> k) <= x < 2^k * ((x >> k) + 1)` |
| GoBits.OrHigh | minissdpd_test.go:23 | `x OR 0x80` has bit 7 set |
| GoBits.OrHighKeepsOtherBits | minissdpd_test.go:72-75 | `x OR 0x80` leaves bits 0 to 6 and every bit from 8 up as they were in `x` |
| GoBits.Low7 | minissdpd_test.go:27 | `x & 0x7f` is below 0x80, at most `x`, and differs from `x` by a multiple of 0x80 |
| GoBits.ToByte | minissdpd_test.go:23 | `byte(x)` is at most `x` and differs from `x` by a multiple of 256 |
| LengthCodec.Prefix | minissdpd_test.go:18-27 | the emitted prefix has 1 to `MaxLengthBytes` bytes |
| LengthCodec.DigitIsShifted | minissdpd_test.go:23 | group `t` of `n` is `(n >> 7t) & 0x7f` |
| LengthCodec.PrefixFormat | minissdpd_test.go:44-56 | every byte but the last has bit 0x80 set; the last is `n & 0x7f`, below 0x80 |
| LengthCodec.PrefixLength | minissdpd_test.go:79-90 | the prefix is 1 + (number of thresholds 128, 2^14, 2^21, 2^28 that `n` reaches) bytes long |
| LengthCodec.PrefixIsEnc | minissdpd_test.go:20-27 | the emitted prefix equals the reference encoding if and only if `n < 2^35` |
| LengthCodec.EncodingMinimal | minissdpd_test.go:80-90 | for `n < 2^35`, a prefix longer than one byte has a non-zero leading payload |
| LengthCodec.DecodeLength | minissdpd_test.go:128-138 | a successful decode consumes 1 to 5 bytes from the front of the stream |
| LengthCodec.DecodeLeavesSuffix | minissdpd_test.go:128-138 | what the decoder leaves is the stream after the bytes it consumed |
| LengthCodec.DecodeContinuation | minissdpd_test.go:128-138 | bytes with the continuation bit are consumed one by one, each shifting the accumulator by 7 bits and adding its payload |
| LengthCodec.DecodeFixed | minissdpd_test.go:128-138 | a `k`-byte prefix of `n` decodes to `n mod 128^k` and leaves the rest of the stream |
| LengthCodec.RoundTrip | minissdpd_test.go:128-138 | for `n < 2^35`, decoding `Enc(n)` followed by anything gives `n` and that remainder |
| LengthCodec.PrefixDecodes | minissdpd_test.go:45 | decoding what the encoders emit gives `n mod 2^35`: high bits are dropped without an error |
| LengthCodec.TruncationExample | minissdpd_test.go:72 | 2^35 is emitted as `[0x80,0x80,0x80,0x80,0x00]`, which decodes to 0 |
| LengthCodec.Vectors | minissdpd_test.go:104-108 | the five test vectors encode and decode both ways |
| LengthCodec.DecodedBelow | minissdpd_test.go:128-138 | a value decoded from `j` bytes is below `128^j`, so below 2^35 |
| LengthCodec.EncShortest | minissdpd_test.go:128-138 | any stream that decodes to `n` spends at least as many bytes on it as `Enc(n)` has, and `n` is below 2^35 |
| LengthCodec.TooLongRejected | minissdpd_test.go:128-138 | five bytes that all carry the continuation bit fail with TooLong |
| LengthCodec.EofRejected | minissdpd_test.go:128-138 | a stream that ends inside a prefix fails with Eof |
| LengthCodec.Framed | client_test.go:185-189 | a framed string is its prefix bytes plus its payload bytes long |
| LengthCodec.FramedIsEnc | client_test.go:180-189 | below 2^35 a framed string is `Enc(len(s))` followed by `s` |
| LengthCodec.ReadString | client_test.go:94-103 | the peer reads a string by decoding its length and taking that many bytes, and consumes more than it returns |
| LengthCodec.FramedDecodes | client_test.go:94 | the length of a framed string decodes back, leaving the payload in front |
| LengthCodec.ReadFramed | client_test.go:94-105 | the peer reads back exactly the framed string and leaves the rest of the stream |
| Streams.Stream.Close | client_test.go:137-139 | closing marks the connection closed and keeps the bytes already written to it |
| Streams.Stream.Write | minissdpd_test.go:29-32 | a write either appends all the bytes and reports their number, or fails and appends nothing |
| Encoders.ShiftedByte | minissdpd_test.go:45-54 | `byte(n>>(7i) OR 0x80)` is group `i` of `n` with the continuation bit |
| Encoders.CandidateBytes | minissdpd_test.go:71-77 | the five candidate bytes of the no-append variant are the five-byte prefix of `n` |
| Encoders.UpperIsPrefixFront | minissdpd_test.go:20-26 | the bytes the loop appends for groups above `i` are the front of the prefix |
| Encoders.ReverseBuffer | minissdpd_test.go:17-27 | the reverse-loop slice is `Prefix(n)`, and `Enc(n)` when `n < 2^35` |
| Encoders.NoLoopBuffer | minissdpd_test.go:41-56 | the independent-`if` slice is `Prefix(n)`, and `Enc(n)` when `n < 2^35` |
| Encoders.NoAppendBuffer | minissdpd_test.go:70-92 | the sliced fixed array is `Prefix(n)`, and `Enc(n)` when `n < 2^35` |
| Encoders.VariantsAgree | minissdpd_test.go:12-97 | the three variants emit identical bytes for every non-negative length |
| Encoders.EncodeLengthReverse | minissdpd_test.go:12-34 | negative length: InvalidLength, nothing written; else one write of `Prefix(n)`, or a wrapped writer error with nothing written |
| Encoders.EncodeLengthNoLoop | minissdpd_test.go:36-63 | as above, for the no-loop variant |
| Encoders.EncodeLengthNoAppend | minissdpd_test.go:65-97 | as above, for the no-append variant |
| Encoders.EncodeStringLength | minissdpd_test.go:142-157 | a negative length is refused first, then a nil writer; otherwise `Prefix(n)` is written once |
| Encoders.NegativeLengthRefused | minissdpd_test.go:142-150 | length -1 with a nil writer fails with InvalidLength |
| Encoders.NilWriterRefused | minissdpd_test.go:152-157 | length 1 with a nil writer fails with an error other than InvalidLength |
| Encoders.EncodeVectors | minissdpd_test.go:111-126 | each test length, encoded into a fresh buffer, yields exactly its expected bytes |
| Encoders.PrefixVectors | minissdpd_test.go:104-108 | the encoders emit exactly the five expected byte vectors |
| Encoders.EncodeString | client_test.go:180-189 | a string goes out as its prefix then its bytes; the count is prefix plus payload |
| Minissdpc.Service.Bytes | client_test.go:224-229 | the registration body is the four payloads plus 1 to 5 prefix bytes per field |
| Minissdpc.Service.EncodeTo | client_test.go:224-232 | writes Type, USN, Server, Location, each length-prefixed, and counts every byte; on failure nothing is written |
| Minissdpc.ReadService | client_test.go:224-232 | the daemon reads a registration body as four strings in order |
| Minissdpc.ServiceRoundTrip | client_test.go:224-232 | the daemon reads back exactly the registered service and leaves the rest of the stream |
| Minissdpc.Client.constructor | client_test.go:147-148 | a new client holds no connection |
| Minissdpc.Client.Connect | client_test.go:125-143 | a client with no connection gets a fresh, open, empty one that is broken exactly when `healthy` is false, or DialFailed; an open client answers AlreadyOpen and keeps its connection |
| Minissdpc.Client.Close | client_test.go:137-144 | always succeeds; the connection is closed with its bytes intact and the client is left without one |
| Minissdpc.Client.Write | client_test.go:147-154 | with no connection: NilConn, nothing touched; otherwise the bytes are appended, or a transport error |
| Minissdpc.Client.WriteString | client_test.go:180-189 | appends the framed string and reports prefix plus payload bytes; NilConn with no connection |
| Minissdpc.Client.RegisterService | client_test.go:224-232 | appends the register kind byte and the service body; nothing is read |
| ClientScenarios.Connections | client_test.go:121-145 | Connect succeeds, a second Connect gives AlreadyOpen, Close succeeds, and Connect succeeds again |
| ClientScenarios.NilConnWrite | client_test.go:147-154 | Write on a never-connected client fails with NilConn |
| ClientScenarios.BrokenConnWrite | client_test.go:175-178 | Write on a connection the daemon has dropped reports 0 bytes and a transport error, and nothing reaches the wire |
| ClientScenarios.WriteStringExchange | client_test.go:156-204 | WriteString("minissdp") reports 9 bytes, and the peer reads the kind byte and then "minissdp" back |
| ClientScenarios.DummyEncodable | client_test.go:224-229 | the test's service has field lengths that the prefix encodes exactly |
| ClientScenarios.RegisterExchange | client_test.go:206-233 | after the mock's kind byte, registration succeeds and the daemon reads the service back |

## Left out

- The source of `EncodeStringLength` and `DecodeStringLength` is not part of
  this model.
  - `EncodeStringLength` follows its tests: the negative check, then the
    nil-writer check, then the same bytes as the three variants.
  - `DecodeLength` is a reference decoder for the format. It reads at most
    five bytes: a fifth byte that still carries the continuation bit is
    refused, so `[0x80, 0x80, 0x80, 0x80, 0x80, 0x00]` yields TooLong.
- The `Client` type's source is not part of this model either.
  - Its methods follow `client_test.go` and the protocol's framing.
  - `WriteString` writes the prefix and then the payload.
  - `RegisterService` writes the register kind byte and then the service body.
- RequestTypeRegister: the value 4 is minissdpd's request code for submitting
  a service. Its declaration is not part of this model.
- Encoders.EncodeLengthReverse: requires a writer whenever the length is
  non-negative, because the Go code would call `Write` on a nil writer and
  panic. A panic is not modelled. The same holds for
  Encoders.EncodeLengthNoLoop and Encoders.EncodeLengthNoAppend.
- Dialing and operating-system errors are not modelled.
  - Whether the socket accepts the connection is the `listening` parameter of
    `Connect`.
  - Whether the daemon keeps its end of the connection usable is the
    `healthy` parameter of `Connect`; it does not change afterwards.
  - Every failed write is the one `Transport` error.
- Minissdpc.Client.Close: always reports success, because an error from
  closing the socket is not modelled.
- Partial writes: a `Stream` takes all of a write or none of it.
  - As a result, a failed `EncodeTo` or `RegisterService` has written nothing.
  - On a real socket it could have written part of the request.
- Reads are not modelled. A connection records only the bytes the client
  sends.
  - What the daemon does with them is stated by the pure readers
    `ReadString` and `ReadService`.
  - The mock server's echo reply in `TestClientWriteString` is therefore not
    modelled.
- ClientScenarios.RegisterExchange: holds for every service whose field
  lengths are below 2^35, rather than only for the test's literal strings.
  `DummyEncodable` shows that the test's service is one of them.
- The mock server (`mockServer`, `handle`, listener, goroutine, temporary
  directory, sleep) is socket and concurrency plumbing. Only its reading of
  the request bytes is kept.
- `GetServicesByType`, `GetServicesByUSN`, `GetServicesAll` and the
  response decoder `decodeServices` are left out. Their code and tests are
  not part of this model, so their byte layouts would be guesses.
- The benchmarks in `minissdpd_test.go` measure speed only.
- The command-line program in `cmd/minissdpc` is glue: flags, printing, exit
  codes and the global client.
- `pow(128, i)` is taken as the exact power `Pow128(i)`. Its definition is
  not part of this model.
- Go's `uint` conversion of a non-negative `int` keeps the value, so it is
  not modelled.
