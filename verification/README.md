# go-otp, modelled in Dafny

This project models the one-time-password engine of `go-otp` (`otp.go`),
which has two parts:

- **Code generation (HOTP, RFC 4226).** The base32 key is decoded after
  upper-casing. The count becomes an 8-byte big-endian counter block, and
  that block is MACed with HMAC. The MAC is cut down by dynamic truncation
  (section 5.3 of RFC 4226). The result is reduced modulo 10^tokenLen and
  printed in decimal, padded with '0' on the left.
- **Verification.** A submitted code is compared with the code at the
  current count, then with the codes `i` counts behind and ahead for
  `i = 1 .. skew - 1`. The current count comes from a time counter
  (section 4.2 of RFC 6238).

The project also models the construction of TOTP engines and the query
parameters of the `otpauth://` provisioning URL.

The files are:

- `Bytes.dfy` covers octets, big-endian `uint64` encoding (`PutUint64`) and
  Go's `int64`/`uint64` two's-complement reinterpretations.
- `Decimal.dfy` covers `strconv.Itoa`, exact powers of ten and '0' padding.
- `Otp.dfy` covers `ToUpper`, truncation, the counter block, `genKey`, the
  time counter, the engine (`GenerateCode`, `VerifyCode`) and its
  constructors.
- `Provisioning.dfy` covers the `AuthURL` query parameters.

HMAC and base32 decoding are library services, so they are not modelled
here. They are the two function-typed fields of `Otp.Primitives`, and every
operation that uses them takes that value as a parameter. Everything proved
therefore holds for any MAC whose output has the digest size of its hash
(`FullDigests`) and for any decoder. The clock is a parameter too: `Count`
and `VerifyCode` take `now`, the Unix time in seconds.

## Model

| member | source | states |
|---|---|---|
| Bytes.Uint64 | otp.go:105 | `uint64(count)` is the count modulo 2^64 and lies in `[0, 2^64)` |
| Bytes.Int64Wrap | otp.go:82-83 | Go's wrapping `int64` arithmetic on `count ± int64(i)` stays in `[-2^63, 2^63)` |
| Bytes.Int64WrapCongruent | otp.go:82-83 | both reinterpretations agree with the value modulo 2^64 and leave in-range values unchanged |
| Bytes.Uint64OfInt64Wrap | otp.go:82-83 | an `int64` wrap-around before the `uint64` conversion does not change the result |
| Bytes.ToBigEndian | otp.go:104-105 | the big-endian encoding of a value has exactly the requested number of bytes |
| Bytes.FromBigEndian | otp.go:104-105 | reading `n` bytes big-endian gives a value below 256^n |
| Bytes.FromToBigEndian | otp.go:104-105 | decoding the `n`-byte encoding gives the value modulo 256^n |
| Bytes.ToFromBigEndian | otp.go:104-105 | encoding the value of a byte string gives the same bytes back |
| Bytes.ToBigEndianAt | otp.go:104-105 | byte `k` of the encoding is `(v / 256^(n-1-k)) mod 256`, i.e. `byte(v >> (8(n-1-k)))` |
| Bytes.PutUint64 | otp.go:105 | `binary.BigEndian.PutUint64` writes the 8-byte big-endian encoding of `v` into `b[0..8]` and leaves the rest of the buffer unchanged |
| Decimal.Pow10 | otp.go:63 | the modulus `10^tokenLen` is at least 1 |
| Decimal.DecimalValue | otp.go:63 | the value of `n` decimal digits is below 10^n |
| Decimal.Itoa | otp.go:63 | `strconv.Itoa` of a non-negative number is a non-empty digit string, one digit long exactly for numbers below 10 |
| Decimal.ItoaValue | otp.go:63 | reading the decimal text back gives the number |
| Decimal.ItoaCanonical | otp.go:63 | the text starts with '0' only for zero (no leading zeros) |
| Decimal.ItoaFits | otp.go:63-66 | the text fits in `k` characters exactly when the number is below 10^k, so a reduced code never needs truncating |
| Decimal.FormatInt | otp.go:159-167 | `strconv.Itoa` on any integer starts with '-' exactly for negative numbers |
| Decimal.ParseFormatInt | otp.go:159-167 | the integer text parses back to the integer |
| Decimal.Zeros | otp.go:67 | `strings.Repeat("0", n)` is `n` characters, all '0' |
| Decimal.PadLeft | otp.go:65-68 | the padded code has length `max(len, tokenLen)`, ends with the unpadded text and is '0' before it |
| Decimal.LeadingZerosValue | otp.go:65-68 | padding with '0' does not change the decimal value |
| Decimal.PaddedItoa | otp.go:63-68 | a code value below 10^tokenLen, printed and padded, is `tokenLen` digits (1 when `tokenLen` is 0) and reads back as the value |
| Decimal.DecimalValueInjective | otp.go:63-68 | two digit strings of the same length and value are equal |
| Otp.DigestSize | otp.go:61 | each configured hash yields at least 20 MAC bytes |
| Otp.ToUpper | otp.go:55 | `strings.ToUpper` keeps the length and leaves no letter whose capital is an ASCII letter ('a'..'z', 'ı', 'ſ'). It changes only those letters, each to its capital |
| Otp.ToUpperFoldsDotlessIAndLongS | otp.go:55 | a worked example of `ToUpper`'s contract: 'ı' and 'ſ' upper-case to the base32 letters 'I' and 'S' |
| Otp.ToUpperKeepsUpper | otp.go:55 | text without such letters is unchanged |
| Otp.ToUpperIdempotent | otp.go:55 | upper-casing twice is upper-casing once |
| Otp.LowNibble | otp.go:94 | the truncation offset `int(b[len-1]) & 0xf` is below 16 |
| Otp.LowNibbleIsMask | otp.go:94 | `LowNibble` is exactly the bit mask `& 0xf` on an octet |
| Otp.ClearTopBit | otp.go:95 | `int(b[offset]) & 0x7f` is below 128 |
| Otp.ClearTopBitIsMask | otp.go:95 | `ClearTopBit` is exactly the bit mask `& 0x7f` on an octet |
| Otp.TruncationOffset | otp.go:94 | the offset comes from the last MAC byte and is below 16 |
| Otp.Truncate | otp.go:93-100 | `truncate` gives a non-negative value below 2^31 |
| Otp.TruncateIsLast31BitsOfWindow | otp.go:93-100 | the truncation is the 4-byte window at the offset, read big-endian, modulo 2^31 (DBC2 of RFC 4226 section 5.3) |
| Otp.TruncateIsLast31Bits | otp.go:95-98 | the weighted sum of the four window bytes, with the top byte taken modulo 128, is the window's big-endian value modulo 2^31 |
| Otp.TruncateReadsWindow | otp.go:93-100 | truncation depends only on the last byte and the 4-byte window it selects |
| Otp.CounterBlock | otp.go:104-105 | the MACed counter block is 8 bytes |
| Otp.CounterBlockValue | otp.go:104-105 | the block read big-endian is `uint64(count)`, two's complement for negative counts |
| Otp.CounterBlockAt | otp.go:104-105 | byte `k` of the block is `(uint64(count) / 256^(7-k)) mod 256` |
| Otp.CounterBlockInjective | otp.go:104-105 | two counts give the same block exactly when they agree modulo 2^64 |
| Otp.CounterBlockWrap | otp.go:82-83 | the `int64` wrap-around of `count ± i` does not change the block |
| Otp.Mac | otp.go:102-108 | the MAC of the counter block has its hash's digest size |
| Otp.GenKey | otp.go:102-108 | `genKey` MACs, under the key, the block `PutUint64` wrote into a fresh 8-byte buffer. The result is `Mac`, which `CodeValue` uses |
| Otp.TimeCounter.Count | otp.go:30-32 | the count `c` is the floor of `(now - step) / interval`: `c * interval <= now - step < (c + 1) * interval` |
| Otp.CountMonotone | otp.go:30-32 | the count never decreases as the clock advances |
| Otp.CountAdvancesPerInterval | otp.go:30-32 | one interval later the count is exactly one higher |
| Otp.CodeOf | otp.go:75 | `VerifyCode` discards the error. A failed generation yields "", and a successful one yields its code |
| Otp.Hotp.GenerateCode | otp.go:54-71 | generation fails exactly when decoding the upper-cased key fails. It then returns the decoder's error unchanged, for any `tokenLen` |
| Otp.Hotp.CodeValue | otp.go:61-63 | the number the code spells out is below 10^tokenLen |
| Otp.Hotp.GenerateCodeFormat | otp.go:54-71 | with a decodable key the code is all digits and `tokenLen` long (1 when `tokenLen` is 0), and its value is `truncate(mac) mod 10^tokenLen` |
| Otp.Hotp.GenerateCodeIsFixedWidthDecimal | otp.go:61-68 | a `tokenLen`-digit string is the generated code exactly when its value is `truncate(mac) mod 10^tokenLen` |
| Otp.Hotp.GenerateCodeIgnoresCase | otp.go:55 | a key and its upper-cased form give the same result |
| Otp.Hotp.CodeAt | otp.go:75 | the code `VerifyCode` compares, with the generation error dropped, is "" exactly when the key does not decode; otherwise it is the generated code |
| Otp.Hotp.Codes | otp.go:82-83 | the code Go regenerates at each count after the `int64` wrap of `currentCount ± int64(i)` is the code at the true count |
| Otp.Hotp.VerifyCode | otp.go:73-91 | `VerifyCode` returns true exactly when the code equals a regenerated code at some offset from the current count whose absolute value is below `max(skew, 1)` |
| Otp.Hotp.CodeAtWrap | otp.go:82-83 | the code at an `int64`-wrapped count is the code at the mathematical count |
| Otp.Hotp.CodesAgree | otp.go:82-83 | the codes `VerifyCode` regenerates at `current ± i` are the codes at the true counts |
| Otp.Hotp.AcceptsCurrentCode | otp.go:74-79 | the code for the current count is accepted at every skew |
| Otp.Hotp.MalformedKeyAcceptsOnlyEmpty | otp.go:75-85 | with a key that does not decode, exactly the empty code is accepted, for any `tokenLen` |
| Otp.Hotp.VerifyCodeRejectingErrors | otp.go:73-91 | verification with generation errors as non-matches accepts exactly when the key decodes and `VerifyCode` accepts. It never accepts "" |
| Otp.Hotp.WellFormedKeyRejectsEmpty | otp.go:73-91 | with a key that decodes, the empty code is never accepted |
| Otp.Window | otp.go:77-81 | the compared offsets are those with absolute value below `max(skew, 1)` |
| Otp.ScanWindow | otp.go:74-90 | the search loop (current count first, then `current ± i` for `i < skew`) returns true exactly when some offset in the window matches |
| Otp.InWindowAt | otp.go:85-86 | a match at any offset inside the window means acceptance |
| Otp.NoMatchAtStart | otp.go:77-79 | if the current code does not match, no offset with absolute value below 1 matches |
| Otp.NoMatchExtends | otp.go:81-88 | a round of the loop without a match extends the checked range by one on each side |
| Otp.NoMatchRejects | otp.go:81-90 | when the loop ends without a match, no offset in the window matches |
| Otp.WindowStep | otp.go:81-85 | raising the skew from `s` to `s + 1` adds exactly the offsets `-s` and `+s`, so a configured skew never reaches its own value |
| Otp.NarrowWindow | otp.go:77-81 | a skew of 1 or less compares only the current count |
| Otp.WindowMonotone | otp.go:81 | a larger skew accepts everything a smaller skew does |
| Otp.NewTotp | otp.go:110-118 | `NewTOTP` builds an engine with the given hash over a time counter with the given interval and step |
| Otp.DefaultTotp | otp.go:120-122 | `DefaultTOTP` uses SHA-1, 30-second intervals and step 0 |
| Otp.DefaultTotpCounts | otp.go:120-122 | the default engine's counts at the Appendix B clock values of RFC 6238 are the time steps listed there |
| Provisioning.Add | otp.go:148 | `url.Values.Add` appends the value under its name and leaves the other names unchanged |
| Provisioning.AuthUrl.Values | otp.go:145-171 | the query always holds `secret`, holds each text field exactly when it is non-empty and each integer field, in decimal, exactly when it is non-zero, each with one value, and no other name |
| Provisioning.ParseQuery | otp.go:145-171 | a reference inverse of `values()`, not part of the source, used to state the round trip. Reading a query back keeps the given type and label |
| Provisioning.QueryRoundTrip | otp.go:145-171 | the query loses nothing: reading an absent text as "" and an absent integer as 0 recovers every parameter field |
| Provisioning.CarriesDetermines | otp.go:145-171 | two URLs with the same query agree on every parameter field |
| Provisioning.CarriesUnique | otp.go:145-171 | the parameters determine the query completely |

## Left out

- HMAC (RFC 2104 with SHA-1, SHA-256 and SHA-512) and base32 decoding
  (RFC 4648) are parameters, not models. `FullDigests` requires only that
  each MAC has its hash's digest size. As a result, the known-answer codes
  of RFC 4226 Appendix D and RFC 6238 Appendix B cannot be stated.
  `DefaultTotpCounts` states only the time steps of RFC 6238.
- `Otp.ToUpper` folds only 'a'..'z', 'ı' (U+0131) and 'ſ' (U+017F), the
  letters whose capitals are ASCII letters. Go's `strings.ToUpper` also
  upper-cases other Unicode letters, and the model keeps those unchanged.
  Their Go capitals are also non-ASCII, so a standard base32 decoder rejects
  the key either way. Invalid UTF-8 in the key is not modelled.
- `Otp.TimeCounter.Count` computes in exact integers. Go divides in
  `float64` and floors. The two agree while `now - step` and `interval` are
  exactly representable and the quotient's rounding does not cross an
  integer. The conversion of out-of-range floats to `int64` is left out, and
  the count is not narrowed to `int64` (it is unbounded here).
- `Otp.TimeCounter.Count` requires a positive interval, so the model
  excludes negative intervals. For those, Go computes a finite floor, for
  example -2 for interval -30, now 60 and step 0. For interval 0 the
  quotient is infinite or NaN, and its `int64` conversion is
  implementation-defined.
- `Otp.Hotp.CodeValue` uses the exact 10^tokenLen. Go converts
  `math.Pow10(tokenLen)` to `int`. On 64-bit platforms that conversion is
  exact up to `tokenLen = 18` and implementation-defined from 19 on,
  because 10^19 exceeds `int64`. On 32-bit platforms, where `int` has 32
  bits, it is out of range from `tokenLen = 10` on.
- `Otp.Hotp.GenerateCode` requires `TokenLenAllowed`, that is
  `tokenLen >= 0` whenever the key decodes. With a negative `tokenLen` and a
  decodable key, Go's `int(math.Pow10(tokenLen))` is 0 and the `%` panics.
  With an undecodable key, any `tokenLen` returns the decode error.
- `Otp.Hotp.GenerateCode` requires `FullDigests`. On a MAC too short for the
  4-byte window, Go's `truncate` panics on an index out of range.
- `Otp.Hotp.VerifyCode` takes the clock value `now` as a parameter in place
  of `time.Now()`. The engine's counter is always the time counter, since
  that is the only `Counter` the source constructs.
- `Otp.HashAlgo` has only SHA-1, SHA-256 and SHA-512. `NewTOTP` accepts
  any `crypto.Hash`, but other hashes are not modelled. One example is MD5,
  whose 16-byte digest makes `truncate` index out of range for offsets of
  13 or more.
- The `OTP` and `Counter` interfaces and the accessors `Counter()` and
  `Hash()` are represented by the datatype fields directly.
- `Provisioning.AuthUrl.Values` does not state the order in which the six
  names are added. `url.Values` is a `map[string][]string`, so that order
  cannot be observed, and `Encode` sorts the names. The model keeps only
  the order of the values under one name, which `Provisioning.Add` appends.
- `AuthURL.String` is not modelled. It builds the `otpauth://` URL and
  percent-encodes the query with `url.Values.Encode`, which sorts the names
  and escapes characters. URL escaping is not part of this model.
  `Provisioning.AuthUrl.Values` models the query before encoding.

## Findings

| source | as written | input that shows it | evidently intended | confidence | as-written member | corrected member |
|---|---|---|---|---|---|---|
| otp.go:75-85 | `VerifyCode` drops the generation error and compares the "" that `GenerateCode` returns with it | a key that does not decode (e.g. "1") with code "": the current code is "" and equals the submitted code, so the result is true | a key that does not decode matches no code; generation errors are non-matches | not executed; follows from lines 57-58 and 75-78 | Otp.Hotp.MalformedKeyAcceptsOnlyEmpty | Otp.Hotp.VerifyCodeRejectingErrors |
