/**
 * The one-time-password engine: RFC 4226 (HOTP) code generation with dynamic
 * truncation, the RFC 6238 (TOTP) time-step counter, and verification over a
 * window of neighbouring counts.
 *
 * HMAC and base32 decoding are library services; they are the two fields of
 * `Primitives`, passed to every operation that uses them, so that everything
 * proved here holds for any HMAC and any decoder.
 */
module Otp {
  import opened Bytes
  import opened Decimal

  /** Seconds per time step of the default TOTP engine. */
  const DefaultInterval := 30

  /** The hash functions an engine can be configured with. */
  datatype HashAlgo = SHA1 | SHA256 | SHA512

  /** Output length, in bytes, of HMAC over each hash. */
  function DigestSize(h: HashAlgo): (n: nat)
    ensures n >= 20
  {
    match h
    case SHA1 => 20
    case SHA256 => 32
    case SHA512 => 64
  }

  /** The base32 decoder's error: the offset of the first byte it could not decode. */
  datatype DecodeError = CorruptInput(offset: int)

  datatype Result<T> = Ok(value: T) | Err(error: DecodeError)

  /**
   * The library services the engine calls: `hmac(hash, key, message)` is the
   * keyed MAC of RFC 2104, `base32Decode` is standard base32 decoding
   * (section 6 of RFC 4648) of text already in upper case.
   */
  datatype Primitives = Primitives(
    hmac: (HashAlgo, seq<byte>, seq<byte>) -> seq<byte>,
    base32Decode: string -> Result<seq<byte>>)

  /** Every MAC has the digest size of its hash. */
  ghost predicate FullDigests(p: Primitives) {
    forall h, key, msg :: |p.hmac(h, key, msg)| == DigestSize(h)
  }

  // ---------------------------------------------------------------------
  // strings.ToUpper, on the letters whose capital is an ASCII letter

  /** U+0131 LATIN SMALL LETTER DOTLESS I, whose capital is 'I'. */
  const DotlessI: char := '\U{0131}'

  /** U+017F LATIN SMALL LETTER LONG S, whose capital is 'S'. */
  const LongS: char := '\U{017F}'

  predicate IsLowerAscii(c: char) {
    'a' <= c <= 'z'
  }

  /** The letters `unicode.ToUpper` maps to an ASCII capital: 'a'..'z', 'ı' and 'ſ'. */
  predicate FoldsToAscii(c: char) {
    IsLowerAscii(c) || c == DotlessI || c == LongS
  }

  function UpperChar(c: char): char {
    if IsLowerAscii(c) then (c as int - 32) as char
    else if c == DotlessI then 'I'
    else if c == LongS then 'S'
    else c
  }

  /** Upper-cases the letters of `s` that have an ASCII capital and keeps every other character. */
  function ToUpper(s: string): (u: string)
    ensures |u| == |s|
    ensures forall i :: 0 <= i < |u| ==> !FoldsToAscii(u[i])
    ensures forall i :: 0 <= i < |u| ==>
              || u[i] == s[i]
              || (IsLowerAscii(s[i]) && u[i] as int == s[i] as int - 32)
              || (s[i] == DotlessI && u[i] == 'I')
              || (s[i] == LongS && u[i] == 'S')
  {
    if s == [] then [] else [UpperChar(s[0])] + ToUpper(s[1..])
  }

  /**
   * A worked example of `ToUpper`'s contract: the two non-ASCII letters
   * with ASCII capitals fold as `unicode.ToUpper` folds them.
   */
  lemma ToUpperFoldsDotlessIAndLongS()
    ensures ToUpper([DotlessI, LongS, 'a']) == "ISA"
  {
  }

  /** Text without letters that fold to ASCII capitals is left as it is. */
  lemma ToUpperKeepsUpper(s: string)
    requires forall i :: 0 <= i < |s| ==> !FoldsToAscii(s[i])
    ensures ToUpper(s) == s
  {
  }

  lemma ToUpperIdempotent(s: string)
    ensures ToUpper(ToUpper(s)) == ToUpper(s)
  {
  }

  // ---------------------------------------------------------------------
  // Dynamic truncation (section 5.3 of RFC 4226)

  /** `int(x) & 0xf`: the low four bits of a byte (see `LowNibbleIsMask`). */
  function LowNibble(x: byte): (n: nat)
    ensures n < 16
  {
    x % 16
  }

  /** `int(x) & 0x7f`: a byte without its top bit (see `ClearTopBitIsMask`). */
  function ClearTopBit(x: byte): (n: nat)
    ensures n < 128
  {
    x % 128
  }

  /** `LowNibble` is the bit mask `& 0xf` the source applies to an octet. */
  lemma LowNibbleIsMask(x: bv8)
    ensures LowNibble(x as int) == (x & 0xf) as int
  {
  }

  /** `ClearTopBit` is the bit mask `& 0x7f` the source applies to an octet. */
  lemma ClearTopBitIsMask(x: bv8)
    ensures ClearTopBit(x as int) == (x & 0x7f) as int
  {
  }

  /** The offset truncation reads from the last byte of the MAC. */
  function TruncationOffset(b: seq<byte>): (o: nat)
    requires |b| > 0
    ensures o < 16
  {
    LowNibble(b[|b| - 1])
  }

  /** Truncation indexes `b` only within bounds: the 4-byte window at the offset exists. */
  predicate Truncatable(b: seq<byte>) {
    |b| > 0 && TruncationOffset(b) + 4 <= |b|
  }

  /**
   * `truncate`: the 4 bytes at the offset, big-endian, with the top bit
   * cleared. The four masked fields occupy disjoint bit ranges, so the
   * shifts by 24, 16 and 8 combined by `|` are the weighted sum below;
   * `& 0xff` leaves a byte unchanged.
   */
  function Truncate(b: seq<byte>): (r: nat)
    requires Truncatable(b)
    ensures r < 0x8000_0000
  {
    var o := TruncationOffset(b);
    ClearTopBit(b[o]) * 0x100_0000 + (b[o + 1] as int) * 0x1_0000 + (b[o + 2] as int) * 0x100 + b[o + 3]
  }

  /**
   * The value is what section 5.3 of RFC 4226 calls DBC2: the last 31 bits
   * of the 4-byte window at the offset, read big-endian.
   */
  lemma TruncateIsLast31BitsOfWindow(b: seq<byte>)
    requires Truncatable(b)
    ensures Truncate(b) == FromBigEndian(b[TruncationOffset(b)..TruncationOffset(b) + 4]) % 0x8000_0000
  {
    var o := TruncationOffset(b);
    TruncateIsLast31Bits(b[o..o + 4]);
  }

  /** The weighted sum over a 4-byte window is its big-endian value modulo 2^31. */
  lemma TruncateIsLast31Bits(w: seq<byte>)
    requires |w| == 4
    ensures (w[0] % 128) * 0x100_0000 + (w[1] as int) * 0x1_0000 + (w[2] as int) * 0x100 + w[3]
            == FromBigEndian(w) % 0x8000_0000
  {
    var b0: int, b1: int, b2: int, b3: int := w[0], w[1], w[2], w[3];
    assert w[..1][..0] == [] && w[..2][..1] == w[..1] && w[..3][..2] == w[..2] && w[..4] == w;
    assert FromBigEndian(w[..1]) == b0;
    assert FromBigEndian(w[..2]) == b0 * 0x100 + b1;
    assert FromBigEndian(w[..3]) == b0 * 0x1_0000 + b1 * 0x100 + b2;
    var low := b1 * 0x1_0000 + b2 * 0x100 + b3;
    assert FromBigEndian(w) == b0 * 0x100_0000 + low;
    var top := b0 / 128;
    assert b0 * 0x100_0000 == top * 0x8000_0000 + (b0 % 128) * 0x100_0000;
    DivModUnique(FromBigEndian(w), 0x8000_0000, top, (b0 % 128) * 0x100_0000 + low);
  }

  /** Truncation sees only the last byte and the 4-byte window it selects. */
  lemma TruncateReadsWindow(b: seq<byte>, c: seq<byte>)
    requires Truncatable(b) && |c| > 0
    requires c[|c| - 1] == b[|b| - 1]
    requires TruncationOffset(b) + 4 <= |c|
    requires c[TruncationOffset(b)..TruncationOffset(b) + 4] == b[TruncationOffset(b)..TruncationOffset(b) + 4]
    ensures Truncatable(c) && Truncate(c) == Truncate(b)
  {
    var o := TruncationOffset(b);
    var w := b[o..o + 4];
    assert c[o..o + 4][0] == w[0] && c[o..o + 4][1] == w[1] && c[o..o + 4][2] == w[2] && c[o..o + 4][3] == w[3];
  }

  // ---------------------------------------------------------------------
  // The counter block (section 5.2 of RFC 4226)

  /** The 8-byte message that is MACed: `uint64(count)`, most significant byte first. */
  function CounterBlock(count: int): (c: seq<byte>)
    ensures |c| == 8
  {
    ToBigEndian(Uint64(count), 8)
  }

  /** Reading the block back big-endian gives `uint64(count)`: two's complement for negative counts. */
  lemma CounterBlockValue(count: int)
    ensures FromBigEndian(CounterBlock(count)) == Uint64(count)
  {
    FromToBigEndian(Uint64(count), 8);
    assert Pow256(8) == TwoTo64;
  }

  /** Byte `k` of the block is `(uint64(count) / 256^(7-k)) mod 256`. */
  lemma CounterBlockAt(count: int, k: nat)
    requires k < 8
    ensures CounterBlock(count)[k] == (Uint64(count) / Pow256(7 - k)) % 256
  {
    ToBigEndianAt(Uint64(count), 8, k);
  }

  /** Two counts give the same block exactly when they agree modulo 2^64. */
  lemma CounterBlockInjective(a: int, b: int)
    ensures CounterBlock(a) == CounterBlock(b) <==> Uint64(a) == Uint64(b)
  {
    CounterBlockValue(a);
    CounterBlockValue(b);
  }

  /** Go's `int64` wrap-around of a count does not change its block. */
  lemma CounterBlockWrap(x: int)
    ensures CounterBlock(Int64Wrap(x)) == CounterBlock(x)
  {
    Uint64OfInt64Wrap(x);
    CounterBlockInjective(Int64Wrap(x), x);
  }

  /** The MAC of the counter block of `count` under `key`: what `genKey` returns. */
  function Mac(p: Primitives, hash: HashAlgo, key: seq<byte>, count: int): (m: seq<byte>)
    ensures FullDigests(p) ==> |m| == DigestSize(hash)
  {
    p.hmac(hash, key, CounterBlock(count))
  }

  /**
   * `genKey`: writes `uint64(count)` into a fresh 8-byte buffer with
   * `PutUint64` and MACs it under `key`.
   */
  method GenKey(p: Primitives, hash: HashAlgo, key: seq<byte>, count: int) returns (mac: seq<byte>)
    ensures mac == Mac(p, hash, key, count)
  {
    var encoded := new byte[8];
    PutUint64(encoded, Uint64(count));
    assert encoded[..] == encoded[..8];
    mac := p.hmac(hash, key, encoded[..]);
  }

  // ---------------------------------------------------------------------
  // Time steps (section 4.2 of RFC 6238)

  /** A counter that derives the count from the clock: `Interval` seconds per step, starting at `Step`. */
  datatype TimeCounter = TimeCounter(interval: int, step: int) {

    /** `Count`, at clock value `now` (Unix seconds): the number of whole intervals since `step`, rounded down. */
    function Count(now: int): (c: int)
      requires interval > 0
      ensures c * interval <= now - step < c * interval + interval
    {
      (now - step) / interval
    }
  }

  /** The count never goes back as the clock advances. */
  lemma CountMonotone(t: TimeCounter, now: int, later: int)
    requires t.interval > 0 && now <= later
    ensures t.Count(now) <= t.Count(later)
  {
    var c, d := t.Count(now), t.Count(later);
    if d < c {
      MulAtLeast(c - d, t.interval);
    }
  }

  /** One interval later the count is exactly one higher. */
  lemma CountAdvancesPerInterval(t: TimeCounter, now: int)
    requires t.interval > 0
    ensures t.Count(now + t.interval) == t.Count(now) + 1
  {
    var c := t.Count(now);
    DivModUnique(now + t.interval - t.step, t.interval, c + 1, now - t.step - c * t.interval);
  }

  // ---------------------------------------------------------------------
  // The engine

  /** The string half of Go's `(string, error)` result: the code, or "" on error. */
  function CodeOf(r: Result<string>): (s: string)
    ensures r.Err? ==> s == ""
    ensures r.Ok? ==> s == r.value
  {
    if r.Ok? then r.value else ""
  }

  /**
   * The token lengths `GenerateCode` handles without a panic: any length
   * when the key does not decode (the error is returned before the
   * modulo), and a non-negative one when it does (`math.Pow10` of a
   * negative length converts to 0, and the modulo by 0 panics).
   */
  predicate TokenLenAllowed(p: Primitives, key: string, tokenLen: int) {
    p.base32Decode(ToUpper(key)).Ok? ==> tokenLen >= 0
  }

  /** An OTP engine: a counter and a hash. Its fields are never changed after construction. */
  datatype Hotp = Hotp(counter: TimeCounter, hashAlgo: HashAlgo) {

    /**
     * `GenerateCode`: decode the upper-cased key, MAC the counter block,
     * truncate, reduce modulo 10^tokenLen and pad with '0' to `tokenLen`.
     * A decoding error is returned as it is and the MAC is not computed.
     */
    function GenerateCode(p: Primitives, key: string, count: int, tokenLen: int): (r: Result<string>)
      requires FullDigests(p)
      requires TokenLenAllowed(p, key, tokenLen)
      ensures r.Err? <==> p.base32Decode(ToUpper(key)).Err?
      ensures r.Err? ==> r.error == p.base32Decode(ToUpper(key)).error
    {
      match p.base32Decode(ToUpper(key))
      case Err(e) => Err(e)
      case Ok(secret) => Ok(PadLeft(Itoa(CodeValue(p, secret, count, tokenLen)), tokenLen))
    }

    /** `truncate(hmac) % int(math.Pow10(tokenLen))`: the number the code spells out. */
    function CodeValue(p: Primitives, secret: seq<byte>, count: int, tokenLen: int): (v: nat)
      requires FullDigests(p)
      requires tokenLen >= 0
      ensures v < Pow10(tokenLen)
    {
      Truncate(Mac(p, hashAlgo, secret, count)) % Pow10(tokenLen)
    }

    /**
     * A generated code is `tokenLen` decimal digits (one digit when
     * `tokenLen` is 0) whose value is the truncated MAC modulo 10^tokenLen.
     */
    lemma GenerateCodeFormat(p: Primitives, key: string, count: int, tokenLen: int)
      requires FullDigests(p)
      requires tokenLen >= 0
      requires p.base32Decode(ToUpper(key)).Ok?
      ensures var r := GenerateCode(p, key, count, tokenLen);
        && r.Ok?
        && AllDigits(r.value)
        && |r.value| == (if tokenLen == 0 then 1 else tokenLen)
        && DecimalValue(r.value) == CodeValue(p, p.base32Decode(ToUpper(key)).value, count, tokenLen)
    {
      PaddedItoa(CodeValue(p, p.base32Decode(ToUpper(key)).value, count, tokenLen), tokenLen);
    }

    /**
     * The code is the only `tokenLen`-digit decimal string with its value:
     * the fixed-width rendering of the truncated MAC modulo 10^tokenLen.
     */
    lemma GenerateCodeIsFixedWidthDecimal(p: Primitives, key: string, count: int, tokenLen: int, s: string)
      requires FullDigests(p)
      requires tokenLen >= 1
      requires p.base32Decode(ToUpper(key)).Ok?
      requires AllDigits(s) && |s| == tokenLen
      ensures GenerateCode(p, key, count, tokenLen) == Ok(s)
              <==> DecimalValue(s) == CodeValue(p, p.base32Decode(ToUpper(key)).value, count, tokenLen)
    {
      GenerateCodeFormat(p, key, count, tokenLen);
      var r := GenerateCode(p, key, count, tokenLen);
      if DecimalValue(s) == CodeValue(p, p.base32Decode(ToUpper(key)).value, count, tokenLen) {
        DecimalValueInjective(r.value, s);
      }
    }

    /** The key is decoded case-insensitively: a key and its upper-cased form give the same result. */
    lemma GenerateCodeIgnoresCase(p: Primitives, key: string, count: int, tokenLen: int)
      requires FullDigests(p)
      requires TokenLenAllowed(p, key, tokenLen)
      ensures ToUpper(ToUpper(key)) == ToUpper(key)
      ensures GenerateCode(p, ToUpper(key), count, tokenLen) == GenerateCode(p, key, count, tokenLen)
    {
      ToUpperIdempotent(key);
    }

    /** The code `VerifyCode` compares against at count `count`, with any generation error dropped. */
    function CodeAt(p: Primitives, key: string, count: int, tokenLen: int): (s: string)
      requires FullDigests(p)
      requires TokenLenAllowed(p, key, tokenLen)
      ensures s == "" <==> p.base32Decode(ToUpper(key)).Err?
      ensures GenerateCode(p, key, count, tokenLen).Ok? ==> GenerateCode(p, key, count, tokenLen) == Ok(s)
    {
      CodeOf(GenerateCode(p, key, count, tokenLen))
    }

    /**
     * The code at every count, as `VerifyCode` regenerates it: the count
     * is first reduced to an `int64` the way Go's `count - int64(i)` and
     * `count + int64(i)` wrap, which leaves the code at the true count.
     */
    function Codes(p: Primitives, key: string, tokenLen: int): (codes: int -> string)
      requires FullDigests(p)
      requires TokenLenAllowed(p, key, tokenLen)
      ensures forall n :: codes(n) == CodeAt(p, key, n, tokenLen)
    {
      assert forall n :: CodeAt(p, key, Int64Wrap(n), tokenLen) == CodeAt(p, key, n, tokenLen) by {
        forall n
          ensures CodeAt(p, key, Int64Wrap(n), tokenLen) == CodeAt(p, key, n, tokenLen)
        {
          CodeAtWrap(p, key, n, tokenLen);
        }
      }
      n => CodeAt(p, key, Int64Wrap(n), tokenLen)
    }

    /**
     * What verification accepts: `code` equals the code at some offset `j`
     * with `|j| < max(skew, 1)` from the count at clock value `now`.
     */
    ghost predicate Accepts(p: Primitives, now: int, code: string, key: string, skew: int, tokenLen: int)
      requires FullDigests(p)
      requires counter.interval > 0
      requires TokenLenAllowed(p, key, tokenLen)
    {
      InWindow(Codes(p, key, tokenLen), code, counter.Count(now), skew)
    }

    /**
     * `VerifyCode` at clock value `now`: compare with the code at the
     * current count, then with the codes `i` steps behind and ahead for
     * `i = 1 .. skew - 1`. Generation errors are discarded; the counts
     * `current ± i` are computed with Go's `int64` wrap-around.
     */
    method VerifyCode(p: Primitives, now: int, code: string, key: string, skew: int, tokenLen: int) returns (ok: bool)
      requires FullDigests(p)
      requires counter.interval > 0
      requires TokenLenAllowed(p, key, tokenLen)
      ensures ok <==> Accepts(p, now, code, key, skew, tokenLen)
    {
      var current := counter.Count(now);
      ok := ScanWindow(Codes(p, key, tokenLen), code, current, skew);
    }

    /**
     * Verification with generation errors treated as non-matches, as a
     * discarded error evidently means: a key that does not decode matches
     * no code, and in particular not the empty code `VerifyCode` accepts
     * for it (see `MalformedKeyAcceptsOnlyEmpty`).
     */
    method VerifyCodeRejectingErrors(p: Primitives, now: int, code: string, key: string, skew: int, tokenLen: int)
      returns (ok: bool)
      requires FullDigests(p)
      requires counter.interval > 0
      requires TokenLenAllowed(p, key, tokenLen)
      ensures ok <==> p.base32Decode(ToUpper(key)).Ok? && Accepts(p, now, code, key, skew, tokenLen)
      ensures ok ==> code != ""
    {
      if p.base32Decode(ToUpper(key)).Err? {
        return false;
      }
      ok := VerifyCode(p, now, code, key, skew, tokenLen);
      if ok {
        WellFormedKeyRejectsEmpty(p, now, key, skew, tokenLen);
      }
    }

    /** The code depends on the count only through its 64-bit counter block. */
    lemma CodeAtWrap(p: Primitives, key: string, x: int, tokenLen: int)
      requires FullDigests(p)
      requires TokenLenAllowed(p, key, tokenLen)
      ensures CodeAt(p, key, Int64Wrap(x), tokenLen) == CodeAt(p, key, x, tokenLen)
    {
      CounterBlockWrap(x);
    }

    /** Wrapping the count to `int64` does not change the regenerated code. */
    lemma CodesAgree(p: Primitives, key: string, x: int, tokenLen: int)
      requires FullDigests(p)
      requires TokenLenAllowed(p, key, tokenLen)
      ensures Codes(p, key, tokenLen)(x) == CodeAt(p, key, x, tokenLen)
    {
      CodeAtWrap(p, key, x, tokenLen);
    }

    /** The code for the current count is accepted, whatever the skew. */
    lemma AcceptsCurrentCode(p: Primitives, now: int, key: string, skew: int, tokenLen: int)
      requires FullDigests(p)
      requires counter.interval > 0
      requires TokenLenAllowed(p, key, tokenLen)
      ensures Accepts(p, now, CodeAt(p, key, counter.Count(now), tokenLen), key, skew, tokenLen)
    {
      var c := counter.Count(now);
      CodesAgree(p, key, c, tokenLen);
      InWindowAt(Codes(p, key, tokenLen), CodeAt(p, key, c, tokenLen), c, skew, c);
    }

    /**
     * With a key that does not decode, every regenerated code is "", so
     * exactly the empty code is accepted.
     */
    lemma MalformedKeyAcceptsOnlyEmpty(p: Primitives, now: int, code: string, key: string, skew: int, tokenLen: int)
      requires FullDigests(p)
      requires counter.interval > 0
      requires p.base32Decode(ToUpper(key)).Err?
      ensures Accepts(p, now, code, key, skew, tokenLen) <==> code == ""
    {
      var codes, c := Codes(p, key, tokenLen), counter.Count(now);
      if code == "" {
        assert codes(c) == "";
        InWindowAt(codes, code, c, skew, c);
      } else {
        forall j | -Window(skew) < j < Window(skew)
          ensures !MatchesAt(codes, code, c, j)
        {
          assert codes(c + j) == "";
        }
      }
    }

    /** With a key that decodes, every code has at least one digit, so "" is never accepted. */
    lemma WellFormedKeyRejectsEmpty(p: Primitives, now: int, key: string, skew: int, tokenLen: int)
      requires FullDigests(p)
      requires counter.interval > 0
      requires tokenLen >= 0
      requires p.base32Decode(ToUpper(key)).Ok?
      ensures !Accepts(p, now, "", key, skew, tokenLen)
    {
    }
  }

  // ---------------------------------------------------------------------
  // The verification window

  /** `max(skew, 1)`: the loop runs for `i < skew`; the current count is always compared. */
  function Window(skew: int): (w: int)
    ensures w >= 1 && w >= skew
    ensures skew >= 1 ==> w == skew
  {
    if skew < 1 then 1 else skew
  }

  /** `code` is the code at offset `j` from `current`. */
  ghost predicate MatchesAt(codes: int -> string, code: string, current: int, j: int) {
    codes(current + j) == code
  }

  /** `code` is the code at some offset `j` with `|j| < max(skew, 1)`. */
  ghost predicate InWindow(codes: int -> string, code: string, current: int, skew: int) {
    exists j :: -Window(skew) < j < Window(skew) && MatchesAt(codes, code, current, j)
  }

  /** No offset `j` with `|j| < i` matches. */
  ghost predicate NoMatchWithin(codes: int -> string, code: string, current: int, i: int) {
    forall j :: -i < j < i ==> !MatchesAt(codes, code, current, j)
  }

  /**
   * The search loop of `VerifyCode` over the codes it regenerates: the
   * current count first, then `current - i` and `current + i` for
   * `i = 1 .. skew - 1`, stopping at the first match.
   */
  method ScanWindow(codes: int -> string, code: string, current: int, skew: int) returns (ok: bool)
    ensures ok <==> InWindow(codes, code, current, skew)
  {
    if codes(current) == code {
      InWindowAt(codes, code, current, skew, current);
      return true;
    }
    NoMatchAtStart(codes, code, current);
    var i := 1;
    while i < skew
      invariant 1 <= i <= Window(skew)
      invariant NoMatchWithin(codes, code, current, i)
    {
      var behind := codes(current - i);
      var ahead := codes(current + i);
      if behind == code {
        InWindowAt(codes, code, current, skew, current - i);
        return true;
      }
      if ahead == code {
        InWindowAt(codes, code, current, skew, current + i);
        return true;
      }
      NoMatchExtends(codes, code, current, i);
      i := i + 1;
    }
    NoMatchRejects(codes, code, current, skew, i);
    return false;
  }

  lemma InWindowAt(codes: int -> string, code: string, current: int, skew: int, n: int)
    requires -Window(skew) < n - current < Window(skew)
    requires codes(n) == code
    ensures InWindow(codes, code, current, skew)
  {
    assert MatchesAt(codes, code, current, n - current);
  }

  lemma NoMatchAtStart(codes: int -> string, code: string, current: int)
    requires codes(current) != code
    ensures NoMatchWithin(codes, code, current, 1)
  {
  }

  /** Having compared `current - i` and `current + i`, no offset with `|j| <= i` matches. */
  lemma NoMatchExtends(codes: int -> string, code: string, current: int, i: int)
    requires NoMatchWithin(codes, code, current, i)
    requires codes(current - i) != code && codes(current + i) != code
    ensures NoMatchWithin(codes, code, current, i + 1)
  {
  }

  lemma NoMatchRejects(codes: int -> string, code: string, current: int, skew: int, i: int)
    requires 1 <= i <= Window(skew) && !(i < skew)
    requires NoMatchWithin(codes, code, current, i)
    ensures !InWindow(codes, code, current, skew)
  {
  }

  /**
   * Raising the skew by one adds exactly the offsets `-skew` and `+skew`:
   * a configured skew never reaches its own value.
   */
  lemma WindowStep(codes: int -> string, code: string, current: int, skew: int)
    requires skew >= 1
    ensures InWindow(codes, code, current, skew + 1)
            <==> InWindow(codes, code, current, skew)
                 || codes(current - skew) == code || codes(current + skew) == code
  {
    if InWindow(codes, code, current, skew + 1) {
      var j :| -Window(skew + 1) < j < Window(skew + 1) && MatchesAt(codes, code, current, j);
      if j == -skew {
        assert current + j == current - skew;
      } else if j != skew {
        assert MatchesAt(codes, code, current, j);
      }
    }
    if codes(current - skew) == code {
      InWindowAt(codes, code, current, skew + 1, current - skew);
    }
    if codes(current + skew) == code {
      InWindowAt(codes, code, current, skew + 1, current + skew);
    }
    if InWindow(codes, code, current, skew) {
      var j :| -Window(skew) < j < Window(skew) && MatchesAt(codes, code, current, j);
      assert MatchesAt(codes, code, current, j);
    }
  }

  /** A skew of 1 or less compares only the current count. */
  lemma NarrowWindow(codes: int -> string, code: string, current: int, skew: int)
    requires skew <= 1
    ensures InWindow(codes, code, current, skew) <==> codes(current) == code
  {
    if codes(current) == code {
      InWindowAt(codes, code, current, skew, current);
    }
    if InWindow(codes, code, current, skew) {
      var j :| -Window(skew) < j < Window(skew) && MatchesAt(codes, code, current, j);
      assert j == 0;
      assert current + j == current;
    }
  }

  /** A larger skew accepts everything a smaller one does. */
  lemma WindowMonotone(codes: int -> string, code: string, current: int, skew: int, wider: int)
    requires skew <= wider
    ensures InWindow(codes, code, current, skew) ==> InWindow(codes, code, current, wider)
  {
  }

  /** `NewTOTP`: an engine over a time counter with the given interval and start. */
  function NewTotp(hash: HashAlgo, interval: int, step: int): (h: Hotp)
    ensures h.hashAlgo == hash
    ensures h.counter.interval == interval && h.counter.step == step
  {
    Hotp(TimeCounter(interval, step), hash)
  }

  /** `DefaultTOTP`: SHA-1, 30-second steps counted from the Unix epoch. */
  function DefaultTotp(): (h: Hotp)
    ensures h.hashAlgo == SHA1
    ensures h.counter.interval == DefaultInterval && h.counter.step == 0
  {
    NewTotp(SHA1, DefaultInterval, 0)
  }

  /** The default engine's counts at the clock values of the test vectors in Appendix B of RFC 6238. */
  lemma DefaultTotpCounts()
    ensures DefaultTotp().counter.Count(59) == 1
    ensures DefaultTotp().counter.Count(1111111109) == 0x23523EC
    ensures DefaultTotp().counter.Count(1111111111) == 0x23523ED
    ensures DefaultTotp().counter.Count(1234567890) == 0x273EF07
    ensures DefaultTotp().counter.Count(2000000000) == 0x3F940AA
    ensures DefaultTotp().counter.Count(20000000000) == 0x27BC86AA
  {
  }
}
