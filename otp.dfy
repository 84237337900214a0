/** One-time password derivation of `Key::get_hotp` and `Key::get_totp`:
    HOTP (RFC 4226, section 5.3) over HMAC-SHA1 and the TOTP counter of
    RFC 6238, section 4.2. Base32 decoding and HMAC-SHA1 are foreign library
    calls; they enter as function parameters, and the clock enters as `now`. */
module Otp {
  import opened Bits
  import opened Decimal

  datatype Option<+T> = None | Some(value: T)

  /** A stored account: its base32 secret, the number of digits and the period in seconds. */
  datatype Key = Key(secret: string, size: Byte, period: U64)

  /** The 20-byte output of HMAC-SHA1. */
  type Digest = s: seq<Byte> | |s| == 20 witness seq(20, _ => 0)

  /** `hmac_sha1::hmac_sha1(key, message)`. */
  type HmacSha1 = (seq<Byte>, seq<Byte>) -> Digest

  /** `base32::decode` with the RFC 4648 alphabet and no padding; `None` where it fails. */
  type Base32Decode = string -> Option<seq<Byte>>

  function Pow256(k: nat): (p: nat)
    ensures p >= 1
  {
    if k == 0 then 1 else 256 * Pow256(k - 1)
  }

  /** The `len` low-order bytes of `n`, most significant first. */
  function ToBigEndian(n: nat, len: nat): (bs: seq<Byte>)
    ensures |bs| == len
  {
    if len == 0 then [] else ToBigEndian(n / 256, len - 1) + [n % 256]
  }

  /** The number a byte string denotes when read most significant byte first. */
  function FromBigEndian(bs: seq<Byte>): nat
  {
    if bs == [] then 0 else FromBigEndian(bs[..|bs| - 1]) * 256 + bs[|bs| - 1]
  }

  lemma {:induction false} FromBigEndianBound(bs: seq<Byte>)
    ensures FromBigEndian(bs) < Pow256(|bs|)
  {
    if bs != [] {
      FromBigEndianBound(bs[..|bs| - 1]);
    }
  }

  /** Writing `len` bytes and reading them back keeps `n` modulo `256^len`. */
  lemma {:induction false} FromToBigEndian(n: nat, len: nat)
    ensures FromBigEndian(ToBigEndian(n, len)) == n % Pow256(len)
  {
    if len > 0 {
      var bs := ToBigEndian(n, len);
      assert bs[..len - 1] == ToBigEndian(n / 256, len - 1);
      FromToBigEndian(n / 256, len - 1);
      ModSplit(n, 256, Pow256(len - 1));
    }
  }

  /** Reading a byte string and writing it back at the same length gives the same bytes. */
  lemma {:induction false} ToFromBigEndian(bs: seq<Byte>)
    ensures ToBigEndian(FromBigEndian(bs), |bs|) == bs
  {
    if bs != [] {
      var init, last := bs[..|bs| - 1], bs[|bs| - 1];
      var n := FromBigEndian(bs);
      ModUnique(n, 256, FromBigEndian(init), last);
      ToFromBigEndian(init);
      assert bs == init + [last];
    }
  }

  /** `counter.to_be_bytes()`: the counter as 8 bytes, big-endian. The message is
      exactly 8 bytes and reading it big-endian gives back the counter. */
  function CounterBytes(counter: U64): (bs: seq<Byte>)
    ensures |bs| == 8
    ensures FromBigEndian(bs) == counter
  {
    FromToBigEndian(counter, 8);
    Pow256Eight();
    ModUnique(counter, Pow256(8), 0, counter);
    ToBigEndian(counter, 8)
  }

  lemma Pow256Eight()
    ensures Pow256(8) == 0x1_0000_0000_0000_0000
  {
    assert Pow256(2) == 0x1_0000;
    assert Pow256(4) == 0x1_0000_0000;
  }

  /** Distinct counters give distinct messages, and every 8-byte string is the message of some counter. */
  lemma CounterBytesBijective(c1: U64, c2: U64, bs: seq<Byte>)
    ensures CounterBytes(c1) == CounterBytes(c2) ==> c1 == c2
    ensures |bs| == 8 ==> FromBigEndian(bs) < 0x1_0000_0000_0000_0000 && CounterBytes(FromBigEndian(bs)) == bs
  {
    if |bs| == 8 {
      FromBigEndianBound(bs);
      Pow256Eight();
      ToFromBigEndian(bs);
    }
  }

  /** `hmac[hmac.len() - 1] & 0xf`: the dynamic-truncation offset, the low nibble of the
      last byte. The 4-byte window it starts therefore ends at index 18 at the latest. */
  function Offset(h: Digest): (o: nat)
    ensures o <= 15 && o + 3 <= 18
    ensures o == h[19] % 16
  {
    Pow2Small();
    AndLowMask(h[19], 4);
    And(h[|h| - 1], 0xf)
  }

  /** The bit assembly of the window `h[o..o + 4]`: the first byte masked with `0x7f`,
      each byte shifted into place and the four combined with `|`. The result is the
      window read big-endian with the top bit of its first byte cleared, so it is
      below `2^31` and no shift carries a bit past the 32 bits of a `u32`. */
  function Truncate(h: Digest, o: nat): (t: nat)
    requires o <= 16
    ensures t == FromBigEndian([h[o] % 0x80, h[o + 1], h[o + 2], h[o + 3]])
    ensures t < 0x8000_0000
  {
    var a, b, c, d := h[o] % 0x80, h[o + 1], h[o + 2], h[o + 3];
    Mask7F(h[o]);
    MaskFF(b);
    MaskFF(c);
    MaskFF(d);
    Assemble(a, b, c, d);
    FromBigEndian4(a, b, c, d);
    Or(Or(Or(Shl(And(h[o], 0x7f), 24),
             Shl(And(h[o + 1], 0xff), 16)),
          Shl(And(h[o + 2], 0xff), 8)),
       And(h[o + 3], 0xff))
  }

  /** On a byte, `& 0xff` changes nothing. */
  lemma MaskFF(x: Byte)
    ensures And(x, 0xff) == x
  {
    Pow2Small();
    AndLowMask(x, 8);
    ModUnique(x, 0x100, 0, x);
  }

  /** `& 0x7f` clears the top bit of a byte. */
  lemma Mask7F(x: Byte)
    ensures And(x, 0x7f) == x % 0x80
  {
    Pow2Small();
    AndLowMask(x, 7);
  }

  /** Shifting four bytes into place and combining them with `|` is positional arithmetic base 256. */
  lemma Assemble(a: nat, b: Byte, c: Byte, d: Byte)
    ensures Or(Or(Or(Shl(a, 24), Shl(b, 16)), Shl(c, 8)), d) == ((a * 0x100 + b) * 0x100 + c) * 0x100 + d
  {
    ShlZero(d);
    ShlZero(((a * 0x100 + b) * 0x100 + c) * 0x100 + d);
    AssembleAt(a, b, c, d, 0);
  }

  lemma ShlZero(x: nat)
    ensures Shl(x, 0) == x
  {
  }

  /** The same assembly with every shift `k` bits longer. */
  lemma AssembleAt(a: nat, b: Byte, c: Byte, d: Byte, k: nat)
    ensures Or(Or(Or(Shl(a, k + 24), Shl(b, k + 16)), Shl(c, k + 8)), Shl(d, k))
         == Shl(((a * 0x100 + b) * 0x100 + c) * 0x100 + d, k)
  {
    var ab := a * 0x100 + b;
    var abc := ab * 0x100 + c;
    OrByte(a, b, k + 16);
    OrByte(ab, c, k + 8);
    OrByte(abc, d, k);
  }

  lemma FromBigEndian4(a: Byte, b: Byte, c: Byte, d: Byte)
    ensures FromBigEndian([a, b, c, d]) == ((a * 0x100 + b) * 0x100 + c) * 0x100 + d
  {
    assert [a, b, c, d][..3] == [a, b, c] && [a, b, c][..2] == [a, b] && [a, b][..1] == [a] && [a][..0] == [];
    assert FromBigEndian([a]) == a;
    assert FromBigEndian([a, b]) == a * 0x100 + b;
    assert FromBigEndian([a, b, c]) == (a * 0x100 + b) * 0x100 + c;
  }

  /** Dynamic truncation (RFC 4226, section 5.3): the 31-bit value at the offset the digest selects. */
  function DynamicTruncation(h: Digest): (p: nat)
    ensures p < 0x8000_0000
    ensures p == FromBigEndian([h[Offset(h)] % 0x80, h[Offset(h) + 1], h[Offset(h) + 2], h[Offset(h) + 3]])
  {
    Truncate(h, Offset(h))
  }

  /** HOTP of a decoded secret at a counter: the truncated value reduced modulo
      `10^size` and zero-padded to `size` characters. The modulus `10u32.pow(size)`
      overflows `u32` for `size >= 10`, hence the precondition. */
  function Hotp(hmacSha1: HmacSha1, secret: seq<Byte>, counter: U64, size: Byte): (code: string)
    requires size <= 9
    ensures |code| == if size == 0 then 1 else size
    ensures AllDigits(code)
    ensures Value(code) < Pow10(size)
    ensures Value(code) == DynamicTruncation(hmacSha1(secret, CounterBytes(counter))) % Pow10(size)
  {
    var h := hmacSha1(secret, CounterBytes(counter));
    var n := DynamicTruncation(h) % Pow10(size);
    if size == 0 then
      assert n == 0 && ZeroPad(n, size) == "0";
      ZeroPad(n, size)
    else
      ZeroPad(n, size)
  }

  /** What a key needs so that computing its code does not panic: the secret decodes
      (the `unwrap` of the decoded secret) and `10^size` fits in `u32` (`10u32.pow`). */
  predicate CanHotp(base32: Base32Decode, key: Key): (ok: bool)
    ensures ok <==> base32(key.secret).Some? && Pow10(key.size) < 0x1_0000_0000
  {
    Pow10FitsU32(key.size);
    base32(key.secret).Some? && key.size <= 9
  }

  /** A TOTP key also needs a non-zero period, since `now / period` divides by it. */
  predicate CanTotp(base32: Base32Decode, key: Key): (ok: bool)
    ensures ok <==> base32(key.secret).Some? && Pow10(key.size) < 0x1_0000_0000 && key.period != 0
  {
    CanHotp(base32, key) && key.period > 0
  }

  /** `10^n` fits in 32 bits exactly for `n <= 9`. */
  lemma Pow10FitsU32(n: nat)
    ensures Pow10(n) < 0x1_0000_0000 <==> n <= 9
  {
    if n <= 9 {
      Pow10Monotone(n, 9);
      assert Pow10(9) == 1_000_000_000;
    } else {
      Pow10Monotone(10, n);
      assert Pow10(10) == 10_000_000_000;
    }
  }

  /** `Key::get_hotp`: decode the secret, then HOTP at the counter. */
  function GetHotp(base32: Base32Decode, hmacSha1: HmacSha1, key: Key, counter: U64): (code: string)
    requires CanHotp(base32, key)
    ensures |code| == if key.size == 0 then 1 else key.size
    ensures AllDigits(code) && Value(code) < Pow10(key.size)
    ensures Value(code) == DynamicTruncation(hmacSha1(base32(key.secret).value, CounterBytes(counter))) % Pow10(key.size)
  {
    Hotp(hmacSha1, base32(key.secret).value, counter, key.size)
  }

  /** `Key::get_totp` at time `now` (seconds since the epoch): HOTP at counter `now / period`. */
  function GetTotp(base32: Base32Decode, hmacSha1: HmacSha1, key: Key, now: U64): (code: string)
    requires CanTotp(base32, key)
    ensures |code| == if key.size == 0 then 1 else key.size
    ensures AllDigits(code) && Value(code) < Pow10(key.size)
    ensures Value(code) == DynamicTruncation(hmacSha1(base32(key.secret).value, CounterBytes(now / key.period))) % Pow10(key.size)
  {
    GetHotp(base32, hmacSha1, key, now / key.period)
  }

  /** Every instant of the `k`-th period yields the HOTP code of counter `k`. */
  lemma TotpIsHotpOfWindow(base32: Base32Decode, hmacSha1: HmacSha1, key: Key, now: U64, k: U64)
    requires CanTotp(base32, key)
    requires k * key.period <= now < (k + 1) * key.period
    ensures GetTotp(base32, hmacSha1, key, now) == GetHotp(base32, hmacSha1, key, k)
  {
    ModUnique(now, key.period, k, now - k * key.period);
  }

  /** `period - now % period`: the seconds until the next code. It is never 0,
      never more than a period, and a whole period exactly on a period boundary. */
  function SecondsRemaining(period: U64, now: U64): (r: nat)
    requires period > 0
    ensures 1 <= r <= period
    ensures r == period <==> now % period == 0
  {
    period - now % period
  }

  /** The remaining seconds are exact: the counter `now / period` stays the same for
      all of them and advances by one when they have passed. */
  lemma RemainingEndsWindow(period: U64, now: U64, d: nat)
    requires period > 0
    ensures d < SecondsRemaining(period, now) ==> (now + d) / period == now / period
    ensures (now + SecondsRemaining(period, now)) / period == now / period + 1
    ensures (now + SecondsRemaining(period, now)) % period == 0
  {
    var q, m := now / period, now % period;
    assert now == period * q + m;
    if d < SecondsRemaining(period, now) {
      ModUnique(now + d, period, q, m + d);
    }
    ModUnique(now + SecondsRemaining(period, now), period, q + 1, 0);
  }

  /** The code shown stays valid for the whole remaining time announced beside it. */
  lemma TotpConstantUntilNext(base32: Base32Decode, hmacSha1: HmacSha1, key: Key, now: U64, d: nat)
    requires CanTotp(base32, key)
    requires d < SecondsRemaining(key.period, now) && now + d < 0x1_0000_0000_0000_0000
    ensures GetTotp(base32, hmacSha1, key, now + d) == GetTotp(base32, hmacSha1, key, now)
  {
    RemainingEndsWindow(key.period, now, d);
  }
}
