# totp-cli, modelled in Dafny

A model of the command-line authenticator `totp`. Its one source file keeps
named accounts (`Key`: a base32 secret, a number of digits `size` and a
period in seconds) in `2fa.json`. It prints or copies their time-based
one-time passwords. The model covers two parts of it:

- **The OTP derivation** of `Key::get_hotp` and `Key::get_totp` (module
  `Otp`, with `Bits` and `Decimal` beneath it). HOTP follows RFC 4226,
  section 5.3. The steps are: pack the counter as 8 big-endian bytes, call
  HMAC-SHA1, take the dynamic-truncation offset from the low nibble of the
  last byte, assemble a 31-bit value from the 4-byte window, reduce it modulo
  `10^size`, and zero-pad the decimal result to width `size`. TOTP uses the
  counter `now / period` (RFC 6238, section 4.2). The seconds until the next
  code, printed by `list`, is `period - now % period`. The bitwise `&` and `|`
  of the source are written out bit by bit on naturals (`Bits.And`,
  `Bits.Or`). The left shift `<<` is multiplication by a power of two
  (`Bits.Shl`). It does not drop bits above the 32nd as the source's `u32`
  shift would. The two agree here because the assembled value stays below
  `2^31` (`Otp.Truncate`). Lemmas prove what the masks and shifts compute.
- **The account registry** of `main` (module `Registry`): class `Accounts`
  holds the `HashMap<String, Key>` as a `map<string, Key>` field. `Add`,
  `Remove`, `Get` and `List` model the four subcommand arms. A mutating
  command returns a `Status`. It also returns `persist`, which says whether
  the caller would rewrite `2fa.json`.

HMAC-SHA1 (`HmacSha1`, a function that always returns 20 bytes) and base32
decoding (`Base32Decode`, `None` where decoding fails) are parameters of the
model. The wall clock is the parameter `now`. The places where the source
panics are preconditions:
- `period == 0` divides by zero (`CanTotp`).
- `size >= 10` overflows `10u32.pow`.
- An undecodable secret makes `unwrap` panic (`CanHotp`).

Some of the code's behaviour is looser than a careful design would be. The
model follows the code in each case:
- With `size == 0` the modulus is 1 and `format!("{:01$}", 0, 0)` prints
  `"0"`. The code is then one character long, not zero (`Otp.Hotp`).
- `add` does not check `size` or `period`. A key it stores can make every
  later `list` panic (the precondition of `Registry.Accounts.List`).
- An unreadable or unparsable `2fa.json` loads as an empty registry
  (`Registry.Accounts.Load`). The next `add` then overwrites the file.
- There is no rename, no bulk import and no `otpauth://` URI parsing in the
  code, so none is modelled.

## Model

| member | source | states |
|---|---|---|
| `Otp.CounterBytes` | src/main.rs:50-51 | the counter message `counter.to_be_bytes()` is exactly 8 bytes, and reading them big-endian gives back the counter |
| `Otp.CounterBytesBijective` | src/main.rs:50-51 | distinct counters give distinct messages, and every 8-byte string is the message of exactly the counter it denotes big-endian |
| `Otp.FromToBigEndian` | src/main.rs:50-51 | writing `len` big-endian bytes and reading them back keeps the number modulo `256^len` |
| `Otp.ToFromBigEndian` | src/main.rs:50-51 | reading a byte string big-endian and writing it back at the same length returns the same bytes |
| `Otp.Offset` | src/main.rs:53-54 | the offset `hmac[19] & 0xf` is the low nibble of the last byte, at most 15, so the window `offset..offset+3` ends at index 18 or earlier in the 20-byte digest |
| `Otp.Truncate` | src/main.rs:56-59 | the masked, shifted and OR-ed window equals the 4 bytes read big-endian with the first byte's top bit cleared, and is below `2^31`, so no shift leaves the 32 bits of a `u32` |
| `Otp.MaskFF` | src/main.rs:57-59 | on a byte, `& 0xff` is the identity |
| `Otp.Mask7F` | src/main.rs:56 | on a byte, `& 0x7f` clears the top bit (`% 0x80`) |
| `Otp.Assemble` | src/main.rs:56-59 | shifting `a`, `b`, `c`, `d` left by 24, 16, 8 and 0 bits and OR-ing them, with `b, c, d` bytes, is positional arithmetic base 256 |
| `Otp.AssembleAt` | src/main.rs:56-59 | the same assembly with every shift `k` bits longer (the last byte shifted by `k` too) equals the base-256 value shifted by `k` |
| `Otp.DynamicTruncation` | src/main.rs:53-59 | the truncated value is below `2^31` and is the big-endian value of the window the digest's own offset selects, top bit masked |
| `Otp.Hotp` | src/main.rs:48-61 | for `size <= 9` the code has exactly `size` characters (1 when `size == 0`), all decimal digits, and its decimal value is the truncated HMAC of the counter message modulo `10^size` |
| `Otp.CanHotp` | src/main.rs:49-60 | in a debug build, `get_hotp` runs without panicking exactly when the secret decodes (the `unwrap` at line 49) and `10^size` fits in a `u32` (the `10u32.pow` at line 60) |
| `Otp.CanTotp` | src/main.rs:49-65 | in a debug build, `get_totp` runs without panicking exactly when, in addition, the period is non-zero (the division at line 64) |
| `Otp.Pow10FitsU32` | src/main.rs:60 | `10^n` fits in a `u32` exactly when `n <= 9` |
| `Otp.GetHotp` | src/main.rs:48-62 | for a key whose secret decodes and whose `size <= 9`, the code is `size` digits (1 for size 0), and its value is the truncated HMAC of the decoded secret and the counter message modulo `10^size` |
| `Otp.GetTotp` | src/main.rs:63-65 | for a usable key with a non-zero period, the code has the HOTP shape, and its value is the truncated HMAC of the counter message for `now / period` modulo `10^size` |
| `Otp.TotpIsHotpOfWindow` | src/main.rs:63-65 | every instant `now` in `[k * period, (k + 1) * period)` yields the HOTP code of counter `k`, so two instants of one period give one code |
| `Otp.SecondsRemaining` | src/main.rs:95 | for `period > 0` the seconds until the next code lie in `[1, period]` and equal `period` exactly when `now % period == 0` |
| `Otp.RemainingEndsWindow` | src/main.rs:95 | the counter `now / period` is unchanged for every second before the announced remaining time runs out and advances by exactly one when it does |
| `Otp.TotpConstantUntilNext` | src/main.rs:94-96 | the code printed by `list` stays the current code for every second of the remaining time printed beside it |
| `Decimal.Digits` | src/main.rs:61 | the decimal rendering of a number is at least one character, all digits, has no leading zero (unless the number is 0) and reads back as the number |
| `Decimal.DigitsLength` | src/main.rs:60-61 | a number below `10^k` needs at most `k` digits, and one of at least `10^(k-1)` needs at least `k` |
| `Decimal.LeadingZeros` | src/main.rs:61 | left-padding with `'0'` keeps a digit string's value |
| `Decimal.ZeroPad` | src/main.rs:61 | `{:01$}` is all digits and denotes `n`; it is exactly `width` characters long, or, when the digits of `n` are already at least that long, exactly those digits (so width 0 prints "0" for zero); for `width >= 1` and `n < 10^width` it has exactly `width` digits |
| `Bits.AndBits` | src/main.rs:54-59 | AND is bitwise: for every position `i`, bit `i` of the AND of `a` and `b` is set exactly when bit `i` is set in both |
| `Bits.OrBits` | src/main.rs:56-59 | OR is bitwise: for every position `i`, bit `i` of the OR of `a` and `b` is set exactly when bit `i` is set in either |
| `Bits.ShlShr` | src/main.rs:56-58 | `a << k` has its low `k` bits zero, and shifting it back right by `k` gives `a` |
| `Bits.AndLowMask` | src/main.rs:54-59 | masking with `2^k - 1` keeps exactly the low `k` bits (`a % 2^k`) |
| `Bits.OrDisjoint` | src/main.rs:56-59 | OR of a value shifted left by `k` with a value below `2^k` is their sum |
| `Bits.OrShift` | src/main.rs:56-59 | a common left shift distributes over OR |
| `Bits.OrByte` | src/main.rs:56-59 | OR-ing `x << (k + 8)` with `y << k` for a byte `y` gives `(x * 256 + y) << k` |
| `Registry.Accounts.Load` | src/main.rs:70-71 | the registry starts as the saved map, or empty when nothing could be read or parsed |
| `Registry.Accounts.Add` | src/main.rs:74-83 | a name already present leaves the map unchanged with status `Duplicate` and no rewrite; otherwise the map gains exactly `name ↦ Key(secret, size, period)`, every other entry is unchanged, and the file is rewritten |
| `Registry.Accounts.Remove` | src/main.rs:84-92 | an absent name leaves the map unchanged with status `NotFound` and no rewrite; a present one is deleted, every other entry is unchanged, and the file is rewritten |
| `Registry.Accounts.Get` | src/main.rs:98-105 | returns a code exactly when the name is stored, and that code is the key's current TOTP; the map is only read |
| `Registry.ShowsDetermined` | src/main.rs:94-96 | the line `list` prints for a stored name at one instant is determined by the name, and the wait it announces is between 1 and `period` seconds |
| `Registry.Accounts.List` | src/main.rs:93-97 | one line per stored entry (as many lines as entries, names pairwise distinct, together naming every entry), each carrying that key's current TOTP and the seconds until its next code |
| `Registry.ListCoversAll` | src/main.rs:94-96 | lines that each show a stored name, pairwise distinct and as many as the entries, name every entry |
| `Registry.NamesCount` | src/main.rs:94-96 | lines with pairwise distinct names name as many entries as there are lines |
| `Registry.AddTwiceRemoveTwice` | src/main.rs:74-92 | a second `add` of a name is refused and changes nothing, and a second `remove` finds nothing, so add, add, remove, remove restores the registry |

## Left out

- HMAC-SHA1 (`hmac_sha1::hmac_sha1`) is a foreign library. It is the parameter `hmacSha1`, of which the model assumes only that it returns 20 bytes.
- Base32 decoding (`base32::decode`) is a foreign library. It is the parameter `base32`. An input it rejects would make `unwrap` panic, and the preconditions exclude that.
- The clock (`chrono::Utc::now()`) is the parameter `now`, a `u64`. The cast of a negative timestamp `as u64` is not modelled.
- `list` reads the clock again for every entry, and twice per entry: once inside `get_totp` and once for the remaining seconds. The model uses one `now` for all entries and both reads, so a second boundary passed while `list` runs is not modelled.
- `Otp.TotpConstantUntilNext` covers only instants `now + d` that still fit in `u64`.
- `Otp.Hotp` requires `size <= 9`. With `size >= 10`, `10u32.pow` panics in debug builds. In release builds it wraps for `10 <= size < 32`; for `size >= 32` the wrapped power is 0 and the `%` panics. None of this is modelled.
- Argument parsing with clap, including the defaults `size = 6` and `period = 30`, is user-interface plumbing and is not modelled.
- Reading and writing `2fa.json` and the JSON encoding are I/O. `persist` says when the file would be rewritten, and `Load` takes the parsed map or `None`.
- The clipboard (`cli_clipboard::set_contents`) and all printed messages are I/O. `Get` returns the code that would be copied, and `List` returns the lines that would be printed.
- `HashMap` iteration order is unspecified. `List` picks the next name by nondeterministic choice, so its contract holds for every order.
