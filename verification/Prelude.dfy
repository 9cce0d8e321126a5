/** Shared vocabulary: options, results, saturating 64-bit arithmetic and ASCII case folding. */
module Prelude {

  datatype Option<+T> = None | Some(value: T)

  datatype Result<+T, +E> = Ok(value: T) | Err(error: E)

  /** A byte string, one `char` for each byte: UTF-8 text is held in its encoded form, so `|s|` is a byte count. */
  type Bytes = string

  /** One binary octet, a `u8`. */
  type Octet = n: int | 0 <= n < 256

  /** One ordered header field. */
  datatype HeaderEntry = HeaderEntry(name: Bytes, value: Bytes)

  const U64_MAX: nat := 0xFFFF_FFFF_FFFF_FFFF

  /** `u64::saturating_add`. */
  function SatAdd(a: nat, b: nat): (r: nat)
  {
    if a + b > U64_MAX then U64_MAX else a + b
  }

  /** The sum if it fits 64 bits, and otherwise the greatest number that does. */
  lemma SatAddSaturates(a: nat, b: nat)
    ensures SatAdd(a, b) < 0x1_0000_0000_0000_0000
    ensures SatAdd(a, b) == a + b <==> a + b < 0x1_0000_0000_0000_0000
    ensures SatAdd(a, b) != a + b ==> SatAdd(a, b) == 0xFFFF_FFFF_FFFF_FFFF
  {
  }

  /** `u64::saturating_sub`. */
  function SatSub(a: nat, b: nat): nat
  {
    if a < b then 0 else a - b
  }

  /** `u64::abs_diff`. */
  function AbsDiff(a: nat, b: nat): nat
  {
    if a < b then b - a else a - b
  }

  /** `u8::to_ascii_lowercase`. */
  function LowerChar(c: char): char
  {
    if 'A' <= c <= 'Z' then c - 'A' + 'a' else c
  }

  /** `str::to_ascii_lowercase`. */
  function Lower(s: Bytes): (r: Bytes)
    ensures |r| == |s|
  {
    seq(|s|, i requires 0 <= i < |s| => LowerChar(s[i]))
  }

  /** The same character, or the two cases of one ASCII letter. */
  predicate SameLetter(c: char, d: char)
  {
    || c == d
    || ('A' <= c <= 'Z' && d as int - c as int == 'a' as int - 'A' as int)
    || ('A' <= d <= 'Z' && c as int - d as int == 'a' as int - 'A' as int)
  }

  predicate SameLetters(s: Bytes, t: Bytes)
  {
    |s| == |t| && forall i :: 0 <= i < |s| ==> SameLetter(s[i], t[i])
  }

  /** Lower-casing forgets the case of ASCII letters and nothing else. */
  lemma LowerEqualIff(s: Bytes, t: Bytes)
    ensures Lower(s) == Lower(t) <==> SameLetters(s, t)
  {
    if Lower(s) == Lower(t) {
      forall i | 0 <= i < |s|
        ensures SameLetter(s[i], t[i])
      {
        assert Lower(s)[i] == Lower(t)[i];
      }
    }
  }

  /** A byte of an HTTP token. */
  predicate TokenByte(c: char)
  {
    'a' <= c <= 'z' || 'A' <= c <= 'Z' || '0' <= c <= '9' || c in "!#$%&'*+-.^_`|~"
  }
}
