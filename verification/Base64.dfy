/**
 * The base64 preview of a stored body (`inspect_body`, crates/eggreplay-cli/src/main.rs).
 *
 * The reference is section 4 of RFC 4648 taken literally, on bit strings: the octets' bits, cut into groups of
 * six, the last group filled up with zero bits and the last quantum with `=`. The loop works on shifted and
 * masked integers instead, three octets at a time.
 */
module Base64 {
  import opened Prelude

  type Sextet = n: int | 0 <= n < 64
  type Bits = seq<bool>

  /** The loop stops once the output is longer than this. */
  const PREVIEW_LIMIT: nat := 4 * 1024

  /** The entry of the alphabet, Table 1 of RFC 4648, for a six-bit value. */
  function Glyph(s: Sextet): char
  {
    if s < 26 then 'A' + s as char
    else if s < 52 then 'a' + (s - 26) as char
    else if s < 62 then '0' + (s - 52) as char
    else if s == 62 then '+'
    else '/'
  }

  /** Three runs of consecutive characters, and two more. */
  lemma GlyphsInOrder(s: Sextet)
    ensures Glyph(0) == 'A' && Glyph(25) == 'Z' && Glyph(26) == 'a' && Glyph(51) == 'z' && Glyph(52) == '0'
    ensures Glyph(61) == '9' && Glyph(62) == '+' && Glyph(63) == '/'
    ensures s < 61 && s !in {25, 51} ==> Glyph(s + 1) as int == Glyph(s) as int + 1
  {
  }

  // ---- The reference encoder ----

  /** The `width` low bits of `n`, most significant first. */
  function ToBits(n: nat, width: nat): (bits: Bits)
    ensures |bits| == width
  {
    if width == 0 then [] else ToBits(n / 2, width - 1) + [n % 2 == 1]
  }

  function FromBits(bits: Bits): nat
  {
    if bits == [] then 0 else 2 * FromBits(bits[..|bits| - 1]) + (if bits[|bits| - 1] then 1 else 0)
  }

  function AllBits(octets: seq<Octet>): (bits: Bits)
    ensures |bits| == 8 * |octets|
  {
    if octets == [] then [] else ToBits(octets[0], 8) + AllBits(octets[1..])
  }

  function Zeros(n: nat): (bits: Bits)
    ensures |bits| == n
  {
    seq(n, i => false)
  }

  /** The group of at most six bits, zero bits added on the right. */
  function Symbol(group: Bits): char
    requires |group| <= 6
  {
    Glyph(FromBits(group + Zeros(6 - |group|)) % 64)
  }

  /** One symbol for each six bits and one for what is left over. */
  function Symbols(bits: Bits): (symbols: Bytes)
    ensures |symbols| == (|bits| + 5) / 6
  {
    if bits == [] then ""
    else if |bits| <= 6 then [Symbol(bits)]
    else [Symbol(bits[..6])] + Symbols(bits[6..])
  }

  /** How many `=` complete the last quantum. */
  function PadCount(length: nat): nat
  {
    (3 - length % 3) % 3
  }

  function Padding(count: nat): (padding: Bytes)
    ensures |padding| == count
  {
    seq(count, i => '=')
  }

  /** The base64 encoding of the octets. */
  function Encoded(octets: seq<Octet>): Bytes
  {
    Symbols(AllBits(octets)) + Padding(PadCount(|octets|))
  }

  // ---- Bits of numbers ----

  function Pow2(n: nat): (p: nat)
    ensures p > 0
  {
    if n == 0 then 1 else 2 * Pow2(n - 1)
  }

  lemma {:induction false} ToBitsSplit(high: nat, low: nat, a: nat, b: nat)
    requires low < Pow2(b)
    ensures ToBits(high * Pow2(b) + low, a + b) == ToBits(high, a) + ToBits(low, b)
  {
    if b == 0 {
      assert ToBits(high, a) + ToBits(low, 0) == ToBits(high, a);
    } else {
      var p := Pow2(b - 1);
      var n := high * Pow2(b) + low;
      assert high * Pow2(b) == 2 * (high * p);
      assert n / 2 == high * p + low / 2 && n % 2 == low % 2;
      ToBitsSplit(high, low / 2, a, b - 1);
      assert ToBits(n, a + b) == ToBits(n / 2, a + b - 1) + [n % 2 == 1];
    }
  }

  lemma {:induction false} FromToBits(n: nat, width: nat)
    requires n < Pow2(width)
    ensures FromBits(ToBits(n, width)) == n
  {
    if width > 0 {
      FromToBits(n / 2, width - 1);
      assert ToBits(n, width)[..width - 1] == ToBits(n / 2, width - 1);
    }
  }

  lemma {:induction false} ZeroBits(width: nat)
    ensures ToBits(0, width) == Zeros(width)
  {
    if width > 0 {
      ZeroBits(width - 1);
      assert Zeros(width) == Zeros(width - 1) + [false];
    }
  }

  lemma Powers()
    ensures Pow2(6) == 64 && Pow2(8) == 256
  {
  }

  lemma AppendOctet(high: nat, low: Octet, width: nat)
    ensures ToBits(high * 256 + low, width + 8) == ToBits(high, width) + ToBits(low, 8)
  {
    Powers();
    hide ToBits, Pow2;
    ToBitsSplit(high, low, width, 8);
  }

  lemma AppendSextet(high: nat, low: Sextet, width: nat)
    ensures ToBits(high * 64 + low, width + 6) == ToBits(high, width) + ToBits(low, 6)
  {
    Powers();
    hide ToBits, Pow2;
    ToBitsSplit(high, low, width, 6);
  }

  lemma OctetBits(b0: Octet, b1: Octet, b2: Octet)
    ensures ToBits((b0 * 256 + b1) * 256 + b2, 24) == ToBits(b0, 8) + ToBits(b1, 8) + ToBits(b2, 8)
  {
    hide ToBits;
    AppendOctet(b0, b1, 8);
    AppendOctet(b0 * 256 + b1, b2, 16);
  }

  lemma SextetBits(s0: Sextet, s1: Sextet, s2: Sextet, s3: Sextet)
    ensures ToBits(((s0 * 64 + s1) * 64 + s2) * 64 + s3, 24)
         == ToBits(s0, 6) + ToBits(s1, 6) + ToBits(s2, 6) + ToBits(s3, 6)
  {
    hide ToBits;
    var high := s0 * 64 + s1;
    AppendSextet(s0, s1, 6);
    AppendSextet(high, s2, 12);
    AppendSextet(high * 64 + s2, s3, 18);
  }

  // ---- What the loop emits for one chunk ----

  /** The chunk filled up with zero octets, as one 24-bit number. */
  function Combined(chunk: seq<Octet>): (n: nat)
    requires |chunk| <= 3
    ensures n < 0x100_0000
  {
    (At(chunk, 0) * 256 + At(chunk, 1)) * 256 + At(chunk, 2)
  }

  function At(chunk: seq<Octet>, i: nat): Octet
  {
    if i < |chunk| then chunk[i] else 0
  }

  /** `(combined >> (18 - 6 * index)) & 63`. */
  function SextetAt(combined: nat, index: nat): Sextet
    requires index < 4
  {
    (match index
     case 0 => combined / 0x40000
     case 1 => combined / 0x1000
     case 2 => combined / 0x40
     case 3 => combined) % 64
  }

  function ChunkSymbols(chunk: seq<Octet>): (symbols: Bytes)
    requires |chunk| <= 3
    ensures |symbols| == |chunk| + 1
  {
    seq(|chunk| + 1, i requires 0 <= i < |chunk| + 1 => Glyph(SextetAt(Combined(chunk), i)))
  }

  function Quantum(chunk: seq<Octet>): (quantum: Bytes)
    requires |chunk| <= 3
    ensures |quantum| == 4
  {
    ChunkSymbols(chunk) + Padding(3 - |chunk|)
  }

  /** The four sextets make up the number again. */
  lemma SextetsMakeUp(n: nat)
    requires n < 0x100_0000
    ensures ((SextetAt(n, 0) * 64 + SextetAt(n, 1)) * 64 + SextetAt(n, 2)) * 64 + SextetAt(n, 3) == n
  {
    var n1 := n / 64;
    var n2 := n1 / 64;
    var n3 := n2 / 64;
    assert SextetAt(n, 3) == n - 64 * n1;
    assert n / 0x1000 == n2 && n / 0x40000 == n3;
    assert SextetAt(n, 2) == n1 - 64 * n2;
    assert SextetAt(n, 1) == n2 - 64 * n3;
    assert SextetAt(n, 0) == n3;
    hide SextetAt;
  }

  lemma FourGroups(a: Bits, b: Bits, c: Bits, d: Bits)
    requires |a| == |b| == |c| == |d| == 6
    ensures var bits := a + b + c + d;
            bits[..6] == a && bits[6..12] == b && bits[12..18] == c && bits[18..24] == d
  {
  }

  function FilledBits(chunk: seq<Octet>): (bits: Bits)
    ensures |bits| == 24
  {
    ToBits(At(chunk, 0), 8) + ToBits(At(chunk, 1), 8) + ToBits(At(chunk, 2), 8)
  }

  /** Each six bits of the filled-up chunk spell the sextet the loop looks up. */
  lemma ChunkGroups(chunk: seq<Octet>)
    requires 1 <= |chunk| <= 3
    ensures var bits, n := FilledBits(chunk), Combined(chunk);
            && bits[..6] == ToBits(SextetAt(n, 0), 6)
            && bits[6..12] == ToBits(SextetAt(n, 1), 6)
            && bits[12..18] == ToBits(SextetAt(n, 2), 6)
            && bits[18..24] == ToBits(SextetAt(n, 3), 6)
  {
    hide ToBits, SextetAt, At;
    var n := Combined(chunk);
    OctetBits(At(chunk, 0), At(chunk, 1), At(chunk, 2));
    SextetsMakeUp(n);
    SextetBits(SextetAt(n, 0), SextetAt(n, 1), SextetAt(n, 2), SextetAt(n, 3));
    FourGroups(ToBits(SextetAt(n, 0), 6), ToBits(SextetAt(n, 1), 6),
               ToBits(SextetAt(n, 2), 6), ToBits(SextetAt(n, 3), 6));
  }

  lemma SymbolOfSextet(group: Bits, s: Sextet)
    requires 1 <= |group| <= 6
    requires group + Zeros(6 - |group|) == ToBits(s, 6)
    ensures Symbol(group) == Glyph(s)
  {
    Powers();
    hide Glyph, ToBits, FromBits, Pow2, Zeros;
    FromToBits(s, 6);
  }

  lemma {:induction false} AllBitsConcat(a: seq<Octet>, b: seq<Octet>)
    ensures AllBits(a + b) == AllBits(a) + AllBits(b)
  {
    if a == [] {
      assert a + b == b;
    } else {
      hide ToBits;
      AllBitsConcat(a[1..], b);
      assert (a + b)[1..] == a[1..] + b;
    }
  }

  lemma AllBitsOne(octet: Octet)
    ensures AllBits([octet]) == ToBits(octet, 8)
  {
  }

  /** Filling up the bits of a chunk with zeros gives those of the filled-up chunk. */
  lemma ChunkBits(chunk: seq<Octet>)
    requires 1 <= |chunk| <= 3
    ensures AllBits(chunk) + Zeros(24 - |AllBits(chunk)|) == FilledBits(chunk)
  {
    ZeroBits(8);
    assert Zeros(8) + Zeros(8) == Zeros(16);
    AllBitsOne(chunk[0]);
    hide AllBits, ToBits;
    if |chunk| == 1 {
      assert chunk == [chunk[0]];
    } else {
      AllBitsOne(chunk[1]);
      AllBitsConcat([chunk[0]], [chunk[1]]);
      if |chunk| == 2 {
        assert chunk == [chunk[0]] + [chunk[1]];
      } else {
        AllBitsOne(chunk[2]);
        AllBitsConcat([chunk[0]] + [chunk[1]], [chunk[2]]);
        assert chunk == [chunk[0]] + [chunk[1]] + [chunk[2]];
        assert Zeros(0) == [];
      }
    }
  }

  lemma SymbolsStep(group: Bits, rest: Bits)
    requires |group| == 6
    ensures Symbols(group + rest) == [Symbol(group)] + Symbols(rest)
  {
    hide Symbol;
    assert (group + rest)[..6] == group;
    assert (group + rest)[6..] == rest;
    if rest == [] {
      assert group + rest == group;
    }
  }

  lemma {:induction false} SymbolsConcat(a: Bits, b: Bits)
    requires |a| % 6 == 0
    ensures Symbols(a + b) == Symbols(a) + Symbols(b)
  {
    if a == [] {
      assert a + b == b;
    } else {
      hide *;
      var group, rest := a[..6], a[6..];
      assert a == group + rest;
      assert a + b == group + (rest + b);
      SymbolsConcat(rest, b);
      SymbolsStep(group, rest);
      SymbolsStep(group, rest + b);
      var first := [Symbol(group)];
      assert first + (Symbols(rest) + Symbols(b)) == first + Symbols(rest) + Symbols(b);
    }
  }

  lemma GroupFilled(bits: Bits, filled: Bits, start: nat, end: nat)
    requires |bits| <= 24 && bits + Zeros(24 - |bits|) == filled
    requires start < end <= start + 6 <= 24 && end <= |bits|
    requires end == |bits| || end == start + 6
    ensures bits[start..end] + Zeros(6 - (end - start)) == filled[start..start + 6]
  {
  }

  /** Where the group that starts at `start` ends: after six bits, or where the bits end. */
  function GroupEnd(start: nat, length: nat): (end: nat)
    requires start < length
    ensures start < end <= length && end <= start + 6
  {
    if start + 6 <= length then start + 6 else length
  }

  lemma FilledGroupSymbol(bits: Bits, filled: Bits, start: nat, s: Sextet)
    requires |bits| <= 24 && bits + Zeros(24 - |bits|) == filled
    requires start < |bits| && start + 6 <= 24
    requires filled[start..start + 6] == ToBits(s, 6)
    ensures Symbol(bits[start..GroupEnd(start, |bits|)]) == Glyph(s)
  {
    hide Symbol, Glyph, ToBits, Zeros;
    var end := GroupEnd(start, |bits|);
    GroupFilled(bits, filled, start, end);
    SymbolOfSextet(bits[start..end], s);
  }

  lemma ChunkGroup(chunk: seq<Octet>, i: nat)
    requires 1 <= |chunk| <= 3 && i < 4
    ensures FilledBits(chunk)[6 * i..6 * i + 6] == ToBits(SextetAt(Combined(chunk), i), 6)
  {
    ChunkGroups(chunk);
    hide *;
    if i == 0 {
    } else if i == 1 {
    } else if i == 2 {
    }
  }

  /** The symbol of each group of the chunk's own bits is the one the loop looks up. */
  lemma GroupSymbol(chunk: seq<Octet>, i: nat)
    requires 1 <= |chunk| <= 3 && i <= |chunk|
    ensures 6 * i < |AllBits(chunk)|
    ensures Symbol(AllBits(chunk)[6 * i..GroupEnd(6 * i, |AllBits(chunk)|)]) == Glyph(SextetAt(Combined(chunk), i))
  {
    hide *;
    ChunkBits(chunk);
    ChunkGroup(chunk, i);
    FilledGroupSymbol(AllBits(chunk), FilledBits(chunk), 6 * i, SextetAt(Combined(chunk), i));
  }

  lemma SliceShift(bits: Bits, shift: nat, start: nat, end: nat)
    requires start <= end && shift + end <= |bits|
    ensures bits[shift..][start..end] == bits[shift + start..shift + end]
  {
  }

  lemma {:induction false} SymbolAt(bits: Bits, i: nat)
    requires 6 * i < |bits|
    ensures i < |Symbols(bits)|
    ensures Symbols(bits)[i] == Symbol(bits[6 * i..GroupEnd(6 * i, |bits|)])
  {
    hide Symbol;
    if i == 0 {
      if |bits| <= 6 {
        assert bits[..|bits|] == bits;
      }
    } else {
      SymbolAt(bits[6..], i - 1);
      SliceShift(bits, 6, 6 * i - 6, GroupEnd(6 * i - 6, |bits| - 6));
    }
  }

  /** The reference encoding of a chunk's bits is what the loop looks up. */
  lemma ChunkEncodes(chunk: seq<Octet>)
    requires 1 <= |chunk| <= 3
    ensures Symbols(AllBits(chunk)) == ChunkSymbols(chunk)
  {
    hide AllBits, ToBits, SextetAt, Glyph, Symbol, Symbols, Combined;
    var symbols := Symbols(AllBits(chunk));
    assert |symbols| == |chunk| + 1;
    forall i | 0 <= i < |chunk| + 1
      ensures symbols[i] == ChunkSymbols(chunk)[i]
    {
      GroupSymbol(chunk, i);
      SymbolAt(AllBits(chunk), i);
    }
  }

  /** Encoding whole triples and then at most three more octets. */
  lemma EncodedExtends(front: seq<Octet>, chunk: seq<Octet>)
    requires |front| % 3 == 0 && 1 <= |chunk| <= 3
    ensures Encoded(front + chunk) == Encoded(front) + Quantum(chunk)
  {
    hide *;
    ChunkPads(|front|, |chunk|);
    AllBitsConcat(front, chunk);
    SymbolsConcat(AllBits(front), AllBits(chunk));
    ChunkEncodes(chunk);
    QuantumIs(chunk);
    EncodedIs(front);
    EncodedIs(front + chunk);
    var symbols := Symbols(AllBits(front));
    Regroup(symbols, ChunkSymbols(chunk), Padding(3 - |chunk|));
  }

  lemma Regroup(a: Bytes, b: Bytes, c: Bytes)
    ensures a + b + c == a + "" + (b + c)
  {
  }

  lemma EncodedIs(octets: seq<Octet>)
    ensures Encoded(octets) == Symbols(AllBits(octets)) + Padding(PadCount(|octets|))
    ensures |AllBits(octets)| == 8 * |octets|
  {
  }

  lemma ChunkPads(front: nat, chunk: nat)
    requires front % 3 == 0 && 1 <= chunk <= 3
    ensures PadCount(front + chunk) == 3 - chunk
    ensures PadCount(front) == 0 && Padding(0) == ""
  {
  }

  lemma EncodedInPlace(buf: seq<Octet>, chunks: nat, start: nat, end: nat)
    requires start == 3 * chunks
    requires start < end <= |buf| && end <= start + 3
    ensures Encoded(buf[..end]) == Encoded(buf[..start]) + Quantum(buf[start..end])
  {
    hide *;
    assert buf[..end] == buf[..start] + buf[start..end];
    EncodedExtends(buf[..start], buf[start..end]);
  }

  /** The part of the buffer that is shown: whole, or the triples that make the output too long. */
  function Shown(buf: seq<Octet>): seq<Octet>
  {
    if |buf| <= 3075 then buf else buf[..3075]
  }

  lemma CombinedIs(chunk: seq<Octet>, b0: Octet, b1: Octet, b2: Octet)
    requires |chunk| <= 3
    requires b0 == (if 0 < |chunk| then chunk[0] else 0)
    requires b1 == (if 1 < |chunk| then chunk[1] else 0)
    requires b2 == (if 2 < |chunk| then chunk[2] else 0)
    ensures Combined(chunk) == b0 * 0x10000 + b1 * 0x100 + b2
  {
  }

  lemma ChunkSymbolAt(chunk: seq<Octet>, i: nat)
    requires |chunk| <= 3 && i <= |chunk|
    ensures ChunkSymbols(chunk)[..i + 1] == ChunkSymbols(chunk)[..i] + [Glyph(SextetAt(Combined(chunk), i))]
  {
  }

  lemma PaddingStep(count: nat)
    ensures Padding(count + 1) == Padding(count) + "="
    ensures Padding(0) == ""
  {
  }

  lemma QuantumIs(chunk: seq<Octet>)
    requires |chunk| <= 3
    ensures Quantum(chunk) == ChunkSymbols(chunk) + Padding(3 - |chunk|)
  {
  }

  lemma ShownUpTo(buf: seq<Octet>, end: nat)
    requires end == 3075 <= |buf| || end == |buf| <= 3075
    ensures Shown(buf) == buf[..end]
  {
  }

  /** One chunk of the encoding loop: its octets combined, then the symbols and the padding pushed. */
  method PushChunk(encoded: Bytes, chunk: seq<Octet>) returns (longer: Bytes)
    requires 1 <= |chunk| <= 3
    ensures longer == encoded + Quantum(chunk)
  {
    hide *;
    var triple := new Octet[3](i => 0);
    for index := 0 to |chunk|
      invariant forall k :: 0 <= k < 3 ==> triple[k] == if k < index then chunk[k] else 0
    {
      triple[index] := chunk[index];
    }
    var combined: int := triple[0] as int * 0x10000 + triple[1] as int * 0x100 + triple[2] as int;
    CombinedIs(chunk, triple[0], triple[1], triple[2]);
    var pad := 3 - |chunk|;
    longer := encoded;
    ghost var symbols := ChunkSymbols(chunk);
    for index := 0 to 4 - pad
      invariant longer == encoded + symbols[..index]
    {
      ChunkSymbolAt(chunk, index);
      longer := longer + [Glyph(SextetAt(combined, index))];
    }
    assert symbols[..4 - pad] == symbols;
    PaddingStep(0);
    for padded := 0 to pad
      invariant longer == encoded + symbols + Padding(padded)
    {
      PaddingStep(padded);
      longer := longer + "=";
    }
    QuantumIs(chunk);
  }

  /** The encoding loop of `inspect_body`. */
  method Preview(buf: seq<Octet>) returns (encoded: Bytes)
    ensures encoded == Encoded(Shown(buf))
    ensures |encoded| <= PREVIEW_LIMIT + 4
  {
    encoded := "";
    assert Encoded(buf[..0]) == "";
    assert PREVIEW_LIMIT == 4096;
    hide *;
    var start := 0;
    ghost var chunks := 0;
    while start < |buf|
      invariant start <= |buf|
      invariant start <= 3 * chunks < start + 3 && (start == |buf| || start == 3 * chunks)
      invariant |encoded| == 4 * chunks <= PREVIEW_LIMIT
      invariant encoded == Encoded(buf[..start])
    {
      var end := if start + 3 <= |buf| then start + 3 else |buf|;
      var chunk := buf[start..end];
      EncodedInPlace(buf, chunks, start, end);
      encoded := PushChunk(encoded, chunk);
      start, chunks := end, chunks + 1;
      if |encoded| > PREVIEW_LIMIT {
        break;
      }
    }
    ShownUpTo(buf, start);
  }
}
