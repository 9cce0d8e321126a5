/** An independent decoder for section 4 of RFC 4648, and the inverse laws between it and the encoder. */
module Base64Decoding {
  import opened Prelude
  import opened Base64

  /** The value a character of the alphabet stands for. */
  function Lookup(c: char): Option<Sextet>
  {
    if 'A' <= c <= 'Z' then Some((c - 'A') as int)
    else if 'a' <= c <= 'z' then Some((c - 'a') as int + 26)
    else if '0' <= c <= '9' then Some((c - '0') as int + 52)
    else if c == '+' then Some(62)
    else if c == '/' then Some(63)
    else None
  }

  function OctetsOf(s0: Sextet, s1: Sextet, s2: Sextet, s3: Sextet): (octets: seq<Octet>)
    ensures |octets| == 3
  {
    [s0 * 4 + s1 / 16, s1 % 16 * 16 + s2 / 4, s2 % 4 * 64 + s3]
  }

  /** How many octets four characters stand for: padding may only end the last quantum. */
  function OctetCount(quantum: Bytes, last: bool): nat
    requires |quantum| == 4
  {
    if quantum[3] != '=' then 3
    else if !last then 0
    else if quantum[2] != '=' then 2
    else 1
  }

  function LookupOr0(c: char): Sextet
  {
    if Lookup(c).Some? then Lookup(c).value else 0
  }

  /** One quantum decoded. The bits that padding leaves over must be zero. */
  function DecodedQuantum(quantum: Bytes, last: bool): (octets: Option<seq<Octet>>)
    requires |quantum| == 4
    ensures octets.Some? ==> 1 <= |octets.value| <= 3 && (|octets.value| == 3 || last)
  {
    var count := OctetCount(quantum, last);
    var octets := OctetsOf(LookupOr0(quantum[0]), LookupOr0(quantum[1]), LookupOr0(quantum[2]), LookupOr0(quantum[3]));
    if count == 0
       || (exists i :: 0 <= i <= count && Lookup(quantum[i]).None?)
       || (exists i :: count <= i < 3 && octets[i] != 0)
    then None
    else Some(octets[..count])
  }

  function Decoded(text: Bytes): Option<seq<Octet>>
  {
    if text == "" then Some([])
    else if |text| < 4 then None
    else
      match (DecodedQuantum(text[..4], |text| == 4), Decoded(text[4..]))
      case (Some(octets), Some(rest)) => Some(octets + rest)
      case _ => None
  }

  // ---- The alphabet ----

  lemma GlyphLookup(c: char)
    requires Lookup(c).Some?
    ensures Glyph(Lookup(c).value) == c
  {
  }

  // ---- One quantum ----

  /** Three octets and the four sextets of the same 24 bits determine each other. */
  lemma SextetsGiveOctets(b0: Octet, b1: Octet, b2: Octet)
    ensures var n := (b0 * 256 + b1) * 256 + b2;
            OctetsOf(SextetAt(n, 0), SextetAt(n, 1), SextetAt(n, 2), SextetAt(n, 3)) == [b0, b1, b2]
  {
    var n := (b0 * 256 + b1) * 256 + b2;
    assert n / 64 == b0 * 1024 + b1 * 4 + b2 / 64;
    assert n / 0x1000 == b0 * 16 + b1 / 16;
    assert n / 0x40000 == b0 / 4;
    hide OctetsOf;
    assert SextetAt(n, 0) == b0 / 4;
    assert SextetAt(n, 1) == b0 % 4 * 16 + b1 / 16;
    assert SextetAt(n, 2) == b1 % 16 * 4 + b2 / 64;
    assert SextetAt(n, 3) == b2 % 64;
    SextetsRegroup(b0, b1, b2);
  }

  lemma SextetsRegroup(b0: Octet, b1: Octet, b2: Octet)
    ensures OctetsOf(b0 / 4, b0 % 4 * 16 + b1 / 16, b1 % 16 * 4 + b2 / 64, b2 % 64) == [b0, b1, b2]
  {
  }

  lemma OctetsGiveSextets(s0: Sextet, s1: Sextet, s2: Sextet, s3: Sextet)
    ensures var octets := OctetsOf(s0, s1, s2, s3);
            (octets[0] as int * 256 + octets[1] as int) * 256 + octets[2] as int == ((s0 * 64 + s1) * 64 + s2) * 64 + s3
  {
  }

  /** The characters of a chunk's quantum. */
  lemma QuantumCharacters(chunk: seq<Octet>, i: nat)
    requires 1 <= |chunk| <= 3 && i < 4
    ensures Quantum(chunk)[i] == if i <= |chunk| then Glyph(SextetAt(Combined(chunk), i)) else '='
    ensures LookupOr0(Quantum(chunk)[i]) == SextetAt(Combined(chunk), i)
    ensures Quantum(chunk)[i] == '=' <==> i > |chunk|
    ensures i <= |chunk| ==> Lookup(Quantum(chunk)[i]).Some?
  {
  }

  lemma FilledChunk(chunk: seq<Octet>)
    requires 1 <= |chunk| <= 3
    ensures [At(chunk, 0), At(chunk, 1), At(chunk, 2)][..|chunk|] == chunk
    ensures Combined(chunk) == (At(chunk, 0) as int * 256 + At(chunk, 1) as int) * 256 + At(chunk, 2) as int
    ensures forall i :: |chunk| <= i < 3 ==> At(chunk, i) == 0
  {
  }

  lemma QuantumOctets(chunk: seq<Octet>)
    requires 1 <= |chunk| <= 3
    ensures var q := Quantum(chunk);
            OctetsOf(LookupOr0(q[0]), LookupOr0(q[1]), LookupOr0(q[2]), LookupOr0(q[3]))
            == [At(chunk, 0), At(chunk, 1), At(chunk, 2)]
  {
    FilledChunk(chunk);
    SextetsGiveOctets(At(chunk, 0), At(chunk, 1), At(chunk, 2));
    hide *;
    QuantumCharacters(chunk, 0);
    QuantumCharacters(chunk, 1);
    QuantumCharacters(chunk, 2);
    QuantumCharacters(chunk, 3);
  }

  lemma QuantumCount(chunk: seq<Octet>, last: bool)
    requires 1 <= |chunk| <= 3 && (|chunk| == 3 || last)
    ensures OctetCount(Quantum(chunk), last) == |chunk|
    ensures forall i :: 0 <= i <= |chunk| ==> Lookup(Quantum(chunk)[i]).Some?
  {
    hide Quantum, Lookup, LookupOr0, SextetAt, Combined, Glyph;
    forall i | 0 <= i < 4
      ensures Quantum(chunk)[i] == '=' <==> i > |chunk|
      ensures i <= |chunk| ==> Lookup(Quantum(chunk)[i]).Some?
    {
      QuantumCharacters(chunk, i);
    }
  }

  lemma QuantumDecodes(chunk: seq<Octet>, last: bool)
    requires 1 <= |chunk| <= 3 && (|chunk| == 3 || last)
    ensures DecodedQuantum(Quantum(chunk), last) == Some(chunk)
  {
    QuantumOctets(chunk);
    QuantumCount(chunk, last);
    FilledChunk(chunk);
    hide Quantum, OctetCount, Lookup, LookupOr0, OctetsOf, At, Combined;
  }

  /** The first triple of a buffer makes the first quantum of its encoding. */
  lemma EncodedFront(chunk: seq<Octet>, rest: seq<Octet>)
    requires |chunk| == 3
    ensures Encoded(chunk + rest) == Quantum(chunk) + Encoded(rest)
  {
    hide *;
    AllBitsConcat(chunk, rest);
    EncodedIs(chunk);
    EncodedIs(rest);
    EncodedIs(chunk + rest);
    SymbolsConcat(AllBits(chunk), AllBits(rest));
    ChunkEncodes(chunk);
    QuantumIs(chunk);
    WholeTriplePads(|rest|);
    Regroup(ChunkSymbols(chunk), Symbols(AllBits(rest)), Padding(PadCount(|rest|)));
  }

  lemma WholeTriplePads(length: nat)
    ensures PadCount(3 + length) == PadCount(length)
    ensures Padding(0) == ""
  {
  }

  lemma EncodedLast(chunk: seq<Octet>)
    requires 1 <= |chunk| <= 3
    ensures Encoded(chunk) == Quantum(chunk)
  {
    EncodedExtends([], chunk);
    assert [] + chunk == chunk;
    assert Encoded([]) == "";
  }

  /** Decoding what a quantum is followed by. */
  lemma DecodedStep(quantum: Bytes, rest: Bytes)
    requires |quantum| == 4
    ensures Decoded(quantum + rest) ==
            match (DecodedQuantum(quantum, rest == ""), Decoded(rest))
            case (Some(octets), Some(more)) => Some(octets + more)
            case _ => None
  {
  }

  lemma EncodedEmpty(octets: seq<Octet>)
    ensures Encoded(octets) == "" <==> octets == []
  {
  }

  /** How many octets the first quantum of a buffer holds. */
  function ChunkSize(length: nat): nat
  {
    if length <= 3 then length else 3
  }

  lemma EncodedPeel(octets: seq<Octet>)
    requires octets != []
    ensures var size := ChunkSize(|octets|);
            Encoded(octets) == Quantum(octets[..size]) + Encoded(octets[size..])
  {
    var size := ChunkSize(|octets|);
    var chunk, rest := octets[..size], octets[size..];
    NothingEncoded();
    hide Encoded, Quantum;
    if rest == [] {
      assert octets == chunk;
      EncodedLast(chunk);
      assert Quantum(chunk) + "" == Quantum(chunk);
    } else {
      assert octets == chunk + rest;
      EncodedFront(chunk, rest);
    }
  }

  /** Decoding undoes encoding, for every buffer. */
  lemma {:induction false} DecodeUndoesEncode(octets: seq<Octet>)
    ensures Decoded(Encoded(octets)) == Some(octets)
  {
    if octets == [] {
      NothingEncoded();
    } else {
      var size := ChunkSize(|octets|);
      var chunk, rest := octets[..size], octets[size..];
      hide Encoded, Quantum, Decoded, DecodedQuantum;
      assert octets == chunk + rest;
      DecodeUndoesEncode(rest);
      EncodedPeel(octets);
      EncodedEmpty(rest);
      QuantumDecodes(chunk, rest == []);
      DecodedStep(Quantum(chunk), Encoded(rest));
    }
  }

  lemma NothingEncoded()
    ensures Encoded([]) == ""
  {
  }

  // ---- Only encodings decode ----

  lemma SextetAtOf(s0: Sextet, s1: Sextet, s2: Sextet, s3: Sextet)
    ensures var n := ((s0 * 64 + s1) * 64 + s2) * 64 + s3;
            SextetAt(n, 0) == s0 && SextetAt(n, 1) == s1 && SextetAt(n, 2) == s2 && SextetAt(n, 3) == s3
  {
  }

  lemma ZeroFilled(octets: seq<Octet>, count: nat)
    requires |octets| == 3 && 1 <= count <= 3
    requires forall i :: count <= i < 3 ==> octets[i] == 0
    ensures Combined(octets[..count]) == (octets[0] as int * 256 + octets[1] as int) * 256 + octets[2] as int
  {
  }

  /** The octets a quantum decodes to, filled up with zeros, are those of its four sextets. */
  lemma DecodedCombines(quantum: Bytes, last: bool)
    requires |quantum| == 4 && DecodedQuantum(quantum, last).Some?
    ensures var chunk := DecodedQuantum(quantum, last).value;
            && |chunk| == OctetCount(quantum, last)
            && (forall i :: 0 <= i <= |chunk| ==> Lookup(quantum[i]).Some?)
            && (forall i :: 0 <= i < 4 ==> SextetAt(Combined(chunk), i) == LookupOr0(quantum[i]))
  {
    var s0, s1, s2, s3 := LookupOr0(quantum[0]), LookupOr0(quantum[1]), LookupOr0(quantum[2]), LookupOr0(quantum[3]);
    var octets := OctetsOf(s0, s1, s2, s3);
    var chunk := DecodedQuantum(quantum, last).value;
    OctetsGiveSextets(s0, s1, s2, s3);
    SextetAtOf(s0, s1, s2, s3);
    hide SextetAt, LookupOr0, OctetsOf, Combined, Lookup;
    ZeroFilled(octets, |chunk|);
  }

  lemma DecodedIsQuantum(quantum: Bytes, last: bool)
    requires |quantum| == 4 && DecodedQuantum(quantum, last).Some?
    ensures Quantum(DecodedQuantum(quantum, last).value) == quantum
  {
    var chunk := DecodedQuantum(quantum, last).value;
    DecodedCombines(quantum, last);
    hide SextetAt, Combined, DecodedQuantum;
    forall i | 0 <= i < 4
      ensures Quantum(chunk)[i] == quantum[i]
    {
      QuantumCharacters(chunk, i);
      if i <= |chunk| {
        GlyphLookup(quantum[i]);
      }
    }
  }

  /** Every text that decodes is the encoding of what it decodes to, so encodings are unique. */
  lemma {:induction false} EncodeUndoesDecode(text: Bytes)
    requires Decoded(text).Some?
    ensures Encoded(Decoded(text).value) == text
  {
    if text == "" {
      NothingEncoded();
    } else {
      var quantum, rest := text[..4], text[4..];
      assert text == quantum + rest;
      DecodedStep(quantum, rest);
      DecodedIsQuantum(quantum, rest == "");
      hide *;
      EncodeUndoesDecode(rest);
      var chunk, more := DecodedQuantum(quantum, rest == "").value, Decoded(rest).value;
      if rest == "" {
        NothingDecoded();
        EncodedLast(chunk);
        assert chunk + more == chunk && quantum + "" == quantum;
      } else {
        EncodedFront(chunk, more);
      }
    }
  }

  lemma NothingDecoded()
    ensures Decoded("") == Some([])
  {
  }
}
