/** Splitting text at a separator, and decimal numbers. */
module TextParsing {
  import opened Prelude

  /** `str::split` at one character. */
  function Split(s: Bytes, c: char): (parts: seq<Bytes>)
    ensures |parts| > 0
  {
    if s == "" then [""]
    else
      var rest := Split(s[1..], c);
      if s[0] == c then [""] + rest else [[s[0]] + rest[0]] + rest[1..]
  }

  lemma {:induction false} SplitOne(s: Bytes, c: char)
    requires c !in s
    ensures Split(s, c) == [s]
  {
    if s != "" {
      SplitOne(s[1..], c);
      assert [s[0]] + s[1..] == s;
    }
  }

  /** What one more character in front does to the parts. */
  function Fronted(x: char, parts: seq<Bytes>, c: char): seq<Bytes>
    requires parts != []
  {
    if x == c then [""] + parts else [[x] + parts[0]] + parts[1..]
  }

  lemma SplitStep(x: char, s: Bytes, c: char)
    ensures Split([x] + s, c) == Fronted(x, Split(s, c), c)
  {
    assert ([x] + s)[1..] == s;
  }

  lemma FrontedConcat(x: char, a: seq<Bytes>, b: seq<Bytes>, c: char)
    requires a != []
    ensures Fronted(x, a + b, c) == Fronted(x, a, c) + b
  {
    assert (a + b)[1..] == a[1..] + b;
  }

  /** Splitting distributes over a separator. */
  lemma {:induction false} SplitJoin(front: Bytes, back: Bytes, c: char)
    ensures Split(front + [c] + back, c) == Split(front, c) + Split(back, c)
  {
    if front == "" {
      assert front + [c] + back == [c] + back;
      SplitStep(c, back, c);
    } else {
      hide Split, Fronted;
      var x, tail := front[0], front[1..];
      assert front == [x] + tail;
      assert front + [c] + back == [x] + (tail + [c] + back);
      SplitJoin(tail, back, c);
      SplitStep(x, tail, c);
      SplitStep(x, tail + [c] + back, c);
      FrontedConcat(x, Split(tail, c), Split(back, c), c);
    }
  }

  lemma {:induction false} SplitKeepsCharacters(s: Bytes, c: char, d: char)
    requires d !in s
    ensures forall part :: part in Split(s, c) ==> d !in part
  {
    if s != "" {
      SplitKeepsCharacters(s[1..], c, d);
      var rest := Split(s[1..], c);
      assert rest[0] in rest;
      forall part | part in Split(s, c)
        ensures d !in part
      {
        assert part == "" || part == [s[0]] + rest[0] || part in rest;
      }
    }
  }

  predicate AllDigits(s: Bytes)
  {
    |s| > 0 && forall i :: 0 <= i < |s| ==> '0' <= s[i] <= '9'
  }

  function DecimalValue(s: Bytes): nat
  {
    if s == "" then 0
    else 10 * DecimalValue(s[..|s| - 1]) + (if '0' <= s[|s| - 1] <= '9' then (s[|s| - 1] - '0') as int else 0)
  }

  function Digit(n: nat): char
    requires n < 10
  {
    '0' + n as char
  }

  /** A number in decimal, without leading zeros. */
  function Decimal(n: nat): (s: Bytes)
    ensures AllDigits(s) && DecimalValue(s) == n
    ensures s[0] == '0' ==> |s| == 1
    ensures n > 0 ==> s[0] != '0'
  {
    if n < 10 then
      var s := [Digit(n)];
      assert s[..0] == "";
      s
    else
      var front := Decimal(n / 10);
      var s := front + [Digit(n % 10)];
      assert s[..|s| - 1] == front;
      s
  }

  /** Digits without leading zeros. */
  predicate Canonical(s: Bytes)
  {
    AllDigits(s) && (s[0] != '0' || |s| == 1)
  }

  lemma {:induction false} LeadingDigitCounts(s: Bytes)
    requires AllDigits(s) && s[0] != '0'
    ensures DecimalValue(s) > 0
  {
    if |s| > 1 {
      LeadingDigitCounts(s[..|s| - 1]);
    }
  }

  lemma LastDigit(s: Bytes)
    requires AllDigits(s)
    ensures DecimalValue(s) / 10 == DecimalValue(s[..|s| - 1])
    ensures Digit(DecimalValue(s) % 10) == s[|s| - 1]
  {
    var last := s[|s| - 1];
    var front, digit := DecimalValue(s[..|s| - 1]), (last - '0') as int;
    assert '0' <= last <= '9';
    assert DecimalValue(s) == 10 * front + digit;
    hide DecimalValue, AllDigits;
    assert Digit(digit) == last;
  }

  lemma CanonicalFront(s: Bytes)
    requires Canonical(s)
    ensures |s| > 1 ==> Canonical(s[..|s| - 1]) && DecimalValue(s[..|s| - 1]) > 0
    ensures |s| == 1 ==> DecimalValue(s[..|s| - 1]) == 0
  {
    if |s| > 1 {
      LeadingDigitCounts(s[..|s| - 1]);
    }
  }

  /** Different canonical digits stand for different numbers. */
  lemma {:induction false} CanonicalInjective(a: Bytes, b: Bytes)
    requires Canonical(a) && Canonical(b) && DecimalValue(a) == DecimalValue(b)
    ensures a == b
  {
    CanonicalFront(a);
    CanonicalFront(b);
    LastDigit(a);
    LastDigit(b);
    hide DecimalValue, Digit, AllDigits;
    var x, y := a[..|a| - 1], b[..|b| - 1];
    if |a| > 1 && |b| > 1 {
      CanonicalInjective(x, y);
    }
    assert a == x + [a[|a| - 1]] && b == y + [b[|b| - 1]];
  }
}
