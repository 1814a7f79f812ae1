/** The few pieces of the Rust standard library the game relies on, written out:
    joining string slots, substring search, the byte length of a UTF-8 string,
    chrono's truncating unit conversions and decimal formatting of integers. */
module Text {

  /** Every part is a single character. */
  predicate SingleChars(parts: seq<string>)
  {
    forall k :: 0 <= k < |parts| ==> |parts[k]| == 1
  }

  /** `[String]::join("")`: the slots concatenated in order. Slots of one
      character each join to one character per slot. */
  function Join(parts: seq<string>): (s: string)
    ensures SingleChars(parts) ==> |s| == |parts|
  {
    if parts == [] then "" else Join(parts[..|parts| - 1]) + parts[|parts| - 1]
  }

  /** `str::contains` with a string pattern: `pat` is a prefix of `s` or of
      one of its suffixes. The empty pattern is found everywhere, and a
      pattern longer than `s` nowhere. */
  predicate Contains(s: string, pat: string)
    ensures pat == "" ==> Contains(s, pat)
    ensures Contains(s, pat) ==> |pat| <= |s|
  {
    pat <= s || (s != [] && Contains(s[1..], pat))
  }

  /** For a one-character pattern, substring search is plain membership. */
  lemma {:induction false} ContainsChar(s: string, c: char)
    ensures Contains(s, [c]) <==> c in s
  {
    if s != [] {
      ContainsChar(s[1..], c);
      assert s == [s[0]] + s[1..];
    }
  }

  /** Number of bytes UTF-8 uses for one character. */
  function Utf8Width(c: char): (w: nat)
    ensures 1 <= w <= 4
    ensures w == 1 <==> c as int < 0x80
  {
    if c as int < 0x80 then 1
    else if c as int < 0x800 then 2
    else if c as int < 0x1_0000 then 3
    else 4
  }

  /** `str::len`: the length of a string in bytes of its UTF-8 encoding,
      between one and four bytes per character. */
  function Utf8Len(s: string): (n: nat)
    ensures |s| <= n <= 4 * |s|
  {
    if s == [] then 0 else Utf8Len(s[..|s| - 1]) + Utf8Width(s[|s| - 1])
  }

  /** A string is one byte long exactly when it is a single ASCII character. */
  lemma Utf8LenOne(s: string)
    ensures Utf8Len(s) == 1 <==> |s| == 1 && s[0] as int < 0x80
  {
    if s != [] {
      if |s| == 1 {
        assert s[..0] == [];
      }
    }
  }

  /** Integer division rounding toward zero, as chrono's `num_seconds` and
      `num_minutes` do (Dafny's own `/` is Euclidean). */
  function TruncDiv(a: int, b: int): (q: int)
    requires b > 0
    ensures a >= 0 ==> 0 <= q && q * b <= a < q * b + b
    ensures a < 0 ==> q <= 0 && q * b - b < a <= q * b
  {
    if a >= 0 then
      DivBounds(a, b);
      a / b
    else
      DivBounds(-a, b);
      -((-a) / b)
  }

  /** Euclidean division of a natural number brackets it between two
      consecutive multiples of the divisor. */
  lemma DivBounds(a: nat, b: int)
    requires b > 0
    ensures 0 <= a / b && (a / b) * b <= a < (a / b) * b + b
  {
    assert a == (a / b) * b + a % b;
  }

  /** Truncating division keeps the order of its dividends. */
  lemma TruncDivMonotone(a: int, a': int, b: int)
    requires a <= a' && b > 0
    ensures TruncDiv(a, b) <= TruncDiv(a', b)
  {
    var q, q' := TruncDiv(a, b), TruncDiv(a', b);
    if a >= 0 || a' < 0 {
      if q > q' {
        MulMonotone(q' + 1, q, b);
      }
    }
  }

  lemma MulMonotone(x: int, y: int, b: int)
    requires x <= y && b >= 0
    ensures x * b <= y * b
  {
    assert y * b - x * b == (y - x) * b;
  }

  function DigitChar(d: nat): (c: char)
    requires d < 10
  {
    ('0' as int + d) as char
  }

  /** Decimal digits of `n`, most significant first, as `format!("{}", n)`. */
  function NatToString(n: nat): (s: string)
    ensures |s| >= 1
    ensures forall k :: 0 <= k < |s| ==> '0' <= s[k] <= '9'
    ensures n > 0 ==> s[0] != '0'
  {
    if n < 10 then [DigitChar(n)] else NatToString(n / 10) + [DigitChar(n % 10)]
  }

  /** The number a string of decimal digits denotes. */
  function DecimalValue(s: string): nat
    requires forall k :: 0 <= k < |s| ==> '0' <= s[k] <= '9'
  {
    if s == [] then 0
    else DecimalValue(s[..|s| - 1]) * 10 + (s[|s| - 1] as int - '0' as int)
  }

  /** Reading back the digits gives the number that was formatted. */
  lemma {:induction false} DecimalValueOfNatToString(n: nat)
    ensures DecimalValue(NatToString(n)) == n
  {
    var s := NatToString(n);
    if n >= 10 {
      DecimalValueOfNatToString(n / 10);
      assert s[..|s| - 1] == NatToString(n / 10);
    } else {
      assert s[..|s| - 1] == [];
    }
  }

  /** `format!("{}", i)` for a signed integer. */
  function IntToString(i: int): (s: string)
    ensures |s| >= 1
    ensures s[0] == '-' <==> i < 0
  {
    if i < 0 then "-" + NatToString(-i) else NatToString(i)
  }
}
