/**
  The human-readable byte count of `bytesToReadable` (main.go:151-162): values below 1024
  print as "<b> B"; larger ones are divided by the largest power of 1024 that leaves a
  quotient of at least 1 and printed with one of the binary unit names KiB … EiB.
*/
module ByteFormat {
  import opened Machine

  /** The unit letters, indexed by the exponent the loop computes. */
  const UNITS: string := "KMGTPE"

  /** 1024, the `unit` constant of main.go:152, to the power k. */
  function Pow1024(k: nat): (r: int)
    ensures r >= 1
  {
    if k == 0 then 1 else 1024 * Pow1024(k - 1)
  }

  lemma {:induction false} Pow1024Monotone(i: nat, j: nat)
    requires i <= j
    ensures Pow1024(i) <= Pow1024(j)
  {
    if i < j {
      Pow1024Monotone(i, j - 1);
    }
  }

  // ---------------------------------------------------------------------------
  // Go's `%d` verb: signed decimal notation

  function DigitChar(d: int): (c: char)
    requires 0 <= d < 10
    ensures '0' <= c <= '9'
  {
    ('0' as int + d) as char
  }

  function DigitValue(c: char): nat {
    if '0' <= c <= '9' then c as int - '0' as int else 0
  }

  /** Decimal digits of n, most significant first, without leading zeros. */
  function FormatNat(n: nat): (s: string)
    ensures |s| >= 1
    ensures forall k :: 0 <= k < |s| ==> '0' <= s[k] <= '9'
    ensures s[0] == '0' ==> n == 0
  {
    if n < 10 then [DigitChar(n)] else FormatNat(n / 10) + [DigitChar(n % 10)]
  }

  /** `fmt.Sprintf("%d", i)`: a minus sign for negative values, then the digits. */
  function FormatInt(i: int): (s: string)
    ensures |s| >= 1
    ensures s[0] == '-' <==> i < 0
    ensures forall k :: 1 <= k < |s| ==> '0' <= s[k] <= '9'
  {
    if i < 0 then "-" + FormatNat(-i) else FormatNat(i)
  }

  /** Reads back a string of decimal digits. */
  function ParseNat(s: string): nat {
    if s == [] then 0 else 10 * ParseNat(s[..|s| - 1]) + DigitValue(s[|s| - 1])
  }

  /** Reads back an optionally signed decimal number. */
  function ParseInt(s: string): int {
    if |s| > 0 && s[0] == '-' then -(ParseNat(s[1..]) as int) else ParseNat(s)
  }

  lemma {:induction false} ParseFormatNat(n: nat)
    ensures ParseNat(FormatNat(n)) == n
  {
    if n >= 10 {
      var s := FormatNat(n / 10);
      ParseFormatNat(n / 10);
      assert (s + [DigitChar(n % 10)])[..|s|] == s;
    }
  }

  /** The decimal text of `%d` determines the value it was printed from. */
  lemma ParseFormatInt(i: int)
    ensures ParseInt(FormatInt(i)) == i
  {
    if i < 0 {
      ParseFormatNat(-i);
      assert ("-" + FormatNat(-i))[1..] == FormatNat(-i);
    } else {
      ParseFormatNat(i);
    }
  }

  // ---------------------------------------------------------------------------
  // bytesToReadable

  /**
    The result of `bytesToReadable`. `Plain` is the "<b> B" text. `Scaled` is the
    `%.1f %ciB` rendering before the float formatting: the value printed is
    bytes / div to one decimal, followed by `suffix`, e.g. " KiB".
  */
  datatype Readable =
    | Plain(text: string)
    | Scaled(bytes: int64, div: int64, exp: nat, suffix: string)

  /** How many more times the loop at main.go:157 divides n by 1024 before n drops below 1024. */
  function ScaleExp(n: int): (e: nat)
    ensures e == 0 <==> n < 1024
    decreases if n < 0 then 0 else n
  {
    if n < 1024 then 0 else 1 + ScaleExp(n / 1024)
  }

  /** The exponent brackets n between two consecutive powers of 1024. */
  lemma {:induction false} ScaleExpBrackets(n: int)
    requires n >= 1
    ensures Pow1024(ScaleExp(n)) <= n < Pow1024(ScaleExp(n) + 1)
    decreases n
  {
    if n >= 1024 {
      ScaleExpBrackets(n / 1024);
    }
  }

  /** For b >= 1024 the divisor chosen is the largest power of 1024 that is at most b. */
  lemma ScaledBrackets(b: int)
    requires b >= 1024
    ensures Pow1024(ScaleExp(b / 1024) + 1) <= b < Pow1024(ScaleExp(b / 1024) + 2)
  {
    ScaleExpBrackets(b / 1024);
  }

  /** Every int64 of at least 1024 gets an exponent of at most 5, so "KMGTPE" is never overrun. */
  lemma ExponentBound(b: int64)
    requires b >= 1024
    ensures ScaleExp(b as int / 1024) <= 5
    ensures Pow1024(ScaleExp(b as int / 1024) + 1) <= Pow1024(6) == 0x1000_0000_0000_0000
  {
    var e := ScaleExp(b as int / 1024);
    ScaledBrackets(b as int);
    assert Pow1024(6) == 0x1000_0000_0000_0000;
    assert Pow1024(7) == 0x40_0000_0000_0000_0000;
    if e >= 6 {
      Pow1024Monotone(7, e + 1);
      assert false;
    }
    Pow1024Monotone(e + 1, 6);
  }

  /** The specification of `bytesToReadable`. */
  function ReadableOf(b: int64): (r: Readable)
    ensures r.Plain? <==> b < 1024
    ensures r.Scaled? ==> r.bytes == b && r.exp <= 5 && r.suffix == [' ', UNITS[r.exp], 'i', 'B']
  {
    if b < 1024 then Plain(FormatInt(b as int) + " B")
    else
      var e := ScaleExp(b as int / 1024);
      ExponentBound(b);
      Scaled(b, Pow1024(e + 1) as int64, e, [' ', UNITS[e], 'i', 'B'])
  }

  lemma QuotientInRange(b: int, d: int)
    requires d > 0 && d <= b < 1024 * d
    ensures 1 <= b / d < 1024
  {
  }

  /** What the scaled branch promises: div = 1024^(exp+1), 1 <= b / div < 1024, exp <= 5,
      so the unit letter exists and div never leaves int64 (div <= 2^60). */
  lemma ReadableOfScaled(b: int64)
    requires b >= 1024
    ensures ReadableOf(b).Scaled?
    ensures ReadableOf(b).bytes == b
    ensures ReadableOf(b).exp <= 5
    ensures ReadableOf(b).div as int == Pow1024(ReadableOf(b).exp + 1) <= 0x1000_0000_0000_0000
    ensures Pow1024(ReadableOf(b).exp + 1) <= b as int < Pow1024(ReadableOf(b).exp + 2)
    ensures 1 <= b as int / ReadableOf(b).div as int < 1024
    ensures ReadableOf(b).suffix == [' ', UNITS[ReadableOf(b).exp], 'i', 'B']
  {
    var r := ReadableOf(b);
    ExponentBound(b);
    ScaledBrackets(b as int);
    QuotientInRange(b as int, r.div as int);
  }

  /** The exponent is the only one that brackets b between 1024^(e+1) and 1024^(e+2). */
  lemma ScaledExponentUnique(b: int64, e: nat)
    requires b >= 1024
    requires Pow1024(e + 1) <= b as int < Pow1024(e + 2)
    ensures ReadableOf(b).Scaled? && ReadableOf(b).exp == e
  {
    var e0 := ScaleExp(b as int / 1024);
    ScaledBrackets(b as int);
    if e < e0 {
      Pow1024Monotone(e + 2, e0 + 1);
      assert false;
    } else if e0 < e {
      Pow1024Monotone(e0 + 2, e + 1);
      assert false;
    }
  }

  /** Below 1024, negative values included, the value is printed in decimal followed by " B",
      and the decimal text reads back to the value. */
  lemma ReadableOfPlain(b: int64)
    requires b < 1024
    ensures ReadableOf(b).Plain?
    ensures ReadableOf(b).text == FormatInt(b as int) + " B"
    ensures ParseInt(ReadableOf(b).text[..|ReadableOf(b).text| - 2]) == b as int
  {
    var t := ReadableOf(b).text;
    assert t[..|t| - 2] == FormatInt(b as int);
    ParseFormatInt(b as int);
  }

  /** Small values print as plain decimals: the "0 B" of an empty count, -1, and 1023. */
  lemma {:induction false} PlainExamples()
    ensures ReadableOf(0) == Plain("0 B")
    ensures ReadableOf(-1) == Plain("-1 B")
    ensures ReadableOf(1023) == Plain("1023 B")
  {
    assert FormatNat(0) == "0" && FormatNat(1) == "1";
    assert FormatNat(10) == "10";
    assert FormatNat(102) == "102";
    assert FormatNat(1023) == "1023";
  }

  /** The renderings 1536 -> "1.5 KiB" (1536 / 1024) and 1048576 -> "1.0 MiB". */
  lemma {:induction false} ScaledExamples()
    ensures ReadableOf(1536) == Scaled(1536, 1024, 0, " KiB")
    ensures ReadableOf(1048576) == Scaled(1048576, 1048576, 1, " MiB")
  {
    assert ScaleExp(1) == 0;
    assert ScaleExp(1024) == 1 by { assert ScaleExp(1) == 0; }
  }

  /** The largest int64 lands on the last unit letter, E. */
  lemma LargestExample()
    ensures ReadableOf(0x7FFF_FFFF_FFFF_FFFF).exp == 5
    ensures ReadableOf(0x7FFF_FFFF_FFFF_FFFF).suffix == " EiB"
  {
    assert Pow1024(6) == 0x1000_0000_0000_0000;
    assert Pow1024(7) == 0x40_0000_0000_0000_0000;
    ScaledExponentUnique(0x7FFF_FFFF_FFFF_FFFF, 5);
  }

  /**
    bytesToReadable (main.go:151-162): the loop divides n by 1024 while it is at least 1024,
    multiplying div by 1024 and counting exp. All arithmetic is on int64, so each step is
    checked not to overflow.
  */
  method BytesToReadable(b: int64) returns (r: Readable)
    ensures r == ReadableOf(b)
    ensures r.Plain? <==> b < 1024
    ensures r.Plain? ==> r.text == FormatInt(b as int) + " B"
    ensures r.Scaled? ==> r.bytes == b && r.exp <= 5
    ensures r.Scaled? ==> r.div as int == Pow1024(r.exp + 1) && 1 <= b as int / r.div as int < 1024
    ensures r.Scaled? ==> r.suffix == [' ', UNITS[r.exp], 'i', 'B']
  {
    if b < 1024 {
      return Plain(FormatInt(b as int) + " B");
    }
    var div: int64, exp: nat := 1024, 0;
    var n := b / 1024;
    while n >= 1024
      invariant 0 <= n
      invariant div as int == Pow1024(exp + 1)
      invariant exp + ScaleExp(n as int) == ScaleExp(b as int / 1024)
      decreases n
    {
      ExponentBound(b);
      Pow1024Monotone(exp + 2, 6);
      div := div * 1024;
      exp := exp + 1;
      n := n / 1024;
    }
    ExponentBound(b);
    r := Scaled(b, div, exp, [' ', UNITS[exp], 'i', 'B']);
    ReadableOfScaled(b);
  }
}
