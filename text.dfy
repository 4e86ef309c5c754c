/** The string primitives the movie router relies on: `toLowerCase` (on
    ASCII letters), `includes`, `trim`, and the decimal rendering of an
    integer inside a template literal. */
module Text {

  /** One character of `toLowerCase`, restricted to the ASCII letters. */
  function LowerChar(c: char): char
  {
    if 'A' <= c <= 'Z' then (c as int + 32) as char else c
  }

  /** `s.toLowerCase()` on ASCII: every character is lowered in place. */
  function ToLower(s: string): (r: string)
    ensures |r| == |s|
    ensures forall i :: 0 <= i < |s| ==> r[i] == LowerChar(s[i])
  {
    if s == [] then [] else [LowerChar(s[0])] + ToLower(s[1..])
  }

  /** `needle` occurs in `hay` as a block starting at index `i`. */
  predicate OccursAt(hay: string, needle: string, i: nat)
  {
    i + |needle| <= |hay| && hay[i..i + |needle|] == needle
  }

  /** `hay.includes(needle)`, checked position by position from the left. */
  predicate Includes(hay: string, needle: string): (found: bool)
    decreases |hay|
    ensures found ==> |needle| <= |hay|
    ensures needle == [] ==> found
  {
    needle <= hay || (hay != [] && Includes(hay[1..], needle))
  }

  /** When `Includes` holds, the needle occurs at some position. */
  lemma {:induction false} IncludedSomewhere(hay: string, needle: string) returns (i: nat)
    requires Includes(hay, needle)
    ensures OccursAt(hay, needle, i)
    decreases |hay|
  {
    if needle <= hay {
      i := 0;
    } else {
      var j := IncludedSomewhere(hay[1..], needle);
      assert hay[1..][j..j + |needle|] == hay[j + 1..j + 1 + |needle|];
      i := j + 1;
    }
  }

  /** An occurrence at any position makes `Includes` hold. */
  lemma {:induction false} OccurrenceIsIncluded(hay: string, needle: string, i: nat)
    requires OccursAt(hay, needle, i)
    ensures Includes(hay, needle)
    decreases i
  {
    if i > 0 {
      assert hay[1..][i - 1..i - 1 + |needle|] == hay[i..i + |needle|];
      OccurrenceIsIncluded(hay[1..], needle, i - 1);
    } else {
      assert needle <= hay;
    }
  }

  /** `Includes` holds exactly when the needle occurs at some position. */
  lemma IncludesIffOccurs(hay: string, needle: string)
    ensures Includes(hay, needle) <==> exists i: nat :: OccursAt(hay, needle, i)
  {
    if Includes(hay, needle) {
      var i := IncludedSomewhere(hay, needle);
    }
    if exists i: nat :: OccursAt(hay, needle, i) {
      var i: nat :| OccursAt(hay, needle, i);
      OccurrenceIsIncluded(hay, needle, i);
    }
  }

  /** The characters `String.prototype.trim` removes: the ECMAScript
      WhiteSpace and LineTerminator code points. */
  predicate IsSpace(c: char)
  {
    var n := c as int;
    (9 <= n <= 13) || n == 32 || n == 0xA0 || n == 0x1680 || (0x2000 <= n <= 0x200A)
    || n == 0x2028 || n == 0x2029 || n == 0x202F || n == 0x205F || n == 0x3000 || n == 0xFEFF
  }

  /** Drops the leading characters that satisfy `drop`: the result is the
      suffix of `s` that starts at its first character `drop` keeps. */
  function DropLeading(s: string, drop: char -> bool): (r: string)
    ensures |r| <= |s| && r == s[|s| - |r|..]
    ensures forall k :: 0 <= k < |s| - |r| ==> drop(s[k])
    ensures r != [] ==> !drop(r[0])
  {
    if s != [] && drop(s[0]) then DropLeading(s[1..], drop) else s
  }

  /** Drops the trailing characters that satisfy `drop`: the result is the
      prefix of `s` that ends at its last character `drop` keeps. */
  function DropTrailing(s: string, drop: char -> bool): (r: string)
    ensures |r| <= |s| && r == s[..|r|]
    ensures forall k :: |r| <= k < |s| ==> drop(s[k])
    ensures r != [] ==> !drop(r[|r| - 1])
  {
    if s != [] && drop(s[|s| - 1]) then DropTrailing(s[..|s| - 1], drop) else s
  }

  /** `r` is the block `s[a..a + |r|]`, and every character of `s` outside
      the block satisfies `drop`. */
  predicate IsStrippedBlock(s: string, r: string, a: nat, drop: char -> bool)
  {
    && a + |r| <= |s| && r == s[a..a + |r|]
    && (forall k :: 0 <= k < a ==> drop(s[k]))
    && (forall k :: a + |r| <= k < |s| ==> drop(s[k]))
  }

  /** `s.trim()`: the block of `s` left once the white space at both ends is
      gone; it starts and ends with a non-space character. */
  function Trim(s: string): (r: string)
    ensures exists a: nat :: IsStrippedBlock(s, r, a, IsSpace)
    ensures r != [] ==> !IsSpace(r[0]) && !IsSpace(r[|r| - 1])
  {
    var t := DropLeading(s, IsSpace);
    var r := DropTrailing(t, IsSpace);
    var a := |s| - |t|;
    assert forall k :: a + |r| <= k < |s| ==> s[k] == t[k - a];
    assert IsStrippedBlock(s, r, a, IsSpace);
    r
  }

  /** `s` has characters `drop` keeps at two different positions. */
  predicate HasTwoKept(s: string, drop: char -> bool)
  {
    exists i, j :: 0 <= i < j < |s| && !drop(s[i]) && !drop(s[j])
  }

  /** `s` has non-space characters at two different positions. */
  predicate HasTwoNonSpace(s: string)
  {
    HasTwoKept(s, IsSpace)
  }

  /** A block with only dropped characters around it and kept characters at
      both ends has at least two characters exactly when `s` holds two kept
      characters. */
  lemma BlockLengthAtLeastTwo(s: string, r: string, a: nat, drop: char -> bool)
    requires IsStrippedBlock(s, r, a, drop)
    requires r != [] ==> !drop(r[0]) && !drop(r[|r| - 1])
    ensures |r| >= 2 <==> HasTwoKept(s, drop)
  {
    if |r| >= 2 {
      assert s[a] == r[0] && s[a + |r| - 1] == r[|r| - 1];
      assert 0 <= a < a + |r| - 1 < |s| && !drop(s[a]) && !drop(s[a + |r| - 1]);
    }
    if HasTwoKept(s, drop) {
      var i, j :| 0 <= i < j < |s| && !drop(s[i]) && !drop(s[j]);
      assert a <= i && j < a + |r|;
    }
  }

  /** The trimmed string has at least two characters exactly when `s` holds
      two non-space characters at different positions. */
  lemma TrimmedLengthAtLeastTwo(s: string)
    ensures |Trim(s)| >= 2 <==> HasTwoNonSpace(s)
  {
    var r := Trim(s);
    var a: nat :| IsStrippedBlock(s, r, a, IsSpace);
    BlockLengthAtLeastTwo(s, r, a, IsSpace);
  }

  /** The decimal digit for `d`. */
  function DigitChar(d: nat): (c: char)
    requires d < 10
    ensures '0' <= c <= '9' && c as int - '0' as int == d
  {
    (d + '0' as int) as char
  }

  predicate AllDigits(s: string)
  {
    forall i :: 0 <= i < |s| ==> '0' <= s[i] <= '9'
  }

  /** The number a string of decimal digits denotes. */
  function DecimalValue(s: string): nat
    requires AllDigits(s)
  {
    if s == [] then 0 else DecimalValue(s[..|s| - 1]) * 10 + (s[|s| - 1] as int - '0' as int)
  }

  /** The canonical decimal numeral of `n`, as `${n}` renders a
      non-negative integer: no leading zero except in `0` itself. */
  function NatToDecimal(n: nat): (s: string)
    ensures |s| >= 1 && AllDigits(s)
    ensures s[0] == '0' ==> n == 0 && s == "0"
  {
    if n < 10 then [DigitChar(n)] else NatToDecimal(n / 10) + [DigitChar(n % 10)]
  }

  /** Reading the rendered numeral gives the number back. */
  lemma {:induction false} DecimalRoundTrip(n: nat)
    ensures DecimalValue(NatToDecimal(n)) == n
  {
    if n >= 10 {
      DecimalRoundTrip(n / 10);
      var s := NatToDecimal(n);
      assert s[..|s| - 1] == NatToDecimal(n / 10);
    }
  }

  /** `${i}` for an integer `i`: a minus sign before the magnitude when
      negative, and never `-0` or a leading zero. */
  function IntToDecimal(i: int): (s: string)
    ensures s != []
    ensures i < 0 <==> s[0] == '-'
    ensures s[0] == '-' ==> |s| >= 2 && s[1] != '0'
    ensures s[0] == '0' ==> i == 0 && s == "0"
  {
    if i < 0 then "-" + NatToDecimal(-i) else NatToDecimal(i)
  }

  /** An optional minus sign followed by at least one digit. */
  predicate IsNumeral(s: string)
  {
    s != [] && if s[0] == '-' then |s| >= 2 && AllDigits(s[1..]) else AllDigits(s)
  }

  /** The integer a numeral denotes. */
  function NumeralValue(s: string): int
    requires IsNumeral(s)
  {
    if s[0] == '-' then 0 - DecimalValue(s[1..]) else DecimalValue(s)
  }

  /** Reading the sign and then the digits of `${i}` gives back `i`. */
  lemma IntDecimalRoundTrip(i: int)
    ensures IsNumeral(IntToDecimal(i)) && NumeralValue(IntToDecimal(i)) == i
  {
    var s := IntToDecimal(i);
    if i < 0 {
      assert s[1..] == NatToDecimal(-i);
      DecimalRoundTrip(-i);
    } else {
      DecimalRoundTrip(i);
    }
  }

  /** Distinct integers render as distinct strings. */
  lemma IntToDecimalInjective(a: int, b: int)
    requires IntToDecimal(a) == IntToDecimal(b)
    ensures a == b
  {
    IntDecimalRoundTrip(a);
    IntDecimalRoundTrip(b);
  }
}
