/** The string operations the listing filter relies on: removing non-digits,
    reading a decimal number, `parseInt` on a leading run of digits, ASCII
    lower-casing, substring search (`includes`) and the leading-zero normaliser
    of the numeric inputs. */
module Text {
  import opened Seqs

  predicate IsDigit(c: char) { '0' <= c <= '9' }

  predicate AllDigits(s: string) { forall i :: 0 <= i < |s| ==> IsDigit(s[i]) }

  predicate HasDigit(s: string) { exists i :: 0 <= i < |s| && IsDigit(s[i]) }

  /** The value of the decimal digit `c`. */
  function DigitValue(c: char): (d: nat)
    requires IsDigit(c)
    ensures d < 10
  {
    (c as int) - ('0' as int)
  }

  /** The decimal digit whose value is `d`. */
  function DigitChar(d: nat): (c: char)
    requires d < 10
    ensures IsDigit(c) && DigitValue(c) == d
  {
    (('0' as int) + d) as char
  }

  function Pow10(k: nat): (p: nat)
    ensures p >= 1
  {
    if k == 0 then 1 else 10 * Pow10(k - 1)
  }

  // ---------------------------------------------------------------------------
  // Cleaning the price: `s.replace(/[^0-9]/g, "")`
  // ---------------------------------------------------------------------------

  /** Removes every character that is not a decimal digit. */
  function KeepDigits(s: string): (r: string)
    ensures AllDigits(r)
    ensures r == [] <==> !HasDigit(s)
    ensures AllDigits(s) ==> r == s
  {
    var r := Filter(s, IsDigit);
    FilterMembers(s, IsDigit);
    assert r != [] ==> HasDigit(s) by {
      if r != [] {
        assert r[0] in s;
        var i :| 0 <= i < |s| && s[i] == r[0];
        assert IsDigit(s[i]);
      }
    }
    assert HasDigit(s) ==> r != [] by {
      if HasDigit(s) {
        var i :| 0 <= i < |s| && IsDigit(s[i]);
        assert s[i] in r;
      }
    }
    assert AllDigits(s) ==> r == s by {
      if AllDigits(s) {
        KeepAllDigits(s);
      }
    }
    r
  }

  /** Cleaning keeps every digit of the input, in order and as often as it
      occurs. */
  lemma KeepDigitsKeepsDigits(s: string)
    ensures IsSubsequence(KeepDigits(s), s)
    ensures forall c :: IsDigit(c) ==> multiset(KeepDigits(s))[c] == multiset(s)[c]
  {
    FilterIsSubsequence(s, IsDigit);
    FilterCounts(s, IsDigit);
  }

  lemma {:induction false} KeepAllDigits(s: string)
    requires AllDigits(s)
    ensures Filter(s, IsDigit) == s
    decreases |s|
  {
    if s != [] {
      KeepAllDigits(s[1..]);
      assert s == [s[0]] + s[1..];
    }
  }

  // ---------------------------------------------------------------------------
  // Decimal numbers: `parseInt(digits, 10) || 0` and its inverse
  // ---------------------------------------------------------------------------

  /** The number a string of decimal digits denotes; the empty string denotes 0,
      which is what `parseInt("") || 0` gives. */
  function ParseDecimal(s: string): (n: nat)
    requires AllDigits(s)
    ensures n < Pow10(|s|)
  {
    if s == [] then 0 else 10 * ParseDecimal(s[..|s| - 1]) + DigitValue(s[|s| - 1])
  }

  /** The shortest decimal rendering of `n`. */
  function ShowDecimal(n: nat): (r: string)
    ensures AllDigits(r) && r != []
    ensures r[0] != '0' || r == "0"
    ensures ParseDecimal(r) == n
  {
    if n < 10 then [DigitChar(n)]
    else
      var p := ShowDecimal(n / 10);
      var r := p + [DigitChar(n % 10)];
      assert r[..|r| - 1] == p;
      r
  }

  lemma AllDigitsAppend(a: string, b: string)
    requires AllDigits(a) && AllDigits(b)
    ensures AllDigits(a + b)
  {
    assert forall i :: 0 <= i < |a + b| ==> (a + b)[i] == if i < |a| then a[i] else b[i - |a|];
  }

  /** A digit string denotes 0 exactly when every digit in it is '0'. */
  lemma {:induction false} ParseDecimalZero(s: string)
    requires AllDigits(s)
    ensures ParseDecimal(s) == 0 <==> forall i :: 0 <= i < |s| ==> s[i] == '0'
    decreases |s|
  {
    if s != [] {
      var p := s[..|s| - 1];
      ParseDecimalZero(p);
      assert forall i :: 0 <= i < |p| ==> p[i] == s[i];
    }
  }

  /** Digits in front only scale the value of the digits behind them. */
  lemma {:induction false} ParseDecimalAppend(a: string, b: string)
    requires AllDigits(a) && AllDigits(b)
    ensures AllDigits(a + b)
    ensures ParseDecimal(a + b) == ParseDecimal(a) * Pow10(|b|) + ParseDecimal(b)
    decreases |b|
  {
    AllDigitsAppend(a, b);
    if b == [] {
      assert a + b == a;
    } else {
      var b', last := b[..|b| - 1], b[|b| - 1];
      assert AllDigits(b');
      ParseDecimalAppend(a, b');
      var ab := a + b;
      assert ab[..|ab| - 1] == a + b' && ab[|ab| - 1] == last;
      var x, y, p, d := ParseDecimal(a), ParseDecimal(b'), Pow10(|b'|), DigitValue(last);
      calc {
        ParseDecimal(ab);
        10 * ParseDecimal(a + b') + d;
        10 * (x * p + y) + d;
        { ShiftDistributes(x, y, p, d); }
        x * (10 * p) + (10 * y + d);
        { assert Pow10(|b|) == 10 * p; }
        x * Pow10(|b|) + (10 * y + d);
        { assert b[..|b| - 1] == b'; }
        x * Pow10(|b|) + ParseDecimal(b);
      }
    }
  }

  lemma ShiftDistributes(x: int, y: int, p: int, d: int)
    ensures 10 * (x * p + y) + d == x * (10 * p) + (10 * y + d)
  {
  }

  /** A digit string with a non-zero first digit denotes at least 1. */
  lemma {:induction false} LeadingNonZeroPositive(s: string)
    requires AllDigits(s) && s != [] && s[0] != '0'
    ensures ParseDecimal(s) >= 1
    decreases |s|
  {
    if |s| > 1 {
      LeadingNonZeroPositive(s[..|s| - 1]);
    }
  }

  /** Rendering reproduces every digit string without a leading zero. */
  lemma {:induction false} ShowParseDecimal(s: string)
    requires AllDigits(s) && s != [] && s[0] != '0'
    ensures ShowDecimal(ParseDecimal(s)) == s
    decreases |s|
  {
    var last := s[|s| - 1];
    if |s| == 1 {
      assert DigitChar(DigitValue(last)) == last;
      assert s == [last];
    } else {
      var p := s[..|s| - 1];
      assert AllDigits(p) && p[0] == s[0];
      ShowParseDecimal(p);
      LeadingNonZeroPositive(p);
      var x, d := ParseDecimal(p), DigitValue(last);
      assert ParseDecimal(s) == 10 * x + d;
      ShowDecimalStep(x, d);
      assert DigitChar(d) == last;
      assert s == p + [last];
    }
  }

  /** Rendering a number of two or more digits renders its tens, then its
      last digit. */
  lemma ShowDecimalStep(x: nat, d: nat)
    requires x >= 1 && d < 10
    ensures ShowDecimal(10 * x + d) == ShowDecimal(x) + [DigitChar(d)]
  {
    var n := 10 * x + d;
    assert n >= 10 && n / 10 == x && n % 10 == d;
  }

  // ---------------------------------------------------------------------------
  // `parseInt(cell) || 0` on the bedroom and bathroom cells
  // ---------------------------------------------------------------------------

  /** The longest run of digits at the start of `s`. */
  function LeadingDigits(s: string): (r: string)
    ensures |r| <= |s| && r == s[..|r|]
    ensures AllDigits(r)
    ensures |r| == |s| || !IsDigit(s[|r|])
  {
    if s == [] || !IsDigit(s[0]) then [] else [s[0]] + LeadingDigits(s[1..])
  }

  /** `parseInt(s) || 0`, reading only an unsigned decimal prefix: text that
      does not start with a digit (`NaN`) reads as 0, and a digit string is
      read whole. */
  function ParseIntPrefix(s: string): (n: nat)
    ensures s == [] || !IsDigit(s[0]) ==> n == 0
    ensures AllDigits(s) ==> n == ParseDecimal(s)
  {
    assert AllDigits(s) ==> LeadingDigits(s) == s;
    ParseDecimal(LeadingDigits(s))
  }

  /** `parseInt` reads back a rendered number followed by any text that does
      not start with a digit ("3 beds" gives 3). */
  lemma ParseIntPrefixOfShown(n: nat, rest: string)
    requires rest == [] || !IsDigit(rest[0])
    ensures ParseIntPrefix(ShowDecimal(n) + rest) == n
  {
    var d := ShowDecimal(n);
    var s := d + rest;
    var r := LeadingDigits(s);
    assert forall i :: 0 <= i < |d| ==> s[i] == d[i];
    assert r == s[..|d|] == d;
  }

  // ---------------------------------------------------------------------------
  // ASCII case folding: `toLowerCase()`
  // ---------------------------------------------------------------------------

  predicate IsUpper(c: char) { 'A' <= c <= 'Z' }

  function LowerChar(c: char): (l: char)
    ensures !IsUpper(l)
    ensures IsDigit(l) <==> IsDigit(c)
    ensures IsDigit(c) ==> l == c
  {
    if IsUpper(c) then ((c as int) - ('A' as int) + ('a' as int)) as char else c
  }

  /** `s.toLowerCase()` over ASCII letters. */
  function ToLower(s: string): (r: string)
    ensures |r| == |s|
    ensures forall i :: 0 <= i < |s| ==> r[i] == LowerChar(s[i])
  {
    if s == [] then [] else [LowerChar(s[0])] + ToLower(s[1..])
  }

  /** Lower-casing leaves no upper-case letter and is idempotent. */
  lemma ToLowerIdempotent(s: string)
    ensures forall i :: 0 <= i < |ToLower(s)| ==> !IsUpper(ToLower(s)[i])
    ensures ToLower(ToLower(s)) == ToLower(s)
  {
  }

  /** `x` and `y` are the same character, or the upper- and lower-case forms
      of one ASCII letter. */
  predicate SameLetter(x: char, y: char)
  {
    || x == y
    || (IsUpper(x) && y as int == x as int + ('a' as int - 'A' as int))
    || (IsUpper(y) && x as int == y as int + ('a' as int - 'A' as int))
  }

  /** Two strings lower-case alike exactly when they differ only in the case
      of their ASCII letters. */
  lemma CaseChangeIsInvisible(a: string, b: string)
    ensures (|a| == |b| && forall i :: 0 <= i < |a| ==> SameLetter(a[i], b[i])) <==> ToLower(a) == ToLower(b)
  {
    if ToLower(a) == ToLower(b) {
      forall i | 0 <= i < |a| ensures SameLetter(a[i], b[i]) {
        assert LowerChar(a[i]) == LowerChar(b[i]);
      }
    }
  }

  /** Lower-casing is computed letter by letter, so equal lower-cased strings
      have equal lower-cased tails. */
  lemma ToLowerTail(a: string, b: string)
    requires a != [] && ToLower(a) == ToLower(b)
    ensures b != [] && LowerChar(a[0]) == LowerChar(b[0])
    ensures ToLower(a[1..]) == ToLower(b[1..])
  {
    assert ToLower(a)[1..] == ToLower(a[1..]);
    assert ToLower(b)[1..] == ToLower(b[1..]);
  }

  /** Strings that are equal up to case have the same digits at the same places,
      so cleaning cannot tell them apart. */
  lemma KeepDigitsIgnoresCase(a: string, b: string)
    requires ToLower(a) == ToLower(b)
    ensures KeepDigits(a) == KeepDigits(b)
  {
    FilterDigitsIgnoresCase(a, b);
  }

  lemma {:induction false} FilterDigitsIgnoresCase(a: string, b: string)
    requires ToLower(a) == ToLower(b)
    ensures Filter(a, IsDigit) == Filter(b, IsDigit)
    decreases |a|
  {
    if a != [] {
      ToLowerTail(a, b);
      FilterDigitsIgnoresCase(a[1..], b[1..]);
      assert IsDigit(a[0]) <==> IsDigit(b[0]);
      assert IsDigit(a[0]) ==> a[0] == b[0];
    }
  }

  /** Likewise `parseInt` reads the same leading digits from both. */
  lemma {:induction false} LeadingDigitsIgnoreCase(a: string, b: string)
    requires ToLower(a) == ToLower(b)
    ensures LeadingDigits(a) == LeadingDigits(b)
    decreases |a|
  {
    if a != [] {
      ToLowerTail(a, b);
      LeadingDigitsIgnoreCase(a[1..], b[1..]);
      assert IsDigit(a[0]) <==> IsDigit(b[0]);
      assert IsDigit(a[0]) ==> a[0] == b[0];
    }
  }

  // ---------------------------------------------------------------------------
  // Substring search: `s.includes(needle)`
  // ---------------------------------------------------------------------------

  predicate StartsWith(s: string, prefix: string)
  {
    |prefix| <= |s| && s[..|prefix|] == prefix
  }

  /** `needle` occurs in `s` starting at index `i`. */
  predicate OccursAt(s: string, needle: string, i: int)
  {
    0 <= i && i + |needle| <= |s| && s[i..i + |needle|] == needle
  }

  /** `s.includes(needle)`, searched window by window from the left; it holds
      exactly when `needle` occurs somewhere in `s`. */
  function Includes(s: string, needle: string): (b: bool)
    ensures b <==> exists i :: OccursAt(s, needle, i)
  {
    if StartsWith(s, needle) then
      assert OccursAt(s, needle, 0);
      true
    else if s == [] then false
    else
      var b := Includes(s[1..], needle);
      assert forall i :: OccursAt(s[1..], needle, i) <==> OccursAt(s, needle, i + 1);
      assert forall i :: OccursAt(s, needle, i) ==> i == 0 || OccursAt(s[1..], needle, i - 1);
      b
  }

  /** Every string includes the empty string. */
  lemma IncludesEmpty(s: string)
    ensures Includes(s, "")
  {
    assert OccursAt(s, "", 0);
  }

  /** The empty string includes only the empty string. */
  lemma IncludedInEmpty(needle: string)
    ensures Includes("", needle) <==> needle == ""
  {
  }

  /** One occurrence inside another is an occurrence. */
  lemma IncludesTransitive(s: string, mid: string, needle: string)
    requires Includes(s, mid) && Includes(mid, needle)
    ensures Includes(s, needle)
  {
    var i :| OccursAt(s, mid, i);
    var j :| OccursAt(mid, needle, j);
    assert forall k :: 0 <= k < |needle| ==> needle[k] == mid[j + k] == s[i + j + k];
    assert s[i + j..i + j + |needle|] == needle;
    assert OccursAt(s, needle, i + j);
  }

  // ---------------------------------------------------------------------------
  // The numeric input normaliser: `value.replace(/^0+/, "") || "0"`
  // ---------------------------------------------------------------------------

  /** `s.replace(/^0+/, "")`: `s` without its leading zeros. */
  function StripLeadingZeros(s: string): (r: string)
    ensures |r| <= |s| && r == s[|s| - |r|..]
    ensures forall i :: 0 <= i < |s| - |r| ==> s[i] == '0'
    ensures r == [] || r[0] != '0'
  {
    if s != [] && s[0] == '0' then StripLeadingZeros(s[1..]) else s
  }

  /** The value `handlePriceChange` stores for an input string: the input
      without its leading zeros, or "0" exactly when nothing but zeros was
      typed. */
  function NormalizeNumberInput(s: string): (r: string)
    ensures r != []
    ensures r[0] != '0' || r == "0"
    ensures r == "0" <==> forall i :: 0 <= i < |s| ==> s[i] == '0'
    ensures r != "0" ==> |r| <= |s| && r == s[|s| - |r|..]
    ensures r != "0" ==> forall i :: 0 <= i < |s| - |r| ==> s[i] == '0'
  {
    var t := StripLeadingZeros(s);
    assert t != [] ==> s[|s| - |t|] == t[0] != '0';
    if t == [] then "0" else t
  }

  /** Normalising twice is normalising once. */
  lemma NormalizeIdempotent(s: string)
    ensures NormalizeNumberInput(NormalizeNumberInput(s)) == NormalizeNumberInput(s)
  {
    var r := NormalizeNumberInput(s);
    if r == "0" {
      assert StripLeadingZeros("0") == StripLeadingZeros("0"[1..]);
    }
  }

  lemma NormalizeAllZeros()
    ensures NormalizeNumberInput("000") == "0"
    ensures NormalizeNumberInput("") == "0"
  {
    assert "000"[1..] == "00" && "00"[1..] == "0" && "0"[1..] == "";
  }

  /** A number input can also hold a fraction, a sign or an exponent; only the
      zeros in front are removed, so "0.5" is stored as ".5", while "-05" and
      "1e3" are stored as typed. */
  lemma NormalizeNonDigitInputs()
    ensures NormalizeNumberInput("0.5") == ".5"
    ensures NormalizeNumberInput("-05") == "-05"
    ensures NormalizeNumberInput("1e3") == "1e3"
  {
    assert "0.5"[1..] == ".5";
  }

  /** On a digit string the normaliser does not change the number the
      string denotes. */
  lemma NormalizePreservesValue(s: string)
    requires AllDigits(s)
    ensures AllDigits(NormalizeNumberInput(s))
    ensures ParseDecimal(NormalizeNumberInput(s)) == ParseDecimal(s)
  {
    var t := StripLeadingZeros(s);
    var z := StripLeadingZerosSplit(s);
    ParseDecimalAppend(z, t);
    if t == [] {
      assert "0"[..0] == "";
    }
  }

  /** A digit string is its stripped zeros, worth 0, followed by the digits
      that remain. */
  lemma StripLeadingZerosSplit(s: string) returns (z: string)
    requires AllDigits(s)
    ensures s == z + StripLeadingZeros(s)
    ensures AllDigits(z) && ParseDecimal(z) == 0
    ensures AllDigits(StripLeadingZeros(s))
  {
    var t := StripLeadingZeros(s);
    var k := |s| - |t|;
    z := s[..k];
    assert s == z + t by {
      assert t == s[k..];
    }
    assert AllDigits(t) by {
      forall i | 0 <= i < |t| ensures IsDigit(t[i]) {
        assert t[i] == s[k + i];
      }
    }
    assert forall i :: 0 <= i < |z| ==> z[i] == '0' by {
      forall i | 0 <= i < k ensures z[i] == '0' {
        assert z[i] == s[i];
      }
    }
    AllZerosIsZero(z);
  }

  /** On a digit string the normaliser yields the canonical rendering of the
      number the string denotes: it leaves no redundant zero. */
  lemma NormalizeIsCanonical(s: string)
    requires AllDigits(s)
    ensures NormalizeNumberInput(s) == ShowDecimal(ParseDecimal(s))
  {
    NormalizePreservesValue(s);
    var r := NormalizeNumberInput(s);
    if r == "0" {
      assert ParseDecimal(s) == 0 by { assert "0"[..0] == ""; }
      assert ShowDecimal(0) == [DigitChar(0)];
    } else {
      ShowParseDecimal(r);
    }
  }

  lemma {:induction false} AllZerosIsZero(z: string)
    requires forall i :: 0 <= i < |z| ==> z[i] == '0'
    ensures AllDigits(z) && ParseDecimal(z) == 0
    decreases |z|
  {
    if z != [] {
      AllZerosIsZero(z[..|z| - 1]);
    }
  }
}
