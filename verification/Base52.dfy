/** The base-52 numerals of position strings, and the sequence of numerals that is ordered
    and prefix-free (backend/pkg/posstrings/posstrings.go). Numbers are exact naturals. */
module Base52 {
  import Lex

  function Digit(d: nat): (c: char)
    requires d < 52
    ensures IsLetter(c) && Value(c) == d
  {
    if d >= 26 then (71 + d) as char else (65 + d) as char
  }

  predicate IsLetter(c: char)
  {
    'A' <= c <= 'Z' || 'a' <= c <= 'z'
  }

  /** The digit a byte stands for; meaningless for bytes that are no letters. */
  function Value(c: char): int
  {
    if c as int >= 97 then c as int - 71 else c as int - 65
  }

  function Numeral(n: nat): (s: string)
    ensures s != "" && forall i :: 0 <= i < |s| ==> IsLetter(s[i])
  {
    if n < 52 then [Digit(n)] else Numeral(n / 52) + [Digit(n % 52)]
  }

  function Parse(s: string): int
  {
    if s == "" then 0 else 52 * Parse(s[..|s| - 1]) + Value(s[|s| - 1])
  }

  method StringifyBase52(n: nat) returns (s: string)
    ensures s == Numeral(n)
  {
    if n == 0 {
      return "A";
    }
    s := "";
    var rest := n;
    while rest > 0
      invariant if rest == 0 then s == Numeral(n) else Numeral(rest) + s == Numeral(n)
      decreases rest
    {
      ghost var was, tail := rest, s;
      s := [Digit(rest % 52)] + s;
      rest := rest / 52;
      assert Numeral(was) + tail == (if rest == 0 then "" else Numeral(rest)) + s;
    }
  }

  method ParseBase52(s: string) returns (n: int)
    ensures n == Parse(s)
  {
    n := 0;
    for i := 0 to |s|
      invariant n == Parse(s[..i])
    {
      assert s[..i + 1][..i] == s[..i];
      n := 52 * n + Value(s[i]);
    }
    assert s[..|s|] == s;
  }

  /** Parsing inverts stringifying, for every natural number. */
  lemma {:induction false} ParseInvertsNumeral(n: nat)
    ensures Parse(Numeral(n)) == n
  {
    if n >= 52 {
      var s := Numeral(n);
      ParseInvertsNumeral(n / 52);
      assert s[..|s| - 1] == Numeral(n / 52);
    } else {
      assert Parse(Numeral(n)[..0]) == 0;
    }
  }

  lemma {:induction false} NumeralInjective(m: nat, n: nat)
    requires Numeral(m) == Numeral(n)
    ensures m == n
  {
    ParseInvertsNumeral(m);
    ParseInvertsNumeral(n);
  }

  /** Numerals of the same length are ordered as their numbers. */
  lemma {:induction false} SameLengthOrder(m: nat, n: nat)
    requires m < n && |Numeral(m)| == |Numeral(n)|
    ensures Lex.Less(Numeral(m), Numeral(n)) && !(Numeral(m) <= Numeral(n))
    decreases n
  {
    if Numeral(m) <= Numeral(n) {
      NumeralInjective(m, n);
    }
    if n >= 52 {
      var a, b := [Digit(m % 52)], [Digit(n % 52)];
      if m / 52 == n / 52 {
        Lex.CommonPrefix(Numeral(m / 52), a, b);
      } else {
        SameLengthOrder(m / 52, n / 52);
        Lex.Extend(Numeral(m / 52), Numeral(n / 52), a, b);
      }
    }
  }

  // ---- Which numbers are used ----

  function Pow52(e: nat): nat
  {
    if e == 0 then 1 else 52 * Pow52(e - 1)
  }

  function Pow26(e: nat): nat
  {
    if e == 0 then 1 else 26 * Pow26(e - 1)
  }

  /** The greatest number used with `d` digits. */
  ghost function Greatest(d: nat): int
  {
    Pow52(d) - Pow26(d) - 1
  }

  /** The numbers used with `d` digits: those whose leading digits no shorter numeral uses. */
  ghost predicate OfLength(n: nat, d: nat)
  {
    d >= 1 && 52 * (Pow52(d - 1) - Pow26(d - 1)) <= n <= Greatest(d)
  }

  ghost predicate IsCode(n: nat)
  {
    exists d: nat :: OfLength(n, d)
  }

  lemma {:induction false} PowBounds(d: nat)
    ensures 1 <= Pow26(d) <= Pow52(d)
    ensures d >= 1 ==> Pow52(d - 1) <= Pow52(d) - Pow26(d)
    ensures d >= 1 ==> 2 * Pow26(d) <= Pow52(d)
  {
    if d > 0 {
      PowBounds(d - 1);
    }
  }

  lemma {:induction false} DigitCount(n: nat, d: nat)
    requires d >= 1 && n < Pow52(d) && (d == 1 || Pow52(d - 1) <= n)
    ensures |Numeral(n)| == d
    decreases d
  {
    PowBounds(d - 1);
    if d > 1 {
      assert Pow52(d) == 52 * Pow52(d - 1) && Pow52(d - 1) == 52 * Pow52(d - 2);
      PowBounds(d - 2);
      DigitCount(n / 52, d - 1);
    } else {
      assert Pow52(1) == 52;
    }
  }

  lemma {:induction false} CodeLength(n: nat, d: nat)
    requires OfLength(n, d)
    ensures |Numeral(n)| == d
  {
    PowBounds(d);
    if d > 1 {
      PowBounds(d - 1);
    }
    DigitCount(n, d);
  }

  /** A numeral of `k` digits above everything used with `k` digits is above, and no extension
      of, every numeral used with at most `k` digits. */
  lemma {:induction false} AboveShorter(a: nat, d: nat, b: nat, k: nat)
    requires OfLength(a, d) && d <= k && Greatest(k) < b < Pow52(k)
    ensures Lex.Less(Numeral(a), Numeral(b)) && !(Numeral(a) <= Numeral(b))
    ensures |Numeral(a)| <= |Numeral(b)|
    decreases k
  {
    PowBounds(k);
    DigitCount(b, k);
    CodeLength(a, d);
    if d == k {
      SameLengthOrder(a, b);
    } else {
      PowBounds(k - 1);
      assert Pow52(k) == 52 * Pow52(k - 1) && Pow26(k) == 26 * Pow26(k - 1);
      AboveShorter(a, d, b / 52, k - 1);
      LastDigit(a, b);
    }
  }

  /** The numerals of the numbers used are in lexicographic order, and none is a prefix of another. */
  lemma {:induction false} CodesOrderedPrefixFree(a: nat, b: nat)
    requires IsCode(a) && IsCode(b) && a < b
    ensures Lex.Less(Numeral(a), Numeral(b))
    ensures !(Numeral(a) <= Numeral(b)) && !(Numeral(b) <= Numeral(a))
  {
    var d: nat :| OfLength(a, d);
    var e: nat :| OfLength(b, e);
    if d > e {
      LongerIsGreater(b, e, a, d);
    } else if d == e {
      CodeLength(a, d);
      CodeLength(b, e);
      SameLengthOrder(a, b);
    } else {
      ShorterIsLess(a, d, b, e);
    }
    if Numeral(b) <= Numeral(a) {
      assert Numeral(a) != Numeral(b);
      Lex.PrefixLess(Numeral(b), Numeral(a));
      Lex.Trichotomy(Numeral(a), Numeral(b));
    }
  }

  lemma {:induction false} ShorterIsLess(a: nat, d: nat, b: nat, e: nat)
    requires OfLength(a, d) && OfLength(b, e) && d < e
    ensures Lex.Less(Numeral(a), Numeral(b)) && !(Numeral(a) <= Numeral(b))
  {
    PowBounds(e - 1);
    AboveShorter(a, d, b / 52, e - 1);
    LastDigit(a, b);
  }

  /** Being below, and no prefix of, a numeral without its last digit is enough. */
  lemma {:induction false} LastDigit(a: nat, b: nat)
    requires b >= 52 && Lex.Less(Numeral(a), Numeral(b / 52)) && !(Numeral(a) <= Numeral(b / 52))
    requires |Numeral(a)| <= |Numeral(b / 52)|
    ensures Lex.Less(Numeral(a), Numeral(b)) && !(Numeral(a) <= Numeral(b))
  {
    var last := [Digit(b % 52)];
    assert Numeral(b) == Numeral(b / 52) + last;
    Lex.Extend(Numeral(a), Numeral(b / 52), "", last);
    assert Numeral(a) + "" == Numeral(a);
    assert Numeral(b)[..|Numeral(a)|] == Numeral(b / 52)[..|Numeral(a)|];
  }

  lemma {:induction false} LongerIsGreater(a: nat, d: nat, b: nat, e: nat)
    requires OfLength(a, d) && OfLength(b, e) && d < e
    ensures a < b
    decreases e
  {
    PowBounds(d);
    PowBounds(e - 1);
    PowMonotone(d, e - 1);
  }

  lemma {:induction false} PowMonotone(d: nat, e: nat)
    requires d <= e
    ensures Pow52(d) - Pow26(d) <= Pow52(e) - Pow26(e)
    decreases e
  {
    if d < e {
      PowMonotone(d, e - 1);
      PowBounds(e - 1);
    }
  }

  // ---- The sequence of values ----

  function NextOddValueSeq(n: nat): nat
  {
    var d := |Numeral(n)|;
    if n as int == Pow52(d) - Pow26(d) - 1 then (n + 1) * 52 + 1 else n + 2
  }

  /** The values a source gives out behind one prefix: 1, and from each value the next. */
  function ValueAt(i: nat): nat
  {
    if i == 0 then 1 else NextOddValueSeq(ValueAt(i - 1))
  }

  ghost predicate OddCode(n: nat)
  {
    n % 2 == 1 && IsCode(n)
  }

  lemma {:induction false} FirstIsOddCode()
    ensures OddCode(1)
  {
    assert Pow52(0) == Pow26(0) == 1 && Pow52(1) == 52 && Pow26(1) == 26;
    assert OfLength(1, 1);
  }

  /** The value after an odd code is a greater odd code, and the even value between them is a code too. */
  lemma {:induction false} NextIsOddCode(n: nat)
    requires OddCode(n)
    ensures OddCode(NextOddValueSeq(n)) && NextOddValueSeq(n) > n + 1
    ensures IsCode(n - 1) && IsCode(NextOddValueSeq(n) - 1)
  {
    var d: nat :| OfLength(n, d);
    NextByLength(n, d);
    OddNeighbours(n, d);
    if n == Greatest(d) {
      NextLength(d);
      FirstOfLength(52 * (n + 1), d + 1);
    } else {
      OddNeighbours(n + 2, d);
    }
  }

  lemma {:induction false} NextByLength(n: nat, d: nat)
    requires OfLength(n, d)
    ensures NextOddValueSeq(n) == if n == Greatest(d) then 52 * (n + 1) + 1 else n + 2
  {
    CodeLength(n, d);
  }

  lemma {:induction false} FirstOfLength(n: nat, d: nat)
    requires d >= 1 && n == 52 * (Pow52(d - 1) - Pow26(d - 1)) < Greatest(d)
    ensures IsCode(n) && OddCode(n + 1)
  {
    assert OfLength(n, d) && OfLength(n + 1, d);
    EvenMultiple(Pow52(d - 1) - Pow26(d - 1));
  }

  lemma {:induction false} EvenMultiple(k: int)
    ensures (52 * k + 1) % 2 == 1
  {
    assert 52 * k + 1 == 2 * (26 * k) + 1;
  }

  /** The least number of each length is even and the greatest is odd. */
  lemma {:induction false} OddNeighbours(n: nat, d: nat)
    requires OfLength(n, d) && n % 2 == 1
    ensures OfLength(n - 1, d) && (n == Greatest(d) || OfLength(n + 2, d))
  {
    PowBounds(d);
    var least, half := 52 * (Pow52(d - 1) - Pow26(d - 1)), 26 * (Pow52(d - 1) - Pow26(d - 1));
    assert least == 2 * half && Pow52(d) == 52 * Pow52(d - 1) && Pow26(d) == 26 * Pow26(d - 1);
    assert Greatest(d) == 2 * (26 * Pow52(d - 1) - 13 * Pow26(d - 1)) - 1;
  }

  lemma {:induction false} NextLength(d: nat)
    requires d >= 1
    ensures 52 * (Greatest(d) + 1) == 52 * (Pow52(d) - Pow26(d)) < Greatest(d + 1)
  {
    PowBounds(d);
  }

  lemma {:induction false} NotLonger(n: nat, d: nat, m: nat, e: nat)
    requires OfLength(n, d) && OfLength(m, e) && n < m
    ensures d <= e
  {
    if e < d {
      LongerIsGreater(m, e, n, d);
    }
  }

  lemma {:induction false} FirstOfNext(d: nat, m: nat, e: nat)
    requires OfLength(m, e) && m % 2 == 1 && d < e
    ensures m >= 52 * (Pow52(d) - Pow26(d)) + 1
  {
    PowMonotone(d, e - 1);
    EvenMultiple(Pow52(d) - Pow26(d));
  }

  /** No odd code is left out: the value after an odd code is the least one above it. */
  lemma {:induction false} NextIsLeast(n: nat, m: nat)
    requires OddCode(n) && OddCode(m) && n < m
    ensures NextOddValueSeq(n) <= m
  {
    var d: nat :| OfLength(n, d);
    var e: nat :| OfLength(m, e);
    NextByLength(n, d);
    NotLonger(n, d, m, e);
    if n == Greatest(d) {
      FirstOfNext(d, m, e);
    }
  }

  lemma {:induction false} ValuesAreOddCodes(i: nat)
    ensures OddCode(ValueAt(i)) && IsCode(ValueAt(i) - 1)
  {
    if i == 0 {
      FirstIsOddCode();
      NextIsOddCode(1);
    } else {
      ValuesAreOddCodes(i - 1);
      NextIsOddCode(ValueAt(i - 1));
    }
  }

  lemma {:induction false} ValuesIncrease(i: nat, j: nat)
    requires i < j
    ensures ValueAt(i) < ValueAt(j) - 1
    decreases j
  {
    ValuesAreOddCodes(j - 1);
    NextIsOddCode(ValueAt(j - 1));
    if i < j - 1 {
      ValuesIncrease(i, j - 1);
    }
  }

  /** Every odd code is given out, in its turn. */
  lemma {:induction false} NothingSkipped(m: nat, i: nat) returns (k: nat)
    requires OddCode(m) && ValueAt(i) <= m
    ensures ValueAt(k) == m
    decreases m - ValueAt(i)
  {
    if ValueAt(i) == m {
      return i;
    }
    ValuesAreOddCodes(i);
    NextIsLeast(ValueAt(i), m);
    NextIsOddCode(ValueAt(i));
    k := NothingSkipped(m, i + 1);
  }

  /** As many values have at most `d` digits. */
  ghost function Count(d: nat): nat
  {
    if d == 0 then 0 else Count(d - 1) + 13 * Pow26(d - 1)
  }

  lemma {:induction false} CountIs(d: nat)
    ensures 25 * Count(d) == 13 * (Pow26(d) - 1) && Count(d) >= d
  {
    if d > 0 {
      CountIs(d - 1);
      PowBounds(d - 1);
    }
  }

  /** The odd numbers with `d` digits, from the least one on. */
  ghost function OddOfLength(d: nat, j: int): int
    requires d >= 1
  {
    52 * (Pow52(d - 1) - Pow26(d - 1)) + 1 + 2 * j
  }

  lemma {:induction false} OddsOfLength(d: nat, j: int)
    requires d >= 1 && 0 <= j < 13 * Pow26(d - 1)
    ensures OddOfLength(d, j) >= 0 && OfLength(OddOfLength(d, j), d)
    ensures OddOfLength(d, j) == Greatest(d) <==> j == 13 * Pow26(d - 1) - 1
    ensures 52 * (Greatest(d) + 1) + 1 == OddOfLength(d + 1, 0)
  {
    PowBounds(d - 1);
  }

  lemma {:induction false} NextOdd(d: nat, j: nat, n: nat)
    requires d >= 1 && j < 13 * Pow26(d - 1) && n == OddOfLength(d, j)
    ensures NextOddValueSeq(n) == if j + 1 < 13 * Pow26(d - 1) then OddOfLength(d, j + 1) else OddOfLength(d + 1, 0)
  {
    OddsOfLength(d, j);
    NextByLength(n, d);
  }

  lemma {:induction false} OneMoreValue(i: nat, n: nat)
    requires ValueAt(i) == n
    ensures ValueAt(i + 1) == NextOddValueSeq(n)
  {
  }

  /** The values with `d` digits are the odd numbers from the least one with so many on. */
  lemma {:induction false} ValueFormula(d: nat, j: nat, i: nat)
    requires d >= 1 && j < 13 * Pow26(d - 1) && i == Count(d - 1) + j
    ensures ValueAt(i) == OddOfLength(d, j)
    decreases d, j
  {
    if j > 0 {
      ValueFormula(d, j - 1, i - 1);
      NextOdd(d, j - 1, ValueAt(i - 1));
      OneMoreValue(i - 1, ValueAt(i - 1));
    } else if d > 1 {
      LastOfShorter(d, i);
      var m := 13 * Pow26(d - 2) - 1;
      ValueFormula(d - 1, m, i - 1);
      NextOdd(d - 1, m, ValueAt(i - 1));
      OneMoreValue(i - 1, ValueAt(i - 1));
    } else {
      assert Pow52(0) == Pow26(0) == 1;
    }
  }

  lemma {:induction false} LastOfShorter(d: nat, i: nat)
    requires d > 1 && i == Count(d - 1)
    ensures i >= 1 && Pow26(d - 2) >= 1 && i - 1 == Count(d - 2) + (13 * Pow26(d - 2) - 1)
  {
    PowBounds(d - 2);
  }

  lemma {:induction false} CountFinds(k: nat, e: nat) returns (d: nat)
    requires k < Count(e)
    ensures d >= 1 && Count(d - 1) <= k < Count(d)
  {
    if k < Count(e - 1) {
      d := CountFinds(k, e - 1);
    } else {
      d := e;
    }
  }

  /** The `k`-th value has `d` digits exactly from 13/25 of `26^(d-1) - 1` to 13/25 of `26^d - 1`,
      so the numerals grow as the logarithm of the number of values given out. */
  lemma {:induction false} ValueLength(k: nat)
    ensures
      var d := |Numeral(ValueAt(k))|;
      d >= 1 && 13 * (Pow26(d - 1) - 1) <= 25 * k < 13 * (Pow26(d) - 1)
  {
    CountIs(k + 1);
    var d := CountFinds(k, k + 1);
    ValueFormula(d, k - Count(d - 1), k);
    OddsOfLength(d, k - Count(d - 1));
    CodeLength(ValueAt(k), d);
    CountIs(d - 1);
    CountIs(d);
  }

  /** The generated sequence, with the even left version of each value in front of it, is
      strictly increasing as strings, and no string in it is a prefix of another. */
  lemma {:induction false} SequenceIsOrderedPrefixFree(i: nat, j: nat)
    ensures Lex.Less(Numeral(ValueAt(i) - 1), Numeral(ValueAt(i)))
    ensures i < j ==> BelowAndApart(ValueAt(i), ValueAt(j)) && BelowAndApart(ValueAt(i), ValueAt(j) - 1)
  {
    var a, b := ValueAt(i), ValueAt(j);
    ValuesAreOddCodes(i);
    CodesOrderedPrefixFree(a - 1, a);
    if i < j {
      ValuesAreOddCodes(j);
      ValuesIncrease(i, j);
      CodesApartBelow(a, b);
      CodesApartBelow(a, b - 1);
    }
  }

  lemma {:induction false} CodesApartBelow(a: nat, b: nat)
    requires IsCode(a) && IsCode(b) && a < b
    ensures BelowAndApart(a, b)
  {
    CodesOrderedPrefixFree(a, b);
  }

  ghost predicate BelowAndApart(a: nat, b: nat)
  {
    Lex.Less(Numeral(a), Numeral(b)) && !(Numeral(a) <= Numeral(b)) && !(Numeral(b) <= Numeral(a))
  }
}
