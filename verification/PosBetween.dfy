/** Why what a source chooses lies strictly between its inputs
    (backend/pkg/posstrings/posstrings.go). */
module PosBetween {
  import Lex
  import opened Base52
  import opened PosNames
  import opened PosStrings

  predicate BelowLast(s: string)
  {
    s != "" && s[0] < '~'
  }

  ghost predicate ValueWell(id: string, values: map<string, nat>, p: string)
    requires p in values
  {
    Owns(id, p) && OddCode(values[p])
  }

  ghost predicate ValuesWell(id: string, values: map<string, nat>)
  {
    forall p :: p in values ==> ValueWell(id, values, p)
  }

  // ---- Positions, their prefixes and left versions ----

  lemma {:induction false} PrefixUpToPosition(p: string, v: string, n: nat)
    requires IsPrefix(p) && |p| <= n <= |p + v| && forall i :: 0 <= i < |v| ==> IsLetter(v[i])
    ensures PrefixUpTo(p + v, n) == Ok(p)
  {
    if n > |p| {
      assert (p + v)[n - 1] == v[n - 1 - |p|];
      PrefixUpToPosition(p, v, n - 1);
    } else {
      Halves(p, v);
    }
  }

  lemma {:induction false} PrefixOfPosition(s: string, p: string, n: nat)
    requires IsPosition(s, p, n)
    ensures Prefix(s) == Ok(p)
  {
    PrefixUpToPosition(p, Numeral(n), |s| - 1);
  }

  lemma {:induction false} LastDigitOfOdd(n: nat)
    requires n % 2 == 1
    ensures
      var s, t := Numeral(n), Numeral(n - 1);
      var d := n % 52;
      s[|s| - 1] == Digit(d) && d % 2 == 1 && t == s[..|s| - 1] + Numeral(d - 1)
  {
    assert n == 52 * (n / 52) + n % 52 == 2 * (26 * (n / 52)) + n % 52;
    assert (n - 1) / 52 == n / 52 && (n - 1) % 52 == n % 52 - 1;
  }

  /** The left version of a position holds the even value in front of its own. */
  lemma {:induction false} LeftVersionOfPosition(s: string, p: string, n: nat)
    requires IsPosition(s, p, n) && n % 2 == 1
    ensures LeftVersion(s) == Ok(p + Numeral(n - 1))
    ensures |p + Numeral(n - 1)| == |s| && s[..|s| - 1] <= p + Numeral(n - 1)
  {
    var v := Numeral(n);
    LastDigitOfOdd(n);
    assert s[|s| - 1] == v[|v| - 1];
    LetterOfByte(s[|s| - 1]);
    assert s[..|s| - 1] == p + v[..|v| - 1];
    assert p + v[..|v| - 1] + Numeral(n % 52 - 1) == p + (v[..|v| - 1] + Numeral(n % 52 - 1));
  }

  /** A string greater than one behind `p`, and not behind `p` itself, is greater than all behind `p`. */
  lemma {:induction false} AboveAllBehind(p: string, x: string, y: string, r: string)
    requires Lex.Less(p + x, r) && !(p <= r)
    ensures Lex.Less(p + y, r)
  {
    if p != "" && p[0] == r[0] {
      assert (p + x)[1..] == p[1..] + x && (p + y)[1..] == p[1..] + y;
      assert p == [p[0]] + p[1..] && r == [r[0]] + r[1..];
      AboveAllBehind(p[1..], x, y, r[1..]);
    }
  }

  // ---- The four branches ----

  ghost predicate Between(left: string, ans: string, right: string)
  {
    Lex.Less(left, ans) && Lex.Less(ans, OrLast(right)) && BelowLast(ans)
  }

  lemma {:induction false} StartsLow(left: string, ans: string)
    requires BelowLast(ans)
    ensures Lex.Less(ans, LAST)
  {
  }

  /** To the left of `right`, which has `left` as a prefix. */
  lemma {:induction false} UnderLeftVersion(left: string, right: string, p: string, n: nat, rest: string)
    requires IsPosition(right, p, n) && OddCode(n) && IsCode(n - 1) && BelowLast(p) && rest != ""
    requires left == "" || (left <= right && left != right)
    ensures Between(left, p + Numeral(n - 1) + rest, right)
  {
    var a := p + Numeral(n - 1);
    var ans := a + rest;
    LeftVersionOfPosition(right, p, n);
    CodesOrderedPrefixFree(n - 1, n);
    Lex.CommonPrefix(p, Numeral(n - 1), Numeral(n));
    assert right != a by {
      Lex.Irreflexive(a);
    }
    Lex.Extend(a, right, rest, "");
    assert right + "" == right;
    assert ans[0] == p[0];
    PrefixStaysBelow(left, right, a, rest);
  }

  lemma {:induction false} PrefixStaysBelow(left: string, right: string, a: string, rest: string)
    requires right != "" && right[..|right| - 1] <= a && rest != ""
    requires left == "" || (left <= right && left != right)
    ensures Lex.Less(left, a + rest)
  {
    var ans := a + rest;
    if left != "" {
      assert left == right[..|left|] == right[..|right| - 1][..|left|];
      assert left <= a;
      assert ans[..|left|] == left;
    }
    Lex.PrefixLess(left, ans);
  }

  /** Right behind `left`, which is no prefix of `right`. */
  lemma {:induction false} BehindLeft(left: string, right: string, rest: string)
    requires BelowLast(left) && rest != ""
    requires right == "" || (Lex.Less(left, right) && !(left <= right))
    ensures Between(left, left + rest, right)
  {
    Lex.PrefixLess(left, left + rest);
    assert (left + rest)[0] == left[0];
    if right != "" {
      Lex.Extend(left, right, rest, "");
      assert right + "" == right;
    } else {
      StartsLow(left, left + rest);
    }
  }

  /** A greater value under the prefix of `left`, which is no prefix of `right`. */
  lemma {:induction false} SamePrefix(left: string, right: string, p: string, m: nat, n: nat)
    requires IsPosition(left, p, m) && IsCode(n) && m < n && BelowLast(p)
    requires right == "" || (Lex.Less(left, right) && !(p <= right))
    ensures Between(left, p + Numeral(n), right)
  {
    CodesOrderedPrefixFree(m, n);
    Lex.CommonPrefix(p, Numeral(m), Numeral(n));
    assert (p + Numeral(n))[0] == p[0];
    if right != "" {
      AboveAllBehind(p, Numeral(m), Numeral(n), right);
    } else {
      StartsLow(left, p + Numeral(n));
    }
  }

  lemma {:induction false} IdBelowLast(id: string)
    requires ValidID(id)
    ensures id[0] < '~'
  {
    assert LAST[0] == '~' && LAST[1..] == "";
    assert Lex.Less(id, LAST);
    assert !Lex.Less(id[1..], LAST[1..]);
  }

  lemma {:induction false} Concat(a: string, b: string, c: string)
    ensures a + b + c == a + (b + c)
  {
  }

  lemma {:induction false} NoAncestor(id: string)
    requires ValidID(id)
    ensures WaypointName(id, "") == FirstName(id) && Owns(id, FirstName(id)) && BelowLast(FirstName(id))
  {
    assert "" + WaypointName(id, "") == WaypointName(id, "");
    IdBelowLast(id);
    assert NamedBy(id, FirstName(id), "");
    assert FirstName(id)[0] == id[0];
  }

  lemma {:induction false} OwnsBehind(id: string, ancestor: string)
    requires ValidID(id) && PositionLike(ancestor)
    ensures Owns(id, ancestor + WaypointName(id, ancestor))
  {
    assert NamedBy(id, ancestor + WaypointName(id, ancestor), ancestor);
  }

  lemma {:induction false} NextValueIsCode(id: string, values: map<string, nat>, p: string)
    requires ValuesWell(id, values)
    ensures OddCode(NextValue(values, p)) && (p in values ==> NextValue(values, p) > values[p])
  {
    if p in values {
      assert ValueWell(id, values, p);
      NextIsOddCode(values[p]);
    } else {
      FirstIsOddCode();
    }
  }

  /** The prefix chosen belongs to the source, and the next value under it lies between the two. */
  ghost predicate Sound(id: string, values: map<string, nat>, left: string, right: string, p: string)
  {
    Owns(id, p) && Between(left, p + Numeral(NextValue(values, p)), right)
  }

  lemma {:induction false} LeftOfRight(id: string, values: map<string, nat>, left: string, right: string,
                                       p: string, n: nat)
    requires ValidID(id) && IsPosition(right, p, n) && OddCode(n) && BelowLast(p)
    requires Lex.Less(left, right) && (left == "" || left <= right)
    ensures
      var r := ChoosePrefix(id, values, left, right);
      r.Ok? && Sound(id, values, left, right, r.value)
  {
    var a := p + Numeral(n - 1);
    var name := WaypointName(id, a);
    var value := Numeral(NextValue(values, a + name));
    NextIsOddCode(n);
    LeftVersionOfPosition(right, p, n);
    assert IsPosition(a, p, n - 1);
    OwnsBehind(id, a);
    Lex.Trichotomy(left, right);
    UnderLeftVersion(left, right, p, n, name + value);
    Concat(a, name, value);
  }

  lemma {:induction false} Anywhere(id: string, values: map<string, nat>)
    requires ValidID(id)
    ensures
      var r := ChoosePrefix(id, values, "", "");
      r.Ok? && Sound(id, values, "", "", r.value)
  {
    var ans := FirstName(id) + Numeral(NextValue(values, FirstName(id)));
    NoAncestor(id);
    assert ans[0] == FirstName(id)[0];
    StartsLow("", ans);
  }

  lemma {:induction false} ReusedPrefix(id: string, values: map<string, nat>, left: string, right: string,
                                        owner: string, p: string, n: nat)
    requires ValidID(id) && ValuesWell(id, values) && IsPosition(left, p, n) && BelowLast(p) && Owns(owner, p)
    requires right == "" || (Lex.Less(left, right) && !(p <= right))
    requires p in values && (owner == id ==> n <= values[p])
    ensures Sound(id, values, left, right, p)
  {
    assert ValueWell(id, values, p);
    OneOwner(id, owner, p);
    NextValueIsCode(id, values, p);
    SamePrefix(left, right, p, n, NextValue(values, p));
  }

  lemma {:induction false} UnderLeft(id: string, values: map<string, nat>, left: string, right: string,
                                     p: string, n: nat)
    requires ValidID(id) && IsPosition(left, p, n) && BelowLast(p)
    requires right == "" || (Lex.Less(left, right) && !(left <= right))
    ensures Sound(id, values, left, right, left + WaypointName(id, left))
  {
    var name := WaypointName(id, left);
    var value := Numeral(NextValue(values, left + name));
    OwnsBehind(id, left);
    assert left[0] == p[0];
    BehindLeft(left, right, name + value);
    Concat(left, name, value);
  }

  lemma {:induction false} RightOfLeft(id: string, values: map<string, nat>, left: string, right: string,
                                       owner: string, p: string, n: nat)
    requires ValidID(id) && ValuesWell(id, values) && IsPosition(left, p, n) && BelowLast(p) && Owns(owner, p)
    requires right == "" || (Lex.Less(left, right) && !(left <= right))
    requires p in values && owner == id ==> n <= values[p]
    ensures
      var r := ChoosePrefix(id, values, left, right);
      r.Ok? && Sound(id, values, left, right, r.value)
  {
    PrefixOfPosition(left, p, n);
    if p in values && !(right != "" && p <= right) {
      ReusedPrefix(id, values, left, right, owner, p, n);
    } else {
      UnderLeft(id, values, left, right, p, n);
    }
  }
}
