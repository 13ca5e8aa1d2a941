/** Sources of position strings (backend/pkg/posstrings/posstrings.go). */
module PosStrings {
  import Lex
  import opened Options
  import opened Base52
  import opened PosNames

  datatype Error = OutOfOrder | AboveLast | BadValue | NoWaypoint | BadPosition
  datatype Result<+T> = Ok(value: T) | Err(error: Error)

  /** The part up to the last mark, not counting the last byte. */
  function PrefixUpTo(position: string, n: nat): Result<string>
    requires n <= |position|
  {
    if n == 0 then Err(NoWaypoint)
    else if IsMark(position[n - 1]) then Ok(position[..n])
    else PrefixUpTo(position, n - 1)
  }

  function Prefix(position: string): Result<string>
  {
    if position == "" then Err(NoWaypoint) else PrefixUpTo(position, |position| - 1)
  }

  /** Go's `string` of a byte: the UTF-8 form of that code point, two bytes from 128 on. */
  function OfByte(c: char): string
  {
    if c as int < 128 then [c] else [(192 + c as int / 64) as char, (128 + c as int % 64) as char]
  }

  lemma {:induction false} LetterOfByte(c: char)
    requires c as int < 128
    ensures Parse(OfByte(c)) == Value(c)
  {
    assert [c][..0] == "";
  }

  /** The same position with an even last value: where things to the left go. */
  function LeftVersion(position: string): Result<string>
    requires position != ""
  {
    var last := Parse(OfByte(position[|position| - 1]));
    if last > 0 && last % 2 == 1 then Ok(position[..|position| - 1] + Numeral(last - 1)) else Err(BadValue)
  }

  function NextValue(values: map<string, nat>, prefix: string): nat
  {
    if prefix in values then NextOddValueSeq(values[prefix]) else 1
  }

  /** The prefix under which a new position between the two is put. */
  function ChoosePrefix(id: string, values: map<string, nat>, left: string, right: string): Result<string>
    requires ValidID(id) && (right == "" || Lex.Less(left, right))
  {
    if right != "" && (left == "" || left <= right) then
      match LeftVersion(right)
      case Err(e) => Err(e)
      case Ok(ancestor) => Ok(ancestor + WaypointName(id, ancestor))
    else if left == "" then Ok(WaypointName(id, ""))
    else
      match Prefix(left)
      case Err(e) => Err(e)
      case Ok(prefix) =>
        if prefix in values && !(right != "" && prefix <= right) then Ok(prefix)
        else Ok(left + WaypointName(id, left))
  }

  function OrLast(right: string): string
  {
    if right == "" then LAST else right
  }

  /** What asking source `id` for a position between the two gives, and its last values afterwards. */
  function Created(id: string, values: map<string, nat>, left: string, right: string): (Result<string>, map<string, nat>)
    requires ValidID(id)
  {
    if !Lex.Less(left, OrLast(right)) then (Err(OutOfOrder), values)
    else if Lex.Less(LAST, OrLast(right)) then (Err(AboveLast), values)
    else
      match ChoosePrefix(id, values, left, if right == LAST then "" else right)
      case Err(e) => (Err(e), values)
      case Ok(prefix) =>
        var value := NextValue(values, prefix);
        var ans := prefix + Numeral(value);
        (if Lex.Less(left, ans) && Lex.Less(ans, OrLast(right)) then Ok(ans) else Err(BadPosition), values[prefix := value])
  }

  // ---- What the answers are ----

  /** The last byte of a position tells whether it has a left version: its digit has to be odd. */
  predicate EndsOdd(s: string)
  {
    s != "" && s[|s| - 1] as int >= 66 && s[|s| - 1] as int % 2 == 0
  }

  lemma {:induction false} TwoBytes(c: char)
    requires c as int >= 128
    ensures Parse(OfByte(c)) == 52 * (121 + c as int / 64) + 57 + c as int % 64
  {
    var s := OfByte(c);
    var first := s[..|s| - 1];
    assert first == [s[0]] && first[..|first| - 1] == "";
    assert Parse(first) == Value(s[0]);
  }

  /** The digit of a byte is odd for the even bytes from 'B' on. */
  lemma {:induction false} OddBytes(c: char)
    ensures Parse(OfByte(c)) > 0 && Parse(OfByte(c)) % 2 == 1 <==> c as int >= 66 && c as int % 2 == 0
  {
    if c as int < 128 {
      LetterOfByte(c);
    } else {
      var n := c as int;
      TwoBytes(c);
      SameParity(n / 64, n % 64);
      assert n == 64 * (n / 64) + n % 64;
      assert Parse(OfByte(c)) == 52 * (121 + n / 64) + 57 + n % 64;
    }
  }

  lemma {:induction false} SameParity(q: nat, r: nat)
    ensures (52 * (121 + q) + 57 + r) % 2 == 1 <==> (64 * q + r) % 2 == 0
  {
    assert 52 * (121 + q) + 57 + r == 2 * (26 * (121 + q) + 28) + (r + 1);
    assert 64 * q + r == 2 * (32 * q) + r;
  }

  /** A left version is refused exactly for an even digit and for a byte below all odd ones. */
  lemma {:induction false} LeftVersionExactly(position: string)
    requires position != ""
    ensures LeftVersion(position).Ok? <==> EndsOdd(position)
    ensures !EndsOdd(position) ==> LeftVersion(position) == Err(BadValue)
  {
    OddBytes(position[|position| - 1]);
  }

  /** `p` ends at the last mark of `s` that is not its last byte. */
  predicate EndsAtMark(s: string, p: string)
  {
    && p != "" && p <= s && |p| < |s| && IsMark(p[|p| - 1])
    && forall i :: |p| <= i < |s| - 1 ==> !IsMark(s[i])
  }

  predicate HasMark(s: string, n: nat)
    requires n <= |s|
  {
    exists i :: 0 <= i < n && IsMark(s[i])
  }

  lemma {:induction false} PrefixUpToMeans(s: string, n: nat)
    requires n < |s| && forall i :: n <= i < |s| - 1 ==> !IsMark(s[i])
    ensures PrefixUpTo(s, n).Ok? <==> HasMark(s, n)
    ensures PrefixUpTo(s, n).Ok? ==> EndsAtMark(s, PrefixUpTo(s, n).value)
    ensures PrefixUpTo(s, n).Err? ==> PrefixUpTo(s, n) == Err(NoWaypoint)
  {
    if n > 0 && !IsMark(s[n - 1]) {
      PrefixUpToMeans(s, n - 1);
    }
  }

  lemma {:induction false} PrefixMeans(s: string)
    requires s != ""
    ensures Prefix(s).Ok? <==> HasMark(s, |s| - 1)
    ensures Prefix(s).Ok? ==> EndsAtMark(s, Prefix(s).value)
    ensures Prefix(s).Err? ==> Prefix(s) == Err(NoWaypoint)
  {
    PrefixUpToMeans(s, |s| - 1);
  }

  /** The answer goes in front of `right`: there is nothing to the left, or `right` goes on from it. */
  predicate GoesBeforeRight(left: string, right: string)
  {
    right != "" && right != LAST && (left == "" || left <= right)
  }

  /** A prefix this source uses already, and that does not lead to `right`. */
  predicate CanGoOn(values: map<string, nat>, right: string, p: string)
  {
    p in values && (right == "" || right == LAST || !(p <= right))
  }

  ghost predicate Blames(id: string, left: string, right: string, e: Error)
  {
    match e
    case OutOfOrder => !Lex.Less(left, OrLast(right))
    case AboveLast => Lex.Less(LAST, OrLast(right))
    case BadValue => GoesBeforeRight(left, right) && !EndsOdd(right)
    case NoWaypoint => !GoesBeforeRight(left, right) && left != "" && !HasMark(left, |left| - 1)
    case BadPosition => false
  }

  ghost predicate NamedBehind(id: string, ancestor: string, p: string)
  {
    exists name :: p == ancestor + name && IsWaypoint(id, ancestor, name)
  }

  /** Where the answer goes: under a waypoint of this source behind the left version of `right`, behind
      nothing, behind `left`, or on under the prefix of `left`. */
  ghost predicate IsPlace(id: string, values: map<string, nat>, left: string, right: string, p: string)
  {
    if GoesBeforeRight(left, right) then
      exists ancestor :: LeftVersion(right) == Ok(ancestor) && NamedBehind(id, ancestor, p)
    else if left == "" then NamedBehind(id, "", p)
    else exists q :: EndsAtMark(left, q) && if CanGoOn(values, right, q) then p == q else NamedBehind(id, left, p)
  }

  /** The least odd code above the last value, or the first one. */
  ghost predicate IsNextValue(values: map<string, nat>, p: string, value: nat)
  {
    && (p !in values ==> value == 1)
    && (p in values && OddCode(values[p]) ==>
          OddCode(value) && value > values[p] && forall m: nat :: OddCode(m) && m > values[p] ==> value <= m)
  }

  /** One more value under a prefix, and whether that is the answer. */
  ghost predicate GivesOut(values: map<string, nat>, left: string, right: string, p: string,
                           r: Result<string>, after: map<string, nat>)
  {
    && p in after && after == values[p := after[p]] && IsNextValue(values, p, after[p])
    && var ans := p + Numeral(after[p]);
       r == if Lex.Less(left, ans) && Lex.Less(ans, OrLast(right)) then Ok(ans) else Err(BadPosition)
  }

  /** What a request gives: the first complaint there is, and then no value is given out, or a new value
      at the place between the two. */
  ghost predicate Outcome(id: string, values: map<string, nat>, left: string, right: string,
                          r: Result<string>, after: map<string, nat>)
  {
    if Blames(id, left, right, OutOfOrder) then r == Err(OutOfOrder) && after == values
    else if Blames(id, left, right, AboveLast) then r == Err(AboveLast) && after == values
    else if Blames(id, left, right, BadValue) then r == Err(BadValue) && after == values
    else if Blames(id, left, right, NoWaypoint) then r == Err(NoWaypoint) && after == values
    else exists p :: IsPlace(id, values, left, right, p) && GivesOut(values, left, right, p, r, after)
  }

  lemma {:induction false} NextIsNextValue(values: map<string, nat>, p: string)
    ensures IsNextValue(values, p, NextValue(values, p))
  {
    if p in values && OddCode(values[p]) {
      NextIsOddCode(values[p]);
      forall m: nat | OddCode(m) && m > values[p]
        ensures NextValue(values, p) <= m
      {
        NextIsLeast(values[p], m);
      }
    }
  }

  lemma {:induction false} ChosenIsPlace(id: string, values: map<string, nat>, left: string, right: string)
    requires ValidID(id) && right != LAST && (right == "" || Lex.Less(left, right))
    ensures
      var r := ChoosePrefix(id, values, left, right);
      if Blames(id, left, right, BadValue) then r == Err(BadValue)
      else if Blames(id, left, right, NoWaypoint) then r == Err(NoWaypoint)
      else r.Ok? && IsPlace(id, values, left, right, r.value)
  {
    if GoesBeforeRight(left, right) {
      LeftVersionExactly(right);
      if EndsOdd(right) {
        WaypointIsNamed(id, LeftVersion(right).value);
      }
    } else if left == "" {
      WaypointIsNamed(id, "");
      assert WaypointName(id, "") == "" + WaypointName(id, "");
    } else {
      PrefixMeans(left);
      WaypointIsNamed(id, left);
    }
  }

  lemma {:induction false} CreatedIsOutcome(id: string, values: map<string, nat>, left: string, right: string)
    requires ValidID(id)
    ensures Outcome(id, values, left, right, Created(id, values, left, right).0, Created(id, values, left, right).1)
  {
    if Lex.Less(left, OrLast(right)) && !Lex.Less(LAST, OrLast(right)) {
      var fixed := if right == LAST then "" else right;
      ChosenIsPlace(id, values, left, fixed);
      var r := ChoosePrefix(id, values, left, fixed);
      if r.Ok? {
        assert IsPlace(id, values, left, right, r.value);
        NextIsNextValue(values, r.value);
      }
    }
  }

  lemma {:induction false} OneMoreDot(s: string, at: nat, i: nat)
    requires at <= i < |s|
    ensures Dots(s[at..i + 1]) == Dots(s[at..i]) + if s[i] == '.' then 1 else 0
  {
    assert s[at..i + 1][..i - at] == s[at..i];
  }

  lemma {:induction false} ShortNameIs(id: string, ancestor: string, at: nat)
    requires ValidID(id) && Existing(id, ancestor) == Some(at)
    ensures at <= |ancestor| && Dots(ancestor[at..|ancestor|]) >= 1
    ensures WaypointName(id, ancestor) == ShortName(Dots(ancestor[at..|ancestor|]) - 1)
  {
    NamedHere(id, ancestor);
    assert ancestor[at..|ancestor|] == ancestor[at..];
  }

  class PositionSource {
    const id: string
    var lastValueSeqs: map<string, nat>

    ghost predicate Valid()
    {
      ValidID(id)
    }

    constructor (id: string)
      requires ValidID(id)
      ensures Valid() && this.id == id && lastValueSeqs == map[]
    {
      this.id := id;
      lastValueSeqs := map[];
    }

    /** The next value under the waypoint of this source behind the ancestor. */
    method AppendWaypoint(ancestor: string) returns (position: string)
      requires Valid()
      modifies this
      ensures
        var prefix := ancestor + WaypointName(id, ancestor);
        var value := NextValue(old(lastValueSeqs), prefix);
        position == prefix + Numeral(value) && lastValueSeqs == old(lastValueSeqs)[prefix := value]
    {
      var waypointName := if ancestor == "" then FirstName(id) else LongName(id);
      var existing := LastIndex(ancestor, LongName(id));
      if FirstName(id) <= ancestor {
        existing := Some(0);
      }
      if existing.Some? {
        var index := -1;
        for i := existing.value to |ancestor|
          invariant index == Dots(ancestor[existing.value..i]) - 1
          invariant lastValueSeqs == old(lastValueSeqs)
        {
          OneMoreDot(ancestor, existing.value, i);
          if ancestor[i] == '.' {
            index := index + 1;
          }
        }
        ShortNameIs(id, ancestor, existing.value);
        waypointName := ShortName(index);
      }
      assert waypointName == WaypointName(id, ancestor);
      var prefix := ancestor + waypointName;
      var value := if prefix !in lastValueSeqs then 1 else NextOddValueSeq(lastValueSeqs[prefix]);
      lastValueSeqs := lastValueSeqs[prefix := value];
      var code := StringifyBase52(value);
      position := prefix + code;
    }

    static method GetPrefix(position: string) returns (r: Result<string>)
      ensures r == Prefix(position)
    {
      var i := |position| - 2;
      while i >= 0
        invariant -1 <= i + 1 && i <= |position| - 2
        invariant Prefix(position) == if i + 1 < 0 then Err(NoWaypoint) else PrefixUpTo(position, i + 1)
      {
        if IsMark(position[i]) {
          return Ok(position[..i + 1]);
        }
        i := i - 1;
      }
      return Err(NoWaypoint);
    }

    static method GetLeftVersion(position: string) returns (r: Result<string>)
      requires position != ""
      ensures r == LeftVersion(position)
    {
      var last := ParseBase52(OfByte(position[|position| - 1]));
      if !(last > 0 && last % 2 == 1) {
        return Err(BadValue);
      }
      var even := StringifyBase52(last - 1);
      return Ok(position[..|position| - 1] + even);
    }

    /** A new position under the chosen prefix, or an error. Also when the last check fails
        the value counts as given out. */
    method CreateBetween(left: string, right: string) returns (r: Result<string>)
      requires Valid()
      modifies this
      ensures (r, lastValueSeqs) == Created(id, old(lastValueSeqs), left, right)
      ensures Outcome(id, old(lastValueSeqs), left, right, r, lastValueSeqs)
    {
      CreatedIsOutcome(id, lastValueSeqs, left, right);
      var bound := if right == "" then LAST else right;
      if !Lex.Less(left, bound) {
        return Err(OutOfOrder);
      }
      if Lex.Less(LAST, bound) {
        return Err(AboveLast);
      }
      var rightFixed := if bound == LAST then "" else bound;
      var ans: string;
      if rightFixed != "" && (left == "" || left <= rightFixed) {
        var ancestor := GetLeftVersion(rightFixed);
        if ancestor.Err? {
          return ancestor;
        }
        ans := AppendWaypoint(ancestor.value);
      } else if left == "" {
        ans := AppendWaypoint("");
        assert "" + WaypointName(id, "") == WaypointName(id, "");
      } else {
        var prefix := GetPrefix(left);
        if prefix.Err? {
          return prefix;
        }
        if prefix.value in lastValueSeqs && !(rightFixed != "" && prefix.value <= rightFixed) {
          var value := NextOddValueSeq(lastValueSeqs[prefix.value]);
          var code := StringifyBase52(value);
          ans := prefix.value + code;
          lastValueSeqs := lastValueSeqs[prefix.value := value];
        } else {
          ans := AppendWaypoint(left);
        }
      }
      if !(Lex.Less(left, ans) && Lex.Less(ans, bound)) {
        return Err(BadPosition);
      }
      return Ok(ans);
    }
  }
}
