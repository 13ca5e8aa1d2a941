/** Waypoint names of position strings, and why a prefix belongs to one source only
    (backend/pkg/posstrings/posstrings.go). */
module PosNames {
  import Lex
  import opened Base52
  import opened Options

  const LAST := "~"

  predicate ValidID(id: string)
  {
    id != "" && Lex.Less(id, LAST) && forall i :: 0 <= i < |id| ==> id[i] != '.' && id[i] != ','
  }

  function LongName(id: string): string
  {
    "," + id + "."
  }

  function FirstName(id: string): string
  {
    id + "."
  }

  predicate OccursAt(s: string, sub: string, i: nat)
  {
    i + |sub| <= |s| && s[i..i + |sub|] == sub
  }

  /** Go's `strings.LastIndex`: the greatest index at which `sub` occurs, if any. */
  function LastIndex(s: string, sub: string): (r: Option<nat>)
    ensures r.Some? ==> OccursAt(s, sub, r.value)
    ensures forall i: nat :: OccursAt(s, sub, i) ==> r.Some? && i <= r.value
  {
    LastIndexUpTo(s, sub, |s|)
  }

  function LastIndexUpTo(s: string, sub: string, n: nat): (r: Option<nat>)
    ensures r.Some? ==> r.value <= n && OccursAt(s, sub, r.value)
    ensures forall i: nat :: i <= n && OccursAt(s, sub, i) ==> r.Some? && i <= r.value
  {
    if OccursAt(s, sub, n) then Some(n) else if n == 0 then None else LastIndexUpTo(s, sub, n - 1)
  }

  function Dots(s: string): nat
  {
    if s == "" then 0 else Dots(s[..|s| - 1]) + if s[|s| - 1] == '.' then 1 else 0
  }

  /** A base-52 numeral followed by one decimal digit; the numeral is left out when zero. */
  function ShortName(n: nat): string
  {
    var digit := (48 + n % 10) as char;
    if n < 10 then [digit] else Numeral(n / 10) + [digit]
  }

  /** Where the source is named in the ancestor already. */
  function Existing(id: string, ancestor: string): Option<nat>
  {
    if FirstName(id) <= ancestor then Some(0) else LastIndex(ancestor, LongName(id))
  }

  function WaypointName(id: string, ancestor: string): string
    requires ValidID(id)
  {
    match Existing(id, ancestor)
    case Some(at) =>
      NamedHere(id, ancestor);
      ShortName(Dots(ancestor[at..]) - 1)
    case None => if ancestor == "" then FirstName(id) else LongName(id)
  }

  lemma {:induction false} TailSplits(s: string, sub: string, at: nat)
    requires OccursAt(s, sub, at)
    ensures s[at..] == sub + s[at + |sub|..]
  {
  }

  lemma {:induction false} NamedHere(id: string, ancestor: string)
    requires Existing(id, ancestor).Some?
    ensures
      var at := Existing(id, ancestor).value;
      at <= |ancestor| && Dots(ancestor[at..]) >= 1
  {
    var at := Existing(id, ancestor).value;
    var name := if FirstName(id) <= ancestor then FirstName(id) else LongName(id);
    assert OccursAt(ancestor, name, at);
    TailSplits(ancestor, name, at);
    DotsConcat(name, ancestor[at + |name|..]);
  }

  lemma {:induction false} DotsConcat(a: string, b: string)
    ensures Dots(a + b) == Dots(a) + Dots(b)
  {
    if b == "" {
      assert a + b == a;
    } else {
      assert (a + b)[..|a + b| - 1] == a + b[..|b| - 1];
      DotsConcat(a, b[..|b| - 1]);
    }
  }

  /** The name a source goes by at a place of the ancestor. */
  ghost predicate NamedAt(id: string, s: string, at: nat)
  {
    OccursAt(s, LongName(id), at) || (at == 0 && FirstName(id) <= s)
  }

  /** The naming that counts: at the start if it is there, else the last one. */
  ghost predicate CountsAt(id: string, s: string, at: nat)
  {
    NamedAt(id, s, at) && if FirstName(id) <= s then at == 0 else forall i: nat :: OccursAt(s, LongName(id), i) ==> i <= at
  }

  /** The places of the dots from there on. */
  ghost function DotPlaces(s: string, at: nat): set<nat>
  {
    set i: nat | at <= i < |s| && s[i] == '.'
  }

  /** A numeral and a decimal digit that together stand for the number; the numeral is left out for zero. */
  ghost predicate IsShort(name: string, n: nat)
  {
    && name != "" && '0' <= name[|name| - 1] <= '9'
    && (forall i :: 0 <= i < |name| - 1 ==> IsLetter(name[i]))
    && (|name| == 1 || Parse(name[..|name| - 1]) > 0)
    && n == 10 * Parse(name[..|name| - 1]) + (name[|name| - 1] as int - 48)
  }

  /** The name of a source behind an ancestor: in full if the ancestor does not name it yet, else
      the number of dots behind the dot of the naming that counts. */
  ghost predicate IsWaypoint(id: string, ancestor: string, name: string)
  {
    && ((forall at: nat :: !NamedAt(id, ancestor, at)) ==>
          name == if ancestor == "" then id + "." else "," + id + ".")
    && (forall at: nat :: NamedAt(id, ancestor, at) ==> exists last: nat :: CountsAt(id, ancestor, last))
    && (forall at: nat :: CountsAt(id, ancestor, at) ==>
          exists n: nat :: IsShort(name, n) && n + 1 == |DotPlaces(ancestor, at)|)
  }

  lemma {:induction false} OneMorePlace(s: string, at: nat, c: char)
    requires at <= |s|
    ensures DotPlaces(s + [c], at) == DotPlaces(s, at) + if c == '.' then {|s|} else {}
    ensures |DotPlaces(s + [c], at)| == |DotPlaces(s, at)| + if c == '.' then 1 else 0
  {
    var t := s + [c];
    assert forall i :: 0 <= i < |s| ==> t[i] == s[i];
    assert |s| !in DotPlaces(s, at);
  }

  lemma {:induction false} OneMoreByte(s: string, at: nat, c: char)
    requires at <= |s|
    ensures Dots((s + [c])[at..]) == Dots(s[at..]) + if c == '.' then 1 else 0
  {
    assert (s + [c])[at..] == s[at..] + [c];
    DotsConcat(s[at..], [c]);
    assert [c][..0] == "";
  }

  lemma {:induction false} DotsCount(s: string, at: nat)
    requires at <= |s|
    ensures Dots(s[at..]) == |DotPlaces(s, at)|
  {
    if at == |s| {
      assert DotPlaces(s, at) == {};
    } else {
      var front, c := s[..|s| - 1], s[|s| - 1];
      assert s == front + [c];
      DotsCount(front, at);
      OneMorePlace(front, at, c);
      OneMoreByte(front, at, c);
    }
  }

  lemma {:induction false} ShortNameIsShort(n: nat)
    ensures IsShort(ShortName(n), n)
  {
    var name := ShortName(n);
    assert name[|name| - 1] == (48 + n % 10) as char;
    if n >= 10 {
      assert name[..|name| - 1] == Numeral(n / 10);
      ParseInvertsNumeral(n / 10);
    } else {
      assert name[..|name| - 1] == "";
    }
  }

  lemma {:induction false} ExistingCounts(id: string, ancestor: string)
    ensures forall at: nat :: CountsAt(id, ancestor, at) <==> Existing(id, ancestor) == Some(at)
    ensures forall at: nat :: NamedAt(id, ancestor, at) ==> Existing(id, ancestor).Some?
  {
  }

  lemma {:induction false} WaypointIsNamed(id: string, ancestor: string)
    requires ValidID(id)
    ensures IsWaypoint(id, ancestor, WaypointName(id, ancestor))
  {
    var name := WaypointName(id, ancestor);
    ExistingCounts(id, ancestor);
    if Existing(id, ancestor).Some? {
      var at := Existing(id, ancestor).value;
      assert CountsAt(id, ancestor, at) && NamedAt(id, ancestor, at);
      NamedHere(id, ancestor);
      DotsCount(ancestor, at);
      ShortNameIsShort(Dots(ancestor[at..]) - 1);
    }
  }

  // ---- Prefixes and positions ----

  predicate IsMark(c: char)
  {
    c == '.' || '0' <= c <= '9'
  }

  /** A prefix ends in the last byte of a waypoint name. */
  ghost predicate IsPrefix(p: string)
  {
    p != "" && IsMark(p[|p| - 1])
  }

  /** A prefix followed by the numeral of a value or of a left version. */
  ghost predicate IsPosition(s: string, p: string, n: nat)
  {
    IsPrefix(p) && IsCode(n) && s == p + Numeral(n)
  }

  ghost predicate PositionLike(s: string)
  {
    exists p, n: nat :: IsPosition(s, p, n)
  }

  /** The prefix is what source `id` puts its values behind when extending `ancestor`. */
  ghost predicate NamedBy(id: string, p: string, ancestor: string)
  {
    && ValidID(id) && p == ancestor + WaypointName(id, ancestor)
    && (ancestor == "" || PositionLike(ancestor))
  }

  ghost predicate Owns(id: string, p: string)
  {
    exists ancestor :: NamedBy(id, p, ancestor)
  }

  lemma {:induction false} Halves(a: string, b: string)
    ensures (a + b)[..|a|] == a && (a + b)[|a|..] == b
  {
  }

  /** A string splits in one way only behind the last byte of a kind. */
  lemma {:induction false} SplitAtLast(mark: char -> bool, p: string, v: string, q: string, w: string)
    requires p + v == q + w
    requires p == "" || mark(p[|p| - 1])
    requires q == "" || mark(q[|q| - 1])
    requires forall i :: 0 <= i < |v| ==> !mark(v[i])
    requires forall i :: 0 <= i < |w| ==> !mark(w[i])
    ensures p == q && v == w
  {
    var s := p + v;
    assert forall i :: |p| <= i < |s| ==> s[i] == v[i - |p|];
    assert forall i :: |q| <= i < |s| ==> s[i] == w[i - |q|];
    assert p != "" ==> s[|p| - 1] == p[|p| - 1];
    assert q != "" ==> s[|q| - 1] == q[|q| - 1];
    assert |p| == |q|;
    Halves(p, v);
    Halves(q, w);
  }

  /** The prefix of a position is found again by looking for its last mark. */
  lemma {:induction false} LastMark(p: string, v: string, q: string, w: string)
    requires IsPrefix(p) && IsPrefix(q) && p + v == q + w
    requires forall i :: 0 <= i < |v| ==> IsLetter(v[i])
    requires forall i :: 0 <= i < |w| ==> IsLetter(w[i])
    ensures p == q && v == w
  {
    SplitAtLast(IsMark, p, v, q, w);
  }

  lemma {:induction false} PositionParts(s: string, p: string, m: nat, q: string, n: nat)
    requires IsPosition(s, p, m) && IsPosition(s, q, n)
    ensures p == q && m == n
  {
    LastMark(p, Numeral(m), q, Numeral(n));
    NumeralInjective(m, n);
  }

  // ---- A prefix has one owner ----

  lemma {:induction false} NameShapes(id: string, ancestor: string)
    requires ValidID(id)
    ensures
      var name := WaypointName(id, ancestor);
      && name != ""
      && (Existing(id, ancestor) == None ==> name[|name| - 1] == '.')
      && (Existing(id, ancestor).Some? ==> '0' <= name[|name| - 1] <= '9' && ancestor != "")
  {
  }

  lemma {:induction false} OwnedIsPrefix(id: string, p: string)
    requires Owns(id, p)
    ensures IsPrefix(p)
  {
    var a :| NamedBy(id, p, a);
    NameShapes(id, a);
  }

  lemma {:induction false} ShortNameInjective(m: nat, n: nat)
    requires ShortName(m) == ShortName(n)
    ensures m == n
  {
    var s := ShortName(m);
    assert s[|s| - 1] == (48 + m % 10) as char == (48 + n % 10) as char;
    if m >= 10 && n >= 10 {
      assert Numeral(m / 10) == s[..|s| - 1] == Numeral(n / 10);
      NumeralInjective(m / 10, n / 10);
    }
  }

  ghost function UpToName(ancestor: string): string
  {
    if ancestor == "" then "" else ancestor + ","
  }

  lemma {:induction false} FullName(ancestor: string, id: string)
    ensures UpToName(ancestor) + FirstName(id) == if ancestor == "" then FirstName(id) else ancestor + LongName(id)
  {
    if ancestor == "" {
      assert "" + FirstName(id) == FirstName(id);
    } else {
      assert ancestor + "," + (id + ".") == ancestor + ("," + id + ".");
    }
  }

  /** Two sources named at the end of the same prefix in full are the same. */
  lemma {:induction false} FullNamesAgree(a: string, c: string, i: string, d: string, j: string)
    requires ValidID(i) && ValidID(j)
    requires c == (if a == "" then FirstName(i) else a + LongName(i))
    requires c == (if d == "" then FirstName(j) else d + LongName(j))
    ensures i == j
  {
    var x, y := UpToName(a), UpToName(d);
    FullName(a, i);
    FullName(d, j);
    SplitAtLast(ch => ch == ',', x, FirstName(i), y, FirstName(j));
    Halves(i, ".");
    Halves(j, ".");
  }

  /** The letters of a short name. */
  ghost function ShortLetters(n: nat): (s: string)
    ensures forall i :: 0 <= i < |s| ==> IsLetter(s[i])
  {
    if n < 10 then "" else Numeral(n / 10)
  }

  lemma {:induction false} CodesApart(j: nat, u: string, k: nat, w: string)
    requires IsCode(j) && IsCode(k) && Numeral(j) + u == Numeral(k) + w
    ensures j == k && u == w
  {
    var s, t := Numeral(j), Numeral(k);
    Halves(s, u);
    Halves(t, w);
    assert |s| <= |t| ==> s == t[..|s|];
    assert |t| <= |s| ==> t == s[..|t|];
    if j < k {
      CodesOrderedPrefixFree(j, k);
    } else if k < j {
      CodesOrderedPrefixFree(k, j);
    }
  }

  /** The letters in front of the digit of a short name split in one way only, because
      numerals of codes are prefix-free. */
  lemma {:induction false} ShortNamesAgree(a: string, m: nat, d: string, n: nat)
    requires PositionLike(a) && PositionLike(d)
    requires a + ShortName(m) == d + ShortName(n)
    ensures a == d && m == n
  {
    WithoutDigit(a, m);
    WithoutDigit(d, n);
    AncestorsMatch(a, ShortLetters(m), d, ShortLetters(n));
    Halves(a, ShortName(m));
    Halves(d, ShortName(n));
    ShortNameInjective(m, n);
  }

  lemma {:induction false} AncestorsMatch(a: string, u: string, d: string, w: string)
    requires PositionLike(a) && PositionLike(d) && a + u == d + w
    requires forall i :: 0 <= i < |u| ==> IsLetter(u[i])
    requires forall i :: 0 <= i < |w| ==> IsLetter(w[i])
    ensures a == d
  {
    var p, j: nat :| IsPosition(a, p, j);
    var q, k: nat :| IsPosition(d, q, k);
    assert p + (Numeral(j) + u) == a + u && q + (Numeral(k) + w) == d + w;
    LastMark(p, Numeral(j) + u, q, Numeral(k) + w);
    CodesApart(j, u, k, w);
  }

  lemma {:induction false} WithoutDigit(a: string, m: nat)
    ensures (a + ShortName(m))[..|a + ShortName(m)| - 1] == a + ShortLetters(m)
  {
  }

  /** The name found there. */
  ghost function NameAt(id: string, s: string, at: nat): string
  {
    if OccursAt(s, LongName(id), at) then LongName(id) else FirstName(id)
  }

  lemma {:induction false} ByteAt(s: string, sub: string, at: nat, k: nat)
    requires OccursAt(s, sub, at) && k < |sub|
    ensures s[at + k] == sub[k]
  {
    assert s[at..at + |sub|][k] == s[at + k];
  }

  /** Names do not overlap: a comma starts a later one, and a name has none after its first byte. */
  lemma {:induction false} NamesApart(s: string, i: string, at: nat, j: string, at': nat)
    requires ValidID(i) && at < at' && NamedAt(i, s, at) && NamedAt(j, s, at')
    ensures at + |NameAt(i, s, at)| <= at'
  {
    var name := NameAt(i, s, at);
    ByteAt(s, LongName(j), at', 0);
    if at' < at + |name| {
      ByteAt(s, name, at, at' - at);
    }
  }

  /** Places with as many dots behind them are the same place, and name the same source. */
  lemma {:induction false} SameDotsSameSource(s: string, i: string, at: nat, j: string, at': nat)
    requires ValidID(i) && ValidID(j) && at <= at' <= |s| && NamedAt(i, s, at) && NamedAt(j, s, at')
    requires Dots(s[at..]) == Dots(s[at'..])
    ensures i == j
  {
    if at < at' {
      NamesApart(s, i, at, j, at');
      DotsBetween(s, NameAt(i, s, at), at, at');
    }
    SamePlaceSameSource(s, i, j, at);
  }

  lemma {:induction false} DotsBetween(s: string, name: string, at: nat, at': nat)
    requires name != "" && name[|name| - 1] == '.' && at + |name| <= at' <= |s| && name == s[at..at + |name|]
    ensures Dots(s[at..]) > Dots(s[at'..])
  {
    var rest, mid := s[at + |name|..], s[at + |name|..at'];
    TailSplits(s, name, at);
    DotsConcat(name, rest);
    assert rest == mid + s[at'..];
    DotsConcat(mid, s[at'..]);
  }

  lemma {:induction false} SamePlaceSameSource(s: string, i: string, j: string, at: nat)
    requires ValidID(i) && ValidID(j) && NamedAt(i, s, at) && NamedAt(j, s, at)
    ensures i == j
  {
    var x, y := NameAt(i, s, at), NameAt(j, s, at);
    ByteAt(s, x, at, 0);
    ByteAt(s, y, at, 0);
    assert |x| == |i| + 1 <==> |y| == |j| + 1;
    var from := |x| - |i| - 1;
    if |i| < |j| {
      ByteAt(s, y, at, from + |i|);
    } else if |j| < |i| {
      ByteAt(s, x, at, from + |j|);
    }
    assert x == s[at..at + |x|] == y;
    if |x| == |i| + 1 {
      Halves(i, ".");
      Halves(j, ".");
    } else {
      LongNameInjective(i, j);
    }
  }

  lemma {:induction false} LongNameInjective(i: string, j: string)
    requires LongName(i) == LongName(j)
    ensures i == j
  {
    Halves(",", i);
    Halves(",", j);
    Halves("," + i, ".");
    Halves("," + j, ".");
  }

  /** No two sources put values behind the same prefix. */
  lemma {:induction false} OneOwner(i: string, j: string, p: string)
    requires Owns(i, p) && Owns(j, p)
    ensures i == j
  {
    var a :| NamedBy(i, p, a);
    var d :| NamedBy(j, p, d);
    SameKindOfName(i, a, j, d, p);
    if Existing(i, a) == None {
      FullNamesAgree(a, p, i, d, j);
    } else {
      NameShapes(i, a);
      NameShapes(j, d);
      ShortOwnersAgree(i, a, j, d);
    }
  }

  lemma {:induction false} SameDotsNameOne(s: string, i: string, at: nat, j: string, at': nat)
    requires ValidID(i) && ValidID(j) && at <= |s| && at' <= |s| && NamedAt(i, s, at) && NamedAt(j, s, at')
    requires Dots(s[at..]) == Dots(s[at'..])
    ensures i == j
  {
    if at <= at' {
      SameDotsSameSource(s, i, at, j, at');
    } else {
      SameDotsSameSource(s, j, at', i, at);
    }
  }

  lemma {:induction false} ShortOwnersAgree(i: string, a: string, j: string, d: string)
    requires ValidID(i) && ValidID(j) && PositionLike(a) && PositionLike(d)
    requires Existing(i, a).Some? && Existing(j, d).Some?
    requires a + WaypointName(i, a) == d + WaypointName(j, d)
    ensures i == j
  {
    var at, at' := Existing(i, a).value, Existing(j, d).value;
    NamedHere(i, a);
    NamedHere(j, d);
    var m, n := Dots(a[at..]) - 1, Dots(d[at'..]) - 1;
    assert WaypointName(i, a) == ShortName(m) && WaypointName(j, d) == ShortName(n);
    ShortNamesAgree(a, m, d, n);
    SameDotsNameOne(a, i, at, j, at');
  }

  /** Names in full end in a dot, short ones in a digit. */
  lemma {:induction false} SameKindOfName(i: string, a: string, j: string, d: string, p: string)
    requires ValidID(i) && ValidID(j)
    requires p == a + WaypointName(i, a) == d + WaypointName(j, d)
    ensures Existing(i, a) == None <==> Existing(j, d) == None
  {
    NameShapes(i, a);
    NameShapes(j, d);
    assert p[|p| - 1] == WaypointName(i, a)[|WaypointName(i, a)| - 1];
    assert p[|p| - 1] == WaypointName(j, d)[|WaypointName(j, d)| - 1];
  }
}
