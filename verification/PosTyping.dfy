/** When a source goes on under a prefix in use, and how long positions get when text is typed
    from left to right (backend/pkg/posstrings/posstrings.go). */
module PosTyping {
  import Lex
  import opened Base52
  import opened PosNames
  import opened PosStrings
  import opened PosBetween
  import opened PosWorld

  /** Under which prefix the answer stands that a good world gives. */
  lemma {:induction false} ChosenIs(w: World, q: Request)
    requires Good(w) && Allowed(w, q)
    ensures q.right != LAST && Chosen(w, q).Ok?
    ensures Chosen(w, q) == ChoosePrefix(q.id, ValuesOf(w, q.id), q.left, q.right)
  {
    InputsAreSound(w, q);
    ChoiceIsSound(w, q);
  }

  /** A waypoint put behind an ancestor is longer than the ancestor. */
  lemma {:induction false} LongerThanAncestor(id: string, ancestor: string)
    requires ValidID(id)
    ensures |ancestor + WaypointName(id, ancestor)| > |ancestor|
  {
    NameShapes(id, ancestor);
  }

  lemma {:induction false} LeftVersionLength(right: string, a: string)
    requires right != "" && LeftVersion(right) == Ok(a)
    ensures |a| >= |right|
  {
  }

  lemma {:induction false} BeginsLonger(a: string, b: string, s: string)
    ensures a + b <= s ==> a <= s
  {
    if a + b <= s {
      assert s[..|a|] == (a + b)[..|a|] == a;
    }
  }

  /** The prefix chosen never leads to the right input. */
  lemma {:induction false} ChosenLeadsElsewhere(id: string, values: map<string, nat>, left: string, right: string)
    requires ValidID(id) && (right == "" || Lex.Less(left, right))
    ensures
      var r := ChoosePrefix(id, values, left, right);
      r.Ok? && right != "" ==> !(r.value <= right)
  {
    var r := ChoosePrefix(id, values, left, right);
    if r.Ok? && right != "" {
      if left == "" || left <= right {
        LeftVersionLength(right, LeftVersion(right).value);
        LongerThanAncestor(id, LeftVersion(right).value);
      } else if !(r.value == left + WaypointName(id, left)) {
        assert !(r.value <= right);
      } else {
        BeginsLonger(left, WaypointName(id, left), right);
      }
    }
  }

  /** A source knows the prefixes it named itself only. */
  lemma {:induction false} KnownAreOwn(w: World, s: string, id: string)
    requires Good(w) && s in w.minted
    ensures w.minted[s].prefix in ValuesOf(w, id) <==> w.minted[s].id == id
  {
    var o := w.minted[s];
    assert MintedWell(w, s, o);
    if o.prefix in ValuesOf(w, id) {
      assert ValueWell(id, ValuesOf(w, id), o.prefix);
      OneOwner(id, o.id, o.prefix);
    }
  }

  lemma {:induction false} GoesOnUnder(id: string, values: map<string, nat>, left: string, right: string, p: string)
    requires ValidID(id) && left != "" && Prefix(left) == Ok(p) && p <= left && |p| < |left|
    requires right == "" || Lex.Less(left, right)
    ensures
      var r := ChoosePrefix(id, values, left, right);
      var goesOn := p in values && !(right != "" && p <= right);
      (r == Ok(p) <==> goesOn) && (!goesOn && r.Ok? ==> |r.value| > |left|)
  {
    if right != "" && left <= right {
      assert right[..|p|] == left[..|p|] == p;
      if LeftVersion(right).Ok? {
        var a := LeftVersion(right).value;
        LeftVersionLength(right, a);
        LongerThanAncestor(id, a);
      }
    } else {
      LongerThanAncestor(id, left);
    }
  }

  /** Between two positions a source goes on under the prefix of the left one exactly if it minted
      the left one itself and that prefix does not lead to the right one. In all other cases the
      answer stands under a prefix longer than the left position. */
  lemma {:induction false} GoesOnExactly(w: World, q: Request)
    requires Good(w) && Allowed(w, q) && q.left in w.minted
    ensures
      var o := w.minted[q.left];
      var goesOn := o.id == q.id && !(q.right != "" && o.prefix <= q.right);
      && (Chosen(w, q) == Ok(o.prefix) <==> goesOn)
      && (!goesOn ==> Chosen(w, q).Ok? && |Chosen(w, q).value| > |q.left|)
  {
    var o := w.minted[q.left];
    ChosenIs(w, q);
    MintedIsPosition(w, q.left);
    KnownAreOwn(w, q.left, q.id);
    PrefixOfPosition(q.left, o.prefix, o.value);
    GoesOnUnder(q.id, ValuesOf(w, q.id), q.left, q.right, o.prefix);
  }

  // ---- Typing from left to right ----

  /** One source is asked again and again for a position behind its last answer, with the same right input. */
  ghost predicate IsTyping(w: World, qs: seq<Request>)
    requires AllAllowed(w, qs)
  {
    forall k :: 0 < k < |qs| ==> BehindLast(qs[k - 1], Answers(w, qs)[k - 1], qs[k])
  }

  predicate BehindLast(q: Request, r: Result<string>, next: Request)
  {
    r.Ok? && next == Request(q.id, r.value, q.right)
  }

  /** The `k`-th answer stands under the prefix `p`, with the value `k` places behind the `j`-th. */
  ghost predicate IsTyped(p: string, j: nat, k: nat, r: Result<string>)
  {
    r == Ok(p + Numeral(ValueAt(j + k)))
  }

  /** The next one is asked behind a position that the source minted under a prefix not leading to the right. */
  ghost predicate CanType(w: World, q: Request, p: string, j: nat)
  {
    && Good(w) && Allowed(w, q)
    && q.left in w.minted && w.minted[q.left].id == q.id && w.minted[q.left].prefix == p
    && p in ValuesOf(w, q.id) && ValuesOf(w, q.id)[p] == ValueAt(j)
    && !(q.right != "" && p <= q.right)
  }

  lemma {:induction false} TypesOn(w: World, q: Request, p: string, j: nat)
    requires CanType(w, q, p, j)
    ensures IsTyped(p, j + 1, 0, Answer(w, q)) && Good(After(w, q))
    ensures After(w, q) == Recorded(w, q.id, p, ValueAt(j + 1))
  {
    InputsAreSound(w, q);
    GoesOnExactly(w, q);
    ChoiceIsSound(w, q);
    StepRecords(w, q, p);
    CreateBetweenSucceeds(w, q);
    assert j + 1 + 0 == j + 1;
  }

  lemma {:induction false} CanTypeOn(w: World, q: Request, p: string, j: nat, next: Request)
    requires CanType(w, q, p, j) && BehindLast(q, Answer(w, q), next) && Allowed(After(w, q), next)
    ensures CanType(After(w, q), next, p, j + 1)
  {
    TypesOn(w, q, p, j);
  }

  lemma {:induction false} TailIsTyping(w: World, qs: seq<Request>)
    requires AllAllowed(w, qs) && qs != [] && IsTyping(w, qs)
    ensures IsTyping(After(w, qs[0]), qs[1..])
    ensures |qs| > 1 ==> BehindLast(qs[0], Answer(w, qs[0]), qs[1])
  {
    var rs, rest := Answers(w, qs), Answers(After(w, qs[0]), qs[1..]);
    assert rs == [Answer(w, qs[0])] + rest;
    forall k | 0 < k < |qs[1..]|
      ensures BehindLast(qs[1..][k - 1], rest[k - 1], qs[1..][k])
    {
      assert BehindLast(qs[k], rs[k], qs[k + 1]);
    }
    assert |qs| > 1 ==> BehindLast(qs[1 - 1], rs[1 - 1], qs[1]);
  }

  ghost predicate AllTyped(p: string, j: nat, rs: seq<Result<string>>)
  {
    forall k :: 0 <= k < |rs| ==> IsTyped(p, j, k, rs[k])
  }

  lemma {:induction false} OneMoreTyped(p: string, j: nat, r: Result<string>, rs: seq<Result<string>>)
    requires IsTyped(p, j, 0, r) && AllTyped(p, j + 1, rs)
    ensures AllTyped(p, j, [r] + rs)
  {
    var all := [r] + rs;
    forall k | 0 <= k < |all|
      ensures IsTyped(p, j, k, all[k])
    {
      if k > 0 {
        assert IsTyped(p, j + 1, k - 1, rs[k - 1]);
        assert j + 1 + (k - 1) == j + k;
      }
    }
  }

  lemma {:induction false} TypedOn(w: World, qs: seq<Request>, p: string, j: nat)
    requires AllAllowed(w, qs) && IsTyping(w, qs) && (qs != [] ==> CanType(w, qs[0], p, j))
    ensures AllTyped(p, j + 1, Answers(w, qs))
    decreases |qs|
  {
    if qs != [] {
      var w', rest := After(w, qs[0]), qs[1..];
      TypesOn(w, qs[0], p, j);
      TailIsTyping(w, qs);
      if rest != [] {
        CanTypeOn(w, qs[0], p, j, rest[0]);
      }
      TypedOn(w', rest, p, j + 1);
      OneMoreTyped(p, j + 1, Answer(w, qs[0]), Answers(w', rest));
      FirstAnswer(w, qs);
    }
  }

  /** The first answer starts a series of values, at its beginning if its prefix is new. */
  lemma {:induction false} StartsSeries(w: World, q: Request) returns (p: string, j: nat)
    requires Good(w) && Allowed(w, q)
    ensures Chosen(w, q) == Ok(p) && IsTyped(p, j, 0, Answer(w, q)) && (p !in ValuesOf(w, q.id) ==> j == 0)
    ensures forall next :: BehindLast(q, Answer(w, q), next) && Allowed(After(w, q), next) ==> CanType(After(w, q), next, p, j)
  {
    InputsAreSound(w, q);
    ChosenIs(w, q);
    ChoiceIsSound(w, q);
    p := Chosen(w, q).value;
    var values := ValuesOf(w, q.id);
    NextValueIsCode(q.id, values, p);
    j := 0;
    if p in values {
      j := NothingSkipped(NextValue(values, p), 0);
    }
    StepRecords(w, q, p);
    CreateBetweenSucceeds(w, q);
    ChosenLeadsElsewhere(q.id, values, q.left, q.right);
  }

  /** As long as the prefix and the digits of the `i`-th value. */
  ghost predicate LengthIs(p: string, i: nat, r: Result<string>)
  {
    && r.Ok? && |r.value| > |p|
    && var d := |r.value| - |p|;
       13 * (Pow26(d - 1) - 1) <= 25 * i < 13 * (Pow26(d) - 1)
  }

  lemma {:induction false} TypedLength(p: string, j: nat, k: nat, r: Result<string>)
    requires IsTyped(p, j, k, r)
    ensures LengthIs(p, j + k, r)
  {
    ValueLength(j + k);
  }

  ghost predicate LengthsAre(p: string, j: nat, rs: seq<Result<string>>)
  {
    forall k :: 0 <= k < |rs| ==> LengthIs(p, j + k, rs[k])
  }

  lemma {:induction false} TypedLengths(p: string, j: nat, rs: seq<Result<string>>)
    requires AllTyped(p, j, rs)
    ensures LengthsAre(p, j, rs)
  {
    forall k | 0 <= k < |rs|
      ensures LengthIs(p, j + k, rs[k])
    {
      TypedLength(p, j, k, rs[k]);
    }
  }

  /** Whatever positions there are already: typing from left to right stays under one prefix, takes
      its values one after the other, and so the answers grow as the logarithm of their number. */
  lemma {:induction false} TypingStaysUnderOnePrefix(w: World, qs: seq<Request>) returns (p: string, j: nat)
    requires Good(w) && AllAllowed(w, qs) && IsTyping(w, qs) && qs != []
    ensures Chosen(w, qs[0]) == Ok(p) && (p !in ValuesOf(w, qs[0].id) ==> j == 0)
    ensures AllTyped(p, j, Answers(w, qs)) && LengthsAre(p, j, Answers(w, qs))
  {
    var w', r, rest := After(w, qs[0]), Answer(w, qs[0]), qs[1..];
    p, j := StartsSeries(w, qs[0]);
    TailIsTyping(w, qs);
    TypedOn(w', rest, p, j);
    FirstAnswer(w, qs);
    OneMoreTyped(p, j, r, Answers(w', rest));
    TypedLengths(p, j, Answers(w, qs));
  }
}
