/** Position sources with distinct ids, minting positions for one another
    (backend/pkg/posstrings/posstrings.go). */
module PosWorld {
  import Lex
  import opened Base52
  import opened PosNames
  import opened PosStrings
  import opened PosBetween

  /** Who minted a position, and from what. */
  datatype Origin = Origin(id: string, prefix: string, value: nat)

  /** The last values of every source, and every position returned so far. */
  datatype World = World(last: map<string, map<string, nat>>, minted: map<string, Origin>)

  /** Asking one source for a position between two. */
  datatype Request = Request(id: string, left: string, right: string)

  const START := World(map[], map[])

  function ValuesOf(w: World, id: string): map<string, nat>
  {
    if id in w.last then w.last[id] else map[]
  }

  /** The inputs are "" or were returned earlier, by whichever source, and are in order. */
  predicate Allowed(w: World, q: Request)
  {
    && ValidID(q.id)
    && (q.left == "" || q.left in w.minted)
    && (q.right == "" || q.right in w.minted)
    && Lex.Less(q.left, OrLast(q.right))
  }

  function Answer(w: World, q: Request): Result<string>
    requires Allowed(w, q)
  {
    Created(q.id, ValuesOf(w, q.id), q.left, q.right).0
  }

  function Chosen(w: World, q: Request): Result<string>
    requires Allowed(w, q)
  {
    ChoosePrefix(q.id, ValuesOf(w, q.id), q.left, if q.right == LAST then "" else q.right)
  }

  function After(w: World, q: Request): World
    requires Allowed(w, q)
  {
    var (r, values) := Created(q.id, ValuesOf(w, q.id), q.left, q.right);
    var prefix := Chosen(w, q);
    World(
      w.last[q.id := values],
      if r.Ok? && prefix.Ok? then
        w.minted[r.value := Origin(q.id, prefix.value, NextValue(ValuesOf(w, q.id), prefix.value))]
      else w.minted)
  }

  predicate AllAllowed(w: World, qs: seq<Request>)
    decreases |qs|
  {
    qs == [] || (Allowed(w, qs[0]) && AllAllowed(After(w, qs[0]), qs[1..]))
  }

  /** The answers of a whole run. */
  function Answers(w: World, qs: seq<Request>): (rs: seq<Result<string>>)
    requires AllAllowed(w, qs)
    ensures |rs| == |qs|
    decreases |qs|
  {
    if qs == [] then [] else [Answer(w, qs[0])] + Answers(After(w, qs[0]), qs[1..])
  }

  // ---- What every reachable world keeps ----

  ghost predicate MintedWell(w: World, s: string, o: Origin)
  {
    && s == o.prefix + Numeral(o.value) && OddCode(o.value) && Owns(o.id, o.prefix)
    && o.prefix in ValuesOf(w, o.id) && o.value <= ValuesOf(w, o.id)[o.prefix]
    && BelowLast(s)
  }

  ghost predicate Good(w: World)
  {
    && (forall s :: s in w.minted ==> MintedWell(w, s, w.minted[s]))
    && (forall id :: id in w.last ==> ValuesWell(id, w.last[id]))
  }

  lemma {:induction false} MintedIsPosition(w: World, s: string)
    requires Good(w) && s in w.minted
    ensures
      var o := w.minted[s];
      MintedWell(w, s, o) && IsPosition(s, o.prefix, o.value) && BelowLast(o.prefix)
  {
    var o := w.minted[s];
    assert MintedWell(w, s, o);
    OwnedIsPrefix(o.id, o.prefix);
    assert s[0] == o.prefix[0];
  }

  lemma {:induction false} InputsAreSound(w: World, q: Request)
    requires Good(w) && Allowed(w, q)
    ensures q.right != LAST && !Lex.Less(LAST, OrLast(q.right)) && ValuesWell(q.id, ValuesOf(w, q.id))
  {
    if q.right != "" {
      MintedIsPosition(w, q.right);
      StartsLow("", q.right);
      Lex.Trichotomy(q.right, LAST);
    } else {
      Lex.Irreflexive(LAST);
    }
  }

  lemma {:induction false} ChoiceIsSound(w: World, q: Request)
    requires Good(w) && Allowed(w, q)
    ensures Chosen(w, q).Ok? && Sound(q.id, ValuesOf(w, q.id), q.left, q.right, Chosen(w, q).value)
  {
    InputsAreSound(w, q);
    var values := ValuesOf(w, q.id);
    if q.right != "" && (q.left == "" || q.left <= q.right) {
      MintedIsPosition(w, q.right);
      var o := w.minted[q.right];
      LeftOfRight(q.id, values, q.left, q.right, o.prefix, o.value);
    } else if q.left == "" {
      Anywhere(q.id, values);
    } else {
      MintedIsPosition(w, q.left);
      var o := w.minted[q.left];
      RightOfLeft(q.id, values, q.left, q.right, o.id, o.prefix, o.value);
    }
  }

  // ---- The theorems ----

  /** What one source returns was never returned before, by it or by another. */
  lemma {:induction false} AnswerIsFresh(w: World, id: string, p: string, s: string)
    requires Good(w) && Owns(id, p) && s == p + Numeral(NextValue(ValuesOf(w, id), p))
    requires ValuesWell(id, ValuesOf(w, id))
    ensures s !in w.minted
  {
    if s in w.minted {
      var o := w.minted[s];
      MintedIsPosition(w, s);
      NextValueIsCode(id, ValuesOf(w, id), p);
      OwnedIsPrefix(id, p);
      PositionParts(s, o.prefix, o.value, p, NextValue(ValuesOf(w, id), p));
      OneOwner(id, o.id, p);
    }
  }

  /** Strictly between its inputs, and returned by nobody before. */
  ghost predicate NewBetween(w: World, q: Request, r: Result<string>)
  {
    r.Ok? && Lex.Less(q.left, r.value) && Lex.Less(r.value, OrLast(q.right)) && r.value !in w.minted
  }

  /** The request of any source succeeds, strictly between its inputs, with a position nobody returned before. */
  lemma {:induction false} CreateBetweenSucceeds(w: World, q: Request)
    requires Good(w) && Allowed(w, q)
    ensures NewBetween(w, q, Answer(w, q)) && Good(After(w, q))
    ensures After(w, q).minted.Keys == w.minted.Keys + {Answer(w, q).value}
  {
    InputsAreSound(w, q);
    ChoiceIsSound(w, q);
    var p, values := Chosen(w, q).value, ValuesOf(w, q.id);
    StepRecords(w, q, p);
    AnswerIsFresh(w, q.id, p, p + Numeral(NextValue(values, p)));
    NextValueIsCode(q.id, values, p);
    GoodStays(w, q.id, p, NextValue(values, p));
  }

  lemma {:induction false} StepRecords(w: World, q: Request, p: string)
    requires Allowed(w, q) && q.right != LAST && !Lex.Less(LAST, OrLast(q.right)) && Chosen(w, q) == Ok(p)
    requires Between(q.left, p + Numeral(NextValue(ValuesOf(w, q.id), p)), q.right)
    ensures Answer(w, q) == Ok(p + Numeral(NextValue(ValuesOf(w, q.id), p)))
    ensures After(w, q) == Recorded(w, q.id, p, NextValue(ValuesOf(w, q.id), p))
  {
  }

  /** The world after one more value under a prefix. */
  function Recorded(w: World, id: string, p: string, value: nat): World
  {
    World(w.last[id := ValuesOf(w, id)[p := value]], w.minted[p + Numeral(value) := Origin(id, p, value)])
  }

  lemma {:induction false} MintedStaysWell(w: World, id: string, p: string, value: nat, s: string, o: Origin)
    requires MintedWell(w, s, o)
    requires p in ValuesOf(w, id) ==> ValuesOf(w, id)[p] < value
    ensures MintedWell(Recorded(w, id, p, value), s, o)
  {
    var w' := Recorded(w, id, p, value);
    assert o.id != id ==> ValuesOf(w', o.id) == ValuesOf(w, o.id);
  }

  lemma {:induction false} ValuesStayWell(w: World, id: string, p: string, value: nat)
    requires ValuesWell(id, ValuesOf(w, id)) && Owns(id, p) && OddCode(value)
    ensures ValuesWell(id, ValuesOf(w, id)[p := value])
  {
    var values := ValuesOf(w, id);
    var values' := values[p := value];
    forall q | q in values'
      ensures ValueWell(id, values', q)
    {
      assert q != p ==> ValueWell(id, values, q);
    }
  }

  lemma {:induction false} GoodStays(w: World, id: string, p: string, value: nat)
    requires Good(w) && ValuesWell(id, ValuesOf(w, id))
    requires Owns(id, p) && OddCode(value) && BelowLast(p + Numeral(value))
    requires p in ValuesOf(w, id) ==> ValuesOf(w, id)[p] < value
    ensures Good(Recorded(w, id, p, value))
  {
    var w' := Recorded(w, id, p, value);
    forall s | s in w'.minted
      ensures MintedWell(w', s, w'.minted[s])
    {
      if s != p + Numeral(value) {
        MintedStaysWell(w, id, p, value, s, w.minted[s]);
      }
    }
    ValuesStayWell(w, id, p, value);
  }

  predicate StrictlyBetween(r: Result<string>, q: Request)
  {
    r.Ok? && Lex.Less(q.left, r.value) && Lex.Less(r.value, OrLast(q.right))
  }

  predicate AnsweredWell(w: World, q: Request, r: Result<string>)
  {
    StrictlyBetween(r, q) && r.value !in w.minted
  }

  /** Every answer lies strictly between its inputs, and was not there before. */
  ghost predicate AllWell(w: World, qs: seq<Request>, rs: seq<Result<string>>)
  {
    |rs| == |qs| && forall k :: 0 <= k < |qs| ==> AnsweredWell(w, qs[k], rs[k])
  }

  predicate AllDiffer(rs: seq<Result<string>>)
  {
    forall j, k :: 0 <= j < k < |rs| ==> rs[j] != rs[k]
  }

  /** What is answered well once `r` is minted was so before, and differs from it. */
  lemma {:induction false} OneMoreAnswer(w: World, w': World, q: Request, r: Result<string>,
                                         qs: seq<Request>, rs: seq<Result<string>>)
    requires AnsweredWell(w, q, r) && w'.minted.Keys == w.minted.Keys + {r.value}
    requires AllDiffer(rs) && AllWell(w', qs, rs)
    ensures AllDiffer([r] + rs) && AllWell(w, [q] + qs, [r] + rs)
  {
    forall k | 0 <= k < |qs|
      ensures AnsweredWell(w, qs[k], rs[k]) && rs[k] != r
    {
      assert AnsweredWell(w', qs[k], rs[k]);
    }
  }

  lemma {:induction false} FirstAnswer(w: World, qs: seq<Request>)
    requires AllAllowed(w, qs) && qs != []
    ensures Answers(w, qs) == [Answer(w, qs[0])] + Answers(After(w, qs[0]), qs[1..]) && qs == [qs[0]] + qs[1..]
  {
  }

  /** Over any run of any sources with distinct ids no request fails, every answer lies strictly
      between its inputs, and no position is returned twice, by the same source or by two. */
  lemma {:induction false} NoPositionTwice(w: World, qs: seq<Request>)
    requires Good(w) && AllAllowed(w, qs)
    ensures AllWell(w, qs, Answers(w, qs)) && AllDiffer(Answers(w, qs))
    decreases |qs|
  {
    if qs != [] {
      var w', r, rest := After(w, qs[0]), Answer(w, qs[0]), qs[1..];
      CreateBetweenSucceeds(w, qs[0]);
      NoPositionTwice(w', rest);
      OneMoreAnswer(w, w', qs[0], r, rest, Answers(w', rest));
      FirstAnswer(w, qs);
    }
  }

  lemma {:induction false} FreshSourcesNeverFail(qs: seq<Request>)
    requires AllAllowed(START, qs)
    ensures AllWell(START, qs, Answers(START, qs)) && AllDiffer(Answers(START, qs))
  {
    NoPositionTwice(START, qs);
  }
}
