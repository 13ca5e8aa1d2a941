/** Threads of comments (backend/hyper/indexing.go, backend/hyper/hyper.go). */
module Threads {
  import opened Options

  type Cid = string

  datatype Comment = Comment(target: string, threadRoot: Option<Cid>, replied: Option<Cid>, time: int)

  datatype Blob = CommentBlob(comment: Comment) | OtherBlob

  /** CIDs name content: to each belongs one blob. */
  type Content = Cid -> Blob

  datatype Error =
    | NoTarget | NotHypermedia | DeletedTarget | HalfAReply | NotFound | NotAComment | OlderThanReplied | OtherTarget
    | OtherThread | OtherRoot | NoAuthor

  // ---- Strings ----

  /** The part in front of the first occurrence. */
  function Cut(s: string, mark: string): string
  {
    if mark <= s || s == "" then "" else [s[0]] + Cut(s[1..], mark)
  }

  /** The mark occurs there, or the string ends there, and it occurs nowhere before. */
  predicate FirstAt(s: string, mark: string, k: nat)
  {
    k <= |s| && (k == |s| || mark <= s[k..]) && forall j :: 0 <= j < k ==> !(mark <= s[j..])
  }

  /** Cutting keeps exactly what is in front of the first occurrence, or everything if there is none. */
  lemma {:induction false} CutMeans(s: string, mark: string)
    ensures FirstAt(s, mark, |Cut(s, mark)|) && Cut(s, mark) == s[..|Cut(s, mark)|]
  {
    if s != "" && !(mark <= s) {
      var rest := s[1..];
      var k := |Cut(rest, mark)|;
      CutMeans(rest, mark);
      assert rest[k..] == s[k + 1..] && s[..k + 1] == [s[0]] + rest[..k];
      forall j | 0 <= j < k + 1
        ensures !(mark <= s[j..])
      {
        assert j > 0 ==> s[j..] == rest[j - 1..];
      }
    }
  }

  /** The target without its query. */
  function Page(target: string): string
  {
    Cut(target, "?")
  }

  /** The page of a target ends in front of its first question mark. */
  predicate PageEnds(target: string, k: nat)
  {
    k <= |target| && (k < |target| ==> target[k] == '?') && '?' !in target[..k]
  }

  /** Up to their first question marks the targets are alike. */
  predicate SamePage(a: string, b: string)
  {
    exists k :: 0 <= k <= |a| && PageEnds(a, k) && PageEnds(b, k) && a[..k] == b[..k]
  }

  lemma {:induction false} PageEndsThere(target: string)
    ensures |Page(target)| <= |target| && Page(target) == target[..|Page(target)|] && PageEnds(target, |Page(target)|)
  {
    var n := |Page(target)|;
    CutMeans(target, "?");
    forall j | 0 <= j < n
      ensures target[..n][j] != '?'
    {
      assert !("?" <= target[j..]);
    }
  }

  lemma {:induction false} PageEndsOnce(target: string, k: nat, n: nat)
    requires PageEnds(target, k) && PageEnds(target, n)
    ensures k <= n
  {
    assert forall j :: 0 <= j < k ==> target[j] == target[..k][j] && target[j] in target[..k];
  }

  lemma {:induction false} PageIsUpToMark(target: string, k: nat)
    ensures PageEnds(target, k) <==> k == |Page(target)|
    ensures |Page(target)| <= |target| && Page(target) == target[..|Page(target)|]
  {
    PageEndsThere(target);
    if PageEnds(target, k) {
      PageEndsOnce(target, k, |Page(target)|);
      PageEndsOnce(target, |Page(target)|, k);
    }
  }

  lemma {:induction false} PageDecides(a: string, b: string)
    ensures SamePage(a, b) <==> Page(a) == Page(b)
  {
    PageIsUpToMark(a, |Page(a)|);
    PageIsUpToMark(b, |Page(b)|);
    if k :| 0 <= k <= |a| && PageEnds(a, k) && PageEnds(b, k) && a[..k] == b[..k] {
      PageIsUpToMark(a, k);
      PageIsUpToMark(b, k);
    }
  }

  // ---- Checking a comment ----

  /** What a reply and the comment replied to have in common. */
  predicate Linked(v: Comment, replied: Cid, rc: Comment)
  {
    && rc.time <= v.time && SamePage(v.target, rc.target)
    && v.threadRoot == if rc.threadRoot.Some? then rc.threadRoot else Some(replied)
  }

  predicate TopLevel(v: Comment)
  {
    v.replied == None && v.threadRoot == None
  }

  /** The comment replied to is stored, and the two are linked. */
  predicate RepliesWell(blobs: map<Cid, Blob>, v: Comment)
  {
    && v.replied.Some? && v.replied.value in blobs && blobs[v.replied.value].CommentBlob?
    && Linked(v, v.replied.value, blobs[v.replied.value].comment)
  }

  /** A comment on something that is not removed, by an author, that stands alone or replies well. */
  predicate Acceptable(blobs: map<Cid, Blob>, v: Comment, removed: set<string>, hasAuthor: bool)
  {
    && "hm://" <= v.target && Cut(v.target, "?v=") !in removed && hasAuthor
    && (TopLevel(v) || RepliesWell(blobs, v))
  }

  /** What is wrong with a comment refused for that reason. */
  predicate Explains(e: Error, blobs: map<Cid, Blob>, v: Comment, removed: set<string>, hasAuthor: bool)
  {
    match e
    case NoTarget => v.target == ""
    case NotHypermedia => !("hm://" <= v.target)
    case DeletedTarget => Cut(v.target, "?v=") in removed
    case HalfAReply => v.replied.Some? != v.threadRoot.Some?
    case NotFound => v.replied.Some? && v.replied.value !in blobs
    case NotAComment => v.replied.Some? && v.replied.value in blobs && !blobs[v.replied.value].CommentBlob?
    case OlderThanReplied => RepliesToComment(blobs, v) && v.time < blobs[v.replied.value].comment.time
    case OtherTarget => RepliesToComment(blobs, v) && !SamePage(v.target, blobs[v.replied.value].comment.target)
    case OtherThread =>
      && RepliesToComment(blobs, v) && blobs[v.replied.value].comment.threadRoot.Some?
      && v.threadRoot != blobs[v.replied.value].comment.threadRoot
    case OtherRoot =>
      RepliesToComment(blobs, v) && blobs[v.replied.value].comment.threadRoot == None && v.threadRoot != v.replied
    case NoAuthor => !hasAuthor
  }

  predicate RepliesToComment(blobs: map<Cid, Blob>, v: Comment)
  {
    v.replied.Some? && v.replied.value in blobs && blobs[v.replied.value].CommentBlob?
  }

  /** The order in which things are checked. */
  function Rank(e: Error): nat
  {
    match e
    case NoTarget => 0
    case NotHypermedia => 1
    case DeletedTarget => 2
    case HalfAReply => 3
    case NotFound => 4
    case NotAComment => 5
    case OlderThanReplied => 6
    case OtherTarget => 7
    case OtherThread => 8
    case OtherRoot => 9
    case NoAuthor => 10
  }

  /** The blobs after a blob comes in, and whether it is accepted; it is there already when it is indexed. */
  function Saved(blobs: map<Cid, Blob>, c: Cid, b: Blob, removed: set<string>, hasAuthor: bool): (map<Cid, Blob>, bool)
  {
    if c in blobs then (blobs, true)
    else if b.OtherBlob? || Acceptable(blobs[c := b], b.comment, removed, hasAuthor) then (blobs[c := b], true)
    else (blobs, false)
  }

  class BlobIndex {
    var blobs: map<Cid, Blob>

    constructor ()
      ensures blobs == map[]
    {
      blobs := map[];
    }

    /** Indexes exactly the acceptable comments, and refuses others for the first thing that is wrong. */
    method IndexComment(v: Comment, removed: set<string>, hasAuthor: bool) returns (error: Option<Error>)
      ensures error == None <==> Acceptable(blobs, v, removed, hasAuthor)
      ensures error.Some? ==> Explains(error.value, blobs, v, removed, hasAuthor)
      ensures forall e :: error.Some? && Rank(e) < Rank(error.value) ==> !Explains(e, blobs, v, removed, hasAuthor)
    {
      if v.target == "" {
        return Some(NoTarget);
      }
      if !("hm://" <= v.target) {
        return Some(NotHypermedia);
      }
      if Cut(v.target, "?v=") in removed {
        return Some(DeletedTarget);
      }
      if v.replied.Some? || v.threadRoot.Some? {
        if v.replied == None || v.threadRoot == None {
          return Some(HalfAReply);
        }
        if v.replied.value !in blobs {
          return Some(NotFound);
        }
        var found := blobs[v.replied.value];
        if !found.CommentBlob? {
          return Some(NotAComment);
        }
        var rc := found.comment;
        if v.time < rc.time {
          return Some(OlderThanReplied);
        }
        PageDecides(v.target, rc.target);
        if Page(v.target) != Page(rc.target) {
          return Some(OtherTarget);
        }
        if rc.threadRoot.Some? {
          if v.threadRoot != rc.threadRoot {
            return Some(OtherThread);
          }
        } else {
          if v.threadRoot != v.replied {
            return Some(OtherRoot);
          }
        }
      }
      if !hasAuthor {
        return Some(NoAuthor);
      }
      return None;
    }

    method Put(c: Cid, b: Blob, removed: set<string>, hasAuthor: bool) returns (error: Option<Error>)
      modifies this
      ensures (blobs, error == None) == Saved(old(blobs), c, b, removed, hasAuthor)
      ensures error == None <==>
        c in old(blobs) || b.OtherBlob? || Acceptable(old(blobs)[c := b], b.comment, removed, hasAuthor)
      ensures blobs == if error == None && c !in old(blobs) then old(blobs)[c := b] else old(blobs)
      ensures error.Some? ==> b.CommentBlob? && Explains(error.value, old(blobs)[c := b], b.comment, removed, hasAuthor)
    {
      if c in blobs {
        return None;
      }
      var saved := blobs;
      blobs := blobs[c := b];
      if b.OtherBlob? {
        return None;
      }
      error := IndexComment(b.comment, removed, hasAuthor);
      if error.Some? {
        blobs := saved;
      }
    }

    /** Drops the data of a blob. */
    method Empty(c: Cid)
      modifies this
      ensures blobs == old(blobs) - {c}
    {
      blobs := blobs - {c};
    }
  }

  // ---- Whole histories ----

  datatype Step = Arrives(cid: Cid, removed: set<string>, hasAuthor: bool) | Emptied(cid: Cid)

  /** The blobs stored, and all comments ever accepted in the order in which they first were. */
  datatype World = World(blobs: map<Cid, Blob>, accepted: seq<Cid>)

  const START := World(map[], [])

  function Next(content: Content, w: World, s: Step): World
  {
    match s
    case Emptied(c) => w.(blobs := w.blobs - {c})
    case Arrives(c, removed, hasAuthor) =>
      var (blobs, ok) := Saved(w.blobs, c, content(c), removed, hasAuthor);
      World(blobs, if ok && content(c).CommentBlob? && c !in w.accepted then w.accepted + [c] else w.accepted)
  }

  function RunOf(content: Content, steps: seq<Step>): World
  {
    if steps == [] then START else Next(content, RunOf(content, steps[..|steps| - 1]), steps[|steps| - 1])
  }

  /** A comment cannot hold its own hash. */
  ghost predicate NoSelfReply(content: Content)
  {
    forall c :: content(c).CommentBlob? ==> content(c).comment.replied != Some(c)
  }

  /** The comment stands alone, or replies to one accepted before it. */
  ghost predicate WellPlaced(content: Content, accepted: seq<Cid>, i: nat)
    requires i < |accepted|
  {
    content(accepted[i]).CommentBlob? &&
    var v := content(accepted[i]).comment;
    (v.replied == None <==> v.threadRoot == None) &&
    (v.replied.Some? ==> exists j :: 0 <= j < i && accepted[j] == v.replied.value && LinkedAt(content, accepted, i, j))
  }

  predicate LinkedAt(content: Content, accepted: seq<Cid>, i: nat, j: nat)
    requires i < |accepted| && j < |accepted|
  {
    && content(accepted[i]).CommentBlob? && content(accepted[j]).CommentBlob?
    && Linked(content(accepted[i]).comment, accepted[j], content(accepted[j]).comment)
  }

  predicate StoredWell(content: Content, w: World, c: Cid)
    requires c in w.blobs
  {
    w.blobs[c] == content(c) && (content(c).CommentBlob? ==> c in w.accepted)
  }

  ghost predicate Sound(content: Content, w: World)
  {
    && (forall c :: c in w.blobs ==> StoredWell(content, w, c))
    && (forall i :: 0 <= i < |w.accepted| ==> WellPlaced(content, w.accepted, i))
  }

  lemma {:induction false} MoreAccepted(content: Content, accepted: seq<Cid>, c: Cid, i: nat)
    requires i < |accepted| && WellPlaced(content, accepted, i)
    ensures WellPlaced(content, accepted + [c], i)
  {
    var more, v := accepted + [c], content(accepted[i]).comment;
    if v.replied.Some? {
      var j :| 0 <= j < i && accepted[j] == v.replied.value && LinkedAt(content, accepted, i, j);
      assert more[j] == v.replied.value && LinkedAt(content, more, i, j);
    }
  }

  lemma {:induction false} AcceptedIsWellPlaced(content: Content, w: World, c: Cid, removed: set<string>, hasAuthor: bool)
    requires Sound(content, w) && NoSelfReply(content)
    requires c !in w.blobs && content(c).CommentBlob?
    requires Acceptable(w.blobs[c := content(c)], content(c).comment, removed, hasAuthor)
    ensures WellPlaced(content, w.accepted + [c], |w.accepted|)
  {
    var more, v := w.accepted + [c], content(c).comment;
    if v.replied.Some? {
      var r := v.replied.value;
      assert r != c && r in w.blobs && StoredWell(content, w, r);
      var j :| 0 <= j < |w.accepted| && w.accepted[j] == r;
      assert more[j] == r && LinkedAt(content, more, |w.accepted|, j);
    }
  }

  lemma {:induction false} RunIsSound(content: Content, steps: seq<Step>)
    requires NoSelfReply(content)
    ensures Sound(content, RunOf(content, steps))
  {
    if steps != [] {
      var w, s := RunOf(content, steps[..|steps| - 1]), steps[|steps| - 1];
      var w' := Next(content, w, s);
      RunIsSound(content, steps[..|steps| - 1]);
      if w'.accepted != w.accepted {
        AcceptedIsWellPlaced(content, w, s.cid, s.removed, s.hasAuthor);
        forall i | 0 <= i < |w.accepted|
          ensures WellPlaced(content, w'.accepted, i)
        {
          MoreAccepted(content, w.accepted, s.cid, i);
        }
      }
      forall c | c in w'.blobs
        ensures StoredWell(content, w', c)
      {
        assert c in w.blobs ==> StoredWell(content, w, c);
      }
    }
  }

  // ---- Threads ----

  /** From a comment by way of the comments replied to, up to one that replies to none. */
  ghost predicate IsThread(content: Content, path: seq<Cid>)
  {
    && path != []
    && (forall i :: 0 <= i < |path| ==> content(path[i]).CommentBlob?)
    && (forall i :: 0 <= i < |path| - 1 ==> content(path[i]).comment.replied == Some(path[i + 1]))
    && content(path[|path| - 1]).comment.replied == None
  }

  /** Up the thread all comments are on one page, and none is newer than a reply below it. */
  ghost predicate InOrder(content: Content, path: seq<Cid>)
    requires forall i :: 0 <= i < |path| ==> content(path[i]).CommentBlob?
  {
    forall i, j :: 0 <= i <= j < |path| ==>
      && content(path[j]).comment.time <= content(path[i]).comment.time
      && SamePage(content(path[j]).comment.target, content(path[i]).comment.target)
  }

  /** The thread ends at a top-level comment, and all replies in it name that one as their root. */
  ghost predicate RootedAt(content: Content, path: seq<Cid>, root: Cid)
    requires forall i :: 0 <= i < |path| ==> content(path[i]).CommentBlob?
  {
    && path != [] && path[|path| - 1] == root && content(root).comment.threadRoot == None
    && forall i :: 0 <= i < |path| - 1 ==> content(path[i]).comment.threadRoot == Some(root)
  }

  lemma {:induction false} OnThePage(a: string, b: string, c: string)
    requires SamePage(a, b) && SamePage(c, b)
    ensures SamePage(c, a) && SamePage(a, a)
  {
    PageDecides(a, b);
    PageDecides(c, b);
    PageDecides(c, a);
    PageDecides(a, a);
  }

  lemma {:induction false} StaysInOrder(content: Content, c: Cid, rest: seq<Cid>)
    requires rest != [] && content(c).CommentBlob? && forall i :: 0 <= i < |rest| ==> content(rest[i]).CommentBlob?
    requires InOrder(content, rest) && Linked(content(c).comment, rest[0], content(rest[0]).comment)
    ensures InOrder(content, [c] + rest)
  {
    var path := [c] + rest;
    forall i, j | 0 <= i <= j < |path|
      ensures content(path[j]).comment.time <= content(path[i]).comment.time
      ensures SamePage(content(path[j]).comment.target, content(path[i]).comment.target)
    {
      var k := if j == 0 then 0 else j - 1;
      assert content(rest[k]).comment.time <= content(rest[0]).comment.time;
      OnThePage(content(c).comment.target, content(rest[0]).comment.target, content(rest[k]).comment.target);
    }
  }

  /** Following the comments replied to from any accepted one comes to an end, at the root it names. */
  lemma {:induction false} ThreadExists(content: Content, w: World, i: nat) returns (path: seq<Cid>)
    requires Sound(content, w) && i < |w.accepted|
    ensures IsThread(content, path) && path[0] == w.accepted[i] && |path| <= i + 1
    ensures InOrder(content, path) && RootedAt(content, path, path[|path| - 1])
    ensures forall k :: 0 <= k < |path| ==> path[k] in w.accepted
  {
    var c := w.accepted[i];
    assert WellPlaced(content, w.accepted, i);
    var v := content(c).comment;
    if v.replied == None {
      path := [c];
      PageDecides(v.target, v.target);
    } else {
      var j :| 0 <= j < i && w.accepted[j] == v.replied.value && LinkedAt(content, w.accepted, i, j);
      var rest := ThreadExists(content, w, j);
      path := [c] + rest;
      LongerThread(content, c, rest);
    }
  }

  lemma {:induction false} LongerThread(content: Content, c: Cid, rest: seq<Cid>)
    requires content(c).CommentBlob? && IsThread(content, rest) && InOrder(content, rest)
    requires RootedAt(content, rest, rest[|rest| - 1]) && content(c).comment.replied == Some(rest[0])
    requires Linked(content(c).comment, rest[0], content(rest[0]).comment)
    ensures
      var path := [c] + rest;
      IsThread(content, path) && InOrder(content, path) && RootedAt(content, path, path[|path| - 1])
  {
    LeadsOn(content, c, rest);
    NamesRoot(content, c, rest, rest[|rest| - 1]);
    StaysInOrder(content, c, rest);
  }

  lemma {:induction false} LeadsOn(content: Content, c: Cid, rest: seq<Cid>)
    requires content(c).CommentBlob? && IsThread(content, rest) && content(c).comment.replied == Some(rest[0])
    ensures IsThread(content, [c] + rest)
  {
    var path := [c] + rest;
    forall i | 0 <= i < |path| - 1
      ensures content(path[i]).CommentBlob? && content(path[i]).comment.replied == Some(path[i + 1])
    {
      assert i > 0 ==> path[i] == rest[i - 1] && path[i + 1] == rest[i];
    }
    assert path[|path| - 1] == rest[|rest| - 1];
  }

  lemma {:induction false} NamesRoot(content: Content, c: Cid, rest: seq<Cid>, root: Cid)
    requires content(c).CommentBlob? && IsThread(content, rest) && RootedAt(content, rest, root)
    requires content(c).comment.replied == Some(rest[0])
    requires Linked(content(c).comment, rest[0], content(rest[0]).comment)
    ensures IsThread(content, [c] + rest) && RootedAt(content, [c] + rest, root)
  {
    var path := [c] + rest;
    LeadsOn(content, c, rest);
    assert |rest| > 1 ==> content(rest[0]).comment.threadRoot == Some(root);
    forall i | 0 <= i < |path| - 1
      ensures content(path[i]).comment.threadRoot == Some(root)
    {
      assert i > 0 ==> path[i] == rest[i - 1];
    }
  }

  /** In every history: from each stored comment the replies lead, without a cycle, to a top-level
      comment, which every reply on the way names as its thread root. */
  lemma {:induction false} EveryCommentHasAThread(content: Content, steps: seq<Step>, c: Cid) returns (path: seq<Cid>)
    requires NoSelfReply(content) && content(c).CommentBlob? && c in RunOf(content, steps).blobs
    ensures IsThread(content, path) && path[0] == c && InOrder(content, path) && RootedAt(content, path, path[|path| - 1])
    ensures forall k :: 0 <= k < |path| ==> path[k] in RunOf(content, steps).accepted
    ensures forall j, k :: 0 <= j < k < |path| ==> path[j] != path[k]
  {
    var w := RunOf(content, steps);
    RunIsSound(content, steps);
    assert StoredWell(content, w, c);
    var i :| 0 <= i < |w.accepted| && w.accepted[i] == c;
    path := ThreadExists(content, w, i);
    ThreadHasNoCycle(content, path);
  }

  lemma {:induction false} ThreadHasNoCycle(content: Content, path: seq<Cid>)
    requires IsThread(content, path)
    ensures forall j, k :: 0 <= j < k < |path| ==> path[j] != path[k]
  {
    forall j, k | 0 <= j < k < |path|
      ensures path[j] != path[k]
    {
      SameSuffix(content, path, j, k);
    }
  }

  /** Where a thread comes by again, it would never end. */
  lemma {:induction false} SameSuffix(content: Content, path: seq<Cid>, j: nat, k: nat)
    requires IsThread(content, path) && j < k < |path|
    ensures path[j] != path[k]
    decreases |path| - k
  {
    assert content(path[j]).comment.replied == Some(path[j + 1]);
    if k < |path| - 1 {
      SameSuffix(content, path, j + 1, k + 1);
    }
  }

  /** As long as no blob is emptied the whole thread is there to read. */
  lemma {:induction false} ThreadIsStored(content: Content, steps: seq<Step>)
    requires forall s :: s in steps ==> s.Arrives?
    ensures forall c :: c in RunOf(content, steps).accepted ==> c in RunOf(content, steps).blobs
  {
    if steps != [] {
      var init := steps[..|steps| - 1];
      assert steps == init + [steps[|steps| - 1]];
      ThreadIsStored(content, init);
      assert steps[|steps| - 1] in steps;
    }
  }
}
