/** `Source`: the aggregate root. A write-once id (`sid`), a free-form name, one
    owned score and a review ledger mapping fact-checker ids to the bare
    reliability each of them gave. Every mutator is a function from the old
    state to the new one; those that return a value in Java return a pair. */
module Sources {
  import opened Wrappers
  import Scores
  import JavaString
  import Decimal
  import Strings

  datatype Source = Source(sid: string, name: string, score: Scores.Score, reviews: map<string, real>)

  /** `createSource(name, score)`. The private constructor takes its id from
      the id supplier (`freshId` here) and starts from the default score, which
      a non-null `score` (`Some`) then replaces. The ledger starts empty. */
  function CreateSource(freshId: string, name: string, score: Option<Scores.Score>): (s: Source)
    ensures s.sid == freshId && s.name == name
    ensures score.Some? ==> s.score == score.value
    ensures score.None? ==> s.score.reliability == 0.5 && s.score.confidence == 0.0
    ensures s.reviews == map[]
  {
    var blank := Source(freshId, "", Scores.Default(), map[]);
    var named := SetName(blank, name);
    if score.Some? then SetScore(named, score.value) else named
  }

  /** `createSource(name, reliability, confidence)`: builds the score with the
      explicit constructor first, so a failed assertion leaves no source behind. */
  function CreateSourceFromValues(freshId: string, name: string, reliability: real, confidence: real,
                                  assertionsEnabled: bool): (r: Result<Source, Scores.ScoreError>)
    ensures r.Success? <==> Scores.Make(reliability, confidence, assertionsEnabled).Success?
    ensures r.Failure? ==> r.error == Scores.Make(reliability, confidence, assertionsEnabled).error
    ensures r.Success? ==> r.value.sid == freshId && r.value.name == name && r.value.reviews == map[]
    ensures r.Success? ==> r.value.score == Scores.Score(reliability, confidence)
  {
    match Scores.Make(reliability, confidence, assertionsEnabled)
    case Failure(e) => Failure(e)
    case Success(score) => Success(CreateSource(freshId, name, Some(score)))
  }

  /** `setName`: any name, names are not unique. Nothing else changes. */
  function SetName(s: Source, name: string): (t: Source)
    ensures t.name == name
    ensures t.sid == s.sid && t.score == s.score && t.reviews == s.reviews
  {
    s.(name := name)
  }

  /** `setScore`: replaces the score wholesale without consulting the ledger. */
  function SetScore(s: Source, score: Scores.Score): (t: Source)
    ensures t.score == score
    ensures t.sid == s.sid && t.name == s.name && t.reviews == s.reviews
  {
    s.(score := score)
  }

  /** `addReview`, i.e. `Map.put`: records `reliability` for `fcid`, replacing
      that fact-checker's earlier review, and returns the earlier one if any.
      The value is not range-checked and the score is not recomputed. */
  function AddReview(s: Source, fcid: string, reliability: real): (r: (Source, Option<real>))
    ensures fcid in r.0.reviews && r.0.reviews[fcid] == reliability
    ensures forall k :: k != fcid ==> Get(r.0.reviews, k) == Get(s.reviews, k)
    ensures r.0.reviews.Keys == s.reviews.Keys + {fcid}
    ensures |r.0.reviews| == if fcid in s.reviews then |s.reviews| else |s.reviews| + 1
    ensures r.1.Some? <==> fcid in s.reviews
    ensures r.1.Some? ==> r.1.value == s.reviews[fcid]
    ensures r.0.sid == s.sid && r.0.name == s.name && r.0.score == s.score
  {
    (s.(reviews := s.reviews[fcid := reliability]), Get(s.reviews, fcid))
  }

  /** `removeReview`, i.e. `Map.remove`: drops `fcid`'s review and returns it,
      or returns `null` and changes nothing when there was none. */
  function RemoveReview(s: Source, fcid: string): (r: (Source, Option<real>))
    ensures fcid !in r.0.reviews
    ensures forall k :: k != fcid ==> Get(r.0.reviews, k) == Get(s.reviews, k)
    ensures r.0.reviews.Keys == s.reviews.Keys - {fcid}
    ensures |r.0.reviews| == if fcid in s.reviews then |s.reviews| - 1 else |s.reviews|
    ensures r.1.Some? <==> fcid in s.reviews
    ensures r.1.Some? ==> r.1.value == s.reviews[fcid]
    ensures r.1.None? ==> r.0 == s
    ensures r.0.sid == s.sid && r.0.name == s.name && r.0.score == s.score
  {
    (s.(reviews := s.reviews - {fcid}), Get(s.reviews, fcid))
  }

  /** Re-reviewing overwrites: the second call returns the first value and the
      ledger keeps one entry for the fact-checker, holding the second value. */
  lemma AddReviewTwice(s: Source, fcid: string, first: real, second: real)
    ensures var (s1, _) := AddReview(s, fcid, first);
            var (s2, prev) := AddReview(s1, fcid, second);
            prev == Some(first) && s2.reviews == s.reviews[fcid := second]
  {
  }

  /** Adding a review for a new fact-checker and removing it again restores the
      source exactly and hands back the added value. */
  lemma AddThenRemoveRestores(s: Source, fcid: string, reliability: real)
    requires fcid !in s.reviews
    ensures var (added, prev) := AddReview(s, fcid, reliability);
            prev == None && RemoveReview(added, fcid) == (s, Some(reliability))
  {
    var added := AddReview(s, fcid, reliability).0;
    assert added.reviews - {fcid} == s.reviews;
  }

  /** Removing an existing review and adding the same value back restores the source. */
  lemma RemoveThenAddRestores(s: Source, fcid: string)
    requires fcid in s.reviews
    ensures var (removed, prev) := RemoveReview(s, fcid);
            prev == Some(s.reviews[fcid]) && AddReview(removed, fcid, s.reviews[fcid]) == (s, None)
  {
    var removed := RemoveReview(s, fcid).0;
    assert removed.reviews[fcid := s.reviews[fcid]] == s.reviews;
  }

  /** A second removal finds nothing and changes nothing. */
  lemma RemoveReviewIdempotent(s: Source, fcid: string)
    ensures var once := RemoveReview(s, fcid).0;
            RemoveReview(once, fcid) == (once, None)
  {
  }

  /** `equals` against another source or `null` (`None`): same `sid`. It is
      reflexive, never holds against `null`, and agrees with the hash. */
  function Equals(s: Source, other: Option<Source>): (b: bool)
    ensures other == Some(s) ==> b
    ensures b ==> other.Some? && HashCode(s) == HashCode(other.value)
  {
    other.Some? && s.sid == other.value.sid
  }

  /** Identity, not content: sources are equal exactly when their ids are,
      whatever their names, scores and ledgers. */
  lemma EqualsIffSameSid(a: Source, b: Source)
    ensures Equals(a, Some(b)) <==> a.sid == b.sid
    ensures !Equals(a, None)
  {
  }

  lemma EqualsIsEquivalence(a: Source, b: Source, c: Source)
    ensures Equals(a, Some(a))
    ensures Equals(a, Some(b)) <==> Equals(b, Some(a))
    ensures Equals(a, Some(b)) && Equals(b, Some(c)) ==> Equals(a, Some(c))
  {
  }

  /** `hashCode`: the hash of the id. */
  function HashCode(s: Source): (h: int)
    ensures JavaString.IsInt32(h)
  {
    JavaString.HashCode(s.sid)
  }

  lemma HashConsistentWithEquals(a: Source, b: Source)
    requires Equals(a, Some(b))
    ensures HashCode(a) == HashCode(b)
  {
  }

  /** Sources created from distinct fresh ids are never equal, even with the
      same name and score. Distinctness is the id supplier's promise. */
  lemma DistinctIdsDistinctSources(id1: string, id2: string, name: string, score: Option<Scores.Score>)
    requires id1 != id2
    ensures !Equals(CreateSource(id1, name, score), Some(CreateSource(id2, name, score)))
  {
  }

  const NAME_KEY: string := "{ \"name\": \""
  const SCORE_KEY: string := "\", \"score\": "
  const CLOSE: string := " }"

  /** `toString`: `{ "name": "N", "score": S }`; the id and the ledger are not
      shown. The name is inserted unescaped, yet the text stays readable: the
      score's rendering holds the last `{`. */
  function ToString(s: Source): (t: string)
    ensures ParseToString(t)
         == Some((s.name, (Decimal.Hundredths(s.score.reliability), Decimal.Hundredths(s.score.confidence))))
  {
    ToStringOfShapeParses(s.name, s.score);
    NAME_KEY + s.name + SCORE_KEY + Scores.ToString(s.score) + CLOSE
  }

  /** Reads a source rendering back as the name and the score's hundredths. */
  function ParseToString(t: string): (r: Option<(string, (int, int))>)
  {
    if |t| < |CLOSE| || t[|t| - |CLOSE|..] != CLOSE then None
    else
      match Strings.SplitAtLast(t[..|t| - |CLOSE|], '{')
      case None => None
      case Some(parts) =>
        var head := parts.0;
        if |head| < |NAME_KEY| + |SCORE_KEY| || head[..|NAME_KEY|] != NAME_KEY
           || head[|head| - |SCORE_KEY|..] != SCORE_KEY
        then None
        else
          match Scores.ParseToString(['{'] + parts.1)
          case None => None
          case Some(values) => Some((head[|NAME_KEY|..|head| - |SCORE_KEY|], values))
  }

  lemma ToStringOfShapeParses(name: string, score: Scores.Score)
    ensures ParseToString(NAME_KEY + name + SCORE_KEY + Scores.ToString(score) + CLOSE)
         == Some((name, (Decimal.Hundredths(score.reliability), Decimal.Hundredths(score.confidence))))
  {
    var st := Scores.ToString(score);
    Scores.ToStringRoundTrip(score);
    var head := NAME_KEY + name + SCORE_KEY;
    var t := head + st + CLOSE;
    assert st == ['{'] + st[1..];
    assert t[..|t| - |CLOSE|] == head + ['{'] + st[1..];
    assert t[|t| - |CLOSE|..] == CLOSE;
    Strings.SplitAtLastOfJoin(head, '{', st[1..]);
    assert head[..|NAME_KEY|] == NAME_KEY;
    assert head[|head| - |SCORE_KEY|..] == SCORE_KEY;
    assert head[|NAME_KEY|..|head| - |SCORE_KEY|] == name;
  }

  /** The rendering depends on the name and score only. */
  lemma ToStringIgnoresIdAndReviews(a: Source, b: Source)
    requires a.name == b.name && a.score == b.score
    ensures ToString(a) == ToString(b)
  {
  }

  /** One public mutation of a source. */
  datatype Edit =
    | Rename(name: string)
    | Rescore(score: Scores.Score)
    | PutReview(fcid: string, reliability: real)
    | DropReview(fcid: string)

  /** Whether an edit touches the review ledger. */
  predicate IsReviewEdit(e: Edit) {
    e.PutReview? || e.DropReview?
  }

  /** Whether every edit of a sequence touches the review ledger. */
  predicate OnlyReviewEdits(edits: seq<Edit>) {
    |edits| == 0 || (IsReviewEdit(edits[0]) && OnlyReviewEdits(edits[1..]))
  }

  /** Whether no edit of a sequence touches the review ledger. */
  predicate NoReviewEdits(edits: seq<Edit>) {
    |edits| == 0 || (!IsReviewEdit(edits[0]) && NoReviewEdits(edits[1..]))
  }

  function Apply(s: Source, e: Edit): Source {
    match e
    case Rename(name) => SetName(s, name)
    case Rescore(score) => SetScore(s, score)
    case PutReview(fcid, reliability) => AddReview(s, fcid, reliability).0
    case DropReview(fcid) => RemoveReview(s, fcid).0
  }

  /** The source after a sequence of edits, first to last. */
  function ApplyAll(s: Source, edits: seq<Edit>): Source
    decreases |edits|
  {
    if |edits| == 0 then s else ApplyAll(Apply(s, edits[0]), edits[1..])
  }

  /** The id is written once: since `setSid` is private and called only by the
      constructor, no sequence of public edits changes it. */
  lemma {:induction false} ApplyAllKeepsSid(s: Source, edits: seq<Edit>)
    ensures ApplyAll(s, edits).sid == s.sid
    decreases |edits|
  {
    if |edits| > 0 {
      ApplyAllKeepsSid(Apply(s, edits[0]), edits[1..]);
    }
  }

  /** Two copies of one source stay equal however each is edited, and copies
      of different sources never become equal. */
  lemma IndependentEditsKeepEquality(a: Source, b: Source, ea: seq<Edit>, eb: seq<Edit>)
    ensures Equals(ApplyAll(a, ea), Some(ApplyAll(b, eb))) <==> Equals(a, Some(b))
  {
    ApplyAllKeepsSid(a, ea);
    ApplyAllKeepsSid(b, eb);
  }

  /** The score and the ledger are decoupled: review edits never touch the
      score or the name. */
  lemma {:induction false} ReviewEditsKeepScoreAndName(s: Source, edits: seq<Edit>)
    requires OnlyReviewEdits(edits)
    ensures ApplyAll(s, edits).score == s.score
    ensures ApplyAll(s, edits).name == s.name
    decreases |edits|
  {
    if |edits| > 0 {
      ReviewEditsKeepScoreAndName(Apply(s, edits[0]), edits[1..]);
    }
  }

  /** ... and renames and rescorings never touch the ledger. */
  lemma {:induction false} NonReviewEditsKeepReviews(s: Source, edits: seq<Edit>)
    requires NoReviewEdits(edits)
    ensures ApplyAll(s, edits).reviews == s.reviews
    decreases |edits|
  {
    if |edits| > 0 {
      NonReviewEditsKeepReviews(Apply(s, edits[0]), edits[1..]);
    }
  }
}
