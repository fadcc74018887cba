/** `Score`: a source's (reliability, confidence) pair. Java `Float` fields are
    modelled as reals; `null` fields are not modelled. */
module Scores {
  import opened Wrappers
  import Decimal
  import JavaString
  import Strings

  datatype Score = Score(reliability: real, confidence: real)

  /** The `[0, 1]` bounds the persisted schema declares on both fields. */
  predicate InSchemaRange(x: real) {
    0.0 <= x <= 1.0
  }

  /** The open interval `(0, 1)` the explicit constructor asserts. */
  predicate InOpenUnit(x: real) {
    0.0 < x < 1.0
  }

  /** The no-argument constructor: the neutral "no data yet" score. It lies in
      the schema range but on the boundary the explicit constructor rejects. */
  function Default(): (s: Score)
    ensures s.reliability == 0.5 && s.confidence == 0.0
    ensures InSchemaRange(s.reliability) && InSchemaRange(s.confidence)
    ensures !InOpenUnit(s.confidence)
  {
    Score(0.5, 0.0)
  }

  /** Which of the constructor's two assertions failed. */
  datatype ScoreError = ReliabilityOutOfBounds | ConfidenceOutOfBounds

  /** The explicit constructor `Score(float, float)`. Its bound checks are Java
      `assert` statements, which run only when the JVM enables assertions; the
      reliability check runs first. It stores the arguments as given and never
      clamps them. */
  function Make(reliability: real, confidence: real, assertionsEnabled: bool): (r: Result<Score, ScoreError>)
    ensures r.Success? <==> !assertionsEnabled || (InOpenUnit(reliability) && InOpenUnit(confidence))
    ensures r.Success? ==> r.value.reliability == reliability && r.value.confidence == confidence
    ensures r == Failure(ReliabilityOutOfBounds) <==> assertionsEnabled && !InOpenUnit(reliability)
  {
    if assertionsEnabled && !InOpenUnit(reliability) then Failure(ReliabilityOutOfBounds)
    else if assertionsEnabled && !InOpenUnit(confidence) then Failure(ConfidenceOutOfBounds)
    else Success(Score(reliability, confidence))
  }

  /** With assertions enabled, no arguments make the explicit constructor
      produce the default score: its zero confidence fails the strict bound. */
  lemma DefaultUnreachableByMake(reliability: real, confidence: real)
    ensures Make(reliability, confidence, true) != Success(Default())
  {
  }

  /** `setReliability`: replaces the reliability, keeps the confidence. No bounds check. */
  function WithReliability(s: Score, reliability: real): (t: Score)
    ensures t.reliability == reliability && t.confidence == s.confidence
  {
    s.(reliability := reliability)
  }

  /** `setConfidence`: replaces the confidence, keeps the reliability. No bounds check. */
  function WithConfidence(s: Score, confidence: real): (t: Score)
    ensures t.confidence == confidence && t.reliability == s.reliability
  {
    s.(confidence := confidence)
  }

  /** `equals` against another object that is a score or `null` (`None`):
      both fields equal. It agrees with value equality of the pair and with
      the hash. */
  function Equals(s: Score, other: Option<Score>): (b: bool)
    ensures b <==> other == Some(s)
    ensures b ==> HashCode(s) == HashCode(other.value)
  {
    other.Some? && s.reliability == other.value.reliability && s.confidence == other.value.confidence
  }

  /** Score equality is exactly value equality of the pair, and never holds against `null`. */
  lemma EqualsIsStructural(a: Score, b: Score)
    ensures Equals(a, Some(b)) <==> a == b
    ensures !Equals(a, None)
  {
  }

  lemma EqualsIsEquivalence(a: Score, b: Score, c: Score)
    ensures Equals(a, Some(a))
    ensures Equals(a, Some(b)) <==> Equals(b, Some(a))
    ensures Equals(a, Some(b)) && Equals(b, Some(c)) ==> Equals(a, Some(c))
  {
  }

  const RELIABILITY_KEY: string := "{ \"reliability\": "
  const CONFIDENCE_KEY: string := " \"confidence\": "
  const CLOSE: string := " }"

  /** `toString`: `{ "reliability": R, "confidence": C }` with both values printed
      to two decimals. */
  function ToString(s: Score): (t: string)
    ensures 0 < |t| && t[0] == '{' && '{' !in t[1..]
  {
    var a := Decimal.FormatFixed2(s.reliability);
    var b := Decimal.FormatFixed2(s.confidence);
    OneOpeningBrace(a, b);
    RELIABILITY_KEY + a + "," + CONFIDENCE_KEY + b + CLOSE
  }

  /** The rendering is readable: it recovers both values rounded to hundredths. */
  lemma ToStringRoundTrip(s: Score)
    ensures ParseToString(ToString(s)) == Some((Decimal.Hundredths(s.reliability), Decimal.Hundredths(s.confidence)))
  {
    NoCommaInFixed2(s.reliability);
    ParseToStringOfShape(Decimal.FormatFixed2(s.reliability), Decimal.FormatFixed2(s.confidence));
    Decimal.FormatRoundTrip(s.reliability);
    Decimal.FormatRoundTrip(s.confidence);
  }

  /** The rendering opens with its only `{`, since the numbers contain none. */
  lemma OneOpeningBrace(a: string, b: string)
    requires forall i :: 0 <= i < |a| ==> Decimal.IsDigit(a[i]) || a[i] == '.' || a[i] == '-'
    requires forall i :: 0 <= i < |b| ==> Decimal.IsDigit(b[i]) || b[i] == '.' || b[i] == '-'
    ensures var t := RELIABILITY_KEY + a + "," + CONFIDENCE_KEY + b + CLOSE;
            t[0] == '{' && '{' !in t[1..]
  {
    var t := RELIABILITY_KEY + a + "," + CONFIDENCE_KEY + b + CLOSE;
    assert t[1..] == RELIABILITY_KEY[1..] + a + "," + CONFIDENCE_KEY + b + CLOSE;
    assert forall i :: 1 <= i < |t| ==> t[i] != '{';
  }

  /** `hashCode`: the hash of the rendering. */
  function HashCode(s: Score): (h: int)
    ensures JavaString.IsInt32(h)
  {
    JavaString.HashCode(ToString(s))
  }

  /** Equal scores have equal hashes. */
  lemma HashConsistentWithEquals(a: Score, b: Score)
    requires Equals(a, Some(b))
    ensures HashCode(a) == HashCode(b)
  {
  }

  /** Reads a score rendering back as the two values' hundredths. */
  function ParseToString(t: string): (r: Option<(int, int)>)
  {
    var p := |RELIABILITY_KEY|;
    if |t| < p + |CLOSE| || t[..p] != RELIABILITY_KEY || t[|t| - |CLOSE|..] != CLOSE then None
    else
      match Strings.SplitAtFirst(t[p..|t| - |CLOSE|], ',')
      case None => None
      case Some(parts) =>
        var rest := parts.1;
        if |rest| < |CONFIDENCE_KEY| || rest[..|CONFIDENCE_KEY|] != CONFIDENCE_KEY then None
        else
          match (Decimal.ParseFixed2(parts.0), Decimal.ParseFixed2(rest[|CONFIDENCE_KEY|..]))
          case (Some(rel), Some(conf)) => Some((rel, conf))
          case _ => None
  }

  lemma NoCommaInFixed2(x: real)
    ensures ',' !in Decimal.FormatFixed2(x)
  {
  }

  /** Parsing a rendering-shaped text reads both numbers independently. */
  lemma ParseToStringOfShape(a: string, b: string)
    requires ',' !in a
    ensures ParseToString(RELIABILITY_KEY + a + "," + CONFIDENCE_KEY + b + CLOSE)
         == match (Decimal.ParseFixed2(a), Decimal.ParseFixed2(b))
            case (Some(rel), Some(conf)) => Some((rel, conf))
            case _ => None
  {
    var t := RELIABILITY_KEY + a + "," + CONFIDENCE_KEY + b + CLOSE;
    var p := |RELIABILITY_KEY|;
    var rest := CONFIDENCE_KEY + b;
    assert t == RELIABILITY_KEY + (a + [','] + rest) + CLOSE;
    assert t[..p] == RELIABILITY_KEY;
    assert t[|t| - |CLOSE|..] == CLOSE;
    assert t[p..|t| - |CLOSE|] == a + [','] + rest;
    Strings.SplitAtFirstOfJoin(a, ',', rest);
    assert rest[..|CONFIDENCE_KEY|] == CONFIDENCE_KEY;
    assert rest[|CONFIDENCE_KEY|..] == b;
  }

  /** Scores that render alike agree to the hundredth: the rendering, and so
      the hash, loses only what lies below the second decimal. */
  lemma SameToStringSameHundredths(a: Score, b: Score)
    requires ToString(a) == ToString(b)
    ensures Decimal.Hundredths(a.reliability) == Decimal.Hundredths(b.reliability)
    ensures Decimal.Hundredths(a.confidence) == Decimal.Hundredths(b.confidence)
  {
    ToStringRoundTrip(a);
    ToStringRoundTrip(b);
  }

  /** The hash is coarser than equality: two unequal scores that round to the
      same hundredths share a rendering and therefore a hash. */
  lemma HashCoarserThanEquals()
    ensures !Equals(Score(0.501, 0.0), Some(Score(0.502, 0.0)))
    ensures HashCode(Score(0.501, 0.0)) == HashCode(Score(0.502, 0.0))
  {
  }
}
