# Trust-scoring entity model of the informiz chaincode, in Dafny

This project models the two entity classes behind the source-reputation contract of the
informiz Hyperledger Fabric chaincode, and proves properties about them:

- `Score` (module `Scores`, `score.dfy`) is a pair (reliability, confidence). It has two
  construction paths. The unchecked default is (0.5, 0.0). The explicit constructor asserts
  that both values lie strictly inside (0, 1). Equality is structural. The hash is the Java
  string hash of the rendering `{ "reliability": R, "confidence": C }`, with both values
  printed to two decimals.
- `Source` (module `Sources`, `source.dfy`) is the aggregate root. It has a write-once id
  (`sid`), a name, one owned score and a review ledger. The ledger maps fact-checker ids to
  the bare reliability each of them gave. `addReview` and `removeReview` follow `Map.put` and
  `Map.remove`: they return the previous or the removed value, or `null`. Equality and hash
  depend on `sid` only.
- Supporting modules: `Wrappers` (`Option` for Java `null`, `Result` for a failed
  assertion) and `Decimal` (the `%.2f` rendering and a parser that reads it back).
  `JavaString` models `String.hashCode` with its 32-bit wrap-around. `Strings` splits a text at
  the first or last occurrence of a character, for the parsers that read both renderings back.

Modelling decisions:

- `Float` values are `real`s. Every Java mutator is a pure function from the old state to
  the new one. Mutators that return a value return a pair `(new source, Option<real>)`.
- The id supplier (`Utils.createUuid`) is the parameter `freshId`. That ids are unique and
  non-empty is the supplier's promise. It is taken as a hypothesis and not proved.
- Java `assert` statements run only when the JVM enables assertions. So
  `Scores.Make(reliability, confidence, assertionsEnabled)` fails only when
  `assertionsEnabled` holds and a bound is violated. It fails on the reliability first, as
  the source checks that assertion first. Otherwise it stores both values unchanged.
  A design that always rejects out-of-range values is the case `assertionsEnabled == true`.
  The code as written also accepts them when assertions are off, and the model follows the
  code.
- `%.2f` takes the sign from the value before rounding, so a negative value that rounds to zero
  prints as `-0.00`. The model does the same.
- The getters (`getSid`, `getName`, `getScore`, `getReviews`, `getReliability`,
  `getConfidence`) are the datatype fields. `getReviews` is a read-only view of the ledger map.
- The mutations a source's own methods offer are collected in the datatype `Sources.Edit`,
  and `Sources.ApplyAll` replays a sequence of them. Changing a shared `Score` object in place
  is not among them (see "Left out"). The lemmas that show the id is written once, and that the score
  and the ledger are decoupled, quantify over every such sequence.

## Model

| member | source | states |
|---|---|---|
| Scores.Default | java/src/main/java/informiz/org/chaincode/model/Score.java:13-16 | the default score is (0.5, 0.0): inside the schema range [0, 1], but its confidence is outside the open interval the explicit constructor demands |
| Scores.Make | java/src/main/java/informiz/org/chaincode/model/Score.java:18-24 | the explicit constructor succeeds iff assertions are off or both values lie strictly inside (0, 1); it fails on the reliability bound first; on success it stores the given values exactly, never clamped |
| Scores.DefaultUnreachableByMake | java/src/main/java/informiz/org/chaincode/model/Score.java:13-21 | with assertions on, no arguments make the explicit constructor produce the default score |
| Scores.WithReliability | java/src/main/java/informiz/org/chaincode/model/Score.java:30-32 | `setReliability` sets the reliability to any value and leaves the confidence unchanged |
| Scores.WithConfidence | java/src/main/java/informiz/org/chaincode/model/Score.java:38-40 | `setConfidence` sets the confidence to any value and leaves the reliability unchanged |
| Scores.Equals | java/src/main/java/informiz/org/chaincode/model/Score.java:42-55 | `equals` holds exactly when the other object is a score with the same pair, and equal scores have equal hashes |
| Scores.EqualsIsStructural | java/src/main/java/informiz/org/chaincode/model/Score.java:42-55 | two scores are equal iff both fields are equal; a score never equals `null` |
| Scores.EqualsIsEquivalence | java/src/main/java/informiz/org/chaincode/model/Score.java:42-55 | score equality is reflexive, symmetric and transitive |
| Scores.HashCode | java/src/main/java/informiz/org/chaincode/model/Score.java:59-62 | the hash is a 32-bit Java `int` |
| Scores.HashConsistentWithEquals | java/src/main/java/informiz/org/chaincode/model/Score.java:42-62 | equal scores have equal hashes |
| Scores.ToString | java/src/main/java/informiz/org/chaincode/model/Score.java:64-67 | the rendering opens with its only `{`; the numbers contain none, so the score's rendering can be found inside the source's rendering |
| Scores.ToStringRoundTrip | java/src/main/java/informiz/org/chaincode/model/Score.java:64-67 | parsing the rendering recovers both values, each rounded half-up to the nearest hundredth |
| Scores.SameToStringSameHundredths | java/src/main/java/informiz/org/chaincode/model/Score.java:59-67 | scores with the same rendering, and so the same hash input, agree on both values to the hundredth |
| Scores.HashCoarserThanEquals | java/src/main/java/informiz/org/chaincode/model/Score.java:42-67 | two unequal scores, (0.501, 0) and (0.502, 0), have the same hash |
| Decimal.Hundredths | java/src/main/java/informiz/org/chaincode/model/Score.java:66 | the `%.2f` rounding gives the whole number of hundredths nearest the value, with the value's sign; a tie goes away from zero (half-up) |
| Decimal.FormatFixed2 | java/src/main/java/informiz/org/chaincode/model/Score.java:66 | a `%.2f` text has at least four characters, only digits, a point and a minus sign, and starts with a minus sign iff the value is negative |
| Decimal.FormatRoundTrip | java/src/main/java/informiz/org/chaincode/model/Score.java:66 | parsing a `%.2f` text gives back the value's rounded hundredths |
| Decimal.StringToNatOfNatToString | java/src/main/java/informiz/org/chaincode/model/Score.java:66 | the decimal digits of the integer part read back as the same number |
| JavaString.HashCode | java/src/main/java/informiz/org/chaincode/model/Score.java:61 | `String.hashCode` is always a 32-bit Java `int` |
| JavaString.HashCodeIsWrappedPolynomial | java/src/main/java/informiz/org/chaincode/model/Source.java:118 | wrapping at every step gives the documented s[0]*31^(n-1) + ... + s[n-1], reduced to 32 bits |
| Sources.CreateSource | java/src/main/java/informiz/org/chaincode/model/Source.java:34-46 | a new source carries the supplied fresh id and the given name, starts with an empty ledger, and holds the given score, or (0.5, 0.0) when the score is `null` |
| Sources.CreateSourceFromValues | java/src/main/java/informiz/org/chaincode/model/Source.java:48-50 | the overload fails exactly when the explicit score constructor fails, with the same error; otherwise the source has the fresh id, the name, an empty ledger and the score built from the two values |
| Sources.SetName | java/src/main/java/informiz/org/chaincode/model/Source.java:64-66 | `setName` sets any name and leaves id, score and ledger unchanged |
| Sources.SetScore | java/src/main/java/informiz/org/chaincode/model/Source.java:72-74 | `setScore` replaces the score and leaves id, name and ledger unchanged |
| Sources.AddReview | java/src/main/java/informiz/org/chaincode/model/Source.java:76-85 | after `addReview` the fact-checker's entry holds the new value and every other entry is unchanged; the key set grows by that fact-checker alone; it returns the previous value iff there was one; id, name and score are unchanged |
| Sources.RemoveReview | java/src/main/java/informiz/org/chaincode/model/Source.java:87-95 | after `removeReview` the fact-checker has no entry and every other entry is unchanged; it returns the stored value iff there was one; when there was none the source is unchanged |
| Sources.AddReviewTwice | java/src/main/java/informiz/org/chaincode/model/Source.java:76-85 | reviewing twice returns the first value from the second call and leaves one entry holding the second value |
| Sources.AddThenRemoveRestores | java/src/main/java/informiz/org/chaincode/model/Source.java:83-95 | adding a review for a new fact-checker and then removing it restores the whole source and returns the added value |
| Sources.RemoveThenAddRestores | java/src/main/java/informiz/org/chaincode/model/Source.java:83-95 | removing an existing review and adding its value back restores the whole source, and the add returns `null` |
| Sources.RemoveReviewIdempotent | java/src/main/java/informiz/org/chaincode/model/Source.java:87-95 | a second removal of the same fact-checker returns `null` and changes nothing |
| Sources.Equals | java/src/main/java/informiz/org/chaincode/model/Source.java:101-119 | `equals` is reflexive, never holds against `null`, and equal sources have equal hashes |
| Sources.EqualsIffSameSid | java/src/main/java/informiz/org/chaincode/model/Source.java:101-114 | two sources are equal iff their ids are equal, whatever their names, scores and ledgers; a source never equals `null` |
| Sources.EqualsIsEquivalence | java/src/main/java/informiz/org/chaincode/model/Source.java:101-114 | source equality is reflexive, symmetric and transitive |
| Sources.HashCode | java/src/main/java/informiz/org/chaincode/model/Source.java:116-119 | the hash is a 32-bit Java `int` |
| Sources.HashConsistentWithEquals | java/src/main/java/informiz/org/chaincode/model/Source.java:101-119 | equal sources have equal hashes |
| Sources.DistinctIdsDistinctSources | java/src/main/java/informiz/org/chaincode/model/Source.java:34-46 | sources created from distinct fresh ids are never equal, even with the same name and score |
| Sources.ToString | java/src/main/java/informiz/org/chaincode/model/Source.java:121-124 | the rendering parses back to the exact name and the score's hundredths, whatever characters the unescaped name holds |
| Sources.ToStringIgnoresIdAndReviews | java/src/main/java/informiz/org/chaincode/model/Source.java:121-124 | the rendering shows the name and score only: sources that agree on them render the same, whatever their ids and ledgers |
| Sources.ApplyAllKeepsSid | java/src/main/java/informiz/org/chaincode/model/Source.java:56-58 | the id is written once: no sequence of public edits changes it |
| Sources.IndependentEditsKeepEquality | java/src/main/java/informiz/org/chaincode/model/Source.java:101-114 | two copies of one source stay equal however each is edited, and copies of different sources never become equal |
| Sources.ReviewEditsKeepScoreAndName | java/src/main/java/informiz/org/chaincode/model/Source.java:83-95 | any sequence of review additions and removals leaves the score and the name unchanged |
| Sources.NonReviewEditsKeepReviews | java/src/main/java/informiz/org/chaincode/model/Source.java:64-74 | any sequence of renames and score replacements leaves the ledger unchanged |

## Left out

- `Utils.createUuid` and `ContractType` are not part of this model. The fresh id is a parameter, and its uniqueness is a hypothesis.
- The Fabric `@DataType`/`@Property` and Jackson `@JsonAutoDetect` annotations are serialization plumbing. The `[0, 1]` schema bounds appear only as `Scores.InSchemaRange`, and the model enforces them nowhere, as the code does not.
- `null` names, `null` scores passed to `setScore`, `null` fields inside a score, and a `null` fact-checker id are not modelled. `HashMap` accepts `null` as a key in `addReview` and `removeReview`, but the model's ledger keys are always strings. The model's names and scores are always present. A `null` score passed to `createSource` is modelled, as `None`.
- Score aliasing is not modelled. In Java a `Score` is a mutable object held by reference. `createSource` and `setScore` store the caller's object and `getScore` hands it out. So `setReliability` or `setConfidence` on that object changes the source's score without calling `setScore`, and sources built from one `Score` object all see the change. The model treats a score as a value: a source's score changes only through `Sources.SetScore`.
- IEEE float semantics are left out: `Float.equals` on NaN and -0.0, and rounding of values to float precision. Values are exact reals.
- `%.2f` in Java first widens the float to a double and uses the default locale. The model rounds the exact real half-up, and always uses `.` as the decimal point.
- `JavaString.HashCode` counts each character as one UTF-16 code unit. A character outside the Basic Multilingual Plane counts as two units in Java. Score renderings are ASCII, so their hashes agree with Java. For `Sources.HashCode` the model assumes the id supplier issues ASCII ids. `freshId` may be any string in the model, and for an id with characters outside the Basic Multilingual Plane the modelled hash can differ from Java's.
- The `equals` checks `this == obj` and `getClass()` are not modelled separately. For immutable values, reference identity implies the structural result. The other object is a score, a source, or `null` (`None`); objects of other classes are not modelled.
- The aliasing of the mutable map returned by `getReviews` is not modelled. Callers see a read-only view.
- Concurrency and ledger persistence are not modelled: loading, storing, and last-writer-wins on the whole entity. These belong to the Fabric substrate and are not in these classes.
- Score aggregation from reviews is not modelled, because the code has none. `Sources.ReviewEditsKeepScoreAndName` states that reviews never change the score.
