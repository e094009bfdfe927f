/**
 * Semantic de-duplication of newly extracted steps against the stored steps:
 * `is_similar` and the loop that appends every candidate it does not judge a
 * near duplicate.
 *
 * The sentence-embedding model and the cosine-similarity routine are foreign
 * numeric code; they are the two functions of an `Embedder` here, and every
 * property below holds whatever they compute.
 *
 * As written, the embeddings compared against are those of the steps stored
 * before the batch, computed once, while the emptiness test reads the live
 * list that the loop appends to. `AppendUnique` is that behaviour;
 * `AppendUniqueLive` is the corrected one that compares each candidate with
 * everything stored so far.
 */
module SemanticDedup {
  import opened Wrappers
  import opened StepsParser

  type Embedding = seq<real>

  /** The sentence-embedding model and the similarity of two embeddings. */
  datatype Embedder = Embedder(encode: Json -> Embedding, cosine: (Embedding, Embedding) -> real)

  /** The threshold `is_similar` is called with in the append loop. */
  const DefaultThreshold: real := 0.85

  /** The error the similarity routine raises when compared against no embeddings at all. */
  datatype DedupError = EmptyEmbeddingMatrix

  /** The embedding of every step, index for index. */
  function EncodeAll(steps: seq<Json>, m: Embedder): (r: seq<Embedding>)
    ensures |r| == |steps|
    ensures forall k :: 0 <= k < |steps| ==> r[k] == m.encode(steps[k])
  {
    seq(|steps|, k requires 0 <= k < |steps| => m.encode(steps[k]))
  }

  /** One similarity score per stored embedding. */
  function Similarities(e: Embedding, existing: seq<Embedding>, m: Embedder): (r: seq<real>)
    ensures |r| == |existing|
  {
    seq(|existing|, k requires 0 <= k < |existing| => m.cosine(e, existing[k]))
  }

  /** The early-exit scan of the scores: true as soon as one reaches the threshold. */
  function AnyAtLeast(scores: seq<real>, threshold: real): (r: bool)
    ensures r <==> exists k :: 0 <= k < |scores| && scores[k] >= threshold
  {
    if scores == [] then false
    else if scores[0] >= threshold then true
    else
      var r := AnyAtLeast(scores[1..], threshold);
      assert forall k :: 0 < k < |scores| ==> scores[k] == scores[1..][k - 1];
      r
  }

  /** Some stored embedding is at least `threshold` similar to the candidate's. */
  predicate NearDuplicate(c: Json, embeddings: seq<Embedding>, threshold: real, m: Embedder)
  {
    exists k :: 0 <= k < |embeddings| && m.cosine(m.encode(c), embeddings[k]) >= threshold
  }

  /**
   * `is_similar`: false while the live list is empty; otherwise an error when
   * there are no embeddings to compare with, else whether some score reaches
   * the threshold (a score equal to it counts).
   */
  function IsSimilar(newStep: Json, existingEmbeddings: seq<Embedding>, threshold: real,
                     live: seq<Json>, m: Embedder): (r: Result<bool, DedupError>)
    ensures live == [] ==> r == Ok(false)
    ensures live != [] && existingEmbeddings == [] ==> r == Err(EmptyEmbeddingMatrix)
    ensures live != [] && existingEmbeddings != [] ==>
              r.Ok? && (r.value <==> NearDuplicate(newStep, existingEmbeddings, threshold, m))
  {
    if live == [] then Ok(false)
    else if existingEmbeddings == [] then Err(EmptyEmbeddingMatrix)
    else
      var scores := Similarities(m.encode(newStep), existingEmbeddings, m);
      assert forall k :: 0 <= k < |scores| ==> scores[k] == m.cosine(m.encode(newStep), existingEmbeddings[k]);
      Ok(AnyAtLeast(scores, threshold))
  }

  // ---------------------------------------------------------------------------
  // The append loop as written
  // ---------------------------------------------------------------------------

  /**
   * The list the loop leaves behind: each candidate is judged by `IsSimilar`
   * against the fixed `embeddings` and the live list `live`, and appended when
   * not similar; an error stops the loop.
   */
  function AppendUnique(live: seq<Json>, candidates: seq<Json>, embeddings: seq<Embedding>,
                        threshold: real, m: Embedder): (r: Result<seq<Json>, DedupError>)
    ensures live != [] && embeddings != [] ==> r.Ok?
    decreases |candidates|
  {
    if candidates == [] then Ok(live)
    else match IsSimilar(candidates[0], embeddings, threshold, live, m)
      case Err(e) => Err(e)
      case Ok(similar) =>
        AppendUnique(if similar then live else live + [candidates[0]], candidates[1..], embeddings, threshold, m)
  }

  /**
   * A successful run keeps the stored steps as an unchanged prefix and
   * appends only candidates, no more of them than there are.
   */
  lemma {:induction false} AppendUniqueKeepsStored(live: seq<Json>, candidates: seq<Json>, embeddings: seq<Embedding>,
                                                   threshold: real, m: Embedder)
    requires AppendUnique(live, candidates, embeddings, threshold, m).Ok?
    ensures var r := AppendUnique(live, candidates, embeddings, threshold, m).value;
            |live| <= |r| <= |live| + |candidates| && r[..|live|] == live
            && forall x :: x in r[|live|..] ==> x in candidates
    decreases |candidates|
  {
    if candidates != [] {
      var c := candidates[0];
      var similar := IsSimilar(c, embeddings, threshold, live, m).value;
      var next := if similar then live else live + [c];
      AppendUniqueKeepsStored(next, candidates[1..], embeddings, threshold, m);
      var r := AppendUnique(next, candidates[1..], embeddings, threshold, m).value;
      assert r == AppendUnique(live, candidates, embeddings, threshold, m).value;
      assert r[..|live|] == r[..|next|][..|live|];
      assert r[|live|..] == next[|live|..] + r[|next|..];
    }
  }

  /** The candidates that are not near duplicates of the given embeddings, in batch order. */
  function Accepted(candidates: seq<Json>, embeddings: seq<Embedding>, threshold: real, m: Embedder): seq<Json>
  {
    if candidates == [] then []
    else
      (if NearDuplicate(candidates[0], embeddings, threshold, m) then [] else [candidates[0]])
      + Accepted(candidates[1..], embeddings, threshold, m)
  }

  /** The accepted candidates are exactly the candidates that are not near duplicates. */
  lemma {:induction false} AcceptedMembers(candidates: seq<Json>, embeddings: seq<Embedding>, threshold: real, m: Embedder)
    ensures forall c :: c in Accepted(candidates, embeddings, threshold, m) <==>
                          c in candidates && !NearDuplicate(c, embeddings, threshold, m)
    ensures |Accepted(candidates, embeddings, threshold, m)| <= |candidates|
  {
    if candidates != [] {
      AcceptedMembers(candidates[1..], embeddings, threshold, m);
      assert candidates == [candidates[0]] + candidates[1..];
    }
  }

  /**
   * Over a non-empty stored list, the loop keeps the stored steps as an
   * unchanged prefix and appends exactly the candidates that are not near
   * duplicates of the PRE-BATCH embeddings, in batch order: a candidate is
   * never compared with another candidate of the same batch.
   */
  lemma {:induction false} AppendUniqueFiltered(live: seq<Json>, candidates: seq<Json>, embeddings: seq<Embedding>,
                                                 threshold: real, m: Embedder)
    requires live != [] && embeddings != []
    ensures AppendUnique(live, candidates, embeddings, threshold, m)
            == Ok(live + Accepted(candidates, embeddings, threshold, m))
    decreases |candidates|
  {
    if candidates != [] {
      var c := candidates[0];
      var next := if NearDuplicate(c, embeddings, threshold, m) then live else live + [c];
      assert AppendUnique(live, candidates, embeddings, threshold, m)
          == AppendUnique(next, candidates[1..], embeddings, threshold, m);
      AppendUniqueFiltered(next, candidates[1..], embeddings, threshold, m);
      assert Accepted(candidates, embeddings, threshold, m)
          == (if NearDuplicate(c, embeddings, threshold, m) then [] else [c])
             + Accepted(candidates[1..], embeddings, threshold, m);
      assert next + Accepted(candidates[1..], embeddings, threshold, m)
          == live + Accepted(candidates, embeddings, threshold, m);
    } else {
      assert live + [] == live;
    }
  }

  /**
   * Over an empty stored list there are no embeddings: the first candidate is
   * appended unexamined and the second one makes the similarity routine fail.
   */
  lemma EmptyCorpusOutcome(candidates: seq<Json>, threshold: real, m: Embedder)
    ensures |candidates| <= 1 ==> AppendUnique([], candidates, [], threshold, m) == Ok(candidates)
    ensures |candidates| >= 2 ==> AppendUnique([], candidates, [], threshold, m) == Err(EmptyEmbeddingMatrix)
  {
    if candidates != [] {
      var rest := candidates[1..];
      assert [] + [candidates[0]] == [candidates[0]];
      if rest != [] {
        assert IsSimilar(rest[0], [], threshold, [candidates[0]], m) == Err(EmptyEmbeddingMatrix);
      } else {
        assert [candidates[0]] == candidates;
      }
    }
  }

  /** An embedder for the instance below: one stored step apart from everything else. */
  function ExampleEncode(j: Json): Embedding
  {
    if j == JString("enter username") then [0.0] else [1.0]
  }

  function ExampleCosine(a: Embedding, b: Embedding): real
  {
    if a == b then 1.0 else 0.0
  }

  /**
   * Two candidates of one batch that are near duplicates of each other are
   * both appended when neither is close to a stored step: an instance where
   * their similarity is 1.0.
   */
  lemma BatchNearDuplicatesBothAppended()
    ensures var m := Embedder(ExampleEncode, ExampleCosine);
            var stored := [JString("enter username")];
            var c1, c2 := JString("click login button"), JString("click the login button");
            && m.cosine(m.encode(c1), m.encode(c2)) >= DefaultThreshold
            && AppendUnique(stored, [c1, c2], EncodeAll(stored, m), DefaultThreshold, m)
               == Ok(stored + [c1, c2])
  {
    var m := Embedder(ExampleEncode, ExampleCosine);
    var stored := [JString("enter username")];
    var c1, c2 := JString("click login button"), JString("click the login button");
    var embeddings := EncodeAll(stored, m);
    assert m.encode(stored[0]) == [0.0];
    assert embeddings[0] == [0.0];
    assert !NearDuplicate(c1, embeddings, DefaultThreshold, m);
    assert !NearDuplicate(c2, embeddings, DefaultThreshold, m);
    assert m.encode(c1) == [1.0] && m.encode(c2) == [1.0];
    AppendUniqueFiltered(stored, [c1, c2], embeddings, DefaultThreshold, m);
    assert [c1, c2][1..] == [c2];
    assert [c2][1..] == [];
    assert Accepted([c2], embeddings, DefaultThreshold, m) == [c2] + Accepted([], embeddings, DefaultThreshold, m);
    assert Accepted([c2], embeddings, DefaultThreshold, m) == [c2];
    assert Accepted([c1, c2], embeddings, DefaultThreshold, m) == [c1] + Accepted([c2], embeddings, DefaultThreshold, m);
    assert [c1] + [c2] == [c1, c2];
    assert m.cosine(m.encode(c1), m.encode(c2)) == 1.0;
  }

  /** No candidate is accepted when every candidate is a near duplicate. */
  lemma AcceptedNone(candidates: seq<Json>, embeddings: seq<Embedding>, threshold: real, m: Embedder)
    requires forall c :: c in candidates ==> NearDuplicate(c, embeddings, threshold, m)
    ensures Accepted(candidates, embeddings, threshold, m) == []
  {
    AcceptedMembers(candidates, embeddings, threshold, m);
  }

  /** A batch whose every candidate is a near duplicate of a non-empty stored list appends nothing. */
  lemma AppendUniqueNothingNew(stored: seq<Json>, candidates: seq<Json>, threshold: real, m: Embedder)
    requires stored != []
    requires forall c :: c in candidates ==> NearDuplicate(c, EncodeAll(stored, m), threshold, m)
    ensures AppendUnique(stored, candidates, EncodeAll(stored, m), threshold, m) == Ok(stored)
  {
    AcceptedNone(candidates, EncodeAll(stored, m), threshold, m);
    AppendUniqueFiltered(stored, candidates, EncodeAll(stored, m), threshold, m);
    assert stored + [] == stored;
  }

  /** Over an empty stored list, a successful run is idempotent. */
  lemma AppendUniqueIdempotentEmpty(candidates: seq<Json>, threshold: real, m: Embedder)
    requires forall c :: c in candidates ==> m.cosine(m.encode(c), m.encode(c)) >= threshold
    requires AppendUnique([], candidates, [], threshold, m).Ok?
    ensures var first := AppendUnique([], candidates, [], threshold, m).value;
            AppendUnique(first, candidates, EncodeAll(first, m), threshold, m) == Ok(first)
  {
    EmptyCorpusOutcome(candidates, threshold, m);
    if candidates != [] {
      assert candidates == [candidates[0]];
      assert EncodeAll(candidates, m)[0] == m.encode(candidates[0]);
      AppendUniqueNothingNew(candidates, candidates, threshold, m);
    }
  }

  /** Over a non-empty stored list, the run succeeds and is idempotent. */
  lemma AppendUniqueIdempotentStored(stored: seq<Json>, candidates: seq<Json>, threshold: real, m: Embedder)
    requires stored != []
    requires forall c :: c in candidates ==> m.cosine(m.encode(c), m.encode(c)) >= threshold
    ensures AppendUnique(stored, candidates, EncodeAll(stored, m), threshold, m).Ok?
    ensures var first := AppendUnique(stored, candidates, EncodeAll(stored, m), threshold, m).value;
            AppendUnique(first, candidates, EncodeAll(first, m), threshold, m) == Ok(first)
  {
    var e0 := EncodeAll(stored, m);
    AppendUniqueFiltered(stored, candidates, e0, threshold, m);
    var accepted := Accepted(candidates, e0, threshold, m);
    var first := stored + accepted;
    var e1 := EncodeAll(first, m);
    AcceptedMembers(candidates, e0, threshold, m);
    forall c | c in candidates
      ensures NearDuplicate(c, e1, threshold, m)
    {
      if NearDuplicate(c, e0, threshold, m) {
        var k :| 0 <= k < |e0| && m.cosine(m.encode(c), e0[k]) >= threshold;
        assert e1[k] == e0[k];
      } else {
        assert c in accepted;
        var i :| 0 <= i < |accepted| && accepted[i] == c;
        assert e1[|stored| + i] == m.encode(c);
      }
    }
    AppendUniqueNothingNew(first, candidates, threshold, m);
  }

  /**
   * Running the same batch a second time over the result of a successful
   * first run appends nothing, provided every candidate is at least
   * `threshold` similar to itself (for cosine similarity: its embedding is not
   * zero). Over a non-empty stored list the first run always succeeds.
   */
  lemma AppendUniqueIdempotent(stored: seq<Json>, candidates: seq<Json>, threshold: real, m: Embedder)
    requires forall c :: c in candidates ==> m.cosine(m.encode(c), m.encode(c)) >= threshold
    ensures stored != [] ==> AppendUnique(stored, candidates, EncodeAll(stored, m), threshold, m).Ok?
    ensures var run := AppendUnique(stored, candidates, EncodeAll(stored, m), threshold, m);
            run.Ok? ==> AppendUnique(run.value, candidates, EncodeAll(run.value, m), threshold, m) == run
  {
    if stored == [] {
      assert EncodeAll(stored, m) == [];
      if AppendUnique([], candidates, [], threshold, m).Ok? {
        AppendUniqueIdempotentEmpty(candidates, threshold, m);
      }
    } else {
      AppendUniqueIdempotentStored(stored, candidates, threshold, m);
    }
  }

  // ---------------------------------------------------------------------------
  // The corrected loop: compare with everything stored so far
  // ---------------------------------------------------------------------------

  /** Each candidate is judged against the embeddings of the live list, as it stands when the candidate is reached. */
  function AppendUniqueLive(live: seq<Json>, candidates: seq<Json>, threshold: real, m: Embedder): (r: seq<Json>)
    ensures |live| <= |r| <= |live| + |candidates| && r[..|live|] == live
    decreases |candidates|
  {
    if candidates == [] then live
    else
      var similar := IsSimilar(candidates[0], EncodeAll(live, m), threshold, live, m) == Ok(true);
      var next := if similar then live else live + [candidates[0]];
      var r := AppendUniqueLive(next, candidates[1..], threshold, m);
      assert r[..|live|] == r[..|next|][..|live|];
      r
  }

  /** Every step the corrected loop appends is one of the candidates. */
  lemma {:induction false} AppendUniqueLiveOnlyCandidates(live: seq<Json>, candidates: seq<Json>, threshold: real, m: Embedder)
    ensures var r := AppendUniqueLive(live, candidates, threshold, m);
            forall x :: x in r[|live|..] ==> x in candidates
    decreases |candidates|
  {
    if candidates != [] {
      var similar := IsSimilar(candidates[0], EncodeAll(live, m), threshold, live, m) == Ok(true);
      var next := if similar then live else live + [candidates[0]];
      AppendUniqueLiveOnlyCandidates(next, candidates[1..], threshold, m);
      var r := AppendUniqueLive(next, candidates[1..], threshold, m);
      assert r == AppendUniqueLive(live, candidates, threshold, m);
      assert r[|live|..] == next[|live|..] + r[|next|..];
      forall x | x in r[|live|..]
        ensures x in candidates
      {
        if x in next[|live|..] {
          assert next[|live|..] == [candidates[0]];
        } else {
          assert x in candidates[1..];
        }
      }
    }
  }

  /** No appended step is a near duplicate of any step before it. */
  ghost predicate NoLateNearDuplicate(r: seq<Json>, from: nat, threshold: real, m: Embedder)
  {
    forall j, i :: from <= j < |r| && 0 <= i < j ==> m.cosine(m.encode(r[j]), m.encode(r[i])) < threshold
  }

  /**
   * Whatever the stored list already holds, the corrected loop appends a
   * candidate only when it is below the threshold against every earlier step,
   * stored or appended in this batch.
   */
  lemma {:induction false} AppendUniqueLiveAppendsNoNearDuplicates(live: seq<Json>, candidates: seq<Json>,
                                                                   threshold: real, m: Embedder)
    ensures NoLateNearDuplicate(AppendUniqueLive(live, candidates, threshold, m), |live|, threshold, m)
    decreases |candidates|
  {
    if candidates != [] {
      var c := candidates[0];
      var e := EncodeAll(live, m);
      var similar := IsSimilar(c, e, threshold, live, m) == Ok(true);
      var next := if similar then live else live + [c];
      AppendUniqueLiveAppendsNoNearDuplicates(next, candidates[1..], threshold, m);
      var r := AppendUniqueLive(next, candidates[1..], threshold, m);
      assert r == AppendUniqueLive(live, candidates, threshold, m);
      if !similar {
        assert r[..|next|] == next;
        forall j, i | |live| <= j < |r| && 0 <= i < j
          ensures m.cosine(m.encode(r[j]), m.encode(r[i])) < threshold
        {
          if j == |live| {
            assert r[j] == c && r[i] == live[i] && e[i] == m.encode(live[i]);
          }
        }
      }
    }
  }

  /** A stored list without near duplicates stays without them. */
  lemma AppendUniqueLiveNoNearDuplicates(live: seq<Json>, candidates: seq<Json>, threshold: real, m: Embedder)
    requires NoLateNearDuplicate(live, 0, threshold, m)
    ensures NoLateNearDuplicate(AppendUniqueLive(live, candidates, threshold, m), 0, threshold, m)
  {
    AppendUniqueLiveAppendsNoNearDuplicates(live, candidates, threshold, m);
    var r := AppendUniqueLive(live, candidates, threshold, m);
    forall j, i | 0 <= j < |live| && 0 <= i < j
      ensures m.cosine(m.encode(r[j]), m.encode(r[i])) < threshold
    {
      assert r[j] == live[j] && r[i] == live[i];
    }
  }

  /** Some step of `r` is at least `threshold` similar to `c`. */
  ghost predicate Reaches(c: Json, r: seq<Json>, threshold: real, m: Embedder)
  {
    exists i :: 0 <= i < |r| && m.cosine(m.encode(c), m.encode(r[i])) >= threshold
  }

  /**
   * The corrected loop never drops a candidate unless it reaches the threshold
   * against some step of the resulting list.
   */
  lemma {:induction false} AppendUniqueLiveDropsOnlyDuplicates(live: seq<Json>, candidates: seq<Json>, threshold: real, m: Embedder)
    ensures var r := AppendUniqueLive(live, candidates, threshold, m);
            |live| <= |r| &&
            forall c :: c in candidates ==> c in r[|live|..] || Reaches(c, r, threshold, m)
    decreases |candidates|
  {
    if candidates != [] {
      var c := candidates[0];
      var e := EncodeAll(live, m);
      var similar := IsSimilar(c, e, threshold, live, m) == Ok(true);
      var next := if similar then live else live + [c];
      AppendUniqueLiveDropsOnlyDuplicates(next, candidates[1..], threshold, m);
      var r := AppendUniqueLive(next, candidates[1..], threshold, m);
      assert r == AppendUniqueLive(live, candidates, threshold, m);
      assert r[..|next|] == next;
      assert r[|next|..] == r[|live|..][|next| - |live|..];
      if similar {
        var k :| 0 <= k < |e| && m.cosine(m.encode(c), e[k]) >= threshold;
        assert r[k] == live[k];
        assert Reaches(c, r, threshold, m);
      } else {
        assert r[|live|..][0] == c;
      }
    }
  }

  // ---------------------------------------------------------------------------
  // The stored steps list and the two loops over it
  // ---------------------------------------------------------------------------

  /** The list held under the "steps" key of the stored data, appended to in place. */
  class StepList {
    var items: seq<Json>

    constructor (initial: seq<Json>)
      ensures items == initial
    {
      items := initial;
    }

    method Append(x: Json)
      modifies this
      ensures items == old(items) + [x]
    {
      items := items + [x];
    }
  }

  /**
   * The append loop as written: embeddings of the stored steps computed once
   * before the loop, `is_similar` with the default threshold and the live
   * list, append when not similar. `Fail` means the exception reached the
   * catch-all, so nothing is written.
   */
  method AppendNewSteps(corpus: StepList, newSteps: seq<Json>, m: Embedder) returns (r: Outcome<DedupError>)
    modifies corpus
    ensures var spec := AppendUnique(old(corpus.items), newSteps, EncodeAll(old(corpus.items), m), DefaultThreshold, m);
            && (r.Pass? <==> spec.Ok?)
            && (r.Pass? ==> corpus.items == spec.value)
  {
    var existingEmbeddings := EncodeAll(corpus.items, m);
    ghost var spec := AppendUnique(corpus.items, newSteps, existingEmbeddings, DefaultThreshold, m);
    for i := 0 to |newSteps|
      invariant AppendUnique(corpus.items, newSteps[i..], existingEmbeddings, DefaultThreshold, m) == spec
    {
      assert newSteps[i..][0] == newSteps[i] && newSteps[i..][1..] == newSteps[i + 1..];
      var similar := IsSimilar(newSteps[i], existingEmbeddings, DefaultThreshold, corpus.items, m);
      match similar {
        case Err(e) =>
          return Fail(e);
        case Ok(dup) =>
          if !dup {
            corpus.Append(newSteps[i]);
          }
      }
    }
    r := Pass;
  }

  /**
   * The corrected loop: the embedding cache follows the live list, one
   * embedding appended with each appended step, and every candidate is
   * compared with all of it.
   */
  method AppendNewStepsLive(corpus: StepList, newSteps: seq<Json>, m: Embedder)
    modifies corpus
    ensures corpus.items == AppendUniqueLive(old(corpus.items), newSteps, DefaultThreshold, m)
  {
    var embeddings := EncodeAll(corpus.items, m);
    ghost var spec := AppendUniqueLive(corpus.items, newSteps, DefaultThreshold, m);
    for i := 0 to |newSteps|
      invariant embeddings == EncodeAll(corpus.items, m)
      invariant AppendUniqueLive(corpus.items, newSteps[i..], DefaultThreshold, m) == spec
    {
      assert newSteps[i..][0] == newSteps[i] && newSteps[i..][1..] == newSteps[i + 1..];
      var similar := IsSimilar(newSteps[i], embeddings, DefaultThreshold, corpus.items, m);
      if similar != Ok(true) {
        corpus.Append(newSteps[i]);
        embeddings := embeddings + [m.encode(newSteps[i])];
      }
    }
  }
}
