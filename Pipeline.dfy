/**
 * One run of the converter after the model has replied: parse the reply, then
 * append the steps it holds to the stored list, skipping near duplicates.
 * Reading the scenario file, loading and writing the stored file and the
 * model call itself are outside this module; a failed run writes nothing.
 */
module Pipeline {
  import opened Wrappers
  import opened StepsParser
  import opened SemanticDedup

  datatype PipelineError = Parsing(parseError: ParseError) | Similarity(dedupError: DedupError)

  /** What iterating `result["steps"]` visits, for a value that passed validation. */
  function Candidates(result: Json): (r: seq<Json>)
    requires Validate(result).Ok?
    ensures forall i :: 0 <= i < |r| ==> CheckStep(r[i]).Pass?
  {
    PyIterate(Lookup(result.members, "steps").value).value
  }

  /** The append loop over the steps of a validated reply, its failure reported as a similarity error. */
  method AppendCandidates(corpus: StepList, parsed: Json, m: Embedder) returns (r: Outcome<PipelineError>)
    requires Validate(parsed).Ok?
    modifies corpus
    ensures var spec := AppendUnique(old(corpus.items), Candidates(parsed), EncodeAll(old(corpus.items), m),
                                     DefaultThreshold, m);
            && (r.Pass? <==> spec.Ok?)
            && (r.Pass? ==> corpus.items == spec.value)
            && (r.Fail? ==> r.error == Similarity(spec.error))
  {
    var appended := AppendNewSteps(corpus, Candidates(parsed), m);
    if appended.Pass? {
      r := Pass;
    } else {
      r := Fail(Similarity(appended.error));
    }
  }

  /**
   * Parse the reply; on success run the append loop over its steps with the
   * stored list as it was loaded. `Fail` is an exception that reached the
   * catch-all, after which nothing is written.
   */
  method ConvertAndAppend(corpus: StepList, reply: string, loads: string -> Result<Json, string>, m: Embedder)
    returns (r: Outcome<PipelineError>)
    modifies corpus
    ensures Parse(reply, loads).Err? ==>
              r == Fail(Parsing(Parse(reply, loads).error)) && corpus.items == old(corpus.items)
    ensures Parse(reply, loads).Ok? ==>
              var spec := AppendUnique(old(corpus.items), Candidates(Parse(reply, loads).value),
                                       EncodeAll(old(corpus.items), m), DefaultThreshold, m);
              && (r.Pass? <==> spec.Ok?)
              && (r.Pass? ==> corpus.items == spec.value)
              && (r.Fail? ==> r.error == Similarity(spec.error))
  {
    var result := Parse(reply, loads);
    if result.Err? {
      return Fail(Parsing(result.error));
    }
    assert Validate(result.value) == result;
    r := AppendCandidates(corpus, result.value, m);
  }
}
