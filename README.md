# BDD-to-JSON converter and weekly commit check, in Dafny

This project models two small programs and proves properties of the models.

**The BDD-to-JSON converter** (`bdd-to-json-new.py`) asks a language model to turn
a BDD scenario into a JSON document of the form `{"steps": [...]}`. The model
covers the deterministic part of that program:

- `StepsOutputParser.parse`. It strips whitespace from the reply and cuts it
  down to the span from the first `{` to the last `}`. It decodes the text and
  then checks the shape: the value must be an object with a `"steps"` key, and
  each step must contain `"step"` and `"capture"`, with `"page"` (if present) a
  string. Python's `in`, iteration and subscripting are modelled as Python
  evaluates them. So a step that is a string is checked for substrings, and a
  number raises a `TypeError` (module `StepsParser`).
- `is_similar` and the append loop. Each candidate step is compared with the
  embeddings of the stored steps. It is appended unless some cosine score
  reaches the threshold 0.85 (module `SemanticDedup`). The embedding model and
  the cosine routine are the two functions of an `Embedder` parameter.
- One run after the reply: parse, then append (module `Pipeline`).

The stored list is a `StepList` object whose `items` field the loop appends
to in place. The loop is proved against the recursive function `AppendUnique`.
Properties of that function are proved as lemmas.

**The weekly commit check** (`main/ref.java`, module `WeeklyCommitCheck`)
sorts a list of commits by date in place and walks it once. It keeps a map
from committer to last commit date and flags committers whose consecutive
commits are more than seven days apart. Expected users who never committed
are added at the end. Dates are `java.util.Date` milliseconds as `int`.
`getDaysBetween` uses Java's truncating `long` division. The sort is an
insertion sort over an `array`, proved sorted and a permutation.

The code differs from its documented intent in three places. Each is recorded
under "## Findings", with the code as written and a corrected version both
modelled. The documented intent for the append loop is that every accepted
candidate joins the comparison set. The code compares against embeddings
computed once, before the loop. The model of the program follows the code.

The guard `end != -1` in `parse` (line 32) always holds, because `end` is
`rfind("}") + 1`. So a reply with a `{` and no later `}` is cut to the empty
string before decoding. `StepsParser.TrimToBracesUnclosed` states this. The
reply is rejected either way, so only the error detail changes.

## Model

| member | source | states |
|---|---|---|
| StepsParser.Strip | bdd-to-json-new.py:28 | the result is a contiguous slice of the input; everything removed at either end is whitespace, and the result neither starts nor ends with whitespace |
| StepsParser.Find | bdd-to-json-new.py:30 | -1 exactly when the character is absent; otherwise the index of its first occurrence |
| StepsParser.RFind | bdd-to-json-new.py:31 | -1 exactly when the character is absent; otherwise the index of its last occurrence |
| StepsParser.TrimToBraces | bdd-to-json-new.py:30-33 | a text with no `{` is left unchanged |
| StepsParser.TrimToBracesSlice | bdd-to-json-new.py:30-33 | when the first `{` is at i and the last `}` at j >= i, the result is exactly the slice from i through j |
| StepsParser.TrimToBracesUnclosed | bdd-to-json-new.py:30-33 | when there is a `{` but no `}` at or after it, the result is the empty string |
| StepsParser.ExtractJsonText | bdd-to-json-new.py:28-33 | the decoder gets the stripped text unchanged when it has no `{`; otherwise a text no longer than the reply that, if it holds a `{` at all, starts with `{` and ends with `}` |
| StepsParser.Lookup | bdd-to-json-new.py:45-48 | a key is found exactly when some member has it, and the value found is that of the last member with the key, the one `json.loads` keeps |
| StepsParser.CheckStep | bdd-to-json-new.py:45-49 | an object step passes exactly when it has "step" and "capture" and any "page" is a string; a missing key gives the "must have 'step' and 'capture'" error, any other failure is the "'page' must be a string" error; a string step passes exactly when it contains "step" and "capture" and not "page" as substrings; null, booleans and numbers raise a TypeError |
| StepsParser.CheckAll | bdd-to-json-new.py:44-49 | passes exactly when every step passes; otherwise fails with the error of the first failing step |
| StepsParser.Validate | bdd-to-json-new.py:41-51 | a success returns the decoded value unchanged; a non-object or an object without "steps" gives the "'steps' key" error; an empty step list is accepted |
| StepsParser.ValidateStepList | bdd-to-json-new.py:41-51 | with a list of steps, validation succeeds exactly when every step passes, and otherwise fails with the first failing step's error |
| StepsParser.ValidateObjectSteps | bdd-to-json-new.py:44-49 | with a list of object steps, validation succeeds exactly when every step is well formed |
| StepsParser.Parse | bdd-to-json-new.py:26-51 | a decoding error becomes the "Invalid JSON" error with the decoder's detail; a decoded value is validated; a success is the value decoded from the trimmed text |
| SemanticDedup.AnyAtLeast | bdd-to-json-new.py:142-146 | true exactly when some score is at or above the threshold |
| SemanticDedup.IsSimilar | bdd-to-json-new.py:126-146 | false while the live list is empty; an error when the live list is non-empty but there are no embeddings; otherwise true exactly when some stored embedding scores at or above the threshold |
| SemanticDedup.AppendUnique | bdd-to-json-new.py:161-166 | the loop as written cannot fail while the stored list and the pre-batch embeddings are both non-empty |
| SemanticDedup.AppendUniqueKeepsStored | bdd-to-json-new.py:161-166 | a successful run keeps the stored steps as an unchanged prefix and appends no more steps than there are candidates, each of them a candidate |
| SemanticDedup.AcceptedMembers | bdd-to-json-new.py:164-166 | the accepted candidates are exactly the candidates that are not near duplicates, and there are no more of them than candidates |
| SemanticDedup.AppendUniqueFiltered | bdd-to-json-new.py:161-166 | over a non-empty stored list, the stored steps stay an unchanged prefix and exactly the candidates that are not near duplicates of the pre-batch steps are appended, in batch order |
| SemanticDedup.EmptyCorpusOutcome | bdd-to-json-new.py:131-166 | over an empty stored list, a batch of at most one step is appended as is, and a batch of two or more fails at the second step |
| SemanticDedup.BatchNearDuplicatesBothAppended | bdd-to-json-new.py:161-166 | an instance where two candidates with similarity 1.0 to each other are both appended |
| SemanticDedup.AcceptedNone | bdd-to-json-new.py:164-166 | when every candidate is a near duplicate, nothing is appended |
| SemanticDedup.AppendUniqueNothingNew | bdd-to-json-new.py:161-166 | a batch whose every candidate is a near duplicate of a non-empty stored list leaves the list as it was |
| SemanticDedup.AppendUniqueIdempotentEmpty | bdd-to-json-new.py:131-166 | over an empty stored list, running a successful batch again over its result appends nothing, when each step is similar to itself |
| SemanticDedup.AppendUniqueIdempotentStored | bdd-to-json-new.py:161-166 | over a non-empty stored list the run succeeds, and running the batch again over its result appends nothing, when each step is similar to itself |
| SemanticDedup.AppendUniqueIdempotent | bdd-to-json-new.py:161-166 | over a non-empty stored list the first run succeeds; after any successful run, running the same batch again over its result appends nothing, when each step is similar to itself |
| SemanticDedup.AppendUniqueLive | bdd-to-json-new.py:161-166 | the corrected loop never fails; it keeps the stored steps as an unchanged prefix and appends no more steps than there are candidates |
| SemanticDedup.AppendUniqueLiveOnlyCandidates | bdd-to-json-new.py:164-166 | every step the corrected loop appends is one of the candidates |
| SemanticDedup.AppendUniqueLiveAppendsNoNearDuplicates | bdd-to-json-new.py:161-166 | whatever the stored list holds, the corrected loop appends a step only when it is below the threshold against every earlier step, stored or appended in the same batch |
| SemanticDedup.AppendUniqueLiveNoNearDuplicates | bdd-to-json-new.py:161-166 | a stored list in which no step is a near duplicate of an earlier one stays so under the corrected loop |
| SemanticDedup.AppendUniqueLiveDropsOnlyDuplicates | bdd-to-json-new.py:161-166 | the corrected loop drops a candidate only when some step of the result reaches the threshold against it |
| SemanticDedup.StepList.Append | bdd-to-json-new.py:166 | the list grows by exactly the appended step |
| SemanticDedup.AppendNewSteps | bdd-to-json-new.py:161-166 | the in-place loop succeeds exactly when `AppendUnique` does, and then leaves the stored list equal to its result |
| SemanticDedup.AppendNewStepsLive | bdd-to-json-new.py:161-166 | the corrected in-place loop, with an embedding cache kept equal to the live list's embeddings, leaves the list equal to `AppendUniqueLive` |
| Pipeline.Candidates | bdd-to-json-new.py:150 | every step handed to the append loop passed validation |
| Pipeline.ConvertAndAppend | bdd-to-json-new.py:148-166 | a parse error fails the run and leaves the stored list unchanged; otherwise the run succeeds exactly when the append loop does, leaving its result stored, and a loop failure is reported as a similarity error |
| Pipeline.AppendCandidates | bdd-to-json-new.py:150-166 | over the steps of a validated reply, the run succeeds exactly when the append loop does, leaving its result stored, and a loop failure is reported as a similarity error |
| WeeklyCommitCheck.JavaDivByDay | main/ref.java:71 | the magnitude of the truncating quotient is the magnitude of the dividend divided by the milliseconds in a day |
| WeeklyCommitCheck.DaysBetween | main/ref.java:70-72 | non-negative, and equal to the whole number of days in the absolute difference |
| WeeklyCommitCheck.GetDaysBetween | main/ref.java:70-72 | throws NullPointerException exactly when the first date is null |
| WeeklyCommitCheck.DaysBetweenSymmetric | main/ref.java:70-72 | the order of the two dates does not matter |
| WeeklyCommitCheck.GapExceedsLimit | main/ref.java:47 | the gap exceeds seven days exactly when the dates are at least eight full days apart |
| WeeklyCommitCheck.SampleGapNotOverLimit | main/ref.java:20-23 | a sample pair read from the clock in call order, less than a day apart, with at most an hour of daylight-saving change, is never more than seven days apart; it is exactly seven with one reading and no change |
| WeeklyCommitCheck.SortByDate | main/ref.java:41 | the commits end up sorted by date and are a permutation of the original ones |
| WeeklyCommitCheck.ScanStep | main/ref.java:45-51 | one commit throws exactly when its committer was seen before and the lookup is by date; otherwise its date is recorded, and only its committer can be newly flagged, and only when seen before |
| WeeklyCommitCheck.Scan | main/ref.java:44-52 | a completed walk flags only committers it has recorded |
| WeeklyCommitCheck.ScanStopsAtError | main/ref.java:44-52 | once a commit throws, the walk of any longer prefix throws the same exception |
| WeeklyCommitCheck.ScanCommits | main/ref.java:44-52 | the loop computes the recursive walk `Scan` |
| WeeklyCommitCheck.AddNeverCommitted | main/ref.java:55-59 | a name is in the result exactly when it was already flagged or is an expected user absent from the map |
| WeeklyCommitCheck.ScanLastCommit | main/ref.java:44-52 | a completed walk maps exactly the committers' names, each to the date of its last commit in walking order |
| WeeklyCommitCheck.LastCommitIsLatest | main/ref.java:41-52 | over date-sorted commits, each committer's map entry is at or after every commit of theirs and is the date of one of their commits |
| WeeklyCommitCheck.ScanByDateOutcome | main/ref.java:44-52 | as written, the walk throws exactly when some committer appears twice, and otherwise flags nobody |
| WeeklyCommitCheck.ScanByNameFlags | main/ref.java:44-52 | corrected, the walk never throws and flags a committer exactly when two consecutive commits of theirs are more than seven days apart |
| WeeklyCommitCheck.SingleCommitNeverFlagged | main/ref.java:45-49 | corrected, a committer with at most one commit is never flagged |
| WeeklyCommitCheck.FindIrregularCommitters | main/ref.java:35-62 | as written, the caller's commits end up sorted and permuted; the call throws NullPointerException exactly when some committer repeats, and otherwise returns exactly the expected users who never committed |
| WeeklyCommitCheck.FindIrregularCommittersByName | main/ref.java:35-62 | corrected, the call always returns, and a name is returned exactly when that committer has a gap of more than seven days between consecutive commits in date order, or is an expected user who never committed |

## Left out

- The language-model call, the prompt template, the API key and the chain wiring are left out. They are network I/O; the reply text is an input to `StepsParser.Parse`.
- StepsParser.Parse: `json.loads` is the parameter `loads`, and its error detail is passed through unchanged. A JSON decoder is not part of this model.
- StepsParser.CheckStep: the texts of Python's `TypeError` messages are paraphrased, not reproduced.
- JSON objects are member sequences. A key that appears twice is read at its last member, as `json.loads` keeps it. Iterating an object visits each member's key, so a repeated key is visited twice where a Python dict visits it once. Integers and floats are both `JNumber`.
- SemanticDedup.EncodeAll is how `model.encode(existing_steps)` is modelled: one embedding per step, by the `Embedder`'s `encode`. No property of the embedding model itself is assumed.
- WeeklyCommitCheck.MapGet is how `HashMap.get(Object)` is modelled: a `Date` argument never equals a `String` key, so it yields null. It is a modelling choice, not a proved property.
- SemanticDedup.IsSimilar: the sentence-embedding model and `cosine_similarity` are the two functions of an `Embedder`. Floating-point rounding and zero-norm vectors are not modelled. The failure on an empty embedding matrix is `EmptyEmbeddingMatrix`, with no message.
- Reading the scenario file, loading `output.json` (with the fallback to an empty list when it is missing or invalid), writing it back, and all printing are file and console I/O. A run that fails is modelled as a `Fail` outcome, and it writes nothing.
- The commented-out code and the stray lines after the main run (lines 184-244 of the converter) are not part of this model.
- The Java `main`, `getDateDaysAgo` and the printing are left out. They read the clock and the console. Only the sample's day offsets appear, in `SampleGapNotOverLimit`.
- WeeklyCommitCheck.SampleGapNotOverLimit: the two clock readings of a pair are assumed less than a day apart, and a calendar day is assumed to differ from 24 hours by at most one daylight-saving hour.
- WeeklyCommitCheck.DaysBetween: the 64-bit `long` overflow of the millisecond difference is not modelled. It needs dates about 292 million years apart.
- WeeklyCommitCheck.SortByDate: the stability of Java's `List.sort` is not stated. The walk only compares dates and names, so the results proved do not depend on the order among equal dates.
- Null `Commit` fields and null list elements are not modelled. Only the null returned by the map lookup is.

## Findings

| source | as written | input that shows it | evidently intended | confidence | as-written member | corrected member |
|---|---|---|---|---|---|---|
| main/ref.java:46 | `lastCommitMap.get(commit.commitDate)` looks up a `Date` in a map keyed by name. The lookup always yields null, and `getDaysBetween` then throws `NullPointerException`. | any committer with two commits, such as the sample's Alice at 10 and 3 days ago | look up `commit.committerName` and compare with that committer's previous date | high, not executed | WeeklyCommitCheck.ScanByDateOutcome | WeeklyCommitCheck.ScanByNameFlags |
| bdd-to-json-new.py:162 | The embeddings are computed once, before the loop. A candidate is never compared with a step appended earlier in the same batch. | stored `["enter username"]`, batch `["click login button", "click the login button"]` with similarity 1.0 between the two: both are appended | compare each candidate with every step stored so far, including those appended in this batch | medium, not executed | SemanticDedup.BatchNearDuplicatesBothAppended | SemanticDedup.AppendUniqueLiveAppendsNoNearDuplicates |
| bdd-to-json-new.py:131 | The emptiness test reads the live list, but the scores come from the pre-batch embeddings. Over an empty stored list, the second candidate is scored against an empty matrix, the similarity routine raises, and nothing is written. | no stored steps and a reply with two steps | an empty stored list accepts the first step and judges later steps against it | medium, not executed | SemanticDedup.EmptyCorpusOutcome | SemanticDedup.AppendUniqueLiveDropsOnlyDuplicates |
