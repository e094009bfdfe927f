/**
 * The output parser that turns the text a language model returned into a
 * validated `{"steps": [...]}` value: whitespace stripping, trimming to the
 * outermost braces, decoding (a parameter here) and the shape checks.
 *
 * The checks run on whatever `json.loads` produced, with Python's own meaning
 * of `in`, iteration and subscripting on each kind of value, so a `steps`
 * value that is a string or an object is checked the way Python checks it.
 */
module StepsParser {
  import opened Wrappers

  /** A value as `json.loads` returns it; an object keeps its members in document order. */
  datatype Json =
    | JNull
    | JBool(b: bool)
    | JNumber(n: real)
    | JString(s: string)
    | JArray(items: seq<Json>)
    | JObject(members: seq<Member>)

  datatype Member = Member(key: string, value: Json)

  /** The exceptions `parse` lets escape, with the message each one carries. */
  datatype ParseError =
    | InvalidJson(detail: string)   // "Invalid JSON: " and the decoder's detail
    | MissingStepsKey               // "JSON must have a 'steps' key."
    | StepMissingKeys               // "Each step must have 'step' and 'capture' keys."
    | PageNotString                 // "'page' must be a string when present."
    | TypeError(detail: string)     // raised by Python itself on `in`, iteration or `[]`
    | KeyError(key: string)

  // ---------------------------------------------------------------------------
  // Text trimming: str.strip, str.find, str.rfind and slicing
  // ---------------------------------------------------------------------------

  /** The characters Python's `str.isspace` accepts, which `str.strip()` removes. */
  predicate IsSpace(c: char)
  {
    ('\t' <= c <= '\r') || ('\U{1C}' <= c <= ' ') || c == '\U{85}' || c == '\U{A0}'
    || c == '\U{1680}' || ('\U{2000}' <= c <= '\U{200A}') || c == '\U{2028}'
    || c == '\U{2029}' || c == '\U{202F}' || c == '\U{205F}' || c == '\U{3000}'
  }

  function StripLeft(s: string): (r: string)
    ensures |r| <= |s| && r == s[|s| - |r|..]
    ensures forall i :: 0 <= i < |s| - |r| ==> IsSpace(s[i])
    ensures r != [] ==> !IsSpace(r[0])
  {
    if s != [] && IsSpace(s[0]) then StripLeft(s[1..]) else s
  }

  function StripRight(s: string): (r: string)
    ensures |r| <= |s| && r == s[..|r|]
    ensures forall i :: |r| <= i < |s| ==> IsSpace(s[i])
    ensures r != [] ==> !IsSpace(r[|r| - 1])
  {
    if s != [] && IsSpace(s[|s| - 1]) then StripRight(s[..|s| - 1]) else s
  }

  /** `r` is the window of `s` starting at `lo` that `strip()` keeps. */
  predicate StrippedAt(s: string, lo: nat, r: string)
  {
    && lo + |r| <= |s|
    && r == s[lo..lo + |r|]
    && (forall i :: 0 <= i < lo ==> IsSpace(s[i]))
    && (forall i :: lo + |r| <= i < |s| ==> IsSpace(s[i]))
    && (r != [] ==> !IsSpace(r[0]) && !IsSpace(r[|r| - 1]))
  }

  /** Python `s.strip()`: only whitespace is removed, and only at the two ends. */
  function Strip(s: string): (r: string)
    ensures exists lo: nat :: StrippedAt(s, lo, r)
  {
    var left := StripLeft(s);
    var r := StripRight(left);
    assert StrippedAt(s, |s| - |left|, r);
    r
  }

  /** Python `s.find(c)`: the first index of `c`, or -1. */
  function Find(s: string, c: char): (r: int)
    ensures -1 <= r < |s|
    ensures r == -1 <==> c !in s
    ensures r >= 0 ==> s[r] == c && c !in s[..r]
  {
    if s == [] then -1
    else if s[0] == c then 0
    else
      var k := Find(s[1..], c);
      assert s[1..][..k + 1] == s[1..k + 2] by { if k >= 0 { } }
      if k == -1 then -1 else k + 1
  }

  /** Python `s.rfind(c)`: the last index of `c`, or -1. */
  function RFind(s: string, c: char): (r: int)
    ensures -1 <= r < |s|
    ensures r == -1 <==> c !in s
    ensures r >= 0 ==> s[r] == c && c !in s[r + 1..]
  {
    if s == [] then -1
    else if s[|s| - 1] == c then |s| - 1
    else
      assert s == s[..|s| - 1] + [s[|s| - 1]];
      RFind(s[..|s| - 1], c)
  }

  lemma FindIsFirst(s: string, c: char, i: nat)
    requires i < |s| && s[i] == c && c !in s[..i]
    ensures Find(s, c) == i
  {
    assert s[i] == c;
  }

  lemma RFindIsLast(s: string, c: char, j: nat)
    requires j < |s| && s[j] == c && c !in s[j + 1..]
    ensures RFind(s, c) == j
  {
    assert s[j] == c;
  }

  /** Python `s[i:j]` for non-negative bounds. */
  function PySlice(s: string, i: nat, j: nat): string
  {
    var hi := if j <= |s| then j else |s|;
    if i < hi then s[i..hi] else []
  }

  /**
   * The brace trimming applied to the stripped text: cut from its first `{`
   * through its last `}` when it has a `{`. The second half of the guard
   * compares `rfind + 1` with -1 and so always holds.
   */
  function TrimToBraces(t: string): (r: string)
    ensures '{' !in t ==> r == t
    ensures |r| <= |t|
    ensures '{' in t && r != [] ==> r[0] == '{' && r[|r| - 1] == '}'
  {
    var start := Find(t, '{');
    var end := RFind(t, '}') + 1;
    if start != -1 && end != -1 then PySlice(t, start, end) else t
  }

  /** With a `{` and a `}` after it, the result is exactly the first `{` through the last `}`. */
  lemma TrimToBracesSlice(t: string, i: nat, j: nat)
    requires i <= j < |t|
    requires t[i] == '{' && '{' !in t[..i]
    requires t[j] == '}' && '}' !in t[j + 1..]
    ensures TrimToBraces(t) == t[i..j + 1]
  {
    FindIsFirst(t, '{', i);
    RFindIsLast(t, '}', j);
  }

  /** A `{` with no `}` after it leaves an empty text. */
  lemma TrimToBracesUnclosed(t: string, i: nat)
    requires i < |t|
    requires t[i] == '{' && '{' !in t[..i]
    requires '}' !in t[i..]
    ensures TrimToBraces(t) == []
  {
    FindIsFirst(t, '{', i);
  }

  /**
   * The text handed to the decoder: the stripped text when it has no `{`,
   * and otherwise empty or running from a `{` to a `}`.
   */
  function ExtractJsonText(text: string): (r: string)
    ensures '{' !in Strip(text) ==> r == Strip(text)
    ensures |r| <= |text|
    ensures '{' in r ==> r[0] == '{' && r[|r| - 1] == '}'
  {
    TrimToBraces(Strip(text))
  }

  // ---------------------------------------------------------------------------
  // Python's `in`, iteration and subscripting on decoded values
  // ---------------------------------------------------------------------------

  /** The value `json.loads` keeps for `key`: that of the last member named `key`. */
  function Lookup(members: seq<Member>, key: string): (r: Option<Json>)
    ensures r.Some? <==> exists k :: 0 <= k < |members| && members[k].key == key
    ensures r.Some? ==> exists k :: 0 <= k < |members| && members[k] == Member(key, r.value)
                                    && forall k' :: k < k' < |members| ==> members[k'].key != key
  {
    if members == [] then None
    else if members[|members| - 1].key == key then Some(members[|members| - 1].value)
    else
      var r := Lookup(members[..|members| - 1], key);
      assert forall k :: 0 <= k < |members| - 1 ==> members[k] == members[..|members| - 1][k];
      r
  }

  /** Python `needle in hay` on two strings. */
  predicate IsSubstring(needle: string, hay: string)
  {
    needle <= hay || (hay != [] && IsSubstring(needle, hay[1..]))
  }

  /** Python `key in container`: membership of a key, an element or a substring. */
  function PyContains(container: Json, key: string): Result<bool, ParseError>
  {
    match container
    case JObject(members) => Ok(Lookup(members, key).Some?)
    case JArray(items) => Ok(JString(key) in items)
    case JString(s) => Ok(IsSubstring(key, s))
    case _ => Err(TypeError("argument of type is not iterable"))
  }

  /** What a Python `for` loop visits: list elements, dict keys, one-character strings. */
  function PyIterate(v: Json): Result<seq<Json>, ParseError>
  {
    match v
    case JArray(items) => Ok(items)
    case JObject(members) => Ok(seq(|members|, k requires 0 <= k < |members| => JString(members[k].key)))
    case JString(s) => Ok(seq(|s|, k requires 0 <= k < |s| => JString([s[k]])))
    case _ => Err(TypeError("object is not iterable"))
  }

  /** Python `container[key]` with a string key. */
  function PyGetItem(container: Json, key: string): Result<Json, ParseError>
  {
    match container
    case JObject(members) =>
      (match Lookup(members, key)
       case Some(v) => Ok(v)
       case None => Err(KeyError(key)))
    case JArray(_) => Err(TypeError("list indices must be integers or slices, not str"))
    case JString(_) => Err(TypeError("string indices must be integers, not 'str'"))
    case _ => Err(TypeError("object is not subscriptable"))
  }

  // ---------------------------------------------------------------------------
  // Shape validation
  // ---------------------------------------------------------------------------

  /** The record shape the corpus expects: "step" and "capture" present, "page" absent or a string. */
  predicate WellFormedStep(members: seq<Member>)
  {
    && Lookup(members, "step").Some?
    && Lookup(members, "capture").Some?
    && (Lookup(members, "page").None? || Lookup(members, "page").value.JString?)
  }

  /** The checks made on one element of the steps collection. */
  function CheckStep(step: Json): (r: Outcome<ParseError>)
    ensures step.JObject? ==> (r.Pass? <==> WellFormedStep(step.members))
    ensures (step.JObject? && (Lookup(step.members, "step").None? || Lookup(step.members, "capture").None?))
              ==> r == Fail(StepMissingKeys)
    ensures (step.JObject? && Lookup(step.members, "step").Some? && Lookup(step.members, "capture").Some?
             && r.Fail?) ==> r == Fail(PageNotString)
    ensures step.JString? ==>
              (r.Pass? <==> IsSubstring("step", step.s) && IsSubstring("capture", step.s)
                            && !IsSubstring("page", step.s))
    ensures (step.JNull? || step.JBool? || step.JNumber?) ==> r.Fail? && r.error.TypeError?
  {
    match PyContains(step, "step")
    case Err(e) => Fail(e)
    case Ok(hasStep) =>
      if !hasStep then Fail(StepMissingKeys)
      else match PyContains(step, "capture")
        case Err(e) => Fail(e)
        case Ok(hasCapture) =>
          if !hasCapture then Fail(StepMissingKeys)
          else match PyContains(step, "page")
            case Err(e) => Fail(e)
            case Ok(hasPage) =>
              if !hasPage then Pass
              else match PyGetItem(step, "page")
                case Err(e) => Fail(e)
                case Ok(page) => if page.JString? then Pass else Fail(PageNotString)
  }

  /** The steps are checked in order; the first failing one decides the error. */
  function CheckAll(steps: seq<Json>): (r: Outcome<ParseError>)
    ensures r.Pass? <==> forall i :: 0 <= i < |steps| ==> CheckStep(steps[i]).Pass?
    ensures r.Fail? ==> exists k :: 0 <= k < |steps| && CheckStep(steps[k]) == r
                                    && forall i :: 0 <= i < k ==> CheckStep(steps[i]).Pass?
  {
    if steps == [] then Pass
    else match CheckStep(steps[0])
      case Fail(e) => Fail(e)
      case Pass =>
        var r := CheckAll(steps[1..]);
        assert forall i :: 0 < i < |steps| ==> steps[i] == steps[1..][i - 1];
        r
  }

  /** The validation of the decoded value: it is returned unchanged or an error is raised. */
  function Validate(data: Json): (r: Result<Json, ParseError>)
    ensures r.Ok? ==> r.value == data
    ensures !data.JObject? || Lookup(data.members, "steps").None? ==> r == Err(MissingStepsKey)
    ensures data.JObject? && Lookup(data.members, "steps") == Some(JArray([])) ==> r == Ok(data)
  {
    if !data.JObject? || Lookup(data.members, "steps").None? then Err(MissingStepsKey)
    else match PyIterate(Lookup(data.members, "steps").value)
      case Err(e) => Err(e)
      case Ok(steps) =>
        match CheckAll(steps)
        case Fail(e) => Err(e)
        case Pass => Ok(data)
  }

  /** With a list of steps, validation succeeds exactly when every step passes, else fails with the first failure. */
  lemma ValidateStepList(members: seq<Member>, items: seq<Json>)
    requires Lookup(members, "steps") == Some(JArray(items))
    ensures Validate(JObject(members)).Ok? <==> forall i :: 0 <= i < |items| ==> CheckStep(items[i]).Pass?
    ensures Validate(JObject(members)).Err? ==>
              exists k :: 0 <= k < |items| && CheckStep(items[k]) == Fail(Validate(JObject(members)).error)
                          && forall i :: 0 <= i < k ==> CheckStep(items[i]).Pass?
  {
    assert PyIterate(JArray(items)) == Ok(items);
  }

  /** With a list of object steps, validation succeeds exactly when every step is well formed. */
  lemma ValidateObjectSteps(members: seq<Member>, items: seq<Json>)
    requires Lookup(members, "steps") == Some(JArray(items))
    requires forall i :: 0 <= i < |items| ==> items[i].JObject?
    ensures Validate(JObject(members)).Ok? <==>
              forall i :: 0 <= i < |items| ==> WellFormedStep(items[i].members)
  {
    ValidateStepList(members, items);
  }

  /** `parse`: trim, decode with `loads`, validate. */
  function Parse(text: string, loads: string -> Result<Json, string>): (r: Result<Json, ParseError>)
    ensures loads(ExtractJsonText(text)).Err? ==> r == Err(InvalidJson(loads(ExtractJsonText(text)).error))
    ensures r.Ok? ==> loads(ExtractJsonText(text)) == Ok(r.value)
    ensures loads(ExtractJsonText(text)).Ok? ==> r == Validate(loads(ExtractJsonText(text)).value)
  {
    match loads(ExtractJsonText(text))
    case Err(detail) => Err(InvalidJson(detail))
    case Ok(data) => Validate(data)
  }
}
