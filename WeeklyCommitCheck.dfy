/**
 * Detection of committers who do not commit at least every seven days:
 * sort the commits by date, walk them once remembering each committer's last
 * commit date, flag a committer whose gap to the previous commit exceeds
 * seven days, then add every expected user who never committed.
 *
 * As written, the walk looks the previous date up with the commit's DATE as
 * the key of a map keyed by committer NAME; the lookup yields `null` and the
 * day computation throws. `FindIrregularCommitters` models that;
 * `FindIrregularCommittersByName` is the corrected walk.
 *
 * A `Date` is its `getTime()` value, milliseconds since the epoch.
 */
module WeeklyCommitCheck {
  import opened Wrappers

  /** Milliseconds in a day, `1000 * 60 * 60 * 24`. */
  const MsPerDay: int := 86_400_000

  /** Milliseconds in an hour, the most a daylight-saving change moves a calendar date. */
  const MsPerHour: int := 3_600_000

  /** A gap of more days than this flags a committer. */
  const MaxGapDays: int := 7

  datatype Commit = Commit(committerName: string, commitDate: int)

  datatype JavaException = NullPointerException

  /** The argument handed to `Map.get(Object)`: a `String` or a `Date`. */
  datatype MapKey = StringKey(s: string) | DateKey(ms: int)

  /** Which field of the commit the walk passes to `lastCommitMap.get`. */
  datatype LookupBy = ByCommitDate | ByCommitterName

  function Abs(x: int): int
  {
    if x < 0 then -x else x
  }

  /** Java's `/` on `long` by a day: the quotient rounded toward zero. */
  function JavaDivByDay(a: int): (q: int)
    ensures Abs(q) == Abs(a) / MsPerDay
  {
    if a >= 0 then a / MsPerDay else -((-a) / MsPerDay)
  }

  /** `getDaysBetween` on two dates: `Math.abs` of the millisecond difference divided by a day. */
  function DaysBetween(d1: int, d2: int): (r: int)
    ensures r >= 0
    ensures r == Abs(d2 - d1) / MsPerDay
  {
    Abs(JavaDivByDay(d2 - d1))
  }

  /** `getDaysBetween` as called: a `null` first date throws when dereferenced. */
  function GetDaysBetween(d1: Option<int>, d2: int): (r: Result<int, JavaException>)
    ensures d1.None? <==> r == Err(NullPointerException)
    ensures d1.Some? ==> r.Ok? && r.value >= 0
  {
    match d1
    case None => Err(NullPointerException)
    case Some(t1) => Ok(DaysBetween(t1, d2))
  }

  /** The day count does not depend on the order of the two dates. */
  lemma DaysBetweenSymmetric(d1: int, d2: int)
    ensures DaysBetween(d1, d2) == DaysBetween(d2, d1)
  {
    assert Abs(d2 - d1) == Abs(d1 - d2);
  }

  /**
   * More than seven days apart means at least eight whole days apart: a gap of
   * seven days and any part of a day does not flag.
   */
  lemma {:induction false} GapExceedsLimit(d1: int, d2: int)
    ensures DaysBetween(d1, d2) > MaxGapDays <==> Abs(d2 - d1) >= (MaxGapDays + 1) * MsPerDay
  {
    var diff := Abs(d2 - d1);
    var q := diff / MsPerDay;
    assert diff == q * MsPerDay + diff % MsPerDay;
    if q > MaxGapDays {
      assert q * MsPerDay >= (MaxGapDays + 1) * MsPerDay;
    } else {
      assert q * MsPerDay <= MaxGapDays * MsPerDay;
    }
  }

  /**
   * A pair of the sample data marked "gap > 7 days": `getDateDaysAgo(k)` reads
   * the clock at `recent`, then `getDateDaysAgo(k + 7)` reads it again at
   * `older`, less than a day later; `shift` is what a daylight-saving change
   * between the two dates adds to seven calendar days. Such a pair is never
   * more than seven days apart, so the sample flags nobody for a gap; it is
   * exactly seven days when both readings agree and no change intervenes.
   */
  lemma SampleGapNotOverLimit(k: int, recent: int, older: int, shift: int)
    requires 0 <= older - recent < MsPerDay
    requires -MsPerHour <= shift <= MsPerHour
    ensures DaysBetween(older - (k + 7) * MsPerDay + shift, recent - k * MsPerDay) <= MaxGapDays
    ensures older == recent && shift == 0 ==>
              DaysBetween(older - (k + 7) * MsPerDay + shift, recent - k * MsPerDay) == MaxGapDays
  {
    var d1, d2 := older - (k + 7) * MsPerDay + shift, recent - k * MsPerDay;
    assert d2 - d1 == 7 * MsPerDay - (older - recent) - shift;
    GapExceedsLimit(d1, d2);
  }

  // ---------------------------------------------------------------------------
  // Sorting the commits by date, in place
  // ---------------------------------------------------------------------------

  predicate SortedByDate(cs: seq<Commit>)
  {
    forall i, j :: 0 <= i < j < |cs| ==> cs[i].commitDate <= cs[j].commitDate
  }

  /** `commits.sort(Comparator.comparing(commit -> commit.commitDate))`, as an insertion sort. */
  method SortByDate(a: array<Commit>)
    modifies a
    ensures SortedByDate(a[..])
    ensures multiset(a[..]) == multiset(old(a[..]))
  {
    for i := 0 to a.Length
      invariant SortedByDate(a[..i])
      invariant multiset(a[..]) == multiset(old(a[..]))
    {
      InsertIntoSorted(a, i);
    }
    assert a[..a.Length] == a[..];
  }

  /** Moves `a[i]` left past every later-dated commit, so that `a[..i + 1]` is sorted. */
  method InsertIntoSorted(a: array<Commit>, i: int)
    requires 0 <= i < a.Length && SortedByDate(a[..i])
    modifies a
    ensures SortedByDate(a[..i + 1])
    ensures multiset(a[..]) == multiset(old(a[..]))
  {
    var j := i;
    while j > 0 && a[j - 1].commitDate > a[j].commitDate
      invariant 0 <= j <= i
      invariant forall p, q :: 0 <= p < q <= i && p != j && q != j ==> a[p].commitDate <= a[q].commitDate
      invariant forall q :: j < q <= i ==> a[j].commitDate <= a[q].commitDate
      invariant multiset(a[..]) == multiset(old(a[..]))
    {
      Swap(a, j - 1, j);
      j := j - 1;
    }
  }

  method Swap(a: array<Commit>, i: int, j: int)
    requires 0 <= i < j < a.Length
    modifies a
    ensures a[i] == old(a[j]) && a[j] == old(a[i])
    ensures forall k :: 0 <= k < a.Length && k != i && k != j ==> a[k] == old(a[k])
    ensures multiset(a[..]) == multiset(old(a[..]))
  {
    a[i], a[j] := a[j], a[i];
  }

  lemma NamesOfPermutation(a: seq<Commit>, b: seq<Commit>)
    requires multiset(a) == multiset(b)
    ensures Names(a) == Names(b)
  {
    forall c | c in a ensures c in b {
      assert c in multiset(a);
    }
    forall c | c in b ensures c in a {
      assert c in multiset(b);
    }
  }

  // ---------------------------------------------------------------------------
  // The walk over the sorted commits
  // ---------------------------------------------------------------------------

  /** `HashMap<String, Date>.get(Object)`: a `Date` argument never equals a `String` key. */
  function MapGet(m: map<string, int>, key: MapKey): (r: Option<int>)
    ensures r.Some? <==> key.StringKey? && key.s in m
    ensures r.Some? ==> r.value == m[key.s]
  {
    match key
    case StringKey(s) => if s in m then Some(m[s]) else None
    case DateKey(_) => None
  }

  function LookupKey(c: Commit, lookup: LookupBy): MapKey
  {
    match lookup
    case ByCommitDate => DateKey(c.commitDate)
    case ByCommitterName => StringKey(c.committerName)
  }

  /** `lastCommitMap` and `irregularCommitters` between two iterations of the walk. */
  datatype ScanState = ScanState(lastCommit: map<string, int>, irregular: set<string>)

  /**
   * One iteration of the walk: it throws exactly when the committer was seen
   * before and the lookup is by date; otherwise it records the commit's date
   * and flags, if anyone, this committer.
   */
  function ScanStep(st: ScanState, c: Commit, lookup: LookupBy): (r: Result<ScanState, JavaException>)
    ensures r.Err? <==> lookup == ByCommitDate && c.committerName in st.lastCommit
    ensures r.Ok? ==> r.value.lastCommit == st.lastCommit[c.committerName := c.commitDate]
    ensures r.Ok? ==> st.irregular <= r.value.irregular <= st.irregular + {c.committerName}
    ensures r.Ok? && c.committerName !in st.lastCommit ==> r.value.irregular == st.irregular
  {
    var lastCommit := st.lastCommit[c.committerName := c.commitDate];
    if c.committerName in st.lastCommit then
      match GetDaysBetween(MapGet(st.lastCommit, LookupKey(c, lookup)), c.commitDate)
      case Err(e) => Err(e)
      case Ok(gap) =>
        Ok(ScanState(lastCommit, if gap > MaxGapDays then st.irregular + {c.committerName} else st.irregular))
    else
      Ok(ScanState(lastCommit, st.irregular))
  }

  /** The state after walking `cs` in order from empty collections, or the exception that stopped it. */
  function Scan(cs: seq<Commit>, lookup: LookupBy): (r: Result<ScanState, JavaException>)
    ensures r.Ok? ==> r.value.irregular <= r.value.lastCommit.Keys
  {
    if cs == [] then Ok(ScanState(map[], {}))
    else match Scan(cs[..|cs| - 1], lookup)
      case Err(e) => Err(e)
      case Ok(st) => ScanStep(st, cs[|cs| - 1], lookup)
  }

  /** Once the walk has thrown, the rest of the commits do not matter. */
  lemma {:induction false} ScanStopsAtError(cs: seq<Commit>, i: int, lookup: LookupBy)
    requires 0 <= i <= |cs| && Scan(cs[..i], lookup).Err?
    ensures Scan(cs, lookup) == Scan(cs[..i], lookup)
    decreases |cs|
  {
    if i < |cs| {
      assert cs[..|cs| - 1][..i] == cs[..i];
      ScanStopsAtError(cs[..|cs| - 1], i, lookup);
    } else {
      assert cs[..i] == cs;
    }
  }

  /** The first loop of `findIrregularCommitters`. */
  method ScanCommits(commits: seq<Commit>, lookup: LookupBy) returns (r: Result<ScanState, JavaException>)
    ensures r == Scan(commits, lookup)
  {
    var lastCommitMap: map<string, int> := map[];
    var irregularCommitters: set<string> := {};
    for i := 0 to |commits|
      invariant Scan(commits[..i], lookup) == Ok(ScanState(lastCommitMap, irregularCommitters))
    {
      var commit := commits[i];
      assert commits[..i + 1][..i] == commits[..i];
      if commit.committerName in lastCommitMap {
        var daysGap := GetDaysBetween(MapGet(lastCommitMap, LookupKey(commit, lookup)), commit.commitDate);
        if daysGap.Err? {
          ScanStopsAtError(commits, i + 1, lookup);
          return Err(daysGap.error);
        }
        if daysGap.value > MaxGapDays {
          irregularCommitters := irregularCommitters + {commit.committerName};
        }
      }
      lastCommitMap := lastCommitMap[commit.committerName := commit.commitDate];
    }
    assert commits[..|commits|] == commits;
    r := Ok(ScanState(lastCommitMap, irregularCommitters));
  }

  /** The second loop: every expected user missing from the map joins the result. */
  method AddNeverCommitted(users: seq<string>, lastCommit: map<string, int>, irregular: set<string>)
    returns (r: set<string>)
    ensures forall u :: u in r <==> u in irregular || (u in users && u !in lastCommit)
  {
    r := irregular;
    for i := 0 to |users|
      invariant forall u :: u in r <==> u in irregular || (u in users[..i] && u !in lastCommit)
    {
      assert users[..i + 1] == users[..i] + [users[i]];
      if users[i] !in lastCommit {
        r := r + {users[i]};
      }
    }
    assert users[..|users|] == users;
  }

  // ---------------------------------------------------------------------------
  // What the walk computes
  // ---------------------------------------------------------------------------

  function Names(cs: seq<Commit>): set<string>
  {
    set c | c in cs :: c.committerName
  }

  predicate DistinctNames(cs: seq<Commit>)
  {
    forall i, j :: 0 <= i < j < |cs| ==> cs[i].committerName != cs[j].committerName
  }

  /** Commit `i` is its committer's last one in `cs`. */
  predicate IsLastOf(cs: seq<Commit>, i: int)
  {
    0 <= i < |cs| && forall k :: i < k < |cs| ==> cs[k].committerName != cs[i].committerName
  }

  /** Commits `i` and `j` are consecutive commits of one committer, more than seven days apart. */
  predicate LongGapAt(cs: seq<Commit>, i: int, j: int)
  {
    && 0 <= i < j < |cs|
    && cs[i].committerName == cs[j].committerName
    && (forall k :: i < k < j ==> cs[k].committerName != cs[j].committerName)
    && DaysBetween(cs[i].commitDate, cs[j].commitDate) > MaxGapDays
  }

  ghost predicate HasLongGap(cs: seq<Commit>, name: string)
  {
    exists i, j :: LongGapAt(cs, i, j) && cs[j].committerName == name
  }

  ghost predicate GapEndsAt(cs: seq<Commit>, j: int)
  {
    exists i :: LongGapAt(cs, i, j)
  }

  lemma NamesSnoc(cs: seq<Commit>)
    requires cs != []
    ensures Names(cs) == Names(cs[..|cs| - 1]) + {cs[|cs| - 1].committerName}
  {
    assert cs == cs[..|cs| - 1] + [cs[|cs| - 1]];
  }

  lemma DistinctSnoc(cs: seq<Commit>)
    requires cs != []
    ensures DistinctNames(cs) <==>
              DistinctNames(cs[..|cs| - 1]) && cs[|cs| - 1].committerName !in Names(cs[..|cs| - 1])
  {
    var init, last := cs[..|cs| - 1], |cs| - 1;
    if cs[last].committerName in Names(init) {
      var d :| d in init && d.committerName == cs[last].committerName;
      var k :| 0 <= k < |init| && init[k] == d;
      assert cs[k].committerName == cs[last].committerName;
    } else if DistinctNames(init) {
      forall i, j | 0 <= i < j < |cs|
        ensures cs[i].committerName != cs[j].committerName
      {
        assert cs[i] == init[i] || i == last;
        if j == last {
          assert init[i] in init;
        } else {
          assert cs[j] == init[j];
        }
      }
    } else {
      var i, j :| 0 <= i < j < |init| && init[i].committerName == init[j].committerName;
      assert cs[i] == init[i] && cs[j] == init[j];
    }
  }

  /**
   * Whatever the lookup key, a completed walk leaves the map keyed by exactly
   * the committers' names, each mapped to the date of that committer's last
   * commit in walking order.
   */
  lemma {:induction false} ScanLastCommit(cs: seq<Commit>, lookup: LookupBy)
    requires Scan(cs, lookup).Ok?
    ensures Scan(cs, lookup).value.lastCommit.Keys == Names(cs)
    ensures forall i :: IsLastOf(cs, i) ==> Scan(cs, lookup).value.lastCommit[cs[i].committerName] == cs[i].commitDate
  {
    if cs != [] {
      var init, c := cs[..|cs| - 1], cs[|cs| - 1];
      ScanLastCommit(init, lookup);
      NamesSnoc(cs);
      var m := Scan(cs, lookup).value.lastCommit;
      forall i | IsLastOf(cs, i)
        ensures m[cs[i].committerName] == cs[i].commitDate
      {
        if i < |cs| - 1 {
          assert IsLastOf(init, i);
        }
      }
    }
  }

  /** Every commit's committer has one last commit at or after it. */
  lemma {:induction false} LastOfExists(cs: seq<Commit>, k: int)
    requires 0 <= k < |cs|
    ensures exists i :: k <= i && IsLastOf(cs, i) && cs[i].committerName == cs[k].committerName
    decreases |cs| - k
  {
    if !IsLastOf(cs, k) {
      var k' :| k < k' < |cs| && cs[k'].committerName == cs[k].committerName;
      LastOfExists(cs, k');
    }
  }

  /** After walking commits sorted by date, the map holds each committer's latest date. */
  lemma LastCommitIsLatest(cs: seq<Commit>, lookup: LookupBy)
    requires SortedByDate(cs) && Scan(cs, lookup).Ok?
    ensures forall k :: 0 <= k < |cs| ==>
              && cs[k].committerName in Scan(cs, lookup).value.lastCommit
              && cs[k].commitDate <= Scan(cs, lookup).value.lastCommit[cs[k].committerName]
    ensures forall n :: n in Scan(cs, lookup).value.lastCommit ==>
              exists k :: 0 <= k < |cs| && cs[k] == Commit(n, Scan(cs, lookup).value.lastCommit[n])
  {
    ScanLastCommit(cs, lookup);
    var m := Scan(cs, lookup).value.lastCommit;
    forall k | 0 <= k < |cs|
      ensures cs[k].committerName in m && cs[k].commitDate <= m[cs[k].committerName]
    {
      assert cs[k] in cs;
      LastOfExists(cs, k);
    }
    forall n | n in m
      ensures exists k :: 0 <= k < |cs| && cs[k] == Commit(n, m[n])
    {
      var c :| c in cs && c.committerName == n;
      var k :| 0 <= k < |cs| && cs[k] == c;
      LastOfExists(cs, k);
    }
  }

  /**
   * As written (lookup by date): the walk throws exactly when some committer
   * appears twice, and otherwise flags nobody.
   */
  lemma {:induction false} ScanByDateOutcome(cs: seq<Commit>)
    ensures Scan(cs, ByCommitDate).Ok? <==> DistinctNames(cs)
    ensures Scan(cs, ByCommitDate).Ok? ==> Scan(cs, ByCommitDate).value.irregular == {}
  {
    if cs != [] {
      var init, c := cs[..|cs| - 1], cs[|cs| - 1];
      ScanByDateOutcome(init);
      DistinctSnoc(cs);
      if Scan(init, ByCommitDate).Ok? {
        ScanLastCommit(init, ByCommitDate);
        assert Scan(cs, ByCommitDate) == ScanStep(Scan(init, ByCommitDate).value, c, ByCommitDate);
      }
    }
  }

  /** Long gaps of `cs` are those of its prefix, plus those that end at its last commit. */
  lemma LongGapSnoc(cs: seq<Commit>, name: string)
    requires cs != []
    ensures HasLongGap(cs, name) <==>
              HasLongGap(cs[..|cs| - 1], name) || (name == cs[|cs| - 1].committerName && GapEndsAt(cs, |cs| - 1))
  {
    var init := cs[..|cs| - 1];
    if HasLongGap(init, name) {
      var i, j :| LongGapAt(init, i, j) && init[j].committerName == name;
      assert LongGapAt(cs, i, j);
    }
    if HasLongGap(cs, name) {
      var i, j :| LongGapAt(cs, i, j) && cs[j].committerName == name;
      if j < |cs| - 1 {
        assert LongGapAt(init, i, j);
      }
    }
  }

  /** A long gap ending at the last commit starts at the committer's last earlier commit. */
  lemma GapEndsAtLastOnly(cs: seq<Commit>, m: map<string, int>)
    requires cs != []
    requires m.Keys == Names(cs[..|cs| - 1])
    requires forall i :: IsLastOf(cs[..|cs| - 1], i) ==> m[cs[i].committerName] == cs[i].commitDate
    requires GapEndsAt(cs, |cs| - 1)
    ensures cs[|cs| - 1].committerName in m
    ensures DaysBetween(m[cs[|cs| - 1].committerName], cs[|cs| - 1].commitDate) > MaxGapDays
  {
    var init, last := cs[..|cs| - 1], |cs| - 1;
    var i :| LongGapAt(cs, i, last);
    assert cs[i] == init[i];
    forall k | i < k < |init|
      ensures init[k].committerName != init[i].committerName
    {
      assert init[k] == cs[k];
    }
    assert IsLastOf(init, i);
    assert init[i] in init;
  }

  /** The last earlier commit of the last commit's committer, far enough back, starts a long gap. */
  lemma LongGapFromLastOf(cs: seq<Commit>, p: int)
    requires cs != [] && IsLastOf(cs[..|cs| - 1], p)
    requires cs[p].committerName == cs[|cs| - 1].committerName
    requires DaysBetween(cs[p].commitDate, cs[|cs| - 1].commitDate) > MaxGapDays
    ensures LongGapAt(cs, p, |cs| - 1)
  {
    var init := cs[..|cs| - 1];
    forall q | p < q < |cs| - 1
      ensures cs[q].committerName != cs[|cs| - 1].committerName
    {
      assert cs[q] == init[q];
    }
  }

  /** A committer whose last earlier date is more than seven days back ends a long gap. */
  lemma GapEndsAtLastIf(cs: seq<Commit>, m: map<string, int>)
    requires cs != []
    requires m.Keys == Names(cs[..|cs| - 1])
    requires forall i :: IsLastOf(cs[..|cs| - 1], i) ==> m[cs[i].committerName] == cs[i].commitDate
    requires cs[|cs| - 1].committerName in m
    requires DaysBetween(m[cs[|cs| - 1].committerName], cs[|cs| - 1].commitDate) > MaxGapDays
    ensures GapEndsAt(cs, |cs| - 1)
  {
    var init, c := cs[..|cs| - 1], cs[|cs| - 1];
    var d :| d in init && d.committerName == c.committerName;
    var k :| 0 <= k < |init| && init[k] == d;
    LastOfExists(init, k);
    var p :| k <= p && IsLastOf(init, p) && init[p].committerName == c.committerName;
    assert cs[p] == init[p];
    LongGapFromLastOf(cs, p);
  }

  /**
   * The last commit ends a long gap exactly when its committer is in a map
   * that holds every earlier committer's last date, more than seven days
   * before it.
   */
  lemma GapEndsAtLast(cs: seq<Commit>, m: map<string, int>)
    requires cs != []
    requires m.Keys == Names(cs[..|cs| - 1])
    requires forall i :: IsLastOf(cs[..|cs| - 1], i) ==> m[cs[i].committerName] == cs[i].commitDate
    ensures GapEndsAt(cs, |cs| - 1) <==>
              cs[|cs| - 1].committerName in m
              && DaysBetween(m[cs[|cs| - 1].committerName], cs[|cs| - 1].commitDate) > MaxGapDays
  {
    var c := cs[|cs| - 1];
    if GapEndsAt(cs, |cs| - 1) {
      GapEndsAtLastOnly(cs, m);
    }
    if c.committerName in m && DaysBetween(m[c.committerName], c.commitDate) > MaxGapDays {
      GapEndsAtLastIf(cs, m);
    }
  }

  /**
   * Corrected (lookup by name): the walk never throws, and a committer is
   * flagged exactly when two of their consecutive commits, in walking order,
   * are more than seven days apart.
   */
  lemma {:induction false} ScanByNameFlags(cs: seq<Commit>)
    ensures Scan(cs, ByCommitterName).Ok?
    ensures forall n :: n in Scan(cs, ByCommitterName).value.irregular <==> HasLongGap(cs, n)
  {
    if cs != [] {
      var init, c := cs[..|cs| - 1], cs[|cs| - 1];
      ScanByNameFlags(init);
      ScanLastCommit(init, ByCommitterName);
      var st := Scan(init, ByCommitterName).value;
      assert Scan(cs, ByCommitterName) == ScanStep(st, c, ByCommitterName);
      GapEndsAtLast(cs, st.lastCommit);
      forall n
        ensures n in Scan(cs, ByCommitterName).value.irregular <==> HasLongGap(cs, n)
      {
        LongGapSnoc(cs, n);
      }
    }
  }

  /** A committer with at most one commit is never flagged by the corrected walk. */
  lemma SingleCommitNeverFlagged(cs: seq<Commit>, name: string)
    requires forall i, j :: 0 <= i < j < |cs| && cs[i].committerName == name ==> cs[j].committerName != name
    ensures Scan(cs, ByCommitterName).Ok? && name !in Scan(cs, ByCommitterName).value.irregular
  {
    ScanByNameFlags(cs);
  }

  // ---------------------------------------------------------------------------
  // findIrregularCommitters
  // ---------------------------------------------------------------------------

  /**
   * `findIrregularCommitters` as written: the caller's list ends up sorted;
   * the call throws exactly when some committer appears twice, and otherwise
   * returns exactly the expected users who never committed.
   */
  method FindIrregularCommitters(users: seq<string>, commits: array<Commit>)
    returns (r: Result<set<string>, JavaException>)
    modifies commits
    ensures SortedByDate(commits[..]) && multiset(commits[..]) == multiset(old(commits[..]))
    ensures r.Ok? <==> DistinctNames(commits[..])
    ensures r.Err? ==> r.error == NullPointerException
    ensures r.Ok? ==> forall u :: u in r.value <==> u in users && u !in Names(old(commits[..]))
  {
    SortByDate(commits);
    NamesOfPermutation(commits[..], old(commits[..]));
    var scanned := ScanCommits(commits[..], ByCommitDate);
    ScanByDateOutcome(commits[..]);
    if scanned.Err? {
      return Err(scanned.error);
    }
    ScanLastCommit(commits[..], ByCommitDate);
    var result := AddNeverCommitted(users, scanned.value.lastCommit, scanned.value.irregular);
    return Ok(result);
  }

  /**
   * The corrected `findIrregularCommitters`: it always returns, and a name is
   * returned exactly when that committer has a gap of more than seven days
   * between consecutive commits in date order, or is an expected user who
   * never committed.
   */
  method FindIrregularCommittersByName(users: seq<string>, commits: array<Commit>)
    returns (r: Result<set<string>, JavaException>)
    modifies commits
    ensures SortedByDate(commits[..]) && multiset(commits[..]) == multiset(old(commits[..]))
    ensures r.Ok?
    ensures forall u :: u in r.value <==>
              HasLongGap(commits[..], u) || (u in users && u !in Names(old(commits[..])))
  {
    SortByDate(commits);
    NamesOfPermutation(commits[..], old(commits[..]));
    var scanned := ScanCommits(commits[..], ByCommitterName);
    ScanByNameFlags(commits[..]);
    ScanLastCommit(commits[..], ByCommitterName);
    var result := AddNeverCommitted(users, scanned.value.lastCommit, scanned.value.irregular);
    return Ok(result);
  }
}
