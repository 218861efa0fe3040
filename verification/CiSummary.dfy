/** The verdict of the `CI Summary` poller, `scripts/ci/ci_summary_gate.py`. */
module CiSummary {
  import opened Options

  /** The `run_attempt` entry of a raw row; 0, null and "" count as missing. */
  datatype RawAttempt = Missing | Unparsable | Number(n: int)

  /** One row of the jobs array. */
  datatype Row = Row(name: string, runAttempt: RawAttempt, status: string, conclusion: Option<string>)

  datatype JobState = JobState(name: string, status: string, conclusion: Option<string>, attempt: int)
  {
    predicate Completed() { status == "completed" }

    /** Provably passed: success or skipped. */
    predicate GoodConclusion() { conclusion == Some("success") || conclusion == Some("skipped") }

    predicate Bad() { Completed() && !GoodConclusion() }

    predicate Succeeded() { Completed() && conclusion == Some("success") }
  }

  type Latest = map<string, JobState>

  // ---------- One state per job name ----------

  function AttemptOf(r: Row): int {
    match r.runAttempt
    case Number(n) => n
    case _ => 1
  }

  function StateOf(r: Row): JobState {
    JobState(r.name, r.status, r.conclusion, AttemptOf(r))
  }

  function Severity(job: JobState): int {
    if !job.Completed() then 2 else if !job.GoodConclusion() then 3 else 1
  }

  /** Rows without a name, or of another attempt than the pinned one, are ignored. */
  predicate Considered(r: Row, pinned: Option<int>) {
    r.name != "" && (pinned == None || AttemptOf(r) == pinned.value)
  }

  function Step(latest: Latest, r: Row, pinned: Option<int>): Latest {
    if !Considered(r, pinned) then latest
    else
      var current := StateOf(r);
      if r.name in latest && current.attempt < latest[r.name].attempt then latest
      else if r.name in latest && current.attempt == latest[r.name].attempt
          && Severity(current) < Severity(latest[r.name]) then latest
      else latest[r.name := current]
  }

  function Dedup(rows: seq<Row>, pinned: Option<int>): Latest {
    if rows == [] then map[] else Step(Dedup(rows[..|rows| - 1], pinned), rows[|rows| - 1], pinned)
  }

  method DedupLatest(rows: seq<Row>, pinned: Option<int>) returns (latest: Latest)
    ensures latest == Dedup(rows, pinned)
  {
    latest := map[];
    for n := 0 to |rows|
      invariant latest == Dedup(rows[..n], pinned)
    {
      var raw := rows[n];
      assert rows[..n + 1][..n] == rows[..n];
      if raw.name == "" { continue; }
      var attempt := AttemptOf(raw);
      if pinned != None && attempt != pinned.value { continue; }
      if raw.name in latest && attempt < latest[raw.name].attempt { continue; }
      var current := JobState(raw.name, raw.status, raw.conclusion, attempt);
      if raw.name in latest && attempt == latest[raw.name].attempt && Severity(current) < Severity(latest[raw.name]) {
        continue;
      }
      latest := latest[raw.name := current];
    }
    assert rows[..|rows|] == rows;
  }

  /** Later attempts first, and within an attempt the more blocking state. */
  predicate AtMost(r: Row, q: Row) {
    AttemptOf(r) < AttemptOf(q) || (AttemptOf(r) == AttemptOf(q) && Severity(StateOf(r)) <= Severity(StateOf(q)))
  }

  /** No considered row of the same job outranks `r`. */
  ghost predicate Top(rows: seq<Row>, pinned: Option<int>, r: Row) {
    && r in rows && Considered(r, pinned)
    && forall q | q in rows && Considered(q, pinned) && q.name == r.name :: AtMost(q, r)
  }

  /** Row `i` decides its job: it is a top row, and the last one in the array. */
  ghost predicate Decides(rows: seq<Row>, pinned: Option<int>, i: int) {
    && 0 <= i < |rows| && Top(rows, pinned, rows[i])
    && forall j | i < j < |rows| && rows[j].name == rows[i].name :: !Top(rows, pinned, rows[j])
  }

  /** The jobs listed are those with a considered row. */
  lemma {:induction false} DedupNames(rows: seq<Row>, pinned: Option<int>, name: string)
    ensures name in Dedup(rows, pinned) <==> exists r :: r in rows && Considered(r, pinned) && r.name == name
    decreases |rows|
  {
    hide Considered, StateOf, Severity;
    if rows != [] {
      var n := |rows| - 1;
      assert rows == rows[..n] + [rows[n]];
      DedupNames(rows[..n], pinned, name);
    }
  }

  lemma {:induction false} DedupDecides(rows: seq<Row>, pinned: Option<int>, name: string)
    requires name in Dedup(rows, pinned)
    ensures exists i ::
              Decides(rows, pinned, i) && rows[i].name == name && Dedup(rows, pinned)[name] == StateOf(rows[i])
    decreases |rows|
  {
    hide Considered, AtMost, StateOf, Top;
    var n := |rows| - 1;
    var before, r := rows[..n], rows[n];
    assert rows == before + [r];
    if name in Dedup(before, pinned) {
      DedupDecides(before, pinned, name);
      var i :| Decides(before, pinned, i) && before[i].name == name
          && Dedup(before, pinned)[name] == StateOf(before[i]);
      KeptOrReplaced(Dedup(before, pinned), r, pinned, name, before[i]);
      if !Considered(r, pinned) || r.name != name {
        OtherRowsDoNot(before, r, pinned, i);
        assert rows[i] == before[i];
      } else {
        NewRowRanks(before, r, pinned, i);
        assert rows[i] == before[i] && rows[n] == r;
      }
    } else {
      DedupNames(before, pinned, name);
      FirstOfItsName(before, r, pinned);
      assert Decides(rows, pinned, n);
    }
  }

  lemma KeptOrReplaced(latest: Latest, r: Row, pinned: Option<int>, name: string, top: Row)
    requires name in latest && latest[name] == StateOf(top)
    ensures name in Step(latest, r, pinned)
    ensures Step(latest, r, pinned)[name]
         == if Considered(r, pinned) && r.name == name && AtMost(top, r) then StateOf(r) else StateOf(top)
  {
  }

  lemma FirstOfItsName(before: seq<Row>, r: Row, pinned: Option<int>)
    requires Considered(r, pinned)
    requires forall q | q in before && Considered(q, pinned) :: q.name != r.name
    ensures Decides(before + [r], pinned, |before|)
  {
    hide Considered;
    assert (before + [r])[|before|] == r;
    assert forall q | q in before + [r] && Considered(q, pinned) && q.name == r.name :: q == r;
  }

  lemma OtherRowsDoNot(before: seq<Row>, r: Row, pinned: Option<int>, i: int)
    requires Decides(before, pinned, i) && (!Considered(r, pinned) || r.name != before[i].name)
    ensures Decides(before + [r], pinned, i)
  {
    var rows := before + [r];
    assert rows[i] == before[i] && rows[|before|] == r;
    assert forall q | q in rows && Considered(q, pinned) && q.name == before[i].name :: q in before;
    assert Top(rows, pinned, rows[i]);
    forall j | i < j < |rows| && rows[j].name == rows[i].name ensures !Top(rows, pinned, rows[j]) {
      if j < |before| {
        assert rows[j] == before[j] && !Top(before, pinned, before[j]);
      }
    }
  }

  lemma NewRowRanks(before: seq<Row>, r: Row, pinned: Option<int>, i: int)
    requires Decides(before, pinned, i) && Considered(r, pinned) && r.name == before[i].name
    ensures if AtMost(before[i], r) then Decides(before + [r], pinned, |before|)
            else Decides(before + [r], pinned, i)
  {
    var rows := before + [r];
    assert rows[i] == before[i] && rows[|before|] == r;
    if AtMost(before[i], r) {
      forall q | q in rows && Considered(q, pinned) && q.name == r.name ensures AtMost(q, r) {
        if q in before { assert AtMost(q, before[i]); }
      }
    } else {
      forall q | q in rows && Considered(q, pinned) && q.name == r.name ensures AtMost(q, rows[i]) {
        if q in before { assert AtMost(q, before[i]); }
      }
      assert Top(rows, pinned, rows[i]);
      forall j | i < j < |rows| && rows[j].name == r.name ensures !Top(rows, pinned, rows[j]) {
        if j < |before| {
          assert rows[j] == before[j] && !Top(before, pinned, before[j]);
        }
      }
    }
  }

  /** The fold keeps, for each job, the state of its last row of the highest attempt and then the highest severity. */
  lemma DedupKeepsTheTop(rows: seq<Row>, pinned: Option<int>, name: string)
    ensures name in Dedup(rows, pinned) <==> exists r :: r in rows && Considered(r, pinned) && r.name == name
    ensures name in Dedup(rows, pinned) ==>
              exists i ::
                Decides(rows, pinned, i) && rows[i].name == name && Dedup(rows, pinned)[name] == StateOf(rows[i])
  {
    hide Considered, StateOf, Decides, Dedup;
    DedupNames(rows, pinned, name);
    if name in Dedup(rows, pinned) { DedupDecides(rows, pinned, name); }
  }

  // ---------- The verdict ----------

  const DETECT_CHANGES_JOB := "Detect Changes"
  const TEST_SPLIT_PREFIX := "Tests (Split "

  datatype Config = Config(selfName: string, strict: seq<string>, skippable: seq<string>, allowlist: set<string>)
  {
    predicate Gate(name: string) { name in strict || name in skippable }

    /** Swept for failures: everything but the poller, the gates and the allowlist. */
    predicate Swept(name: string) {
      name != selfName && !Gate(name) && !IsAllowlisted(name, allowlist)
    }
  }

  /** The text before the first " / ". */
  function Caller(name: string): string {
    if |name| < 3 || name[..3] == " / " then (if |name| < 3 then name else "") else [name[0]] + Caller(name[1..])
  }

  predicate IsAllowlisted(name: string, allowlist: set<string>) {
    name in allowlist || Caller(name) in allowlist
  }

  predicate IsSplit(name: string) { TEST_SPLIT_PREFIX <= name }

  datatype Matrix = Ok | MatrixPending | Waived

  predicate DetectSucceeded(latest: Latest) {
    DETECT_CHANGES_JOB in latest && latest[DETECT_CHANGES_JOB].Succeeded()
  }

  function EvaluateTestMatrix(latest: Latest): Matrix {
    if !DetectSucceeded(latest) then Waived
    else if forall name | name in latest :: !IsSplit(name) then MatrixPending
    else if exists name | name in latest :: IsSplit(name) && !latest[name].Completed() then MatrixPending
    else Ok
  }

  predicate StrictFailure(latest: Latest, g: string) {
    g in latest && latest[g].Completed() && latest[g].conclusion != Some("success")
  }

  predicate IsBad(latest: Latest, name: string) { name in latest && latest[name].Bad() }

  predicate AnyFailure(latest: Latest, c: Config) {
    || (exists g | g in c.strict :: StrictFailure(latest, g))
    || (exists g | g in c.skippable :: IsBad(latest, g))
    || (exists name | name in latest :: c.Swept(name) && latest[name].Bad())
  }

  predicate GateMissingOrPending(latest: Latest, c: Config) {
    exists g | g in c.strict + c.skippable :: g !in latest || !latest[g].Completed()
  }

  datatype Verdict = SUCCESS | FAILURE | PENDING

  function Evaluate(latest: Latest, c: Config): Verdict {
    if AnyFailure(latest, c) then FAILURE
    else if GateMissingOrPending(latest, c) || EvaluateTestMatrix(latest) == MatrixPending then PENDING
    else SUCCESS
  }

  /** The verdict on a raw jobs array. */
  function VerdictOn(rows: seq<Row>, pinned: Option<int>, c: Config): Verdict {
    Evaluate(Dedup(rows, pinned), c)
  }

  // ---------- The verdict, read off names, statuses and conclusions ----------

  predicate SlashAt(name: string, i: int) {
    0 <= i && i + 3 <= |name| && name[i] == ' ' && name[i + 1] == '/' && name[i + 2] == ' '
  }

  /** The first " / " of the name is at `i`. */
  predicate FirstSlash(name: string, i: int) {
    SlashAt(name, i) && forall j | 0 <= j < i :: !SlashAt(name, j)
  }

  lemma {:induction false} CallerExactly(name: string)
    ensures forall i | FirstSlash(name, i) :: Caller(name) == name[..i]
    ensures (forall i :: !FirstSlash(name, i)) ==> Caller(name) == name
  {
    assert |name| >= 3 ==> (name[..3] == " / " <==> SlashAt(name, 0));
    if |name| >= 3 && SlashAt(name, 0) {
      assert FirstSlash(name, 0) && Caller(name) == "";
    } else if |name| >= 3 {
      var rest := name[1..];
      CallerExactly(rest);
      assert name == [name[0]] + rest && Caller(name) == [name[0]] + Caller(rest);
      hide Caller;
      forall i ensures SlashAt(rest, i) <==> SlashAt(name, i + 1) && i >= 0 {}
      forall i ensures FirstSlash(name, i) ==> FirstSlash(rest, i - 1) && name[..i] == [name[0]] + rest[..i - 1] {
        if FirstSlash(name, i) {
          assert i != 0 && SlashAt(rest, i - 1);
          forall j | 0 <= j < i - 1 ensures !SlashAt(rest, j) { assert !SlashAt(name, j + 1); }
        }
      }
      forall i ensures FirstSlash(rest, i) ==> FirstSlash(name, i + 1) {
        if FirstSlash(rest, i) {
          forall j | 0 <= j < i + 1 ensures !SlashAt(name, j) {
            assert j > 0 ==> !SlashAt(rest, j - 1);
          }
        }
      }
    }
  }

  /** Allowlisted is a job whose name is listed, or the part of it before the first " / ". */
  lemma AllowlistedExactly(name: string, allowlist: set<string>)
    ensures IsAllowlisted(name, allowlist)
       <==> name in allowlist || exists i :: FirstSlash(name, i) && name[..i] in allowlist
  {
    CallerExactly(name);
  }

  /** FAILURE: a completed job that is a strict gate and not successful; or neither successful nor skipped, and a
      skippable gate, or else neither the poller, nor a gate, nor allowlisted under its name or its caller's. */
  lemma FailureExactly(latest: Latest, c: Config)
    ensures Evaluate(latest, c) == FAILURE
       <==> exists n :: n in latest && latest[n].status == "completed" &&
              (|| (n in c.strict && latest[n].conclusion != Some("success"))
               || (&& latest[n].conclusion != Some("success") && latest[n].conclusion != Some("skipped")
                   && (|| n in c.skippable
                       || (&& n != c.selfName && n !in c.strict && n !in c.skippable && n !in c.allowlist
                           && forall i | FirstSlash(n, i) :: n[..i] !in c.allowlist))))
  {
    hide FirstSlash, IsAllowlisted, GateMissingOrPending, EvaluateTestMatrix;
    forall n { AllowlistedExactly(n, c.allowlist); }
    if g :| g in c.strict && StrictFailure(latest, g) {
      assert g in latest && latest[g].status == "completed";
    }
  }

  /** SUCCESS: not FAILURE, every gate is there and completed, and if the change detector succeeded at least one split
      is there and every split is completed. */
  lemma SuccessExactly(latest: Latest, c: Config)
    ensures Evaluate(latest, c) == SUCCESS
       <==> && Evaluate(latest, c) != FAILURE
            && (forall g | g in c.strict || g in c.skippable :: g in latest && latest[g].status == "completed")
            && ("Detect Changes" in latest && latest["Detect Changes"].status == "completed"
                && latest["Detect Changes"].conclusion == Some("success") ==>
                  && (exists n :: n in latest && "Tests (Split " <= n)
                  && forall n | n in latest && "Tests (Split " <= n :: latest[n].status == "completed")
  {
    hide AnyFailure;
    assert forall g :: g in c.strict + c.skippable <==> g in c.strict || g in c.skippable;
    assert forall n :: IsSplit(n) <==> "Tests (Split " <= n;
  }

  /** A row counts if it has a name and, with a pinned attempt, is of that attempt; a row without a readable attempt
      is of the first. */
  lemma ConsideredExactly(r: Row, pinned: Option<int>)
    ensures Considered(r, pinned)
       <==> && r.name != ""
            && (pinned == None || r.runAttempt == Number(pinned.value)
                || (pinned == Some(1) && r.runAttempt in {Missing, Unparsable}))
  {
  }

  /** Of two rows of one job the later attempt decides, whatever its state and wherever it stands. */
  lemma LaterAttemptDecides(r: Row, q: Row, a: int, b: int)
    requires r.name == q.name != "" && r.runAttempt == Number(a) && q.runAttempt == Number(b) && a < b
    ensures Dedup([r, q], None) == map[q.name := JobState(q.name, q.status, q.conclusion, b)] == Dedup([q, r], None)
  {
    OneRow(r);
    OneRow(q);
    assert [r, q][..1] == [r] && [q, r][..1] == [q];
    var only := map[r.name := StateOf(r)];
    assert Dedup([r, q], None) == Step(only, q, None) == only[q.name := StateOf(q)];
    assert Dedup([q, r], None) == Step(map[q.name := StateOf(q)], r, None) == map[q.name := StateOf(q)];
  }

  lemma OneRow(r: Row)
    requires r.name != ""
    ensures Dedup([r], None) == map[r.name := StateOf(r)]
  {
    assert [r][..0] == [] && Dedup([], None) == map[];
  }

  // ---------- When the order of the rows matters ----------

  ghost predicate SameRows(rows: seq<Row>, rows': seq<Row>) { forall r :: r in rows <==> r in rows' }

  /** The conclusion of this job decides more than whether it is good. */
  predicate Sensitive(c: Config, name: string) { name in c.strict || name == DETECT_CHANGES_JOB }

  /** Alike for the verdict: present, running or bad together, and equally successful where that counts. */
  ghost predicate Alike(a: Latest, b: Latest, c: Config) {
    && a.Keys == b.Keys
    && (forall n | n in a :: a[n].Completed() == b[n].Completed() && a[n].Bad() == b[n].Bad())
    && (forall n | n in a && Sensitive(c, n) :: a[n].Succeeded() == b[n].Succeeded())
  }

  lemma AlikeSameVerdict(a: Latest, b: Latest, c: Config)
    requires Alike(a, b, c)
    ensures Evaluate(a, c) == Evaluate(b, c)
  {
    assert forall g | g in c.strict :: StrictFailure(a, g) == StrictFailure(b, g);
    assert forall g :: IsBad(a, g) == IsBad(b, g);
    assert DetectSucceeded(a) == DetectSucceeded(b);
    assert EvaluateTestMatrix(a) == EvaluateTestMatrix(b);
    assert AnyFailure(a, c) == AnyFailure(b, c);
  }

  /** A success and a skip at the top of the same job. */
  ghost predicate Tied(rows: seq<Row>, pinned: Option<int>, name: string) {
    exists r, q :: Top(rows, pinned, r) && Top(rows, pinned, q) && r.name == q.name == name
                   && StateOf(r).Succeeded() && StateOf(q).Completed() && StateOf(q).conclusion == Some("skipped")
  }

  /** The decided state of a job is that of one of its top rows. */
  lemma DecidedByTop(rows: seq<Row>, pinned: Option<int>, name: string) returns (r: Row)
    requires name in Dedup(rows, pinned)
    ensures Top(rows, pinned, r) && r.name == name && Dedup(rows, pinned)[name] == StateOf(r)
  {
    DedupKeepsTheTop(rows, pinned, name);
    var i :| Decides(rows, pinned, i) && rows[i].name == name && Dedup(rows, pinned)[name] == StateOf(rows[i]);
    r := rows[i];
  }

  lemma SameNames(rows: seq<Row>, rows': seq<Row>, pinned: Option<int>)
    requires SameRows(rows, rows')
    ensures Dedup(rows, pinned).Keys == Dedup(rows', pinned).Keys
  {
    forall n ensures n in Dedup(rows, pinned) <==> n in Dedup(rows', pinned) {
      DedupKeepsTheTop(rows, pinned, n);
      DedupKeepsTheTop(rows', pinned, n);
    }
  }

  /** Top rows of one job complete and fail together. */
  lemma TopsAgree(rows: seq<Row>, rows': seq<Row>, pinned: Option<int>, r: Row, q: Row)
    requires SameRows(rows, rows')
    requires Top(rows, pinned, r) && Top(rows', pinned, q) && r.name == q.name
    ensures StateOf(r).Completed() == StateOf(q).Completed() && StateOf(r).Bad() == StateOf(q).Bad()
    ensures Top(rows, pinned, q)
  {
    assert AtMost(r, q) && AtMost(q, r);
  }

  /** The verdict does not depend on the order or repetition of rows unless a strict gate
      or the change detector has both a success and a skip at its top. */
  lemma OrderIrrelevantWithoutTies(rows: seq<Row>, rows': seq<Row>, pinned: Option<int>, c: Config)
    requires SameRows(rows, rows')
    requires forall n :: Sensitive(c, n) ==> !Tied(rows, pinned, n)
    ensures VerdictOn(rows, pinned, c) == VerdictOn(rows', pinned, c)
  {
    var a, b := Dedup(rows, pinned), Dedup(rows', pinned);
    SameNames(rows, rows', pinned);
    forall n | n in a
      ensures a[n].Completed() == b[n].Completed() && a[n].Bad() == b[n].Bad()
      ensures Sensitive(c, n) ==> a[n].Succeeded() == b[n].Succeeded()
    {
      var r := DecidedByTop(rows, pinned, n);
      var q := DecidedByTop(rows', pinned, n);
      TopsAgree(rows, rows', pinned, r, q);
      if Sensitive(c, n) { assert !Tied(rows, pinned, n); }
    }
    AlikeSameVerdict(a, b, c);
  }

  // ---------- The exact condition ----------

  /** The rows with this conclusion, or the others, in order. */
  function Select(rows: seq<Row>, conclusion: string, wanted: bool): seq<Row> {
    if rows == [] then []
    else
      var first := if (rows[0].conclusion == Some(conclusion)) == wanted then [rows[0]] else [];
      first + Select(rows[1..], conclusion, wanted)
  }

  lemma {:induction false} SelectMembers(rows: seq<Row>, conclusion: string, wanted: bool, r: Row)
    ensures r in Select(rows, conclusion, wanted) <==> r in rows && (r.conclusion == Some(conclusion)) == wanted
  {
    if rows != [] { SelectMembers(rows[1..], conclusion, wanted, r); }
  }

  /** The same rows, those with this conclusion moved to the end. */
  function MovedLast(rows: seq<Row>, conclusion: string): seq<Row> {
    Select(rows, conclusion, false) + Select(rows, conclusion, true)
  }

  lemma MovedLastSameRows(rows: seq<Row>, conclusion: string)
    ensures SameRows(rows, MovedLast(rows, conclusion))
  {
    forall r ensures r in rows <==> r in MovedLast(rows, conclusion) {
      SelectMembers(rows, conclusion, false, r);
      SelectMembers(rows, conclusion, true, r);
    }
  }

  /** If one part of the array at its end holds a top row of a job, that part decides the job. */
  lemma TailDecides(first: seq<Row>, last: seq<Row>, pinned: Option<int>, r: Row) returns (q: Row)
    requires Top(first + last, pinned, r) && r in last
    ensures r.name in Dedup(first + last, pinned)
    ensures q in last && Dedup(first + last, pinned)[r.name] == StateOf(q)
  {
    hide Dedup, Top;
    var rows := first + last;
    var k :| 0 <= k < |last| && last[k] == r;
    assert rows[|first| + k] == r;
    assert r in rows && Considered(r, pinned) by { TopIsConsidered(rows, pinned, r); }
    DedupKeepsTheTop(rows, pinned, r.name);
    var i :| Decides(rows, pinned, i) && rows[i].name == r.name && Dedup(rows, pinned)[r.name] == StateOf(rows[i]);
    assert !(i < |first| + k);
    q := rows[i];
    assert q == last[i - |first|];
  }

  lemma TopIsConsidered(rows: seq<Row>, pinned: Option<int>, r: Row)
    requires Top(rows, pinned, r)
    ensures r in rows && Considered(r, pinned)
  {
  }

  /** A top row with the conclusion that was moved last decides its job. */
  lemma MovedLastDecides(rows: seq<Row>, pinned: Option<int>, conclusion: string, r: Row)
    requires Top(rows, pinned, r) && r.conclusion == Some(conclusion)
    ensures var latest := Dedup(MovedLast(rows, conclusion), pinned);
            r.name in latest && latest[r.name].conclusion == Some(conclusion)
  {
    MovedLastSameRows(rows, conclusion);
    SelectMembers(rows, conclusion, true, r);
    var q := TailDecides(Select(rows, conclusion, false), Select(rows, conclusion, true), pinned, r);
    SelectMembers(rows, conclusion, true, q);
  }

  /** More jobs succeed in `b` than in `a`, and nothing else that matters differs. */
  ghost predicate MoreSuccess(a: Latest, b: Latest) {
    && a.Keys == b.Keys
    && (forall n | n in a :: a[n].Completed() == b[n].Completed() && a[n].Bad() == b[n].Bad())
    && (forall n | n in a && a[n].Succeeded() :: b[n].Succeeded())
  }

  /** Between the order with all skips last and the order with all successes last lies every other order. */
  lemma OrdersInBetween(rows: seq<Row>, rows': seq<Row>, pinned: Option<int>)
    requires SameRows(rows, rows')
    ensures MoreSuccess(Dedup(MovedLast(rows, "skipped"), pinned), Dedup(rows', pinned))
    ensures MoreSuccess(Dedup(rows', pinned), Dedup(MovedLast(rows, "success"), pinned))
  {
    var skips, successes := MovedLast(rows, "skipped"), MovedLast(rows, "success");
    MovedLastSameRows(rows, "skipped");
    MovedLastSameRows(rows, "success");
    assert SameRows(skips, rows') && SameRows(rows', successes);
    SameNames(skips, rows', pinned);
    SameNames(rows', successes, pinned);
    var a, m, b := Dedup(skips, pinned), Dedup(rows', pinned), Dedup(successes, pinned);
    forall n | n in m
      ensures a[n].Completed() == m[n].Completed() == b[n].Completed() && a[n].Bad() == m[n].Bad() == b[n].Bad()
      ensures a[n].Succeeded() ==> m[n].Succeeded()
      ensures m[n].Succeeded() ==> b[n].Succeeded()
    {
      var ra := DecidedByTop(skips, pinned, n);
      var rm := DecidedByTop(rows', pinned, n);
      var rb := DecidedByTop(successes, pinned, n);
      TopsAgree(skips, rows', pinned, ra, rm);
      TopsAgree(rows', successes, pinned, rm, rb);
      if m[n].Succeeded() { MovedLastDecides(rows, pinned, "success", rm); }
      if a[n].Succeeded() && !m[n].Succeeded() { MovedLastDecides(rows, pinned, "skipped", rm); }
    }
  }

  /** If the verdict is the same at both ends it is the same in between. */
  lemma VerdictSandwich(a: Latest, m: Latest, b: Latest, c: Config)
    requires MoreSuccess(a, m) && MoreSuccess(m, b) && Evaluate(a, c) == Evaluate(b, c)
    ensures Evaluate(m, c) == Evaluate(a, c)
  {
    assert forall g | g in c.strict && StrictFailure(b, g) :: StrictFailure(m, g);
    assert forall g | g in c.strict && StrictFailure(m, g) :: StrictFailure(a, g);
    assert forall g :: IsBad(a, g) == IsBad(m, g) && IsBad(m, g) == IsBad(b, g);
    assert AnyFailure(b, c) ==> AnyFailure(m, c);
    assert AnyFailure(m, c) ==> AnyFailure(a, c);
    assert GateMissingOrPending(a, c) == GateMissingOrPending(m, c) == GateMissingOrPending(b, c);
    assert EvaluateTestMatrix(a) == MatrixPending ==> EvaluateTestMatrix(m) == MatrixPending;
    assert EvaluateTestMatrix(m) == MatrixPending ==> EvaluateTestMatrix(b) == MatrixPending;
  }

  /** Some other order of the same rows gives another verdict. */
  ghost predicate OrderMatters(rows: seq<Row>, pinned: Option<int>, c: Config) {
    exists rows' :: SameRows(rows, rows') && VerdictOn(rows', pinned, c) != VerdictOn(rows, pinned, c)
  }

  /** With all successes last nothing fails, and a tie decides a strict gate, or decides whether an unfinished matrix
      is waited for. */
  ghost predicate DecisiveTie(rows: seq<Row>, pinned: Option<int>, c: Config) {
    var best := Dedup(MovedLast(rows, "success"), pinned);
    && !AnyFailure(best, c)
    && ((exists g :: g in c.strict && Tied(rows, pinned, g))
        || (Tied(rows, pinned, DETECT_CHANGES_JOB) && EvaluateTestMatrix(best) == MatrixPending
            && !GateMissingOrPending(best, c)))
  }

  lemma TiedEnds(rows: seq<Row>, pinned: Option<int>, name: string)
    requires Tied(rows, pinned, name)
    ensures var (a, b) := (Dedup(MovedLast(rows, "skipped"), pinned), Dedup(MovedLast(rows, "success"), pinned));
            name in a && name in b && b[name].Succeeded() && a[name].Completed()
                && a[name].conclusion == Some("skipped")
  {
    var r, q :| Top(rows, pinned, r) && Top(rows, pinned, q) && r.name == q.name == name
                && StateOf(r).Succeeded() && StateOf(q).Completed() && StateOf(q).conclusion == Some("skipped");
    MovedLastDecides(rows, pinned, "success", r);
    MovedLastDecides(rows, pinned, "skipped", q);
    MovedLastSameRows(rows, "success");
    MovedLastSameRows(rows, "skipped");
    var rb := DecidedByTop(MovedLast(rows, "success"), pinned, name);
    TopsAgree(rows, MovedLast(rows, "success"), pinned, r, rb);
    var ra := DecidedByTop(MovedLast(rows, "skipped"), pinned, name);
    TopsAgree(rows, MovedLast(rows, "skipped"), pinned, q, ra);
  }

  lemma UntiedEnds(rows: seq<Row>, pinned: Option<int>, name: string)
    requires !Tied(rows, pinned, name)
    ensures var (a, b) := (Dedup(MovedLast(rows, "skipped"), pinned), Dedup(MovedLast(rows, "success"), pinned));
            name in a && name in b ==> a[name].Succeeded() == b[name].Succeeded()
  {
    var skips, successes := MovedLast(rows, "skipped"), MovedLast(rows, "success");
    MovedLastSameRows(rows, "success");
    MovedLastSameRows(rows, "skipped");
    if name in Dedup(skips, pinned) && name in Dedup(successes, pinned) {
      var ra := DecidedByTop(skips, pinned, name);
      var rb := DecidedByTop(successes, pinned, name);
      assert SameRows(skips, successes);
      TopsAgree(skips, successes, pinned, ra, rb);
      assert Top(rows, pinned, ra) && Top(rows, pinned, rb);
    }
  }

  /** The two extreme orders disagree exactly on a decisive tie. */
  lemma ExtremesDiffer(rows: seq<Row>, pinned: Option<int>, c: Config)
    ensures DecisiveTie(rows, pinned, c)
       <==> VerdictOn(MovedLast(rows, "skipped"), pinned, c) != VerdictOn(MovedLast(rows, "success"), pinned, c)
  {
    hide MovedLast, SameRows, Tied, Dedup, IsSplit;
    var a, b := Dedup(MovedLast(rows, "skipped"), pinned), Dedup(MovedLast(rows, "success"), pinned);
    MovedLastSameRows(rows, "success");
    OrdersInBetween(rows, MovedLast(rows, "success"), pinned);
    assert MoreSuccess(a, b);
    assert forall g :: IsBad(a, g) == IsBad(b, g);
    assert GateMissingOrPending(a, c) == GateMissingOrPending(b, c);
    if g :| g in c.strict && Tied(rows, pinned, g) {
      TiedEnds(rows, pinned, g);
      assert StrictFailure(a, g);
    } else {
      forall g | g in c.strict ensures StrictFailure(a, g) == StrictFailure(b, g) {
        UntiedEnds(rows, pinned, g);
      }
      assert AnyFailure(a, c) == AnyFailure(b, c);
    }
    if Tied(rows, pinned, DETECT_CHANGES_JOB) {
      TiedEnds(rows, pinned, DETECT_CHANGES_JOB);
    } else {
      UntiedEnds(rows, pinned, DETECT_CHANGES_JOB);
      assert EvaluateTestMatrix(a) == EvaluateTestMatrix(b);
    }
    assert AnyFailure(b, c) ==> AnyFailure(a, c) by {
      assert forall g | g in c.strict && StrictFailure(b, g) :: StrictFailure(a, g);
    }
    assert EvaluateTestMatrix(a) == MatrixPending ==> EvaluateTestMatrix(b) == MatrixPending;
  }

  /** Reordering the rows can change the verdict exactly when there is a decisive tie. */
  lemma OrderMattersExactly(rows: seq<Row>, pinned: Option<int>, c: Config)
    ensures OrderMatters(rows, pinned, c) <==> DecisiveTie(rows, pinned, c)
  {
    ExtremesDiffer(rows, pinned, c);
    MovedLastSameRows(rows, "success");
    MovedLastSameRows(rows, "skipped");
    var a, b := MovedLast(rows, "skipped"), MovedLast(rows, "success");
    if DecisiveTie(rows, pinned, c) {
      if VerdictOn(a, pinned, c) != VerdictOn(rows, pinned, c) {
        assert SameRows(rows, a);
      } else {
        assert SameRows(rows, b) && VerdictOn(b, pinned, c) != VerdictOn(rows, pinned, c);
      }
    } else {
      forall rows' | SameRows(rows, rows') ensures VerdictOn(rows', pinned, c) == VerdictOn(rows, pinned, c) {
        OrdersInBetween(rows, rows', pinned);
        VerdictSandwich(Dedup(a, pinned), Dedup(rows', pinned), Dedup(b, pinned), c);
        OrdersInBetween(rows, rows, pinned);
        VerdictSandwich(Dedup(a, pinned), Dedup(rows, pinned), Dedup(b, pinned), c);
      }
    }
  }

  // ---------- Polling ----------

  // Two of the names are written in parts: the verifier unfolds a literal one character at a time.
  const STRICT_GATE_JOBS := [
    "OCC Preflight Dependency", "zone-filter / Zone Filter (docs-only check)", "lint", "Topic Naming Lint",
    "Runtime Sweep", "Compliance Sweep", "Core-Only Install Gate", "Contract Compliance Check",
    "Contract Sweep Gate", "Dependency Health Gate", "uv.lock Pin Reachability",
    "Aislop Sweep (strict, PR diff)", "Coverage Sweep Gate", "Workflow Module Resolution",
    "no-noncanonical-lifecycle-classes", "Event Registry Drift", "Topic Drift Check",
    "Topic Enum Drift Check", "contract-topic-graph", "Merge Reason-Code Gate"]

  const SKIPPABLE_GATE_JOBS := [
    "typecheck", "Detect Changes", "Integration Silent-Skip Guard (OMN-14172)",
    "E2E Workflow Runner (inmemory bus)", "Golden Chain Suite (inmemory bus)",
    "SEA E2E Acceptance + Error " + "Chains (OMN-12660)", "Generated-Node Golden " + "Chain Gate (OMN-13624)"]

  const REPOSITORY := Config("CI Summary", STRICT_GATE_JOBS, SKIPPABLE_GATE_JOBS, {"Coverage Aggregate (shadow)"})

  /** Two leading characters that no gate name has. */
  predicate StartsLikeSplit(n: string) { |n| >= 2 && n[0] == 'T' && n[1] == 'e' }

  lemma NoStrictGateIsSplit(n: string)
    requires StartsLikeSplit(n)
    ensures n !in STRICT_GATE_JOBS
  {
    assert forall i | 0 <= i < |STRICT_GATE_JOBS| :: !StartsLikeSplit(STRICT_GATE_JOBS[i]);
  }

  lemma NoSkippableGateIsSplit(n: string)
    requires StartsLikeSplit(n)
    ensures n !in SKIPPABLE_GATE_JOBS
  {
    var gates := SKIPPABLE_GATE_JOBS;
    assert gates[0][0] == 't' && gates[1][0] == 'D' && gates[2][0] == 'I' && gates[3][0] == 'E';
    assert gates[4][0] == 'G' && gates[5][0] == 'S' && gates[6][0] == 'G';
  }

  lemma SplitsAreSwept(n: string)
    requires IsSplit(n)
    ensures REPOSITORY.Swept(n)
  {
    assert StartsLikeSplit(n) && n[..3] != " / " by { assert n[..3] == TEST_SPLIT_PREFIX[..3]; }
    assert Caller(n) == [n[0]] + Caller(n[1..]);
    NoStrictGateIsSplit(n);
    NoSkippableGateIsSplit(n);
    NotAllowlisted(n);
  }

  lemma NotAllowlisted(n: string)
    requires StartsLikeSplit(n) && Caller(n) == [n[0]] + Caller(n[1..])
    ensures !IsAllowlisted(n, {"Coverage Aggregate (shadow)"})
    ensures n != "CI Summary"
  {
    assert Caller(n)[0] == 'T';
  }

  /** What the poller may see next at the same attempt: more jobs, and finished ones unchanged. */
  ghost predicate Grows(a: Latest, b: Latest) {
    a.Keys <= b.Keys && forall n | n in a && a[n].Completed() :: b[n] == a[n]
  }

  /** What SUCCESS stands for. */
  lemma SuccessMeans(latest: Latest, c: Config)
    ensures Evaluate(latest, c) == SUCCESS <==>
              && (forall g | g in c.strict :: g in latest && latest[g].Succeeded())
              && (forall g | g in c.skippable :: g in latest && latest[g].Completed() && latest[g].GoodConclusion())
              && (forall n | n in latest && c.Swept(n) :: !latest[n].Bad())
              && (DetectSucceeded(latest) ==>
                    && (exists n :: n in latest && IsSplit(n))
                    && forall n | n in latest && IsSplit(n) :: latest[n].Completed())
  {
    if Evaluate(latest, c) == SUCCESS {
      forall g | g in c.strict + c.skippable ensures g in latest && latest[g].Completed() {
        assert !GateMissingOrPending(latest, c);
      }
      forall g | g in c.strict ensures latest[g].Succeeded() {
        assert g in c.strict + c.skippable && !StrictFailure(latest, g);
      }
      forall g | g in c.skippable ensures latest[g].GoodConclusion() {
        assert g in c.strict + c.skippable && !IsBad(latest, g);
      }
    }
  }

  /** No false green on this repository's gates: either the change detector skipped, or at least one
      test split ran and every split seen passed or was skipped. */
  lemma GreenMeansTested(latest: Latest)
    requires Evaluate(latest, REPOSITORY) == SUCCESS
    ensures DETECT_CHANGES_JOB in latest
    ensures latest[DETECT_CHANGES_JOB].conclusion == Some("skipped")
         || (&& latest[DETECT_CHANGES_JOB].Succeeded()
             && (exists n :: n in latest && IsSplit(n))
             && forall n | n in latest && IsSplit(n) :: latest[n].Completed() && latest[n].GoodConclusion())
  {
    SuccessMeans(latest, REPOSITORY);
    assert DETECT_CHANGES_JOB in REPOSITORY.skippable;
    forall n | n in latest && IsSplit(n) ensures REPOSITORY.Swept(n) {
      SplitsAreSwept(n);
    }
  }

  /** On folded states that grow, as they do with one row per job, FAILURE is permanent. */
  lemma FailureIsPermanent(a: Latest, b: Latest, c: Config)
    requires Grows(a, b) && Evaluate(a, c) == FAILURE
    ensures Evaluate(b, c) == FAILURE
  {
    if g :| g in c.strict && StrictFailure(a, g) {
      assert StrictFailure(b, g);
    } else if g :| g in c.skippable && IsBad(a, g) {
      assert IsBad(b, g);
    } else {
      var n :| n in a && c.Swept(n) && a[n].Bad();
      assert n in b && b[n].Bad();
    }
  }

  /** On folded states that grow, as they do with one row per job, SUCCESS is lost exactly when a job that is no gate
      newly fails, or a new test split has not finished. */
  lemma SuccessLostOnlyByLateJobs(a: Latest, b: Latest, c: Config)
    requires Grows(a, b) && Evaluate(a, c) == SUCCESS && c.Gate(DETECT_CHANGES_JOB)
    ensures Evaluate(b, c) != SUCCESS <==>
              || (exists n :: n in b && c.Swept(n) && b[n].Bad() && !(n in a && a[n].Completed()))
              || (DetectSucceeded(b) && exists n :: n in b && IsSplit(n) && !b[n].Completed())
  {
    SuccessMeans(a, c);
    SuccessMeans(b, c);
    assert DetectSucceeded(a) <==> DetectSucceeded(b);
    if DetectSucceeded(a) {
      var n :| n in a && IsSplit(n);
      assert n in b && IsSplit(n);
    }
  }

  /** When everything has finished, all gates are there and the matrix is settled, the verdict is final. */
  lemma NothingPendingAtTheEnd(latest: Latest, c: Config)
    requires forall n | n in latest :: latest[n].Completed()
    ensures Evaluate(latest, c) == PENDING
       <==> && !AnyFailure(latest, c)
            && ((exists g :: (g in c.strict || g in c.skippable) && g !in latest)
                || (DetectSucceeded(latest) && forall n | n in latest :: !IsSplit(n)))
  {
    assert forall g :: g in c.strict + c.skippable <==> g in c.strict || g in c.skippable;
  }

  // ---------- Snapshots of the jobs array ----------

  ghost predicate OneRowPerName(rows: seq<Row>, pinned: Option<int>) {
    forall r, q | r in rows && q in rows && Considered(r, pinned) && Considered(q, pinned) && r.name == q.name :: r == q
  }

  /** Every job seen before is still there, and a completed one still has the same state. */
  ghost predicate RowsGrow(rows: seq<Row>, rows': seq<Row>, pinned: Option<int>) {
    forall r | r in rows && Considered(r, pinned) ::
      exists q :: q in rows' && Considered(q, pinned) && q.name == r.name
                  && (StateOf(r).Completed() ==> StateOf(q) == StateOf(r))
  }

  lemma GrowingSnapshots(rows: seq<Row>, rows': seq<Row>, pinned: Option<int>)
    requires RowsGrow(rows, rows', pinned) && OneRowPerName(rows', pinned)
    ensures Grows(Dedup(rows, pinned), Dedup(rows', pinned))
  {
    var a, b := Dedup(rows, pinned), Dedup(rows', pinned);
    forall n | n in a ensures n in b && (a[n].Completed() ==> b[n] == a[n]) {
      var r := DecidedByTop(rows, pinned, n);
      var q :| q in rows' && Considered(q, pinned) && q.name == r.name
               && (StateOf(r).Completed() ==> StateOf(q) == StateOf(r));
      DedupKeepsTheTop(rows', pinned, n);
      var q' := DecidedByTop(rows', pinned, n);
      assert q' == q;
    }
  }

  /** Over any run of polls, once the verdict is FAILURE it stays FAILURE. */
  lemma {:induction false} FailureStays(polls: seq<seq<Row>>, pinned: Option<int>, c: Config, i: nat, j: nat)
    requires i <= j < |polls|
    requires forall k | 0 <= k < |polls| :: OneRowPerName(polls[k], pinned)
    requires forall k | 0 < k < |polls| :: RowsGrow(polls[k - 1], polls[k], pinned)
    requires VerdictOn(polls[i], pinned, c) == FAILURE
    ensures VerdictOn(polls[j], pinned, c) == FAILURE
    decreases j - i
  {
    if i < j {
      FailureStays(polls, pinned, c, i, j - 1);
      GrowingSnapshots(polls[j - 1], polls[j], pinned);
      FailureIsPermanent(Dedup(polls[j - 1], pinned), Dedup(polls[j], pinned), c);
    }
  }

  // ---------- Several rows for one job ----------

  /** All rows that count are of one attempt, as they are when the attempt is pinned. */
  ghost predicate OneAttempt(rows: seq<Row>, pinned: Option<int>) {
    forall r, q | r in rows && q in rows && Considered(r, pinned) && Considered(q, pinned) ::
      AttemptOf(r) == AttemptOf(q)
  }

  ghost predicate RowOf(rows: seq<Row>, pinned: Option<int>, name: string, r: Row) {
    r in rows && Considered(r, pinned) && r.name == name
  }

  ghost predicate HasBad(rows: seq<Row>, pinned: Option<int>, name: string) {
    exists r :: RowOf(rows, pinned, name, r) && StateOf(r).Bad()
  }

  ghost predicate HasUnfinished(rows: seq<Row>, pinned: Option<int>, name: string) {
    exists r :: RowOf(rows, pinned, name, r) && !StateOf(r).Completed()
  }

  ghost predicate LastRow(rows: seq<Row>, pinned: Option<int>, name: string, i: int) {
    && 0 <= i < |rows| && RowOf(rows, pinned, name, rows[i])
    && forall j | i < j < |rows| :: !RowOf(rows, pinned, name, rows[j])
  }

  /** Every row of the job passed, and its last one with this conclusion. */
  ghost predicate EndsIn(rows: seq<Row>, pinned: Option<int>, name: string, conclusion: string) {
    && !HasBad(rows, pinned, name) && !HasUnfinished(rows, pinned, name)
    && exists i :: LastRow(rows, pinned, name, i) && rows[i].conclusion == Some(conclusion)
  }

  /** A failure of this job makes the verdict FAILURE. */
  predicate Counted(c: Config, name: string) { c.Gate(name) || c.Swept(name) }

  lemma CountedExactly(c: Config, name: string)
    ensures Counted(c, name)
       <==> || name in c.strict || name in c.skippable
            || (&& name != c.selfName && name !in c.allowlist
                && forall i | FirstSlash(name, i) :: name[..i] !in c.allowlist)
  {
    hide FirstSlash;
    AllowlistedExactly(name, c.allowlist);
  }

  /** Within one attempt the decided state is bad, unfinished or good just as the rows of the job say. */
  lemma DecidedByRows(rows: seq<Row>, pinned: Option<int>, name: string)
    requires OneAttempt(rows, pinned)
    ensures name in Dedup(rows, pinned) <==> exists r :: RowOf(rows, pinned, name, r)
    ensures IsBad(Dedup(rows, pinned), name) <==> HasBad(rows, pinned, name)
    ensures name in Dedup(rows, pinned) ==>
              (!Dedup(rows, pinned)[name].Completed()
               <==> HasUnfinished(rows, pinned, name) && !HasBad(rows, pinned, name))
  {
    hide Considered, Dedup;
    DedupNames(rows, pinned, name);
    if name in Dedup(rows, pinned) {
      var top := DecidedByTop(rows, pinned, name);
      assert RowOf(rows, pinned, name, top);
      forall r | RowOf(rows, pinned, name, r) ensures Severity(StateOf(r)) <= Severity(StateOf(top)) {
        assert AtMost(r, top);
      }
    }
  }

  /** If every row of a job passed, its last row decides. */
  lemma DecidedByLast(rows: seq<Row>, pinned: Option<int>, name: string)
    requires OneAttempt(rows, pinned) && name in Dedup(rows, pinned)
    requires !HasBad(rows, pinned, name) && !HasUnfinished(rows, pinned, name)
    ensures exists i :: LastRow(rows, pinned, name, i)
    ensures forall i | LastRow(rows, pinned, name, i) :: Dedup(rows, pinned)[name] == StateOf(rows[i])
  {
    hide Considered, Dedup;
    DedupDecides(rows, pinned, name);
    var d :| Decides(rows, pinned, d) && rows[d].name == name && Dedup(rows, pinned)[name] == StateOf(rows[d]);
    forall r | RowOf(rows, pinned, name, r) ensures Top(rows, pinned, r) {
      forall q | RowOf(rows, pinned, name, q) ensures AtMost(q, r) {
        assert Severity(StateOf(q)) == 1 == Severity(StateOf(r));
      }
    }
    assert LastRow(rows, pinned, name, d);
    forall i | LastRow(rows, pinned, name, i) ensures i == d { OneLastRow(rows, pinned, name, i, d); }
  }

  lemma StrictFailureByRows(rows: seq<Row>, pinned: Option<int>, g: string)
    requires OneAttempt(rows, pinned)
    ensures StrictFailure(Dedup(rows, pinned), g) <==> HasBad(rows, pinned, g) || EndsIn(rows, pinned, g, "skipped")
  {
    hide Dedup, RowOf, HasBad, HasUnfinished, LastRow;
    DecidedByRows(rows, pinned, g);
    if !HasBad(rows, pinned, g) && !HasUnfinished(rows, pinned, g) && g in Dedup(rows, pinned) {
      DecidedByLast(rows, pinned, g);
      var i :| LastRow(rows, pinned, g, i);
      LastRowIsRow(rows, pinned, g, i);
    } else if EndsIn(rows, pinned, g, "skipped") {
      var i :| LastRow(rows, pinned, g, i);
      LastRowIsRow(rows, pinned, g, i);
    }
  }

  lemma LastRowIsRow(rows: seq<Row>, pinned: Option<int>, name: string, i: int)
    requires LastRow(rows, pinned, name, i)
    ensures 0 <= i < |rows| && RowOf(rows, pinned, name, rows[i])
  {
  }

  /** FAILURE read off the folded states. */
  lemma FailureByNames(latest: Latest, c: Config)
    ensures Evaluate(latest, c) == FAILURE
       <==> || (exists n :: Counted(c, n) && IsBad(latest, n))
            || (exists g :: g in c.strict && StrictFailure(latest, g))
  {
    if n :| Counted(c, n) && IsBad(latest, n) {
      assert n in c.strict ==> StrictFailure(latest, n);
    }
    if n :| n in latest && c.Swept(n) && latest[n].Bad() {
      assert Counted(c, n) && IsBad(latest, n);
    }
    if g :| g in c.skippable && IsBad(latest, g) {
      assert Counted(c, g);
    }
  }

  /** FAILURE read off the rows: a counted job has a bad row, or a strict gate ends in a skip. */
  lemma FailureByRows(rows: seq<Row>, pinned: Option<int>, c: Config)
    requires OneAttempt(rows, pinned)
    ensures VerdictOn(rows, pinned, c) == FAILURE
       <==> || (exists n :: Counted(c, n) && HasBad(rows, pinned, n))
            || (exists g :: g in c.strict && EndsIn(rows, pinned, g, "skipped"))
  {
    hide Dedup, RowOf, HasBad, HasUnfinished, EndsIn, EvaluateTestMatrix, OneAttempt, IsAllowlisted,
         GateMissingOrPending;
    var latest := Dedup(rows, pinned);
    forall n ensures IsBad(latest, n) <==> HasBad(rows, pinned, n) { DecidedByRows(rows, pinned, n); }
    forall g ensures StrictFailure(latest, g) <==> HasBad(rows, pinned, g) || EndsIn(rows, pinned, g, "skipped") {
      StrictFailureByRows(rows, pinned, g);
    }
    FailureByNames(latest, c);
  }

  /** What takes a FAILURE back: no counted job has a bad row, every strict gate that had ended in a skip now has an
      unfinished row or a success behind the skip, and no other strict gate has come to end in a skip. */
  ghost predicate Lifts(rows: seq<Row>, rows': seq<Row>, pinned: Option<int>, c: Config) {
    && (forall n | Counted(c, n) :: !HasBad(rows', pinned, n))
    && (forall g | g in c.strict && EndsIn(rows, pinned, g, "skipped") ::
          HasUnfinished(rows', pinned, g) || EndsIn(rows', pinned, g, "success"))
    && (forall g | g in c.strict && !EndsIn(rows, pinned, g, "skipped") :: !EndsIn(rows', pinned, g, "skipped"))
  }

  lemma BadRowsStay(rows: seq<Row>, rows': seq<Row>, pinned: Option<int>, name: string)
    requires RowsGrow(rows, rows', pinned) && HasBad(rows, pinned, name)
    ensures HasBad(rows', pinned, name)
  {
    var r :| RowOf(rows, pinned, name, r) && StateOf(r).Bad();
    var q :| q in rows' && Considered(q, pinned) && q.name == r.name && StateOf(q) == StateOf(r);
    assert RowOf(rows', pinned, name, q);
  }

  /** A gate that has a row still has one; then it has a bad or an unfinished row, or ends in a success or a skip. */
  lemma RowsStay(rows: seq<Row>, rows': seq<Row>, pinned: Option<int>, name: string)
    requires RowsGrow(rows, rows', pinned) && EndsIn(rows, pinned, name, "skipped") && OneAttempt(rows', pinned)
    ensures HasBad(rows', pinned, name) || HasUnfinished(rows', pinned, name)
         || EndsIn(rows', pinned, name, "success") || EndsIn(rows', pinned, name, "skipped")
  {
    var i :| LastRow(rows, pinned, name, i);
    var q :| q in rows' && Considered(q, pinned) && q.name == name;
    assert RowOf(rows', pinned, name, q);
    DecidedByRows(rows', pinned, name);
    if !HasBad(rows', pinned, name) && !HasUnfinished(rows', pinned, name) {
      DecidedByLast(rows', pinned, name);
      var k :| LastRow(rows', pinned, name, k);
      assert RowOf(rows', pinned, name, rows'[k]);
      assert StateOf(rows'[k]).GoodConclusion();
    }
  }

  lemma OneLastRow(rows: seq<Row>, pinned: Option<int>, name: string, i: int, k: int)
    requires LastRow(rows, pinned, name, i) && LastRow(rows, pinned, name, k)
    ensures i == k
  {
  }

  lemma EndsOneWay(rows: seq<Row>, pinned: Option<int>, name: string)
    requires EndsIn(rows, pinned, name, "success")
    ensures !EndsIn(rows, pinned, name, "skipped")
  {
    var i :| LastRow(rows, pinned, name, i) && rows[i].conclusion == Some("success");
    forall k | LastRow(rows, pinned, name, k) ensures k == i { OneLastRow(rows, pinned, name, i, k); }
  }

  /** Between two snapshots of one attempt, with any number of rows for one job: FAILURE is left exactly so. */
  lemma FailureLeftExactly(rows: seq<Row>, rows': seq<Row>, pinned: Option<int>, c: Config)
    requires RowsGrow(rows, rows', pinned) && OneAttempt(rows, pinned) && OneAttempt(rows', pinned)
    requires VerdictOn(rows, pinned, c) == FAILURE
    ensures VerdictOn(rows', pinned, c) != FAILURE <==> Lifts(rows, rows', pinned, c)
    ensures VerdictOn(rows', pinned, c) != FAILURE ==> exists g :: g in c.strict && EndsIn(rows, pinned, g, "skipped")
  {
    hide RowsGrow, OneAttempt, HasBad, HasUnfinished, EndsIn, Counted, VerdictOn;
    FailureByRows(rows, pinned, c);
    FailureByRows(rows', pinned, c);
    forall n | HasBad(rows, pinned, n) { BadRowsStay(rows, rows', pinned, n); }
    forall g | g in c.strict
      ensures EndsIn(rows', pinned, g, "success") || HasUnfinished(rows', pinned, g)
          ==> !EndsIn(rows', pinned, g, "skipped")
      ensures EndsIn(rows, pinned, g, "skipped") ==>
                HasBad(rows', pinned, g) || HasUnfinished(rows', pinned, g)
                || EndsIn(rows', pinned, g, "success") || EndsIn(rows', pinned, g, "skipped")
      ensures Counted(c, g)
    {
      if EndsIn(rows', pinned, g, "success") { EndsOneWay(rows', pinned, g); }
      if EndsIn(rows, pinned, g, "skipped") { RowsStay(rows, rows', pinned, g); }
      GatesCount(c, g);
      UnfinishedIsNoEnd(rows', pinned, g);
    }
  }

  lemma GatesCount(c: Config, g: string)
    requires g in c.strict
    ensures Counted(c, g)
  {
  }

  lemma UnfinishedIsNoEnd(rows: seq<Row>, pinned: Option<int>, name: string)
    ensures HasUnfinished(rows, pinned, name) ==> !EndsIn(rows, pinned, name, "skipped")
  {
  }

  lemma RowsGrowTransitive(a: seq<Row>, b: seq<Row>, d: seq<Row>, pinned: Option<int>)
    requires RowsGrow(a, b, pinned) && RowsGrow(b, d, pinned)
    ensures RowsGrow(a, d, pinned)
  {
    hide Considered;
  }

  /** Along any run of polls of one attempt, a verdict FAILURE at poll i has been left at poll j exactly so. */
  lemma {:induction false} FailureAlongPolls(polls: seq<seq<Row>>, pinned: Option<int>, c: Config, i: nat, j: nat)
    requires i < j < |polls|
    requires forall k | 0 <= k < |polls| :: OneAttempt(polls[k], pinned)
    requires forall k | 0 < k < |polls| :: RowsGrow(polls[k - 1], polls[k], pinned)
    requires VerdictOn(polls[i], pinned, c) == FAILURE
    ensures VerdictOn(polls[j], pinned, c) != FAILURE <==> Lifts(polls[i], polls[j], pinned, c)
  {
    GrowsAlong(polls, pinned, i, j);
    FailureLeftExactly(polls[i], polls[j], pinned, c);
  }

  lemma {:induction false} GrowsAlong(polls: seq<seq<Row>>, pinned: Option<int>, i: nat, j: nat)
    requires i < j < |polls|
    requires forall k | 0 < k < |polls| :: RowsGrow(polls[k - 1], polls[k], pinned)
    ensures RowsGrow(polls[i], polls[j], pinned)
    decreases j - i
  {
    if i + 1 < j {
      GrowsAlong(polls, pinned, i, j - 1);
      RowsGrowTransitive(polls[i], polls[j - 1], polls[j], pinned);
    }
  }

  // ---------- When FAILURE is final, and how SUCCESS is lost ----------

  /** One more row for each strict gate, just started, in the attempt of `r`. */
  function Restarted(strict: seq<string>, r: Row): seq<Row> {
    seq(|strict|, i requires 0 <= i < |strict| => Row(strict[i], r.runAttempt, "in_progress", None))
  }

  lemma RestartedRows(rows: seq<Row>, pinned: Option<int>, c: Config, r: Row)
    requires OneAttempt(rows, pinned) && r in rows && Considered(r, pinned)
    ensures var rows' := rows + Restarted(c.strict, r);
            && RowsGrow(rows, rows', pinned) && OneAttempt(rows', pinned)
            && (forall n | HasBad(rows', pinned, n) :: HasBad(rows, pinned, n))
            && (forall g | g in c.strict && g != "" :: HasUnfinished(rows', pinned, g))
  {
    var more := Restarted(c.strict, r);
    var rows' := rows + more;
    assert forall q | q in more :: AttemptOf(q) == AttemptOf(r) && !StateOf(q).Completed();
    forall g | g in c.strict && g != "" ensures HasUnfinished(rows', pinned, g) {
      var i :| 0 <= i < |c.strict| && c.strict[i] == g;
      assert more[i] in rows' && RowOf(rows', pinned, g, more[i]);
    }
    forall n | HasBad(rows', pinned, n) ensures HasBad(rows, pinned, n) {
      var q :| RowOf(rows', pinned, n, q) && StateOf(q).Bad();
      assert RowOf(rows, pinned, n, q);
    }
  }

  /** The restarted gates take a FAILURE back that rests on no bad row. */
  lemma RestartLifts(rows: seq<Row>, pinned: Option<int>, c: Config) returns (rows': seq<Row>)
    requires OneAttempt(rows, pinned) && VerdictOn(rows, pinned, c) == FAILURE
    requires forall n | Counted(c, n) :: !HasBad(rows, pinned, n)
    ensures RowsGrow(rows, rows', pinned) && OneAttempt(rows', pinned) && VerdictOn(rows', pinned, c) != FAILURE
  {
    hide VerdictOn, RowsGrow, OneAttempt, HasBad, HasUnfinished, Counted, Restarted, LastRow;
    FailureByRows(rows, pinned, c);
    var g :| g in c.strict && EndsIn(rows, pinned, g, "skipped");
    var i :| LastRow(rows, pinned, g, i);
    LastRowIsRow(rows, pinned, g, i);
    rows' := rows + Restarted(c.strict, rows[i]);
    RestartedRows(rows, pinned, c, rows[i]);
    hide EndsIn;
    FailureByRows(rows', pinned, c);
    forall h | h in c.strict ensures !EndsIn(rows', pinned, h, "skipped") {
      UnfinishedIsNoEnd(rows', pinned, h);
      if h == "" { NamelessEndsNowhere(rows', pinned); }
    }
  }

  lemma NamelessEndsNowhere(rows: seq<Row>, pinned: Option<int>)
    ensures !EndsIn(rows, pinned, "", "skipped")
  {
  }

  /** What can be told from one snapshot: a FAILURE stays, whatever is still to come in the attempt, exactly if a
      counted job has a bad row. */
  lemma FailureIsFinalExactly(rows: seq<Row>, pinned: Option<int>, c: Config)
    requires OneAttempt(rows, pinned) && VerdictOn(rows, pinned, c) == FAILURE
    ensures (forall rows' | RowsGrow(rows, rows', pinned) && OneAttempt(rows', pinned) ::
               VerdictOn(rows', pinned, c) == FAILURE)
       <==> exists n :: Counted(c, n) && HasBad(rows, pinned, n)
  {
    hide VerdictOn, RowsGrow, OneAttempt, HasBad, Counted;
    if n :| Counted(c, n) && HasBad(rows, pinned, n) {
      forall rows' | RowsGrow(rows, rows', pinned) && OneAttempt(rows', pinned)
        ensures VerdictOn(rows', pinned, c) == FAILURE
      {
        BadRowsStay(rows, rows', pinned, n);
        FailureByRows(rows', pinned, c);
      }
    } else {
      var rows' := RestartLifts(rows, pinned, c);
    }
  }

  ghost predicate HasRow(rows: seq<Row>, pinned: Option<int>, name: string) {
    exists r :: RowOf(rows, pinned, name, r)
  }

  /** The decided state of the job is unfinished. */
  ghost predicate StillRunning(rows: seq<Row>, pinned: Option<int>, name: string) {
    HasUnfinished(rows, pinned, name) && !HasBad(rows, pinned, name)
  }

  /** The change detector asked for a matrix, and no split is there yet or one is unfinished. */
  ghost predicate MatrixOpen(rows: seq<Row>, pinned: Option<int>) {
    && EndsIn(rows, pinned, DETECT_CHANGES_JOB, "success")
    && ((forall n | IsSplit(n) :: !HasRow(rows, pinned, n)) || exists n :: IsSplit(n) && StillRunning(rows, pinned, n))
  }

  lemma SucceededByRows(rows: seq<Row>, pinned: Option<int>, name: string)
    requires OneAttempt(rows, pinned)
    ensures name in Dedup(rows, pinned) && Dedup(rows, pinned)[name].Succeeded()
       <==> EndsIn(rows, pinned, name, "success")
  {
    hide Dedup, RowOf, HasBad, HasUnfinished, LastRow;
    DecidedByRows(rows, pinned, name);
    if !HasBad(rows, pinned, name) && !HasUnfinished(rows, pinned, name) && name in Dedup(rows, pinned) {
      DecidedByLast(rows, pinned, name);
      var i :| LastRow(rows, pinned, name, i);
      LastRowIsRow(rows, pinned, name, i);
    } else if EndsIn(rows, pinned, name, "success") {
      var i :| LastRow(rows, pinned, name, i);
      LastRowIsRow(rows, pinned, name, i);
    }
  }

  lemma MatrixByRows(rows: seq<Row>, pinned: Option<int>)
    requires OneAttempt(rows, pinned)
    ensures EvaluateTestMatrix(Dedup(rows, pinned)) == MatrixPending <==> MatrixOpen(rows, pinned)
  {
    hide Dedup, RowOf, HasBad, HasUnfinished, EndsIn, OneAttempt, IsSplit;
    var latest := Dedup(rows, pinned);
    SucceededByRows(rows, pinned, DETECT_CHANGES_JOB);
    forall n
      ensures n in latest <==> HasRow(rows, pinned, n)
      ensures n in latest && !latest[n].Completed() <==> StillRunning(rows, pinned, n)
    {
      RunningByRows(rows, pinned, n);
    }
  }

  lemma RunningByRows(rows: seq<Row>, pinned: Option<int>, name: string)
    requires OneAttempt(rows, pinned)
    ensures name in Dedup(rows, pinned) <==> HasRow(rows, pinned, name)
    ensures name in Dedup(rows, pinned) && !Dedup(rows, pinned)[name].Completed() <==> StillRunning(rows, pinned, name)
  {
    hide Dedup, HasBad, Considered;
    DecidedByRows(rows, pinned, name);
  }

  /** SUCCESS read off the rows. */
  lemma SuccessByRows(rows: seq<Row>, pinned: Option<int>, c: Config)
    requires OneAttempt(rows, pinned)
    ensures VerdictOn(rows, pinned, c) == SUCCESS
       <==> && (forall n | Counted(c, n) :: !HasBad(rows, pinned, n))
            && (forall g | g in c.strict :: !EndsIn(rows, pinned, g, "skipped"))
            && (forall g | c.Gate(g) :: HasRow(rows, pinned, g) && !HasUnfinished(rows, pinned, g))
            && !MatrixOpen(rows, pinned)
  {
    hide Dedup, RowOf, HasBad, HasUnfinished, EndsIn, OneAttempt, MatrixOpen, EvaluateTestMatrix, AnyFailure, HasRow;
    var latest := Dedup(rows, pinned);
    FailureByRows(rows, pinned, c);
    MatrixByRows(rows, pinned);
    forall g
      ensures g in latest <==> HasRow(rows, pinned, g)
      ensures g in latest && !latest[g].Completed() <==> StillRunning(rows, pinned, g)
    {
      RunningByRows(rows, pinned, g);
    }
    assert forall g :: g in c.strict + c.skippable <==> c.Gate(g);
  }

  /** What takes a SUCCESS back: a counted job has a bad row, a strict gate ends in a skip, a gate has an unfinished
      row, or the change detector now asks for a matrix that is not there or not finished. */
  ghost predicate Spoils(rows: seq<Row>, pinned: Option<int>, c: Config) {
    || (exists n :: Counted(c, n) && HasBad(rows, pinned, n))
    || (exists g :: g in c.strict && EndsIn(rows, pinned, g, "skipped"))
    || (exists g :: c.Gate(g) && HasUnfinished(rows, pinned, g))
    || MatrixOpen(rows, pinned)
  }

  /** Between two snapshots of one attempt, with any number of rows for one job: SUCCESS is lost exactly so. */
  lemma SuccessLostExactly(rows: seq<Row>, rows': seq<Row>, pinned: Option<int>, c: Config)
    requires RowsGrow(rows, rows', pinned) && OneAttempt(rows, pinned) && OneAttempt(rows', pinned)
    requires VerdictOn(rows, pinned, c) == SUCCESS
    ensures VerdictOn(rows', pinned, c) != SUCCESS <==> Spoils(rows', pinned, c)
  {
    hide VerdictOn, OneAttempt, HasBad, HasUnfinished, EndsIn, MatrixOpen, Counted;
    SuccessByRows(rows, pinned, c);
    SuccessByRows(rows', pinned, c);
    forall g | c.Gate(g) ensures HasRow(rows', pinned, g) {
      var r :| RowOf(rows, pinned, g, r);
      var q :| q in rows' && Considered(q, pinned) && q.name == g;
      assert RowOf(rows', pinned, g, q);
    }
  }

  /** Along any run of polls of one attempt, a verdict SUCCESS at poll i has been lost at poll j exactly so. */
  lemma SuccessAlongPolls(polls: seq<seq<Row>>, pinned: Option<int>, c: Config, i: nat, j: nat)
    requires i < j < |polls|
    requires forall k | 0 <= k < |polls| :: OneAttempt(polls[k], pinned)
    requires forall k | 0 < k < |polls| :: RowsGrow(polls[k - 1], polls[k], pinned)
    requires VerdictOn(polls[i], pinned, c) == SUCCESS
    ensures VerdictOn(polls[j], pinned, c) != SUCCESS <==> Spoils(polls[j], pinned, c)
  {
    hide VerdictOn, OneAttempt, RowsGrow, Spoils;
    GrowsAlong(polls, pinned, i, j);
    SuccessLostExactly(polls[i], polls[j], pinned, c);
  }

  /** A late skip of a gate that had passed takes SUCCESS back. */
  lemma LateSkipSpoilsSuccess()
    ensures var pass := Row("lint", Number(1), "completed", Some("success"));
            var skip := pass.(conclusion := Some("skipped"));
            var c := Config("CI Summary", ["lint"], [], {});
            && RowsGrow([pass], [pass, skip], Some(1))
            && VerdictOn([pass], Some(1), c) == SUCCESS
            && VerdictOn([pass, skip], Some(1), c) == FAILURE
  {
    var pass := Row("lint", Number(1), "completed", Some("success"));
    var skip := pass.(conclusion := Some("skipped"));
    FoldOfTwo(pass, skip);
    assert StrictFailure(map["lint" := StateOf(skip)], ["lint"][0]);
    hide Dedup;
    assert pass in [pass, skip];
  }

  /** Two ways to leave FAILURE: a late success hides the skip that failed a strict gate. */
  lemma LateSuccessHidesSkip()
    ensures var skip := Row("lint", Number(1), "completed", Some("skipped"));
            var pass := skip.(conclusion := Some("success"));
            var c := Config("CI Summary", ["lint"], [], {});
            && RowsGrow([skip], [skip, pass], Some(1))
            && VerdictOn([skip], Some(1), c) == FAILURE
            && VerdictOn([skip, pass], Some(1), c) == SUCCESS
  {
    var skip := Row("lint", Number(1), "completed", Some("skipped"));
    FoldOfTwo(skip, skip.(conclusion := Some("success")));
    assert StrictFailure(map["lint" := StateOf(skip)], ["lint"][0]);
    hide Dedup;
    assert skip in [skip, skip.(conclusion := Some("success"))];
  }

  /** And so does a row of the same gate that is still running. */
  lemma LateStartHidesSkip()
    ensures var skip := Row("lint", Number(1), "completed", Some("skipped"));
            var running := Row("lint", Number(1), "in_progress", None);
            var c := Config("CI Summary", ["lint"], [], {});
            && RowsGrow([skip], [skip, running], Some(1))
            && VerdictOn([skip], Some(1), c) == FAILURE
            && VerdictOn([skip, running], Some(1), c) == PENDING
  {
    var skip := Row("lint", Number(1), "completed", Some("skipped"));
    var running := Row("lint", Number(1), "in_progress", None);
    FoldOfTwo(skip, running);
    assert StrictFailure(map["lint" := StateOf(skip)], ["lint"][0]);
    assert (["lint"] + [])[0] == "lint";
    hide Dedup;
    assert skip in [skip, running];
  }

  lemma FoldOfTwo(r: Row, q: Row)
    requires r.name == q.name != "" && AttemptOf(r) == 1 == AttemptOf(q) && Severity(StateOf(r)) <= Severity(StateOf(q))
    ensures Dedup([r], Some(1)) == map[r.name := StateOf(r)]
    ensures Dedup([r, q], Some(1)) == map[r.name := StateOf(q)]
  {
    assert [r, q][..1] == [r] && [r][..0] == [];
  }
}
