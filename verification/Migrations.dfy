/** The projection migration ledger of `scripts/run-projection-migrations.py` under crashes and
    concurrent runners, and the static gate `scripts/ci/check_migration_base_before_view.py`. */
module Migrations {
  import opened Options
  import opened SortedKeys

  datatype Stmt = CreateTable(name: string) | CreateView(name: string, sources: set<string>)

  /** The statements of one SQL file; equal statements stand for equal checksums. */
  type Sql = seq<Stmt>

  /** node -> file name -> content. */
  type Repo = map<string, map<string, Sql>>

  // ---------- The static gate ----------

  function Creates(sql: Sql): set<string> {
    set s | s in sql :: s.name
  }

  /** The relations created by the files that sort before `version`. */
  ghost function CreatedBefore(files: map<string, Sql>, version: string): set<string> {
    set f, r | f in files && StrLe(f, version) && f != version && r in Creates(files[f]) :: r
  }

  datatype Violation = Violation(file: string, view: string, relation: string)

  /** What the gate objects to. */
  ghost predicate Violates(files: map<string, Sql>, allow: set<string>, v: Violation) {
    && v.file in files
    && (exists s :: s in files[v.file] && s.CreateView? && s.name == v.view && v.relation in s.sources)
    && v.relation !in CreatedBefore(files, v.file) && v.relation !in allow && v.relation != v.view
  }

  ghost predicate Clean(files: map<string, Sql>, allow: set<string>) {
    forall v :: !Violates(files, allow, v)
  }

  /** What the first `n` files of the list create. */
  function CreatedBy(files: map<string, Sql>, names: seq<string>, n: nat): set<string>
    requires n <= |names| && forall k | k in names :: k in files
  {
    if n == 0 then {} else CreatedBy(files, names, n - 1) + Creates(files[names[n - 1]])
  }

  /** The relations a file's views read without finding them. */
  function FileViolations(file: string, sql: Sql, created: set<string>, allow: set<string>): set<Violation> {
    set s, r | s in sql && s.CreateView? && r in s.sources && r !in created && r !in allow && r != s.name ::
      Violation(file, s.name, r)
  }

  /** The gate's loop over one node's files, in file name order. */
  method CheckNode(files: map<string, Sql>, allow: set<string>) returns (violations: set<Violation>)
    ensures forall v :: v in violations <==> Violates(files, allow, v)
  {
    hide Violates, FileViolations, Sorted;
    violations := {};
    var created: set<string> := {};
    var names := Sorted(files.Keys);
    for i := 0 to |names|
      invariant created == CreatedBy(files, names, i)
      invariant forall v :: v in violations <==> v.file in names[..i] && Violates(files, allow, v)
    {
      var file := names[i];
      assert file in names;
      FileViolationsExact(files, allow, i);
      violations := violations + FileViolations(file, files[file], created, allow);
      created := created + Creates(files[file]);
      assert names[..i + 1] == names[..i] + [file];
    }
    ViolationsNameFiles(files, allow, names);
  }

  lemma ViolationsNameFiles(files: map<string, Sql>, allow: set<string>, names: seq<string>)
    requires names == Sorted(files.Keys)
    ensures forall v | Violates(files, allow, v) :: v.file in names[..|names|]
  {
    assert names[..|names|] == names;
  }

  lemma FileViolationsExact(files: map<string, Sql>, allow: set<string>, i: nat)
    requires i < |Sorted(files.Keys)|
    ensures var names := Sorted(files.Keys);
            && names[i] in files
            && forall v :: v in FileViolations(names[i], files[names[i]], CreatedBy(files, names, i), allow)
                      <==> v.file == names[i] && Violates(files, allow, v)
  {
    var names := Sorted(files.Keys);
    assert names[i] in names;
    CreatedByIsBefore(files, i);
  }

  lemma {:induction false} InCreatedBy(files: map<string, Sql>, names: seq<string>, n: nat, r: string)
    requires n <= |names| && forall k | k in names :: k in files
    ensures r in CreatedBy(files, names, n) <==> exists j :: 0 <= j < n && r in Creates(files[names[j]])
  {
    if n > 0 { InCreatedBy(files, names, n - 1, r); }
  }

  /** Being earlier in the sorted list is sorting before. */
  lemma EarlierSortsBefore(s: set<string>, i: nat, j: nat)
    requires i < |Sorted(s)| && j < |Sorted(s)| && i != j
    ensures j < i <==> StrLe(Sorted(s)[j], Sorted(s)[i])
    ensures Sorted(s)[i] != Sorted(s)[j]
  {
    if j < i { SortedAscending(s, j, i); }
    else {
      SortedAscending(s, i, j);
      if StrLe(Sorted(s)[j], Sorted(s)[i]) { StrLeAntisymmetric(Sorted(s)[i], Sorted(s)[j]); }
    }
  }

  lemma CreatedByIsBefore(files: map<string, Sql>, i: nat)
    requires i < |Sorted(files.Keys)|
    ensures CreatedBy(files, Sorted(files.Keys), i) == CreatedBefore(files, Sorted(files.Keys)[i])
  {
    var names := Sorted(files.Keys);
    hide Sorted;
    forall r ensures r in CreatedBy(files, names, i) <==> r in CreatedBefore(files, names[i]) {
      InCreatedBy(files, names, i, r);
      if r in CreatedBefore(files, names[i]) {
        var f :| f in files && StrLe(f, names[i]) && f != names[i] && r in Creates(files[f]);
        assert f in names;
        var j :| 0 <= j < |names| && names[j] == f;
        EarlierSortsBefore(files.Keys, i, j);
      }
      if j :| 0 <= j < i && r in Creates(files[names[j]]) {
        EarlierSortsBefore(files.Keys, i, j);
        assert names[j] in names;
      }
    }
  }

  // ---------- Executing a file ----------

  /** Every view of the file finds what it reads when the file runs against these relations. */
  predicate ViewsReady(relations: set<string>, sql: Sql)
    decreases |sql|
  {
    sql == [] ||
    ((sql[0].CreateView? ==> sql[0].sources <= relations) && ViewsReady(relations + {sql[0].name}, sql[1..]))
  }

  /** The same, asked only of views that read themselves and only about themselves. */
  predicate SelfReadsReady(relations: set<string>, sql: Sql)
    decreases |sql|
  {
    sql == [] ||
    ((sql[0].CreateView? && sql[0].name in sql[0].sources ==> sql[0].name in relations)
     && SelfReadsReady(relations + {sql[0].name}, sql[1..]))
  }

  lemma {:induction false} ReadyButForSelfReads(relations: set<string>, sql: Sql)
    requires forall s | s in sql && s.CreateView? :: s.sources - {s.name} <= relations
    ensures ViewsReady(relations, sql) <==> SelfReadsReady(relations, sql)
    decreases |sql|
  {
    if sql != [] {
      assert sql[0] in sql;
      ReadyButForSelfReads(relations + {sql[0].name}, sql[1..]);
    }
  }

  lemma {:induction false} NoSelfReadsReady(relations: set<string>, sql: Sql)
    requires forall s | s in sql && s.CreateView? :: s.name !in s.sources
    ensures SelfReadsReady(relations, sql)
    decreases |sql|
  {
    if sql != [] {
      assert sql[0] in sql;
      NoSelfReadsReady(relations + {sql[0].name}, sql[1..]);
    }
  }

  /** A file is ready exactly if each of its views reads only what is there or what an earlier statement creates. */
  lemma {:induction false} ViewsReadyExactly(relations: set<string>, sql: Sql)
    ensures ViewsReady(relations, sql)
       <==> forall i, r | 0 <= i < |sql| && sql[i].CreateView? && r in sql[i].sources ::
              r in relations || exists j :: 0 <= j < i && sql[j].name == r
    decreases |sql|
  {
    if sql != [] {
      var more := relations + {sql[0].name};
      ViewsReadyExactly(more, sql[1..]);
      forall i, r | 0 < i < |sql| && sql[i].CreateView? && r in sql[i].sources
        ensures (r in more || exists j :: 0 <= j < i - 1 && sql[1..][j].name == r)
           <==> (r in relations || exists j :: 0 <= j < i && sql[j].name == r)
      {
        if j :| 0 <= j < i && sql[j].name == r && j > 0 { assert sql[1..][j - 1].name == r; }
        if j :| 0 <= j < i - 1 && sql[1..][j].name == r { assert sql[j + 1].name == r; }
        assert sql[0].name == r ==> r in more;
      }
      assert forall i | 0 <= i < |sql| - 1 :: sql[1..][i] == sql[i + 1];
    }
  }

  /** What the gate reports, read off the statements: some view of the file reads another relation that is not
      allowlisted and that no statement of a file sorting before creates. */
  lemma ViolatesExactly(files: map<string, Sql>, allow: set<string>, file: string, view: string, relation: string)
    requires file in files
    ensures Violates(files, allow, Violation(file, view, relation))
       <==> && relation != view && relation !in allow
            && (exists i :: 0 <= i < |files[file]| && files[file][i].CreateView? && files[file][i].name == view
                            && relation in files[file][i].sources)
            && forall f, i | f in files && f != file && StrLe(f, file) && 0 <= i < |files[f]| ::
                 files[f][i].name != relation
  {
    var v := Violation(file, view, relation);
    if relation in CreatedBefore(files, file) {
      var f :| f in files && StrLe(f, file) && f != file && relation in Creates(files[f]);
      var s :| s in files[f] && s.name == relation;
      var i :| 0 <= i < |files[f]| && files[f][i] == s;
    }
    if f, i :| f in files && f != file && StrLe(f, file) && 0 <= i < |files[f]| && files[f][i].name == relation {
      assert files[f][i] in files[f] && relation in Creates(files[f]);
    }
    if s :| s in files[file] && s.CreateView? && s.name == view && relation in s.sources {
      var i :| 0 <= i < |files[file]| && files[file][i] == s;
    }
  }

  /** A violation is a real one: in a database with the allowlisted relations and all that earlier files create, the
      file fails, unless it creates the relation itself before the view. */
  lemma ViolationsAreReal(files: map<string, Sql>, allow: set<string>, v: Violation, i: nat)
    requires Violates(files, allow, v) && i < |files[v.file]| && files[v.file][i].CreateView?
    requires v.relation in files[v.file][i].sources
    requires forall j | 0 <= j < i :: files[v.file][j].name != v.relation
    ensures !ViewsReady(allow + CreatedBefore(files, v.file), files[v.file])
  {
    var sql, relations, r := files[v.file], allow + CreatedBefore(files, v.file), v.relation;
    ViewsReadyExactly(relations, sql);
    assert 0 <= i < |sql| && sql[i].CreateView? && r in sql[i].sources && r !in relations;
    assert !exists j :: 0 <= j < i && sql[j].name == r;
  }

  // ---------- The ledger machine: any number of runners, any interleaving ----------

  datatype Key = Key(node: string, version: string)

  /** The database: relations, ledger rows with their checksums, and (history) the files executed. */
  datatype Db = Db(relations: set<string>, ledger: map<Key, Sql>, executed: set<Key>)

  datatype Phase =
    | AtNode      // about to read the ledger for nodes[0]
    | AtFile      // inside apply_migration for pending[0], or done with the node
    | Executing   // about to run pending[0]
    | Recording   // ran it, about to insert its ledger row

  /** `nodes` are the nodes not finished yet. */
  datatype Runner = Runner(repo: Repo, filter: Option<string>, dryRun: bool, nodes: seq<string>, pending: seq<string>,
                           phase: Phase)
  {
    function Chosen(): seq<string> { NodesOf(repo, filter) }

    predicate HasFile() { nodes != [] && nodes[0] in repo && pending != [] && pending[0] in repo[nodes[0]] }

    function File(): Sql requires HasFile() { repo[nodes[0]][pending[0]] }

    function FileKey(): Key requires HasFile() { Key(nodes[0], pending[0]) }
  }

  datatype Action = Fetch | NextNode | Check | Execute(accepted: bool) | Record | Stop

  predicate CanAct(db: Db, r: Runner, a: Action) {
    match a
    case Fetch => r.phase == AtNode && r.nodes != [] && r.nodes[0] in r.repo
    case NextNode => r.phase == AtFile && r.nodes != [] && r.pending == []
    case Check => r.phase == AtFile && r.HasFile()
    case Execute(accepted) => r.phase == Executing && r.HasFile() && (accepted ==> ViewsReady(db.relations, r.File()))
    case Record => r.phase == Recording && r.HasFile()
    case Stop => true
  }

  /** `pending = [f for f in files if f.name not in applied]`. */
  function PendingOf(names: seq<string>, node: string, ledger: map<Key, Sql>): seq<string> {
    if names == [] then []
    else (if Key(node, names[0]) in ledger then [] else [names[0]]) + PendingOf(names[1..], node, ledger)
  }

  lemma {:induction false} PendingMembers(names: seq<string>, node: string, ledger: map<Key, Sql>, v: string)
    ensures v in PendingOf(names, node, ledger) <==> v in names && Key(node, v) !in ledger
  {
    if names != [] { PendingMembers(names[1..], node, ledger, v); }
  }

  function After(r: Runner): Runner
    requires r.pending != []
  {
    r.(pending := r.pending[1..], phase := AtFile)
  }

  /** One step of one runner; it is gone after a crash, an exception or a rejected file. */
  function Act(db: Db, r: Runner, a: Action): (Db, Option<Runner>)
    requires CanAct(db, r, a)
  {
    match a
    case Fetch =>
      (db, Some(r.(pending := PendingOf(Sorted(r.repo[r.nodes[0]].Keys), r.nodes[0], db.ledger), phase := AtFile)))
    case NextNode => (db, Some(r.(nodes := r.nodes[1..], phase := AtNode)))
    case Check =>
      if r.FileKey() in db.ledger then
        (db, if db.ledger[r.FileKey()] == r.File() then Some(After(r)) else None)   // a different checksum raises
      else (db, Some(if r.dryRun then After(r) else r.(phase := Executing)))
    case Execute(accepted) =>
      if accepted then
        (db.(relations := db.relations + Creates(r.File()), executed := db.executed + {r.FileKey()}),
         Some(r.(phase := Recording)))
      else (db, None)
    case Record =>
      (if r.FileKey() in db.ledger then db else db.(ledger := db.ledger[r.FileKey() := r.File()]), Some(After(r)))
    case Stop => (db, None)
  }

  datatype State = State(db: Db, runners: map<nat, Runner>)

  datatype Label = Begin(id: nat, repo: Repo, filter: Option<string>, dryRun: bool) | Step(id: nat, action: Action)

  function NodesOf(repo: Repo, filter: Option<string>): seq<string> {
    match filter
    case None => Sorted(repo.Keys)
    case Some(n) => if n in repo then [n] else []
  }

  predicate Enabled(s: State, l: Label) {
    match l
    case Begin(id, _, _, _) => id !in s.runners
    case Step(id, a) => id in s.runners && CanAct(s.db, s.runners[id], a)
  }

  function Next(s: State, l: Label): State
    requires Enabled(s, l)
  {
    match l
    case Begin(id, repo, filter, dryRun) =>
      s.(runners := s.runners[id := Runner(repo, filter, dryRun, NodesOf(repo, filter), [], AtNode)])
    case Step(id, a) =>
      var (db, r) := Act(s.db, s.runners[id], a);
      State(db, if r.Some? then s.runners[id := r.value] else s.runners - {id})
  }

  ghost predicate Run(s: State, labels: seq<Label>, s': State)
    decreases |labels|
  {
    if labels == [] then s' == s
    else Enabled(s, labels[0]) && Run(Next(s, labels[0]), labels[1..], s')
  }

  // ---------- Ledger rows ----------

  /** Nothing is ever dropped, and no ledger row is ever changed. */
  ghost predicate Extends(a: Db, b: Db) {
    && a.relations <= b.relations && a.executed <= b.executed
    && forall k | k in a.ledger :: k in b.ledger && b.ledger[k] == a.ledger[k]
  }

  predicate RecordingExecuted(db: Db, r: Runner) {
    r.phase == Recording ==> r.HasFile() && r.FileKey() in db.executed
  }

  /** Every recorded migration was executed. */
  ghost predicate LedgerSound(s: State) {
    && (forall k | k in s.db.ledger :: k in s.db.executed)
    && (forall id | id in s.runners :: RecordingExecuted(s.db, s.runners[id]))
  }

  lemma ActExtends(db: Db, r: Runner, a: Action)
    requires CanAct(db, r, a)
    ensures Extends(db, Act(db, r, a).0)
  {
  }

  lemma ActKeepsLedgerSound(db: Db, r: Runner, a: Action)
    requires CanAct(db, r, a) && RecordingExecuted(db, r) && forall k | k in db.ledger :: k in db.executed
    ensures forall k | k in Act(db, r, a).0.ledger :: k in Act(db, r, a).0.executed
    ensures Act(db, r, a).1.Some? ==> RecordingExecuted(Act(db, r, a).0, Act(db, r, a).1.value)
  {
  }

  lemma StepKeepsLedger(s: State, l: Label)
    requires Enabled(s, l) && LedgerSound(s)
    ensures LedgerSound(Next(s, l)) && Extends(s.db, Next(s, l).db)
  {
    if l.Step? {
      ActExtends(s.db, s.runners[l.id], l.action);
      ActKeepsLedgerSound(s.db, s.runners[l.id], l.action);
      hide Act, CanAct;
    }
  }

  /** Under any interleaving of runners, crashes and rejected files: rows and relations only grow,
      no row is rewritten, and whatever is recorded was executed. */
  lemma {:induction false} LedgerOverAnyRun(s: State, labels: seq<Label>, s': State)
    requires LedgerSound(s) && Run(s, labels, s')
    ensures LedgerSound(s') && Extends(s.db, s'.db)
    decreases |labels|
  {
    if labels != [] {
      StepKeepsLedger(s, labels[0]);
      LedgerOverAnyRun(Next(s, labels[0]), labels[1..], s');
    }
  }

  // ---------- A runner that gets through ----------

  predicate NodeRecorded(db: Db, repo: Repo, node: string) {
    node in repo ==> forall v | v in repo[node] :: Key(node, v) in db.ledger
  }

  /** The nodes a runner has finished are recorded, and of its present node whatever is no longer pending. */
  ghost predicate KeptUp(db: Db, r: Runner) {
    && |r.nodes| <= |r.Chosen()| && r.nodes == r.Chosen()[|r.Chosen()| - |r.nodes|..]
    && (!r.dryRun ==> forall i | 0 <= i < |r.Chosen()| - |r.nodes| :: NodeRecorded(db, r.repo, r.Chosen()[i]))
    && (!r.dryRun && r.phase != AtNode && r.nodes != [] && r.nodes[0] in r.repo ==>
          forall v | v in r.repo[r.nodes[0]] && v !in r.pending :: Key(r.nodes[0], v) in db.ledger)
    && (r.phase in {Executing, Recording} ==> !r.dryRun)
  }

  lemma KeptUpExtends(db: Db, db': Db, r: Runner)
    requires KeptUp(db, r) && Extends(db, db')
    ensures KeptUp(db', r)
  {
    forall i | 0 <= i < |r.Chosen()| - |r.nodes| && !r.dryRun ensures NodeRecorded(db', r.repo, r.Chosen()[i]) {
      assert NodeRecorded(db, r.repo, r.Chosen()[i]);
    }
  }

  lemma FetchKeepsUp(db: Db, r: Runner)
    requires CanAct(db, r, Fetch) && KeptUp(db, r)
    ensures KeptUp(db, Act(db, r, Fetch).1.value)
  {
    hide NodeRecorded, NodesOf, PendingOf;
    var files, node := r.repo[r.nodes[0]], r.nodes[0];
    forall v | v in files
      ensures v in PendingOf(Sorted(files.Keys), node, db.ledger) <==> Key(node, v) !in db.ledger
    {
      PendingMembers(Sorted(files.Keys), node, db.ledger, v);
    }
    hide Sorted;
  }

  /** The pending file is recorded, and left behind. */
  lemma AfterKeepsUp(db: Db, r: Runner)
    requires KeptUp(db, r) && r.phase != AtNode && r.HasFile() && (r.dryRun || r.FileKey() in db.ledger)
    ensures KeptUp(db, After(r))
  {
    hide NodeRecorded;
    var after := After(r);
    assert r.pending == [r.pending[0]] + after.pending;
  }

  lemma NextNodeKeepsUp(db: Db, r: Runner)
    requires CanAct(db, r, NextNode) && KeptUp(db, r)
    ensures KeptUp(db, Act(db, r, NextNode).1.value)
  {
    hide NodesOf;
    var done := |r.Chosen()| - |r.nodes|;
    assert r.Chosen()[done] == r.nodes[0];
    if !r.dryRun {
      assert NodeRecorded(db, r.repo, r.Chosen()[done]);
    }
  }

  lemma ActKeepsUp(db: Db, r: Runner, a: Action)
    requires CanAct(db, r, a) && KeptUp(db, r)
    ensures Act(db, r, a).1.Some? ==> KeptUp(Act(db, r, a).0, Act(db, r, a).1.value)
  {
    hide KeptUp;
    ActExtends(db, r, a);
    KeptUpExtends(db, Act(db, r, a).0, r);
    match a
    case Fetch => FetchKeepsUp(db, r);
    case NextNode => NextNodeKeepsUp(db, r);
    case Check =>
      if r.FileKey() in db.ledger || r.dryRun { AfterKeepsUp(db, r); } else { PhaseKeepsUp(db, r, Executing); }
    case Execute(accepted) =>
      if accepted { PhaseKeepsUp(Act(db, r, a).0, r, Recording); }
    case Record => AfterKeepsUp(Act(db, r, a).0, r);
    case Stop =>
  }

  lemma PhaseKeepsUp(db: Db, r: Runner, phase: Phase)
    requires KeptUp(db, r) && r.phase in {AtFile, Executing} && !r.dryRun
    ensures KeptUp(db, r.(phase := phase))
  {
    hide NodeRecorded;
  }

  lemma StepKeepsUp(s: State, l: Label)
    requires Enabled(s, l) && forall id | id in s.runners :: KeptUp(s.db, s.runners[id])
    ensures forall id | id in Next(s, l).runners :: KeptUp(Next(s, l).db, Next(s, l).runners[id])
  {
    if l.Step? {
      ActKeepsUp(s.db, s.runners[l.id], l.action);
      ActExtends(s.db, s.runners[l.id], l.action);
      hide Act, CanAct, KeptUp;
      forall id | id in s.runners && id != l.id ensures KeptUp(Next(s, l).db, s.runners[id]) {
        KeptUpExtends(s.db, Next(s, l).db, s.runners[id]);
      }
    }
  }

  lemma {:induction false} RunKeepsUp(s: State, labels: seq<Label>, s': State)
    requires (forall i | i in s.runners :: KeptUp(s.db, s.runners[i])) && Run(s, labels, s')
    ensures forall i | i in s'.runners :: KeptUp(s'.db, s'.runners[i])
    decreases |labels|
  {
    if labels != [] {
      hide KeptUp, Next;
      StepKeepsUp(s, labels[0]);
      RunKeepsUp(Next(s, labels[0]), labels[1..], s');
    }
  }

  /** Whatever the other runners do, crash or not: a runner that was no dry run and has no node left has every file of
      its checkout in the ledger, or of the one node it was asked for. */
  lemma FinishedRunnerRecordedAll(s: State, labels: seq<Label>, s': State, id: nat)
    requires (forall i | i in s.runners :: KeptUp(s.db, s.runners[i])) && Run(s, labels, s')
    requires id in s'.runners && s'.runners[id].nodes == [] && !s'.runners[id].dryRun
    ensures var r := s'.runners[id];
            forall n, v | n in r.repo && v in r.repo[n] && (r.filter == None || r.filter == Some(n)) ::
              Key(n, v) in s'.db.ledger
  {
    RunKeepsUp(s, labels, s');
    var r := s'.runners[id];
    forall n, v | n in r.repo && v in r.repo[n] && (r.filter == None || r.filter == Some(n))
      ensures Key(n, v) in s'.db.ledger
    {
      assert n in r.Chosen();
      var i :| 0 <= i < |r.Chosen()| && r.Chosen()[i] == n;
      assert NodeRecorded(s'.db, r.repo, n);
    }
  }

  lemma {:induction false} KeepsItsTask(s: State, labels: seq<Label>, s': State, id: nat)
    requires Run(s, labels, s') && id in s.runners && id in s'.runners
    requires forall i | 0 <= i < |labels| && labels[i].Begin? :: labels[i].id != id
    ensures s'.runners[id].repo == s.runners[id].repo && s'.runners[id].filter == s.runners[id].filter
    ensures s'.runners[id].dryRun == s.runners[id].dryRun
    decreases |labels|
  {
    if labels != [] {
      if id !in Next(s, labels[0]).runners { StaysAway(Next(s, labels[0]), labels[1..], s', id); }
      KeepsItsTask(Next(s, labels[0]), labels[1..], s', id);
    }
  }

  lemma {:induction false} StaysAway(s: State, labels: seq<Label>, s': State, id: nat)
    requires Run(s, labels, s') && id !in s.runners
    requires forall i | 0 <= i < |labels| && labels[i].Begin? :: labels[i].id != id
    ensures id !in s'.runners
    decreases |labels|
  {
    if labels != [] { StaysAway(Next(s, labels[0]), labels[1..], s', id); }
  }

  /** So a runner begun on a checkout, with or without a node asked for, that gets through has recorded exactly that. */
  lemma BegunRunnerRecordedAll(s: State, id: nat, repo: Repo, filter: Option<string>, labels: seq<Label>, s': State)
    requires (forall i | i in s.runners :: KeptUp(s.db, s.runners[i])) && id !in s.runners
    requires Run(Next(s, Begin(id, repo, filter, false)), labels, s')
    requires forall i | 0 <= i < |labels| && labels[i].Begin? :: labels[i].id != id
    requires id in s'.runners && s'.runners[id].nodes == []
    ensures forall n, v | n in repo && v in repo[n] && (filter == None || filter == Some(n)) ::
              Key(n, v) in s'.db.ledger
  {
    var begun := Next(s, Begin(id, repo, filter, false));
    KeepsItsTask(begun, labels, s', id);
    StepKeepsUp(s, Begin(id, repo, filter, false));
    hide KeptUp, NodesOf;
    FinishedRunnerRecordedAll(begun, labels, s', id);
  }

  // ---------- A clean gate makes every run safe ----------

  /** The gate passes on every node of the checkout. */
  ghost predicate GateClean(repo: Repo, allow: set<string>) {
    forall n | n in repo :: Clean(repo[n], allow)
  }

  /** The allowlisted relations exist, and so does whatever a recorded migration creates. */
  ghost predicate SoundDb(db: Db, allow: set<string>) {
    && allow <= db.relations
    && forall k | k in db.ledger :: Creates(db.ledger[k]) <= db.relations
  }

  /** The recorded files of the node this runner is about to look at are as they were recorded. */
  ghost predicate Undrifted(db: Db, r: Runner) {
    r.nodes != [] && r.nodes[0] in r.repo ==>
      forall v | v in r.repo[r.nodes[0]] && Key(r.nodes[0], v) in db.ledger ::
        db.ledger[Key(r.nodes[0], v)] == r.repo[r.nodes[0]][v]
  }

  /** Every new runner has a gate-clean checkout, and no recorded file has changed by the time the ledger is read for
      its node. A file that is not recorded may change between checkouts. */
  ghost predicate GoodRun(s: State, labels: seq<Label>, allow: set<string>)
    decreases |labels|
  {
    labels == [] ||
    (Enabled(s, labels[0]) && GoodLabel(s, labels[0], allow) && GoodRun(Next(s, labels[0]), labels[1..], allow))
  }

  ghost predicate GoodLabel(s: State, l: Label, allow: set<string>)
    requires Enabled(s, l)
  {
    match l
    case Begin(_, repo, _, _) => GateClean(repo, allow)
    case Step(id, action) => action == Fetch ==> Undrifted(s.db, s.runners[id])
  }

  predicate Ascending(names: seq<string>) {
    forall i, j | 0 <= i < j < |names| :: StrLe(names[i], names[j]) && names[i] != names[j]
  }

  /** What a runner inside a node has left is in order, and what it has not left is in the database. */
  ghost predicate InNode(db: Db, r: Runner) {
    && r.nodes != [] && r.nodes[0] in r.repo
    && (forall i | 0 <= i < |r.pending| :: r.pending[i] in r.repo[r.nodes[0]])
    && Ascending(r.pending)
    && (!r.dryRun ==>
          forall v | v in r.repo[r.nodes[0]] && v !in r.pending :: Creates(r.repo[r.nodes[0]][v]) <= db.relations)
  }

  ghost predicate SoundRunner(db: Db, r: Runner, allow: set<string>) {
    && GateClean(r.repo, allow)
    && (r.phase != AtNode ==> InNode(db, r))
    && (r.phase == Executing || r.phase == Recording ==> r.pending != [] && !r.dryRun)
    && (r.phase == Recording ==> r.HasFile() && Creates(r.File()) <= db.relations)
  }

  ghost predicate Sound(s: State, allow: set<string>) {
    && SoundDb(s.db, allow)
    && forall id | id in s.runners :: SoundRunner(s.db, s.runners[id], allow)
  }

  lemma {:induction false} PendingAscends(names: seq<string>, node: string, ledger: map<Key, Sql>)
    requires Ascending(names)
    ensures Ascending(PendingOf(names, node, ledger))
  {
    if names != [] {
      PendingAscends(names[1..], node, ledger);
      var rest := PendingOf(names[1..], node, ledger);
      forall j | 0 <= j < |rest| ensures StrLe(names[0], rest[j]) && names[0] != rest[j] {
        PendingMembers(names[1..], node, ledger, rest[j]);
        assert rest[j] in rest;
        var k :| 0 <= k < |names[1..]| && names[1..][k] == rest[j];
      }
    }
  }

  lemma FetchSound(db: Db, r: Runner, allow: set<string>)
    requires CanAct(db, r, Fetch) && SoundRunner(db, r, allow) && SoundDb(db, allow) && Undrifted(db, r)
    ensures SoundRunner(db, Act(db, r, Fetch).1.value, allow)
  {
    var files, node := r.repo[r.nodes[0]], r.nodes[0];
    var names := Sorted(files.Keys);
    var pending := PendingOf(names, node, db.ledger);
    forall i, j | 0 <= i < j < |names| ensures StrLe(names[i], names[j]) && names[i] != names[j] {
      SortedAscending(files.Keys, i, j);
    }
    PendingAscends(names, node, db.ledger);
    forall i | 0 <= i < |pending| ensures pending[i] in files {
      PendingMembers(names, node, db.ledger, pending[i]);
      assert pending[i] in pending;
    }
    forall v | v in files && v !in pending ensures Creates(files[v]) <= db.relations {
      PendingMembers(names, node, db.ledger, v);
      assert v in names;
      assert Key(node, v) in db.ledger && db.ledger[Key(node, v)] == files[v];
    }
  }

  /** Leaving the first pending file behind, once its relations exist. */
  lemma AfterSound(db: Db, r: Runner, allow: set<string>)
    requires SoundRunner(db, r, allow) && r.phase != AtNode && r.HasFile()
    requires r.dryRun || Creates(r.File()) <= db.relations
    ensures SoundRunner(db, After(r), allow)
  {
    var after := After(r);
    assert forall i | 0 <= i < |after.pending| :: after.pending[i] == r.pending[i + 1];
    forall v | v in r.repo[r.nodes[0]] && v !in after.pending && !r.dryRun
      ensures Creates(r.repo[r.nodes[0]][v]) <= db.relations
    {
      if v != r.pending[0] { assert v !in r.pending by { assert r.pending == [r.pending[0]] + after.pending; } }
    }
  }

  lemma SoundRunnerExtends(db: Db, db': Db, r: Runner, allow: set<string>)
    requires SoundRunner(db, r, allow) && Extends(db, db')
    ensures SoundRunner(db', r, allow)
  {
    hide GateClean, Creates, Ascending;
    if r.phase != AtNode && !r.dryRun {
      forall v | v in r.repo[r.nodes[0]] && v !in r.pending ensures Creates(r.repo[r.nodes[0]][v]) <= db'.relations {
        assert Creates(r.repo[r.nodes[0]][v]) <= db.relations;
      }
    }
  }

  /** What the file about to run reads is there, up to views that read themselves. */
  lemma ExecutingIsReady(db: Db, r: Runner, allow: set<string>)
    requires SoundDb(db, allow) && SoundRunner(db, r, allow) && r.phase == Executing
    ensures r.HasFile() && (ViewsReady(db.relations, r.File()) <==> SelfReadsReady(db.relations, r.File()))
  {
    var files, file := r.repo[r.nodes[0]], r.pending[0];
    forall s: Stmt | s in files[file] && s.CreateView? ensures s.sources - {s.name} <= db.relations {
      forall rel | rel in s.sources - {s.name} ensures rel in db.relations {
        assert !Violates(files, allow, Violation(file, s.name, rel));
        if rel in CreatedBefore(files, file) {
          var f :| f in files && StrLe(f, file) && f != file && rel in Creates(files[f]);
          EarlierIsNotPending(r, f);
        }
      }
    }
    ReadyButForSelfReads(db.relations, files[file]);
  }

  lemma EarlierIsNotPending(r: Runner, f: string)
    requires Ascending(r.pending) && r.pending != [] && StrLe(f, r.pending[0]) && f != r.pending[0]
    ensures f !in r.pending
  {
    if f in r.pending {
      var i :| 0 <= i < |r.pending| && r.pending[i] == f;
      StrLeAntisymmetric(f, r.pending[0]);
    }
  }

  lemma ActKeepsSound(db: Db, r: Runner, a: Action, allow: set<string>)
    requires CanAct(db, r, a) && SoundDb(db, allow) && SoundRunner(db, r, allow)
    requires a == Fetch ==> Undrifted(db, r)
    ensures SoundDb(Act(db, r, a).0, allow)
    ensures Act(db, r, a).1.Some? ==> SoundRunner(Act(db, r, a).0, Act(db, r, a).1.value, allow)
  {
    match a
    case Fetch => FetchSound(db, r, allow);
    case NextNode =>
    case Check =>
      if r.dryRun || (r.FileKey() in db.ledger && db.ledger[r.FileKey()] == r.File()) { CheckPasses(db, r, allow); }
    case Execute(accepted) =>
      if accepted { SoundRunnerExtends(db, Act(db, r, a).0, r, allow); }
    case Record =>
      RecordSound(db, r, allow);
    case Stop =>
  }

  lemma CheckPasses(db: Db, r: Runner, allow: set<string>)
    requires CanAct(db, r, Check) && SoundDb(db, allow) && SoundRunner(db, r, allow)
    requires r.dryRun || (r.FileKey() in db.ledger && db.ledger[r.FileKey()] == r.File())
    ensures SoundRunner(db, After(r), allow)
  {
    AfterSound(db, r, allow);
  }

  lemma RecordSound(db: Db, r: Runner, allow: set<string>)
    requires CanAct(db, r, Record) && SoundDb(db, allow) && SoundRunner(db, r, allow)
    ensures SoundDb(Act(db, r, Record).0, allow)
    ensures SoundRunner(Act(db, r, Record).0, After(r), allow)
  {
    AfterSound(db, r, allow);
    ActExtends(db, r, Record);
    SoundRunnerExtends(db, Act(db, r, Record).0, After(r), allow);
  }

  lemma StepKeepsSound(s: State, l: Label, allow: set<string>)
    requires Sound(s, allow) && Enabled(s, l)
    requires GoodLabel(s, l, allow)
    ensures Sound(Next(s, l), allow)
  {
    if l.Step? {
      var r := s.runners[l.id];
      ActKeepsSound(s.db, r, l.action, allow);
      ActExtends(s.db, r, l.action);
      hide Act, CanAct, SoundRunner, SoundDb;
      var s' := Next(s, l);
      forall id | id in s'.runners && id != l.id ensures SoundRunner(s'.db, s'.runners[id], allow) {
        SoundRunnerExtends(s.db, s'.db, s.runners[id], allow);
      }
    }
  }

  /** The file a runner is about to execute will find what its views read. */
  ghost predicate SafeToExecute(s: State, id: nat) {
    id in s.runners && s.runners[id].phase == Executing ==>
      && s.runners[id].HasFile()
      && (ViewsReady(s.db.relations, s.runners[id].File()) <==> SelfReadsReady(s.db.relations, s.runners[id].File()))
      && ((forall st | st in s.runners[id].File() && st.CreateView? :: st.name !in st.sources)
            ==> ViewsReady(s.db.relations, s.runners[id].File()))
  }

  /** Static verdict, dynamic safety: if every checkout used is gate-clean, recorded files are unchanged when a runner
      comes to their node and the allowlisted relations exist, then at every moment of every run - several runners,
      crashes, resumption from a partial ledger, repaired files - the file about to execute fails on a missing relation
      only through a view that reads itself. */
  lemma {:induction false} CleanGateMakesRunsSafe(s: State, labels: seq<Label>, s': State, allow: set<string>, id: nat)
    requires Sound(s, allow) && Run(s, labels, s')
    requires GoodRun(s, labels, allow)
    ensures Sound(s', allow) && SafeToExecute(s', id)
    decreases |labels|
  {
    if labels == [] {
      if id in s.runners && s.runners[id].phase == Executing {
        ExecutingIsReady(s.db, s.runners[id], allow);
        var file := s.runners[id].File();
        if forall st | st in file && st.CreateView? :: st.name !in st.sources {
          NoSelfReadsReady(s.db.relations, file);
        }
      }
    } else {
      StepKeepsSound(s, labels[0], allow);
      CleanGateMakesRunsSafe(Next(s, labels[0]), labels[1..], s', allow, id);
    }
  }

  // ---------- A runner can always get through ----------

  /** Steps of this runner, without a crash and without a rejected file. */
  predicate OwnStep(id: nat, l: Label) {
    l.Step? && l.id == id && l.action != Stop && l.action != Execute(false)
  }

  ghost predicate OwnRun(s: State, id: nat, labels: seq<Label>, s': State) {
    Run(s, labels, s') && forall i | 0 <= i < |labels| :: OwnStep(id, labels[i])
  }

  /** What is recorded of its checkout is as in the checkout. */
  ghost predicate Agrees(db: Db, r: Runner) {
    forall n, v | n in r.repo && v in r.repo[n] && Key(n, v) in db.ledger :: db.ledger[Key(n, v)] == r.repo[n][v]
  }

  ghost predicate NoSelfReads(repo: Repo) {
    forall n, v, st | n in repo && v in repo[n] && st in repo[n][v] && st.CreateView? :: st.name !in st.sources
  }

  ghost predicate OnItsWay(db: Db, r: Runner, allow: set<string>) {
    SoundDb(db, allow) && SoundRunner(db, r, allow) && KeptUp(db, r) && Agrees(db, r) && NoSelfReads(r.repo)
  }

  function OwnAction(r: Runner): Action {
    match r.phase
    case AtNode => Fetch
    case AtFile => if r.pending == [] then NextNode else Check
    case Executing => Execute(true)
    case Recording => Record
  }

  lemma NextNodeIsThere(db: Db, r: Runner)
    requires KeptUp(db, r) && r.nodes != []
    ensures r.nodes[0] in r.repo
  {
    assert r.nodes[0] == r.Chosen()[|r.Chosen()| - |r.nodes|] && r.nodes[0] in r.Chosen();
  }

  lemma OwnActionEnabled(db: Db, r: Runner, allow: set<string>)
    requires OnItsWay(db, r, allow) && r.nodes != []
    ensures CanAct(db, r, OwnAction(r)) && (r.phase == AtNode ==> Undrifted(db, r))
  {
    NextNodeIsThere(db, r);
    hide KeptUp;
    if r.phase == Executing {
      ExecutingIsReady(db, r, allow);
      NoSelfReadsReady(db.relations, r.File());
    }
  }

  lemma OwnActionStays(db: Db, r: Runner, allow: set<string>)
    requires OnItsWay(db, r, allow) && CanAct(db, r, OwnAction(r)) && (r.phase == AtNode ==> Undrifted(db, r))
    ensures var (db', r') := Act(db, r, OwnAction(r)); r'.Some? && OnItsWay(db', r'.value, allow)
  {
    ActKeepsUp(db, r, OwnAction(r));
    ActKeepsSound(db, r, OwnAction(r), allow);
    hide KeptUp, SoundRunner, SoundDb, NoSelfReads;
  }

  function FetchLeft(r: Runner): nat { if r.phase == AtNode then 1 else 0 }

  function PhasesLeft(r: Runner): nat { match r.phase case Executing => 1 case Recording => 0 case _ => 2 }

  predicate Advanced(r: Runner, r': Runner) {
    || |r'.nodes| < |r.nodes|
    || (|r'.nodes| == |r.nodes|
        && (|| FetchLeft(r') < FetchLeft(r)
            || (FetchLeft(r') == FetchLeft(r)
                && (|| |r'.pending| < |r.pending|
                    || (|r'.pending| == |r.pending| && PhasesLeft(r') < PhasesLeft(r))))))
  }

  lemma OwnActionAdvances(db: Db, r: Runner)
    requires CanAct(db, r, OwnAction(r)) && Act(db, r, OwnAction(r)).1.Some?
    ensures Advanced(r, Act(db, r, OwnAction(r)).1.value)
  {
    hide ViewsReady, Creates, PendingOf, Sorted;
  }

  lemma OneMoreOwnStep(s: State, id: nat, l: Label, labels: seq<Label>, s': State)
    requires OwnStep(id, l) && Enabled(s, l) && OwnRun(Next(s, l), id, labels, s')
    ensures OwnRun(s, id, [l] + labels, s')
  {
    hide Enabled, Next, OwnStep;
    assert ([l] + labels)[1..] == labels;
  }

  /** From wherever it is, the runner reaches the end of its nodes by steps of its own. */
  lemma {:induction false} FinishesAlone(s: State, id: nat, allow: set<string>) returns (labels: seq<Label>, s': State)
    requires id in s.runners && OnItsWay(s.db, s.runners[id], allow)
    ensures OwnRun(s, id, labels, s') && id in s'.runners && s'.runners[id].nodes == []
    decreases |s.runners[id].nodes|, FetchLeft(s.runners[id]), |s.runners[id].pending|, PhasesLeft(s.runners[id])
  {
    hide OnItsWay, CanAct, Act, FetchLeft, PhasesLeft, GateClean;
    var r := s.runners[id];
    if r.nodes == [] {
      labels, s' := [], s;
    } else {
      OwnActionEnabled(s.db, r, allow);
      OwnActionStays(s.db, r, allow);
      OwnActionAdvances(s.db, r);
      var l := Step(id, OwnAction(r));
      labels, s' := FinishesAlone(Next(s, l), id, allow);
      OneMoreOwnStep(s, id, l, labels, s');
      labels := [l] + labels;
    }
  }

  /** After any interleaving of any runners, crashes included: a runner that is still there, none of whose views reads
      itself and of whose checkout nothing recorded has changed, can reach the end by steps of its own, no file being
      rejected on the way, and then has recorded its whole checkout - even where others have overtaken it. */
  lemma CleanRunnerCanFinish(s: State, labels: seq<Label>, now: State, allow: set<string>, id: nat)
    requires Sound(s, allow) && (forall i | i in s.runners :: KeptUp(s.db, s.runners[i]))
    requires Run(s, labels, now) && GoodRun(s, labels, allow) && id in now.runners
    requires Agrees(now.db, now.runners[id]) && NoSelfReads(now.runners[id].repo)
    ensures var r := now.runners[id];
            exists own, end: State :: OwnRun(now, id, own, end) && id in end.runners && end.runners[id].nodes == []
              && (!r.dryRun ==>
                    forall n, v | n in r.repo && v in r.repo[n] && (r.filter == None || r.filter == Some(n)) ::
                      Key(n, v) in end.db.ledger)
  {
    CleanGateMakesRunsSafe(s, labels, now, allow, id);
    RunKeepsUp(s, labels, now);
    hide KeptUp, SoundRunner, SoundDb, Agrees, NoSelfReads;
    var own, end := FinishesAlone(now, id, allow);
    KeepsItsTask(now, own, end, id);
    if !now.runners[id].dryRun { FinishedRunnerRecordedAll(now, own, end, id); }
    assert OwnRun(now, id, own, end);
  }

  /** A file is accepted exactly if each relation that a view of it reads is there or created earlier in the file. */
  lemma AcceptedExactly(s: State, id: nat)
    requires id in s.runners && s.runners[id].phase == Executing && s.runners[id].HasFile()
    ensures var file := s.runners[id].File();
            Enabled(s, Step(id, Execute(true)))
            <==> forall i, r | 0 <= i < |file| && file[i].CreateView? && r in file[i].sources ::
                   r in s.db.relations || exists j :: 0 <= j < i && file[j].name == r
  {
    ViewsReadyExactly(s.db.relations, s.runners[id].File());
  }

  lemma OneRunnerSteps(db: Db, r: Runner, a: Action, db': Db, r': Runner, labels: seq<Label>, end: State)
    requires CanAct(db, r, a) && Act(db, r, a) == (db', Some(r'))
    requires Run(State(db', map[0 := r']), labels, end)
    ensures Run(State(db, map[0 := r]), [Step(0, a)] + labels, end)
  {
    hide CanAct, Act;
    var s := State(db, map[0 := r]);
    assert Next(s, Step(0, a)) == State(db', map[0 := r']);
    assert ([Step(0, a)] + labels)[1..] == labels;
  }

  lemma SortedOne(v: string)
    ensures Sorted({v}) == [v]
  {
    assert {v} - {Least({v})} == {};
  }

  /** Execution and recording are two statements: a crash between them leaves a file executed without a row, so it is
      pending again for every later runner. */
  lemma CrashLeavesNoRow(node: string, version: string, sql: Sql) returns (labels: seq<Label>, end: State)
    requires ViewsReady({}, sql)
    ensures Run(State(Db({}, map[], {}), map[]), labels, end) && end.runners == map[]
    ensures end.db == Db(Creates(sql), map[], {Key(node, version)})
    ensures PendingOf([version], node, end.db.ledger) == [version]
  {
    hide ViewsReady, Creates, Run;
    var repo: Repo := map[node := map[version := sql]];
    var empty, db := Db({}, map[], {}), Db(Creates(sql), map[], {Key(node, version)});
    var begun := Runner(repo, Some(node), false, [node], [], AtNode);
    var fetched := begun.(pending := [version], phase := AtFile);
    end := State(db, map[]);
    assert empty.relations + Creates(sql) == db.relations && empty.executed + {Key(node, version)} == db.executed;
    CrashAfterwards(db, fetched.(phase := Recording));
    labels := [Step(0, Stop)];
    OneRunnerSteps(empty, fetched.(phase := Executing), Execute(true), db, fetched.(phase := Recording), labels, end);
    labels := [Step(0, Execute(true))] + labels;
    OneRunnerSteps(empty, fetched, Check, empty, fetched.(phase := Executing), labels, end);
    labels := [Step(0, Check)] + labels;
    SortedOne(version);
    assert repo[node].Keys == {version} && PendingOf([version], node, empty.ledger) == [version];
    OneRunnerSteps(empty, begun, Fetch, empty, fetched, labels, end);
    labels := [Step(0, Fetch)] + labels;
    FirstBegin(empty, repo, node, labels, end);
    labels := [Begin(0, repo, Some(node), false)] + labels;
  }

  lemma CrashAfterwards(db: Db, r: Runner)
    ensures Run(State(db, map[0 := r]), [Step(0, Stop)], State(db, map[]))
  {
    assert map[0 := r] - {0} == map[];
    assert [Step(0, Stop)][1..] == [];
  }

  lemma FirstBegin(db: Db, repo: Repo, node: string, labels: seq<Label>, end: State)
    requires node in repo && Run(State(db, map[0 := Runner(repo, Some(node), false, [node], [], AtNode)]), labels, end)
    ensures Run(State(db, map[]), [Begin(0, repo, Some(node), false)] + labels, end)
  {
    var l := Begin(0, repo, Some(node), false);
    assert ([l] + labels)[1..] == labels;
  }

  /** The gate lets a view read itself, and such a file can indeed fail on its first run. */
  lemma SelfReadPassesTheGate()
    ensures var files := map["001.sql" := [CreateView("v", {"v"})]];
            Clean(files, {}) && !ViewsReady({}, files["001.sql"])
  {
    var files: map<string, Sql> := map["001.sql" := [CreateView("v", {"v"})]];
    forall v ensures !Violates(files, {}, v) {
      if v.file in files {
        assert files[v.file] == [CreateView("v", {"v"})];
      }
    }
  }
}
