/** One undisturbed run of `scripts/run-projection-migrations.py` against the database. */
module MigrationRunner {
  import opened Options
  import opened SortedKeys
  import opened Migrations

  type Ledger = map<Key, Sql>

  // ---------- What a run records ----------

  /** The files of one node that have no ledger row yet, in execution order. */
  function Pending(files: map<string, Sql>, node: string, ledger: Ledger): seq<string> {
    PendingOf(Sorted(files.Keys), node, ledger)
  }

  /** The ledger after these files of the node were applied. */
  function Recorded(ledger: Ledger, files: map<string, Sql>, node: string, names: seq<string>): Ledger {
    ledger + map v | v in names && v in files :: Key(node, v) := files[v]
  }

  lemma PendingAreFiles(files: map<string, Sql>, node: string, ledger: Ledger)
    ensures forall v :: v in Pending(files, node, ledger) <==> v in files && Key(node, v) !in ledger
  {
    forall v ensures v in Pending(files, node, ledger) <==> v in files && Key(node, v) !in ledger {
      PendingMembers(Sorted(files.Keys), node, ledger, v);
    }
  }

  lemma PendingDistinct(files: map<string, Sql>, node: string, ledger: Ledger)
    ensures Ascending(Pending(files, node, ledger))
  {
    var names := Sorted(files.Keys);
    forall i, j | 0 <= i < j < |names| ensures StrLe(names[i], names[j]) && names[i] != names[j] {
      SortedAscending(files.Keys, i, j);
    }
    PendingAscends(names, node, ledger);
  }

  function FilesOf(repo: Repo, node: string): map<string, Sql> {
    if node in repo then repo[node] else map[]
  }

  function RecordNode(ledger: Ledger, repo: Repo, node: string): Ledger {
    Recorded(ledger, FilesOf(repo, node), node, Pending(FilesOf(repo, node), node, ledger))
  }

  /** What executing these files creates. */
  function Made(files: map<string, Sql>, names: seq<string>): set<string> {
    set v, r | v in names && v in files && r in Creates(files[v]) :: r
  }

  /** What executing everything pending under these nodes creates. */
  function MadeByNodes(ledger: Ledger, repo: Repo, nodes: seq<string>): set<string>
    decreases |nodes|
  {
    if nodes == [] then {}
    else
      var files := FilesOf(repo, nodes[0]);
      Made(files, Pending(files, nodes[0], ledger)) + MadeByNodes(ledger, repo, nodes[1..])
  }

  function RecordNodes(ledger: Ledger, repo: Repo, nodes: seq<string>): Ledger
    decreases |nodes|
  {
    if nodes == [] then ledger else RecordNodes(RecordNode(ledger, repo, nodes[0]), repo, nodes[1..])
  }

  /** The database accepts everything pending under these nodes. */
  ghost predicate NoneRejected(ledger: Ledger, repo: Repo, nodes: seq<string>, rejects: Key -> bool) {
    forall k: Key | k.node in nodes && k.version in FilesOf(repo, k.node) && k !in ledger :: !rejects(k)
  }

  /** The ledger an exception leaves: it concerns the first rejected file in execution order, and exactly what was
      pending before that file is recorded. */
  ghost predicate StoppedAt(ledger: Ledger, repo: Repo, nodes: seq<string>, i: nat, count: nat, rejects: Key -> bool,
                            after: Ledger)
  {
    && i < |nodes|
    && var (files, pending) := (FilesOf(repo, nodes[i]), Pending(FilesOf(repo, nodes[i]), nodes[i], ledger));
    && count < |pending| && rejects(Key(nodes[i], pending[count]))
    && (forall c | 0 <= c < count :: !rejects(Key(nodes[i], pending[c])))
    && NoneRejected(ledger, repo, nodes[..i], rejects)
    && after == Recorded(RecordNodes(ledger, repo, nodes[..i]), files, nodes[i], pending[..count])
  }

  lemma {:induction false} RecordNodesSnoc(ledger: Ledger, repo: Repo, nodes: seq<string>, node: string)
    ensures RecordNodes(ledger, repo, nodes + [node]) == RecordNode(RecordNodes(ledger, repo, nodes), repo, node)
    decreases |nodes|
  {
    if nodes == [] {
      assert [node][1..] == [];
    } else {
      assert (nodes + [node])[1..] == nodes[1..] + [node];
      RecordNodesSnoc(RecordNode(ledger, repo, nodes[0]), repo, nodes[1..], node);
    }
  }

  /** How many files a run over these nodes counts. */
  function Total(ledger: Ledger, repo: Repo, nodes: seq<string>): nat
    decreases |nodes|
  {
    if nodes == [] then 0
    else |Pending(FilesOf(repo, nodes[0]), nodes[0], ledger)| + Total(ledger, repo, nodes[1..])
  }

  // ---------- The same, read off the checkout ----------

  /** The migrations a run with this filter is about. */
  predicate InScope(repo: Repo, filter: Option<string>, k: Key) {
    k.node in repo && k.version in repo[k.node] && (filter == None || filter == Some(k.node))
  }

  /** Those of them that have no ledger row yet. */
  function NewKeys(ledger: Ledger, repo: Repo, filter: Option<string>): set<Key> {
    set n, v | n in repo && v in repo[n] && InScope(repo, filter, Key(n, v)) && Key(n, v) !in ledger :: Key(n, v)
  }

  /** All of them are recorded with their content, older rows are as before, and there are no other rows. */
  ghost predicate RecordsExactly(ledger: Ledger, repo: Repo, filter: Option<string>, after: Ledger) {
    && (forall k :: k in after <==> k in ledger || InScope(repo, filter, k))
    && (forall k | k in ledger :: k in after && after[k] == ledger[k])
    && (forall k | InScope(repo, filter, k) && k !in ledger :: k in after && after[k] == repo[k.node][k.version])
  }

  /** Nodes in name order, and the files of a node in name order. */
  predicate RunsBefore(a: Key, b: Key) {
    a != b && if a.node == b.node then StrLe(a.version, b.version) else StrLe(a.node, b.node)
  }

  /** The row `l` after a run that stopped at `k`: recorded if it was, or is a new migration before `k`. */
  ghost predicate RowAfterStop(ledger: Ledger, repo: Repo, filter: Option<string>, rejects: Key -> bool, k: Key,
                               after: Ledger, l: Key)
  {
    var earlier := l in NewKeys(ledger, repo, filter) && RunsBefore(l, k);
    && (earlier ==> !rejects(l))
    && (l in after <==> l in ledger || earlier)
    && (l in ledger ==> l in after && after[l] == ledger[l])
    && (earlier ==> l.node in repo && l.version in repo[l.node] && l in after && after[l] == repo[l.node][l.version])
  }

  /** The run stopped at `k`, the first new migration that the database rejects, and recorded exactly those before. */
  ghost predicate StoppedFirst(ledger: Ledger, repo: Repo, filter: Option<string>, rejects: Key -> bool, k: Key,
                               after: Ledger)
  {
    && k in NewKeys(ledger, repo, filter) && rejects(k)
    && forall l :: RowAfterStop(ledger, repo, filter, rejects, k, after, l)
  }

  function MadeByKeys(repo: Repo, keys: set<Key>): set<string> {
    set k, r | k in keys && k.node in repo && k.version in repo[k.node] && r in Creates(repo[k.node][k.version]) :: r
  }

  lemma ScopeNodes(repo: Repo, filter: Option<string>, n: string)
    ensures n in NodesOf(repo, filter) <==> n in repo && (filter == None || filter == Some(n))
  {
  }

  lemma RejectedExactly(ledger: Ledger, repo: Repo, filter: Option<string>, rejects: Key -> bool)
    ensures !NoneRejected(ledger, repo, NodesOf(repo, filter), rejects)
       <==> exists k :: k in NewKeys(ledger, repo, filter) && rejects(k)
  {
    forall n { ScopeNodes(repo, filter, n); }
    hide NodesOf;
    assert forall k: Key :: k == Key(k.node, k.version);
  }

  /** New keys under these nodes. */
  function KeysUnder(ledger: Ledger, repo: Repo, nodes: seq<string>): set<Key> {
    set n, v | n in nodes && v in FilesOf(repo, n) && Key(n, v) !in ledger :: Key(n, v)
  }

  lemma {:induction false} KeysOfNames(node: string, names: seq<string>)
    requires Ascending(names)
    ensures |set v | v in names :: Key(node, v)| == |names|
  {
    if names != [] {
      var n := |names| - 1;
      KeysOfNames(node, names[..n]);
      assert names == names[..n] + [names[n]];
      assert (set v | v in names :: Key(node, v)) == (set v | v in names[..n] :: Key(node, v)) + {Key(node, names[n])};
      assert names[n] !in names[..n];
    }
  }

  lemma OneNodeCounts(ledger: Ledger, repo: Repo, node: string)
    ensures |KeysUnder(ledger, repo, [node])| == |Pending(FilesOf(repo, node), node, ledger)|
  {
    var pending := Pending(FilesOf(repo, node), node, ledger);
    PendingAreFiles(FilesOf(repo, node), node, ledger);
    PendingDistinct(FilesOf(repo, node), node, ledger);
    hide Pending, Ascending, FilesOf;
    KeysOfNames(node, pending);
    assert KeysUnder(ledger, repo, [node]) == set v | v in pending :: Key(node, v);
  }

  lemma KeysUnderSplit(ledger: Ledger, repo: Repo, nodes: seq<string>)
    requires nodes != []
    ensures KeysUnder(ledger, repo, nodes) == KeysUnder(ledger, repo, [nodes[0]]) + KeysUnder(ledger, repo, nodes[1..])
    ensures nodes[0] !in nodes[1..] ==> KeysUnder(ledger, repo, [nodes[0]]) !! KeysUnder(ledger, repo, nodes[1..])
  {
    hide FilesOf;
    assert nodes == [nodes[0]] + nodes[1..];
  }

  lemma {:induction false} TotalCountsKeys(ledger: Ledger, repo: Repo, nodes: seq<string>)
    requires forall i, j | 0 <= i < j < |nodes| :: nodes[i] != nodes[j]
    ensures Total(ledger, repo, nodes) == |KeysUnder(ledger, repo, nodes)|
    decreases |nodes|
  {
    if nodes == [] {
      assert KeysUnder(ledger, repo, nodes) == {};
    } else {
      assert nodes[0] !in nodes[1..];
      TotalCountsKeys(ledger, repo, nodes[1..]);
      OneNodeCounts(ledger, repo, nodes[0]);
      KeysUnderSplit(ledger, repo, nodes);
      hide KeysUnder, Pending, FilesOf;
    }
  }

  lemma OneNodeMakes(ledger: Ledger, repo: Repo, node: string)
    requires node in repo
    ensures var files := FilesOf(repo, node);
            Made(files, Pending(files, node, ledger)) == MadeByKeys(repo, KeysUnder(ledger, repo, [node]))
  {
    var files := FilesOf(repo, node);
    PendingAreFiles(files, node, ledger);
    hide Pending, Creates;
    forall r
      ensures r in Made(files, Pending(files, node, ledger)) <==> r in MadeByKeys(repo, KeysUnder(ledger, repo, [node]))
    {
      if r in Made(files, Pending(files, node, ledger)) {
        var v :| v in Pending(files, node, ledger) && v in files && r in Creates(files[v]);
        assert node in [node] && Key(node, v) in KeysUnder(ledger, repo, [node]);
      }
    }
  }

  lemma {:induction false} MadeCountsKeys(ledger: Ledger, repo: Repo, nodes: seq<string>)
    requires forall n | n in nodes :: n in repo
    ensures MadeByNodes(ledger, repo, nodes) == MadeByKeys(repo, KeysUnder(ledger, repo, nodes))
    decreases |nodes|
  {
    if nodes == [] {
      assert KeysUnder(ledger, repo, nodes) == {};
    } else {
      MadeCountsKeys(ledger, repo, nodes[1..]);
      OneNodeMakes(ledger, repo, nodes[0]);
      KeysUnderSplit(ledger, repo, nodes);
      hide KeysUnder, Pending, Made, FilesOf, Creates;
    }
  }

  /** What a completed run leaves and counts. */
  lemma CompletedRunExactly(ledger: Ledger, repo: Repo, filter: Option<string>)
    ensures RecordsExactly(ledger, repo, filter, RecordNodes(ledger, repo, NodesOf(repo, filter)))
    ensures Total(ledger, repo, NodesOf(repo, filter)) == |NewKeys(ledger, repo, filter)|
    ensures MadeByNodes(ledger, repo, NodesOf(repo, filter)) == MadeByKeys(repo, NewKeys(ledger, repo, filter))
  {
    hide RecordNodes, Total, MadeByNodes, MadeByKeys;
    var nodes := NodesOf(repo, filter);
    forall n { ScopeNodes(repo, filter, n); }
    NodesAreDistinct(repo, filter);
    hide NodesOf;
    assert KeysUnder(ledger, repo, nodes) == NewKeys(ledger, repo, filter);
    TotalCountsKeys(ledger, repo, nodes);
    MadeCountsKeys(ledger, repo, nodes);
    forall k
      ensures k in RecordNodes(ledger, repo, nodes) <==> k in ledger || InScope(repo, filter, k)
      ensures k in ledger ==> RecordNodes(ledger, repo, nodes)[k] == ledger[k]
      ensures InScope(repo, filter, k) && k !in ledger ==>
                RecordNodes(ledger, repo, nodes)[k] == repo[k.node][k.version]
    {
      RecordedKeys(ledger, repo, nodes, k);
    }
  }

  lemma NodeOrder(repo: Repo, filter: Option<string>, i: nat, n: string)
    requires i < |NodesOf(repo, filter)| && n in NodesOf(repo, filter)
    ensures n in NodesOf(repo, filter)[..i] <==> n != NodesOf(repo, filter)[i] && StrLe(n, NodesOf(repo, filter)[i])
  {
    hide Sorted;
    var nodes := NodesOf(repo, filter);
    var j :| 0 <= j < |nodes| && nodes[j] == n;
    if filter == None && i != j {
      EarlierSortsBefore(repo.Keys, i, j);
      forall k | 0 <= k < i ensures nodes[k] == n ==> k == j {
        if k != j { EarlierSortsBefore(repo.Keys, j, k); }
      }
    } else if filter == None {
      forall k | 0 <= k < i ensures nodes[k] != n { EarlierSortsBefore(repo.Keys, i, k); }
    }
  }

  lemma PendingOrder(pending: seq<string>, count: nat, v: string)
    requires Ascending(pending) && count < |pending| && v in pending
    ensures v in pending[..count] <==> v != pending[count] && StrLe(v, pending[count])
  {
    var j :| 0 <= j < |pending| && pending[j] == v;
    if count < j && StrLe(v, pending[count]) { StrLeAntisymmetric(v, pending[count]); }
  }

  /** The new keys that run before this one are those of earlier nodes, and the earlier ones of its own. */
  lemma BeforeExactly(ledger: Ledger, repo: Repo, filter: Option<string>, i: nat, count: nat, l: Key)
    requires i < |NodesOf(repo, filter)|
    requires var n := NodesOf(repo, filter)[i]; count < |Pending(FilesOf(repo, n), n, ledger)|
    ensures var (nodes, node) := (NodesOf(repo, filter), NodesOf(repo, filter)[i]);
            var pending := Pending(FilesOf(repo, node), node, ledger);
            (l in NewKeys(ledger, repo, filter) && RunsBefore(l, Key(node, pending[count]))
             <==> && l !in ledger && l.node in repo && l.version in repo[l.node]
                  && (l.node in nodes[..i] || (l.node == node && l.version in pending[..count])))
  {
    var nodes, node := NodesOf(repo, filter), NodesOf(repo, filter)[i];
    var files := FilesOf(repo, node);
    var pending := Pending(files, node, ledger);
    ScopeNodes(repo, filter, l.node);
    PendingAreFiles(files, node, ledger);
    PendingDistinct(files, node, ledger);
    if l.node in nodes { NodeOrder(repo, filter, i, l.node); }
    if l.version in pending { PendingOrder(pending, count, l.version); }
    hide NodesOf, Pending, Ascending, StrLe;
    assert l.node in nodes[..i] ==> l.node in nodes;
    assert l.version in pending[..count] ==> l.version in pending;
    assert node in nodes && l == Key(l.node, l.version);
  }

  /** One row after an exception. */
  lemma StoppedRow(ledger: Ledger, repo: Repo, filter: Option<string>, i: nat, count: nat, rejects: Key -> bool,
                   after: Ledger, l: Key)
    requires StoppedAt(ledger, repo, NodesOf(repo, filter), i, count, rejects, after)
    ensures var node := NodesOf(repo, filter)[i];
            var k := Key(node, Pending(FilesOf(repo, node), node, ledger)[count]);
            RowAfterStop(ledger, repo, filter, rejects, k, after, l)
  {
    var nodes := NodesOf(repo, filter);
    var node := nodes[i];
    var files := FilesOf(repo, node);
    var pending := Pending(files, node, ledger);
    assert node in nodes;
    ScopeNodes(repo, filter, node);
    PendingAreFiles(files, node, ledger);
    BeforeExactly(ledger, repo, filter, i, count, l);
    NodesAreDistinct(repo, filter);
    RecordedKeys(ledger, repo, nodes[..i], l);
    forall v | v in pending[..count] ensures v in files && Key(node, v) !in ledger { assert v in pending; }
    forall m { RecordedKeys(ledger, repo, nodes[..i], m); }
    StoppedLedger(ledger, RecordNodes(ledger, repo, nodes[..i]), repo, node, pending[..count], after);
    hide NodesOf, Pending, RecordNodes, RunsBefore, NewKeys;
    assert l == Key(l.node, l.version);
    if l.node in nodes[..i] { assert l.node in nodes; }
    if l.node == node && l.version in pending[..count] {
      var c :| 0 <= c < count && pending[c] == l.version;
      assert !rejects(Key(node, pending[c]));
    }
  }

  /** The exception concerns the first rejected migration of all. */
  lemma StopsAtTheFirst(ledger: Ledger, repo: Repo, filter: Option<string>, i: nat, count: nat, rejects: Key -> bool,
                        after: Ledger)
    requires StoppedAt(ledger, repo, NodesOf(repo, filter), i, count, rejects, after)
    ensures exists k :: StoppedFirst(ledger, repo, filter, rejects, k, after)
  {
    var node := NodesOf(repo, filter)[i];
    var pending := Pending(FilesOf(repo, node), node, ledger);
    var k := Key(node, pending[count]);
    assert node in NodesOf(repo, filter) && pending[count] in pending;
    ScopeNodes(repo, filter, node);
    PendingAreFiles(FilesOf(repo, node), node, ledger);
    assert k in NewKeys(ledger, repo, filter) && rejects(k);
    hide StoppedAt, NodesOf, Pending, RecordNodes, RunsBefore, NewKeys, RowAfterStop;
    forall l { StoppedRow(ledger, repo, filter, i, count, rejects, after, l); }
    assert StoppedFirst(ledger, repo, filter, rejects, k, after);
  }

  /** Recording some more files of one node. */
  lemma StoppedLedger(ledger: Ledger, earlier: Ledger, repo: Repo, node: string, names: seq<string>, after: Ledger)
    requires after == Recorded(earlier, FilesOf(repo, node), node, names)
    requires forall v | v in names :: v in FilesOf(repo, node) && Key(node, v) !in ledger
    requires forall l | l in ledger :: l in earlier && earlier[l] == ledger[l]
    ensures forall l :: l in after <==> l in earlier || (l.node == node && l.version in names)
    ensures forall l | l in ledger :: l in after && after[l] == ledger[l]
    ensures forall l: Key | l.node == node && l.version in names :: after[l] == FilesOf(repo, node)[l.version]
    ensures forall l | l in earlier && !(l.node == node && l.version in names) :: after[l] == earlier[l]
  {
    forall l: Key ensures l in after <==> l in earlier || (l.node == node && l.version in names) {
      assert l == Key(l.node, l.version);
    }
  }

  datatype Applied = Executed | AlreadyApplied | DryRun | ChecksumMismatch | SqlError

  class Migrator {
    var relations: set<string>
    var ledger: Ledger

    /** Over the database as it is; rows already recorded are kept. */
    constructor (relations: set<string>, ledger: Ledger)
      ensures this.relations == relations && this.ledger == ledger
    {
      this.relations, this.ledger := relations, ledger;
    }

    /** `rejected`: the database refuses this file's SQL as a whole. Execution and the ledger row are two statements;
        what a crash between them leaves is the business of module Migrations. */
    method ApplyMigration(node: string, version: string, sql: Sql, dryRun: bool, rejected: bool) returns (r: Applied)
      modifies this
      ensures r == if Key(node, version) in old(ledger) then
                     (if old(ledger)[Key(node, version)] == sql then AlreadyApplied else ChecksumMismatch)
                   else if dryRun then DryRun
                   else if rejected then SqlError
                   else Executed
      ensures ledger == if r == Executed then old(ledger)[Key(node, version) := sql] else old(ledger)
      ensures relations == if r == Executed then old(relations) + Creates(sql) else old(relations)
    {
      var key := Key(node, version);
      if key in ledger {
        if ledger[key] != sql {
          return ChecksumMismatch;
        }
        return AlreadyApplied;
      }
      if dryRun {
        return DryRun;
      }
      if rejected {
        return SqlError;
      }
      relations := relations + Creates(sql);
      if key !in ledger {
        ledger := ledger[key := sql];
      }
      return Executed;
    }

    /** The pending files of one node; `ok` is false when an exception ends the run after `count` files. */
    method ApplyNode(files: map<string, Sql>, node: string, dryRun: bool, rejects: Key -> bool)
        returns (ok: bool, count: nat)
      modifies this
      ensures var pending := Pending(files, node, old(ledger));
              && count <= |pending| && (ok <==> count == |pending|)
              && ledger == (if dryRun then old(ledger) else Recorded(old(ledger), files, node, pending[..count]))
              && relations == (if dryRun then old(relations) else old(relations) + Made(files, pending[..count]))
              && (!dryRun ==> forall i | 0 <= i < count :: !rejects(Key(node, pending[i])))
              && (!ok ==> !dryRun && rejects(Key(node, pending[count])))
    {
      var pending := Pending(files, node, ledger);
      PendingAreFiles(files, node, ledger);
      PendingDistinct(files, node, ledger);
      hide Pending, Recorded, Ascending, Made;
      NoneRecorded(ledger, files, node);
      assert relations + Made(files, pending[..0]) == relations;
      count := 0;
      while count < |pending|
        invariant count <= |pending|
        invariant ledger == if dryRun then old(ledger) else Recorded(old(ledger), files, node, pending[..count])
        invariant relations == if dryRun then old(relations) else old(relations) + Made(files, pending[..count])
        invariant !dryRun ==> forall i | 0 <= i < count :: !rejects(Key(node, pending[i]))
      {
        var version := pending[count];
        assert version in pending;
        RecordOneMore(old(ledger), files, node, pending, count);
        MakeOneMore(files, pending, count);
        var r := ApplyMigration(node, version, files[version], dryRun, rejects(Key(node, version)));
        if r == ChecksumMismatch || r == SqlError {
          return false, count;
        }
        count := count + 1;
      }
      return true, count;
    }

    /** The loop over the discovered nodes; `None` stands for an exception. */
    method ApplyNodes(repo: Repo, nodes: seq<string>, dryRun: bool, rejects: Key -> bool) returns (total: Option<nat>)
      requires forall i, j | 0 <= i < j < |nodes| :: nodes[i] != nodes[j]
      modifies this
      ensures total.Some? ==> total.value == Total(old(ledger), repo, nodes)
      ensures total.Some? ==> ledger == if dryRun then old(ledger) else RecordNodes(old(ledger), repo, nodes)
      ensures total.Some? ==>
                relations == if dryRun then old(relations) else old(relations) + MadeByNodes(old(ledger), repo, nodes)
      ensures total.None? <==> !dryRun && !NoneRejected(old(ledger), repo, nodes, rejects)
      ensures total.None? ==> exists i, count :: StoppedAt(old(ledger), repo, nodes, i, count, rejects, ledger)
    {
      hide Pending, Recorded, Made;
      var sum := 0;
      assert nodes[0..] == nodes && nodes[..0] == [];
      for i := 0 to |nodes|
        invariant !dryRun ==> ledger == RecordNodes(old(ledger), repo, nodes[..i])
        invariant dryRun ==> ledger == old(ledger) && relations == old(relations)
        invariant !dryRun ==>
          relations + MadeByNodes(old(ledger), repo, nodes[i..])
          == old(relations) + MadeByNodes(old(ledger), repo, nodes)
        invariant !dryRun ==> NoneRejected(old(ledger), repo, nodes[..i], rejects)
        invariant sum + Total(old(ledger), repo, nodes[i..]) == Total(old(ledger), repo, nodes)
        invariant forall k: Key | k.node in nodes[i..] :: k in ledger <==> k in old(ledger)
      {
        var node, files := nodes[i], FilesOf(repo, nodes[i]);
        assert nodes[i..][0] == node && nodes[i..][1..] == nodes[i + 1..] && node !in nodes[i + 1..];
        SamePending(files, node, ledger, old(ledger));
        ghost var before := ledger;
        ghost var pending := Pending(files, node, before);
        var ok, count := ApplyNode(files, node, dryRun, rejects);
        PendingAreFiles(files, node, before);
        if !ok {
          assert pending[count] in pending && Key(node, pending[count]) !in old(ledger);
          assert StoppedAt(old(ledger), repo, nodes, i, count, rejects, ledger);
          return None;
        }
        assert pending[..count] == pending && nodes[..i + 1] == nodes[..i] + [node];
        RecordNodesSnoc(old(ledger), repo, nodes[..i], node);
        OtherNodesKeep(before, files, node, pending, nodes[i + 1..]);
        forall k: Key | !dryRun && k.node in nodes[..i + 1] && k.version in FilesOf(repo, k.node) && k !in old(ledger)
          ensures !rejects(k)
        {
          if k.node == node {
            assert k.version in pending && k == Key(node, k.version);
          } else {
            assert k.node in nodes[..i];
          }
        }
        sum := sum + count;
      }
      assert nodes[|nodes|..] == [] && nodes[..|nodes|] == nodes;
      return Some(sum);
    }

    /** `run`; `None` stands for an exception. */
    method Run(repo: Repo, filter: Option<string>, dryRun: bool, rejects: Key -> bool) returns (total: Option<nat>)
      modifies this
      ensures total.Some? ==> total.value == |NewKeys(old(ledger), repo, filter)|
      ensures total.Some? && !dryRun ==>
                RecordsExactly(old(ledger), repo, filter, ledger)
                && relations == old(relations) + MadeByKeys(repo, NewKeys(old(ledger), repo, filter))
      ensures dryRun ==> total.Some? && ledger == old(ledger) && relations == old(relations)
      ensures total.None? <==> !dryRun && exists k :: k in NewKeys(old(ledger), repo, filter) && rejects(k)
      ensures total.None? ==> exists k :: StoppedFirst(old(ledger), repo, filter, rejects, k, ledger)
    {
      var nodes := NodesOf(repo, filter);
      NodesAreDistinct(repo, filter);
      CompletedRunExactly(ledger, repo, filter);
      RejectedExactly(ledger, repo, filter, rejects);
      hide NodesOf, NewKeys, RecordsExactly, MadeByKeys, StoppedAt, StoppedFirst, NoneRejected, RecordNodes, Total,
           MadeByNodes;
      total := ApplyNodes(repo, nodes, dryRun, rejects);
      if total == None {
        ghost var i, count :| StoppedAt(old(ledger), repo, nodes, i, count, rejects, ledger);
        StopsAtTheFirst(old(ledger), repo, filter, i, count, rejects, ledger);
      }
    }
  }

  lemma NoneRecorded(ledger: Ledger, files: map<string, Sql>, node: string)
    ensures forall names: seq<string> :: Made(files, names[..0]) == {}
    ensures forall names: seq<string> :: Recorded(ledger, files, node, names[..0]) == ledger
  {
  }

  lemma OtherNodesKeep(ledger: Ledger, files: map<string, Sql>, node: string, names: seq<string>, others: seq<string>)
    requires node !in others
    ensures forall k: Key | k.node in others :: k in Recorded(ledger, files, node, names) <==> k in ledger
  {
  }

  /** The next pending file has no row so far, and applying it adds just its row. */
  lemma RecordOneMore(ledger: Ledger, files: map<string, Sql>, node: string, names: seq<string>, n: nat)
    requires n < |names| && Ascending(names) && names[n] in files && Key(node, names[n]) !in ledger
    ensures Key(node, names[n]) !in Recorded(ledger, files, node, names[..n])
    ensures Recorded(ledger, files, node, names[..n + 1])
         == Recorded(ledger, files, node, names[..n])[Key(node, names[n]) := files[names[n]]]
  {
    hide Recorded, Ascending;
    NotAmongEarlier(names, n);
    InRecorded(ledger, files, node, names[..n], Key(node, names[n]));
    var more := Recorded(ledger, files, node, names[..n])[Key(node, names[n]) := files[names[n]]];
    forall k
      ensures k in Recorded(ledger, files, node, names[..n + 1]) <==> k in more
      ensures k in more ==> Recorded(ledger, files, node, names[..n + 1])[k] == more[k]
    {
      InRecorded(ledger, files, node, names[..n], k);
      InRecorded(ledger, files, node, names[..n + 1], k);
      assert names[..n + 1] == names[..n] + [names[n]];
    }
  }

  lemma MakeOneMore(files: map<string, Sql>, names: seq<string>, n: nat)
    requires n < |names| && names[n] in files
    ensures Made(files, names[..n + 1]) == Made(files, names[..n]) + Creates(files[names[n]])
  {
    assert names[..n + 1] == names[..n] + [names[n]];
  }

  lemma NotAmongEarlier(names: seq<string>, n: nat)
    requires n < |names| && Ascending(names)
    ensures names[n] !in names[..n]
  {
    assert forall i | 0 <= i < n :: names[i] != names[n];
  }

  lemma InRecorded(ledger: Ledger, files: map<string, Sql>, node: string, names: seq<string>, k: Key)
    ensures k in Recorded(ledger, files, node, names)
       <==> k in ledger || (k.node == node && k.version in names && k.version in files)
    ensures k.node == node && k.version in names && k.version in files
        ==> Recorded(ledger, files, node, names)[k] == files[k.version]
    ensures k in ledger && !(k.node == node && k.version in names && k.version in files)
        ==> Recorded(ledger, files, node, names)[k] == ledger[k]
  {
    if k.node == node { assert k == Key(node, k.version); }
  }

  lemma NodesAreDistinct(repo: Repo, filter: Option<string>)
    ensures var nodes := NodesOf(repo, filter);
            && (forall n | n in nodes :: n in repo)
            && (forall i, j | 0 <= i < j < |nodes| :: nodes[i] != nodes[j])
  {
    if filter == None {
      forall i, j | 0 <= i < j < |Sorted(repo.Keys)| ensures Sorted(repo.Keys)[i] != Sorted(repo.Keys)[j] {
        SortedAscending(repo.Keys, i, j);
      }
    }
  }

  /** Which files of a node are pending depends on that node's rows only. */
  lemma SamePending(files: map<string, Sql>, node: string, a: Ledger, b: Ledger)
    requires forall k: Key | k.node == node :: k in a <==> k in b
    ensures Pending(files, node, a) == Pending(files, node, b)
  {
    SamePendingOf(Sorted(files.Keys), node, a, b);
  }

  lemma {:induction false} SamePendingOf(names: seq<string>, node: string, a: Ledger, b: Ledger)
    requires forall k: Key | k.node == node :: k in a <==> k in b
    ensures PendingOf(names, node, a) == PendingOf(names, node, b)
  {
    if names != [] { SamePendingOf(names[1..], node, a, b); }
  }

  // ---------- A second run has nothing to do ----------

  lemma {:induction false} RecordedKeys(ledger: Ledger, repo: Repo, nodes: seq<string>, k: Key)
    ensures k in RecordNodes(ledger, repo, nodes)
       <==> k in ledger || (k.node in nodes && k.version in FilesOf(repo, k.node))
    ensures k in ledger ==> RecordNodes(ledger, repo, nodes)[k] == ledger[k]
    ensures k !in ledger && k in RecordNodes(ledger, repo, nodes)
        ==> RecordNodes(ledger, repo, nodes)[k] == FilesOf(repo, k.node)[k.version]
    decreases |nodes|
  {
    if nodes != [] {
      var node := nodes[0];
      assert nodes == [node] + nodes[1..];
      PendingAreFiles(FilesOf(repo, node), node, ledger);
      RecordedKeys(RecordNode(ledger, repo, node), repo, nodes[1..], k);
      if k.node == node && k.version in FilesOf(repo, node) && k !in ledger {
        assert k == Key(node, k.version) && k.version in Pending(FilesOf(repo, node), node, ledger);
      }
    }
  }

  /** A completed run leaves every migration of its checkout recorded and every older row as it was, so running again
      over the same checkout counts 0 and changes nothing. */
  lemma SecondRunAppliesNothing(ledger: Ledger, repo: Repo, filter: Option<string>, after: Ledger)
    requires RecordsExactly(ledger, repo, filter, after)
    ensures forall n, v | n in repo && v in repo[n] && (filter == None || filter == Some(n)) :: Key(n, v) in after
    ensures NewKeys(after, repo, filter) == {}
    ensures forall again :: RecordsExactly(after, repo, filter, again) <==> again == after
  {
    forall n, v | n in repo && v in repo[n] && (filter == None || filter == Some(n)) ensures Key(n, v) in after {
      assert InScope(repo, filter, Key(n, v));
    }
    forall again | RecordsExactly(after, repo, filter, again) ensures again == after {
      assert again.Keys == after.Keys;
    }
  }

  /** A recorded file whose content has changed since is neither applied nor reported, whether the run completes or
      stops elsewhere: the drift check in apply_migration, which would raise on it, is never reached by a single run. */
  lemma DriftGoesUnreported(ledger: Ledger, repo: Repo, filter: Option<string>, k: Key, rejects: Key -> bool,
                            l: Key, after: Ledger)
    requires k in ledger && InScope(repo, filter, k) && ledger[k] != repo[k.node][k.version]
    requires RecordsExactly(ledger, repo, filter, after) || StoppedFirst(ledger, repo, filter, rejects, l, after)
    ensures k !in NewKeys(ledger, repo, filter)
    ensures k in after && after[k] == ledger[k]
  {
    if StoppedFirst(ledger, repo, filter, rejects, l, after) {
      assert RowAfterStop(ledger, repo, filter, rejects, l, after, k);
    }
  }
}
