/** The choice of test directories and of the shard matrix, `scripts/ci/detect_test_paths.py`. */
module TestSelection {
  import opened Options
  import opened SortedKeys
  import Sets

  /** The adjacency file: each known module with the modules that depend on it, the modules and the path prefixes
      whose change calls for every test, and how many changed modules do. */
  datatype Adjacency = Adjacency(reverseDeps: map<string, seq<string>>, sharedModules: seq<string>,
                                 infrastructure: seq<string>, threshold: nat)

  datatype Reason =
    | FeatureFlagOff | MainBranch | MergeGroup | Scheduled | TestInfrastructure | SharedModule | ThresholdModules

  datatype Selection = Selection(paths: seq<string>, splitCount: int, reason: Option<Reason>, matrix: seq<int>)

  const SRC_PREFIX := "src/omnimarket/"
  const TEST_PREFIX := "tests/"

  // ---------- Paths ----------

  predicate StartsWith(s: string, prefix: string) {
    prefix <= s
  }

  function AfterPrefix(path: string, prefix: string): string {
    if StartsWith(path, prefix) then path[|prefix|..] else ""
  }

  /** The text before the first slash. */
  function Head(s: string): string {
    if s == "" || s[0] == '/' then "" else [s[0]] + Head(s[1..])
  }

  function StripSlashes(s: string): string {
    if s != "" && s[|s| - 1] == '/' then StripSlashes(s[..|s| - 1]) else s
  }

  function TestDir(name: string): string {
    TEST_PREFIX + name + "/"
  }

  predicate IsInfrastructure(config: Adjacency, path: string) {
    exists i | 0 <= i < |config.infrastructure| ::
      path == config.infrastructure[i] || StartsWith(path, StripSlashes(config.infrastructure[i]) + "/")
  }

  /** The known module a source path lies in. */
  function ModuleOf(config: Adjacency, path: string): Option<string> {
    if StartsWith(path, SRC_PREFIX) && Head(AfterPrefix(path, SRC_PREFIX)) in config.reverseDeps
    then Some(Head(AfterPrefix(path, SRC_PREFIX)))
    else None
  }

  /** The test directories one changed path asks for. */
  function TestsFor(config: Adjacency, path: string): set<string> {
    if StartsWith(path, SRC_PREFIX) then
      match ModuleOf(config, path)
      case None => {}
      case Some(m) => {TestDir(m)} + set d | d in config.reverseDeps[m] :: TestDir(d)
    else if StartsWith(path, TEST_PREFIX) then {TestDir(Head(AfterPrefix(path, TEST_PREFIX)))}
    else {}
  }

  function Wanted(config: Adjacency, changed: seq<string>): set<string> {
    set f, p | f in changed && p in TestsFor(config, f) :: p
  }

  function ChangedModules(config: Adjacency, changed: seq<string>): set<string> {
    set f | f in changed && ModuleOf(config, f).Some? :: ModuleOf(config, f).value
  }

  predicate InName(c: char) {
    'A' <= c <= 'Z' || 'a' <= c <= 'z' || '0' <= c <= '9' || c in "_./-"
  }

  /** What the output record accepts as a test path. */
  predicate ValidTestPath(p: string) {
    p == TEST_PREFIX
    || (&& |p| > 7
        && StartsWith(p, TEST_PREFIX)
        && p[|p| - 1] == '/'
        && forall i | 6 <= i < |p| - 1 :: InName(p[i]))
  }

  // ---------- What a selection must be ----------

  /** 1, 2, ..., n. */
  function UpTo(n: int): seq<int> {
    if n <= 0 then [] else seq(n, i => i + 1)
  }

  function SplitCountFor(paths: seq<string>): int {
    var n := |paths|;
    if n <= 2 then 1 else if n <= 5 then 2 else if n <= 10 then 3 else if n <= 16 then 4 else 5
  }

  function FullSuite(reason: Reason): Selection {
    Selection([TEST_PREFIX], 20, Some(reason), UpTo(20))
  }

  /** Whether a run asks for every test whatever changed. */
  function StandingReason(flagOn: bool, refName: string, eventName: string): Option<Reason> {
    if !flagOn then Some(FeatureFlagOff)
    else if refName == "main" then Some(MainBranch)
    else if eventName == "merge_group" then Some(MergeGroup)
    else if eventName == "schedule" then Some(Scheduled)
    else None
  }

  /** Whether the changed files call for every test. */
  function ChangeReason(config: Adjacency, changed: seq<string>): Option<Reason> {
    if exists f | f in changed :: IsInfrastructure(config, f) then Some(TestInfrastructure)
    else if exists m | m in config.sharedModules :: m in ChangedModules(config, changed) then Some(SharedModule)
    else if |ChangedModules(config, changed)| >= config.threshold then Some(ThresholdModules)
    else None
  }

  /** The selected directories when no reason calls for every test. */
  function PathsFor(config: Adjacency, changed: seq<string>, existing: set<string>): seq<string> {
    var found := Sorted(Wanted(config, changed) * existing);
    if found == [] then [TEST_PREFIX] else found
  }

  /** The output record refuses some paths: `None` stands for its ValidationError. */
  function Checked(paths: seq<string>): Option<Selection> {
    if forall i | 0 <= i < |paths| :: ValidTestPath(paths[i])
    then Some(Selection(paths, SplitCountFor(paths), None, UpTo(SplitCountFor(paths))))
    else None
  }

  // ---------- The program ----------

  method Resolve(config: Adjacency, changed: seq<string>, existing: set<string>) returns (paths: seq<string>)
    ensures paths == Sorted(Wanted(config, changed) * existing)
  {
    hide Head, TestDir, StartsWith, Wanted, TestsFor;
    var direct: set<string> := {};
    var selected: set<string> := {};
    for n := 0 to |changed|
      invariant direct == ChangedModules(config, changed[..n])
      invariant selected == AskedByPath(changed[..n])
    {
      var path := changed[n];
      assert changed[..n + 1] == changed[..n] + [path];
      DirectStep(config, changed[..n], path);
      if StartsWith(path, SRC_PREFIX) {
        if Head(AfterPrefix(path, SRC_PREFIX)) in config.reverseDeps {
          direct := direct + {Head(AfterPrefix(path, SRC_PREFIX))};
        }
      } else if StartsWith(path, TEST_PREFIX) {
        selected := selected + {TestDir(Head(AfterPrefix(path, TEST_PREFIX)))};
      }
    }
    assert changed[..|changed|] == changed;
    var expanded := direct;
    var todo := direct;
    while todo != {}
      invariant todo <= direct
      invariant expanded == direct + Dependents(config, direct - todo)
    {
      var m :| m in todo;
      expanded := expanded + set d | d in DepsOf(config, m);
      todo := todo - {m};
    }
    ghost var asked := selected;
    todo := expanded;
    while todo != {}
      invariant todo <= expanded
      invariant selected == asked + set m | m in expanded - todo :: TestDir(m)
    {
      var m :| m in todo;
      selected := selected + {TestDir(m)};
      todo := todo - {m};
    }
    StagesAgree(config, changed);
    assert selected == Wanted(config, changed);
    paths := Sorted(selected * existing);
  }

  method ComputeSelection(config: Adjacency, changed: seq<string>, flagOn: bool, refName: string, eventName: string,
                          existing: set<string>)
    returns (sel: Option<Selection>)
    ensures sel == SelectionOf(config, changed, flagOn, refName, eventName, existing)
  {
    hide IsInfrastructure, ModuleOf, UpTo, TestsFor, Wanted;
    if !flagOn { return Some(FullSuite(FeatureFlagOff)); }
    if refName == "main" { return Some(FullSuite(MainBranch)); }
    if eventName == "merge_group" { return Some(FullSuite(MergeGroup)); }
    if eventName == "schedule" { return Some(FullSuite(Scheduled)); }
    for n := 0 to |changed|
      invariant forall f | f in changed[..n] :: !IsInfrastructure(config, f)
    {
      if IsInfrastructure(config, changed[n]) { return Some(FullSuite(TestInfrastructure)); }
    }
    var modules := ChangedModules(config, changed);
    if exists m | m in config.sharedModules :: m in modules { return Some(FullSuite(SharedModule)); }
    if |modules| >= config.threshold { return Some(FullSuite(ThresholdModules)); }
    var selected := Resolve(config, changed, existing);
    if selected == [] { selected := [TEST_PREFIX]; }
    sel := Checked(selected);
  }

  function SelectionOf(config: Adjacency, changed: seq<string>, flagOn: bool, refName: string, eventName: string,
                       existing: set<string>): Option<Selection>
  {
    match StandingReason(flagOn, refName, eventName)
    case Some(r) => Some(FullSuite(r))
    case None =>
      match ChangeReason(config, changed)
      case Some(r) => Some(FullSuite(r))
      case None => Checked(PathsFor(config, changed, existing))
  }

  // ---------- The staged sets ----------

  function DepsOf(config: Adjacency, m: string): seq<string> {
    if m in config.reverseDeps then config.reverseDeps[m] else []
  }

  function Dependents(config: Adjacency, modules: set<string>): set<string> {
    set m, d | m in modules && d in DepsOf(config, m) :: d
  }

  predicate AsksByPath(path: string) {
    !StartsWith(path, SRC_PREFIX) && StartsWith(path, TEST_PREFIX)
  }

  function AskedByPath(changed: seq<string>): set<string> {
    set f | f in changed && AsksByPath(f) :: TestDir(Head(AfterPrefix(f, TEST_PREFIX)))
  }

  function Staged(config: Adjacency, changed: seq<string>): set<string> {
    var direct := ChangedModules(config, changed);
    AskedByPath(changed) + set m | m in direct + Dependents(config, direct) :: TestDir(m)
  }

  lemma DirectStep(config: Adjacency, changed: seq<string>, path: string)
    ensures ChangedModules(config, changed + [path])
         == ChangedModules(config, changed)
            + match ModuleOf(config, path) case None => {} case Some(m) => {m}
    ensures AskedByPath(changed + [path])
         == AskedByPath(changed)
            + if AsksByPath(path) then {TestDir(Head(AfterPrefix(path, TEST_PREFIX)))} else {}
  {
    hide Head, TestDir, StartsWith, ModuleOf;
  }

  /** Collecting modules first and directories last asks for the same as one pass over the paths. */
  lemma StagesAgree(config: Adjacency, changed: seq<string>)
    ensures Wanted(config, changed) == Staged(config, changed)
  {
    hide Head, TestDir, StartsWith;
    var direct := ChangedModules(config, changed);
    var staged := Staged(config, changed);
    forall p | p in Wanted(config, changed) ensures p in staged {
      var f :| f in changed && p in TestsFor(config, f);
      if AsksByPath(f) {
      } else {
        var m := ModuleOf(config, f).value;
        assert m in direct;
        if p != TestDir(m) {
          var d :| d in config.reverseDeps[m] && p == TestDir(d);
          assert d in DepsOf(config, m) && d in Dependents(config, direct);
        }
      }
    }
    forall p | p in staged ensures p in Wanted(config, changed) {
      if p in AskedByPath(changed) {
        var f :| f in changed && AsksByPath(f) && p == TestDir(Head(AfterPrefix(f, TEST_PREFIX)));
        assert p in TestsFor(config, f);
      } else {
        var d :| d in direct + Dependents(config, direct) && p == TestDir(d);
        var m := if d in direct then d else (var m :| m in direct && d in DepsOf(config, m); m);
        var f :| f in changed && ModuleOf(config, f) == Some(m);
        assert p in TestsFor(config, f);
      }
    }
  }

  // ---------- The same over the paths' text ----------

  /** The path is this entry of the directory, or lies below it. */
  ghost predicate Under(path: string, dir: string, name: string) {
    '/' !in name && (path == dir + name || exists rest :: path == dir + name + "/" + rest)
  }

  predicate Slashes(s: string) {
    forall i | 0 <= i < |s| :: s[i] == '/'
  }

  /** The path lies below the entry, whatever slashes the entry ends in. */
  ghost predicate BelowEntry(path: string, entry: string) {
    exists base, slashes, rest :: entry == base + slashes && Slashes(slashes) && (base == "" || base[|base| - 1] != '/')
                                  && path == base + "/" + rest
  }

  lemma {:induction false} HeadSplits(s: string)
    ensures |Head(s)| <= |s| && s == Head(s) + s[|Head(s)|..] && '/' !in Head(s)
    ensures |Head(s)| < |s| ==> s[|Head(s)|] == '/'
  {
    if s != "" && s[0] != '/' { HeadSplits(s[1..]); }
  }

  lemma {:induction false} HeadOf(name: string, tail: string)
    requires '/' !in name && (tail == "" || tail[0] == '/')
    ensures Head(name + tail) == name
  {
    if name != "" {
      assert (name + tail)[1..] == name[1..] + tail;
      HeadOf(name[1..], tail);
    }
  }

  lemma HeadIsUnder(path: string, dir: string)
    requires StartsWith(path, dir)
    ensures Under(path, dir, Head(AfterPrefix(path, dir)))
  {
    hide Head;
    var s := path[|dir|..];
    var name := Head(s);
    HeadSplits(s);
    assert path == dir + s;
    if |name| < |s| {
      var rest := s[|name| + 1..];
      assert s[|name|..] == "/" + rest;
      assert path == dir + name + "/" + rest;
    } else {
      assert s == name;
    }
  }

  lemma UnderHasHead(path: string, dir: string, name: string)
    requires Under(path, dir, name)
    ensures StartsWith(path, dir) && Head(AfterPrefix(path, dir)) == name
  {
    hide Head;
    if path == dir + name {
      HeadOf(name, "");
      assert path[|dir|..] == name + "";
    } else {
      var rest :| path == dir + name + "/" + rest;
      HeadOf(name, "/" + rest);
      assert path[|dir|..] == name + ("/" + rest);
    }
  }

  lemma HeadExactly(path: string, dir: string, name: string)
    ensures StartsWith(path, dir) && Head(AfterPrefix(path, dir)) == name <==> Under(path, dir, name)
  {
    hide *;
    if StartsWith(path, dir) { HeadIsUnder(path, dir); }
    if Under(path, dir, name) { UnderHasHead(path, dir, name); }
  }

  lemma {:induction false} StripSlashesSplits(s: string) returns (slashes: string)
    ensures s == StripSlashes(s) + slashes && Slashes(slashes)
    ensures StripSlashes(s) == "" || StripSlashes(s)[|StripSlashes(s)| - 1] != '/'
  {
    if s != "" && s[|s| - 1] == '/' {
      var front := s[..|s| - 1];
      slashes := StripSlashesSplits(front);
      slashes := slashes + "/";
      assert s == front + "/";
    } else {
      slashes := "";
    }
  }

  lemma {:induction false} StripSlashesOf(base: string, slashes: string)
    requires Slashes(slashes) && (base == "" || base[|base| - 1] != '/')
    ensures StripSlashes(base + slashes) == base
  {
    if slashes == "" {
      assert base + slashes == base;
    } else {
      var n := |slashes| - 1;
      assert slashes == slashes[..n] + [slashes[n]];
      assert (base + slashes)[..|base + slashes| - 1] == base + slashes[..n];
      StripSlashesOf(base, slashes[..n]);
    }
  }

  lemma BelowEntryExactly(path: string, entry: string)
    ensures StartsWith(path, StripSlashes(entry) + "/") <==> BelowEntry(path, entry)
  {
    hide StripSlashes;
    if StartsWith(path, StripSlashes(entry) + "/") {
      var base := StripSlashes(entry);
      var slashes := StripSlashesSplits(entry);
      assert path == base + "/" + path[|base| + 1..];
    }
    if base, slashes, rest :| entry == base + slashes && Slashes(slashes) && (base == "" || base[|base| - 1] != '/')
                              && path == base + "/" + rest {
      StripSlashesOf(base, slashes);
    }
  }

  /** Infrastructure is an entry itself, and whatever lies below an entry with its final slashes dropped. */
  lemma InfrastructureExactly(config: Adjacency, path: string)
    ensures IsInfrastructure(config, path)
       <==> exists entry | entry in config.infrastructure :: path == entry || BelowEntry(path, entry)
  {
    forall entry ensures StartsWith(path, StripSlashes(entry) + "/") <==> BelowEntry(path, entry) {
      BelowEntryExactly(path, entry);
    }
    hide StripSlashes, BelowEntry, StartsWith;
    if IsInfrastructure(config, path) {
      var i :| 0 <= i < |config.infrastructure|
               && (path == config.infrastructure[i]
                   || StartsWith(path, StripSlashes(config.infrastructure[i]) + "/"));
      assert config.infrastructure[i] in config.infrastructure;
    }
  }

  lemma ModuleOfExactly(config: Adjacency, path: string, m: string)
    ensures ModuleOf(config, path) == Some(m) <==> m in config.reverseDeps && Under(path, "src/omnimarket/", m)
  {
    HeadExactly(path, SRC_PREFIX, m);
    hide Head, StartsWith, AfterPrefix, Under;
  }

  /** A source path below a known module asks for the tests of the module and of the modules that depend on it, a path
      below `tests/` for the entry it lies in, and nothing else asks for anything. */
  lemma TestsForExactly(config: Adjacency, path: string, p: string)
    ensures p in TestsFor(config, path)
       <==> || (exists m | m in config.reverseDeps && Under(path, "src/omnimarket/", m) ::
                  p == "tests/" + m + "/" || exists d | d in config.reverseDeps[m] :: p == "tests/" + d + "/")
            || (exists name | Under(path, "tests/", name) :: p == "tests/" + name + "/")
  {
    forall m ensures ModuleOf(config, path) == Some(m) <==> m in config.reverseDeps && Under(path, "src/omnimarket/", m)
    {
      ModuleOfExactly(config, path, m);
    }
    forall name ensures (StartsWith(path, TEST_PREFIX) && Head(AfterPrefix(path, TEST_PREFIX)) == name)
                        <==> Under(path, "tests/", name)
    {
      HeadExactly(path, TEST_PREFIX, name);
    }
    assert StartsWith(path, TEST_PREFIX) ==> !StartsWith(path, SRC_PREFIX) by {
      if StartsWith(path, TEST_PREFIX) { assert path[0] == TEST_PREFIX[0] && SRC_PREFIX[0] != TEST_PREFIX[0]; }
    }
    assert ModuleOf(config, path).Some? ==> StartsWith(path, SRC_PREFIX);
    hide Head, StartsWith, AfterPrefix, Under, ModuleOf;
  }

  /** Infrastructure first, then a shared module, then the number of known modules that changed. */
  lemma ChangeReasonExactly(config: Adjacency, changed: seq<string>)
    ensures var modules := set m | m in config.reverseDeps
                                   && exists f :: f in changed && Under(f, "src/omnimarket/", m);
            ChangeReason(config, changed)
            == if exists f, e :: f in changed && e in config.infrastructure && (f == e || BelowEntry(f, e))
               then Some(TestInfrastructure)
               else if exists m :: m in config.sharedModules && m in modules then Some(SharedModule)
               else if |modules| >= config.threshold then Some(ThresholdModules)
               else None
  {
    var modules := set m | m in config.reverseDeps && exists f :: f in changed && Under(f, "src/omnimarket/", m);
    forall f ensures IsInfrastructure(config, f)
                     <==> exists e | e in config.infrastructure :: f == e || BelowEntry(f, e)
    {
      InfrastructureExactly(config, f);
    }
    forall f, m ensures ModuleOf(config, f) == Some(m) <==> m in config.reverseDeps && Under(f, "src/omnimarket/", m) {
      ModuleOfExactly(config, f, m);
    }
    hide IsInfrastructure, ModuleOf, Under, BelowEntry;
    assert ChangedModules(config, changed) == modules;
  }

  const STEPS := {2, 5, 10, 16}

  /** One shard more for each of 2, 5, 10 and 16 that the number of directories exceeds. */
  lemma ShardsByPaths(paths: seq<string>)
    ensures var passed := set t | t in STEPS && t < |paths|; SplitCountFor(paths) == 1 + |passed|
  {
    var passed := set t | t in STEPS && t < |paths|;
    assert passed == if |paths| <= 2 then {} else if |paths| <= 5 then {2} else if |paths| <= 10 then {2, 5}
                     else if |paths| <= 16 then {2, 5, 10} else {2, 5, 10, 16};
  }

  lemma NameCharacter(c: char)
    ensures InName(c) <==> PathCharacter(c)
  {
    var marks := "_./-";
    assert marks[0] == '_' && marks[1] == '.' && marks[2] == '/' && marks[3] == '-';
  }

  /** `tests/`, or `tests/`, a non-empty name of the listed characters, and a slash. */
  lemma ValidTestPathExactly(p: string)
    ensures ValidTestPath(p)
       <==> || p == "tests/"
            || exists name :: p == "tests/" + name + "/" && name != "" && forall c | c in name :: PathCharacter(c)
  {
    if ValidTestPath(p) && p != "tests/" {
      var name := p[6..|p| - 1];
      assert p == "tests/" + name + "/";
      forall c | c in name ensures PathCharacter(c) {
        var i :| 0 <= i < |name| && name[i] == c;
        assert p[6 + i] == c;
        NameCharacter(c);
      }
    }
    if name :| p == "tests/" + name + "/" && name != "" && forall c | c in name :: PathCharacter(c) {
      forall i | 6 <= i < |p| - 1 ensures InName(p[i]) {
        assert p[i] == name[i - 6];
        NameCharacter(p[i]);
      }
    }
  }

  predicate PathCharacter(c: char) {
    'A' <= c <= 'Z' || 'a' <= c <= 'z' || '0' <= c <= '9' || c == '_' || c == '.' || c == '/' || c == '-'
  }

  // ---------- What a selection promises ----------

  /** Every existing test directory that a changed file asks for is run, itself or within `tests/`; and when no
      reason calls for every test, a directory is run only if a changed file asks for it. */
  lemma ChangedCodeIsTested(config: Adjacency, changed: seq<string>, flagOn: bool, refName: string, eventName: string,
                            existing: set<string>, p: string)
    requires SelectionOf(config, changed, flagOn, refName, eventName, existing).Some?
    ensures var sel := SelectionOf(config, changed, flagOn, refName, eventName, existing).value;
            && ((exists f | f in changed :: p in TestsFor(config, f)) && p in existing
                ==> p in sel.paths || sel.paths == [TEST_PREFIX])
            && (sel.reason == None && p in sel.paths && p != TEST_PREFIX
                ==> p in existing && exists f | f in changed :: p in TestsFor(config, f))
  {
    hide TestsFor, IsInfrastructure, ModuleOf, UpTo, ValidTestPath;
  }

  /** A selection is refused exactly when no reason calls for every test and a changed file asks for an existing path
      that the output record refuses: with a character outside `A-Z a-z 0-9 _ . / -`, or with no name at all. */
  lemma RefusedExactly(config: Adjacency, changed: seq<string>, flagOn: bool, refName: string, eventName: string,
                       existing: set<string>)
    ensures SelectionOf(config, changed, flagOn, refName, eventName, existing) == None
       <==> && StandingReason(flagOn, refName, eventName) == None
            && ChangeReason(config, changed) == None
            && exists p | p in existing :: !ValidTestPath(p) && exists f | f in changed :: p in TestsFor(config, f)
  {
    hide TestsFor, IsInfrastructure, ModuleOf, UpTo;
    var found := Sorted(Wanted(config, changed) * existing);
    if p :| p in existing && !ValidTestPath(p) && exists f | f in changed :: p in TestsFor(config, f) {
      assert p in found;
      var i :| 0 <= i < |found| && found[i] == p;
    }
    if i :| 0 <= i < |found| && !ValidTestPath(found[i]) {
      assert found[i] in found;
    }
  }

  /** A change that calls for every test still does when more files change. */
  lemma ReasonStays(config: Adjacency, changed: seq<string>, more: seq<string>)
    requires forall f | f in changed :: f in more
    requires ChangeReason(config, changed).Some?
    ensures ChangeReason(config, more).Some?
  {
    hide IsInfrastructure, ModuleOf;
    Sets.SubsetSize(ChangedModules(config, changed), ChangedModules(config, more));
  }

  /** Every directory that is asked for and there. */
  function Found(config: Adjacency, changed: seq<string>, existing: set<string>): set<string> {
    Wanted(config, changed) * existing
  }

  lemma WantedIsNotAll(config: Adjacency, changed: seq<string>)
    ensures TEST_PREFIX !in Wanted(config, changed)
  {
    hide Head;
    forall f | f in changed ensures TEST_PREFIX !in TestsFor(config, f) {
      assert forall name :: |TestDir(name)| > |TEST_PREFIX|;
    }
  }

  lemma PathsGrow(config: Adjacency, changed: seq<string>, more: seq<string>, existing: set<string>)
    requires forall f | f in changed :: f in more
    ensures SplitCountFor(PathsFor(config, changed, existing)) <= SplitCountFor(PathsFor(config, more, existing))
    ensures Found(config, changed, existing) <= Found(config, more, existing)
  {
    hide TestsFor;
    Sets.SubsetSize(Found(config, changed, existing), Found(config, more, existing));
  }

  /** `large` runs every directory that `small` runs. */
  predicate CoversAll(large: seq<string>, small: seq<string>) {
    large == [TEST_PREFIX] || (small != [TEST_PREFIX] && forall p | p in small :: p in large)
  }

  lemma PathsCompared(config: Adjacency, changed: seq<string>, more: seq<string>, existing: set<string>)
    requires forall f | f in changed :: f in more
    ensures CoversAll(PathsFor(config, more, existing), PathsFor(config, changed, existing))
       <==> !(Found(config, changed, existing) == {} && Found(config, more, existing) != {})
  {
    hide Wanted;
    PathsGrow(config, changed, more, existing);
    WantedIsNotAll(config, changed);
    WantedIsNotAll(config, more);
    PathsAreAll(config, changed, existing);
    PathsAreAll(config, more, existing);
  }

  lemma PathsAreAll(config: Adjacency, changed: seq<string>, existing: set<string>)
    requires TEST_PREFIX !in Wanted(config, changed)
    ensures PathsFor(config, changed, existing) == [TEST_PREFIX] <==> Found(config, changed, existing) == {}
    ensures Found(config, changed, existing) != {} ==>
              forall p :: p in PathsFor(config, changed, existing) <==> p in Found(config, changed, existing)
  {
    hide Wanted;
    var found := Sorted(Found(config, changed, existing));
    if found != [] {
      assert found[0] in found && found[0] != TEST_PREFIX;
    }
  }

  /** `large` runs every directory that `small` runs; a refused selection runs nothing. */
  predicate Runs(large: Option<Selection>, small: Option<Selection>) {
    small.None? || (large.Some? && CoversAll(large.value.paths, small.value.paths))
  }

  predicate AllAccepted(paths: set<string>) {
    forall p | p in paths :: ValidTestPath(p)
  }

  /** The larger change runs less: it calls for no full run, and it asks for an existing path that is refused while the
      smaller one did not, or it asks for an existing directory at all while the smaller one, asking for none, ran all
      of `tests/`. */
  predicate Shrinks(config: Adjacency, changed: seq<string>, more: seq<string>, existing: set<string>) {
    && ChangeReason(config, more).None?
    && AllAccepted(Found(config, changed, existing))
    && (|| !AllAccepted(Found(config, more, existing))
        || (Found(config, changed, existing) == {} && Found(config, more, existing) != {}))
  }

  /** When no reason calls for every test, the selection is refused exactly if an existing path asked for is. */
  lemma CheckedExactly(config: Adjacency, changed: seq<string>, existing: set<string>)
    ensures Checked(PathsFor(config, changed, existing)).Some? <==> AllAccepted(Found(config, changed, existing))
  {
    hide Wanted;
    var found := Sorted(Found(config, changed, existing));
    assert ValidTestPath(TEST_PREFIX);
    hide ValidTestPath;
    forall p | p in found ensures exists i :: 0 <= i < |found| && found[i] == p {}
    assert forall i | 0 <= i < |found| :: found[i] in found;
  }

  /** A larger change has no fewer shards, and runs everything that the smaller one runs, except exactly when it
      shrinks. */
  lemma SelectionGrows(config: Adjacency, changed: seq<string>, more: seq<string>, flagOn: bool, refName: string,
                       eventName: string, existing: set<string>)
    requires forall f | f in changed :: f in more
    ensures var small := SelectionOf(config, changed, flagOn, refName, eventName, existing);
            var large := SelectionOf(config, more, flagOn, refName, eventName, existing);
            && (small.Some? && large.Some? ==>
                  && (small.value.reason.Some? ==> large.value.reason.Some?)
                  && small.value.splitCount <= large.value.splitCount)
            && (Runs(large, small)
                <==> !(StandingReason(flagOn, refName, eventName).None? && Shrinks(config, changed, more, existing)))
  {
    hide ChangeReason, PathsFor, UpTo, ValidTestPath, SplitCountFor, Found, AllAccepted, Wanted;
    SplitCountAtMostTwenty(PathsFor(config, changed, existing));
    if ChangeReason(config, changed).Some? {
      ReasonStays(config, changed, more);
    }
    CheckedExactly(config, changed, existing);
    CheckedExactly(config, more, existing);
    PathsGrow(config, changed, more, existing);
    PathsCompared(config, changed, more, existing);
  }

  lemma SplitCountAtMostTwenty(paths: seq<string>)
    ensures 1 <= SplitCountFor(paths) <= 20
  {
  }

  const PLAIN := Adjacency(map[], [], [], 1)

  /** Such a pair: no change at all runs `tests/`, a change below `tests/foo/` only that directory. */
  lemma LargerChangeRunsLess()
    ensures SelectionOf(PLAIN, [], true, "feature", "pull_request", {"tests/foo/"})
         == Some(Selection(["tests/"], 1, None, [1]))
    ensures SelectionOf(PLAIN, ["tests/foo/t.py"], true, "feature", "pull_request", {"tests/foo/"})
         == Some(Selection(["tests/foo/"], 1, None, [1]))
  {
    var f, existing := "tests/foo/t.py", {"tests/foo/"};
    FooIsWanted();
    hide TestsFor, ModuleOf, Head, Sorted;
    assert UpTo(1) == [1];
    assert Wanted(PLAIN, []) * existing == {};
    assert Wanted(PLAIN, [f]) == TestsFor(PLAIN, f) by { assert f in [f]; }
    assert Wanted(PLAIN, [f]) * existing == {"tests/foo/"};
    SortedOne("tests/foo/");
    assert ChangedModules(PLAIN, [f]) == {} == ChangedModules(PLAIN, []);
  }

  lemma FooIsWanted()
    ensures TestsFor(PLAIN, "tests/foo/t.py") == {"tests/foo/"} && ModuleOf(PLAIN, "tests/foo/t.py") == None
  {
    var f := "tests/foo/t.py";
    assert f[0] == 't' && SRC_PREFIX[0] == 's';
    assert f == TEST_PREFIX + "foo/t.py" && f[6..] == "foo/t.py";
    assert Head("foo/t.py") == ['f'] + Head("oo/t.py") == ['f'] + (['o'] + (['o'] + Head("/t.py"))) by {
      assert "foo/t.py"[1..] == "oo/t.py" && "oo/t.py"[1..] == "o/t.py" && "o/t.py"[1..] == "/t.py";
    }
    assert Head("/t.py") == "" && ['f'] + (['o'] + (['o'] + "")) == "foo";
    assert TestDir("foo") == "tests/foo/" && AfterPrefix(f, TEST_PREFIX) == "foo/t.py";
    assert !StartsWith(f, SRC_PREFIX) && StartsWith(f, TEST_PREFIX);
  }

  lemma SortedOne(p: string)
    ensures Sorted({p}) == [p]
  {
    assert {p} - {Least({p})} == {};
  }

  /** The matrix numbers the shards 1, 2, ..., `splitCount`, between 1 and 20 of them, and there is a reason to run
      everything only over `tests/`, in 20 shards. */
  lemma MatrixNumbersTheShards(config: Adjacency, changed: seq<string>, flagOn: bool, refName: string,
                               eventName: string, existing: set<string>)
    requires SelectionOf(config, changed, flagOn, refName, eventName, existing).Some?
    ensures var sel := SelectionOf(config, changed, flagOn, refName, eventName, existing).value;
            && 1 <= sel.splitCount == |sel.matrix| <= 20
            && (forall i | 0 <= i < |sel.matrix| :: sel.matrix[i] == i + 1)
            && (sel.reason.Some? ==> sel.splitCount == 20 && sel.paths == [TEST_PREFIX])
            && (sel.reason.None? ==> sel.splitCount <= |sel.paths|)
  {
    hide TestsFor, IsInfrastructure, ModuleOf, ValidTestPath, Wanted;
  }
}
