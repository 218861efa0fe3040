/** The coverage shard census: the metadata each shard emits (`scripts/ci/coverage_artifact_metadata.py`), its
    validation and the staging of the data files (`scripts/ci/aggregate_coverage_artifacts.py`). */
module ShardCensus {
  import opened Options
  import opened TestSelection
  import Sets

  /** A JSON value of a metadata sidecar; floats, lists and objects are not told apart. */
  datatype Val = Str(s: string) | Int(n: int) | Bool(b: bool) | Null | Other

  datatype Meta = NotObject | Object(fields: map<string, Val>)

  const SCHEMA_VERSION := "omnimarket.coverage-artifact/v1"

  // ---------- What one sidecar must say ----------

  /** A Python int; True and False are ints too. */
  function AsInt(v: Val): Option<int> {
    match v
    case Int(n) => Some(n)
    case Bool(b) => Some(if b then 1 else 0)
    case _ => None
  }

  /** What the validator is run with; `present` holds the values v for which the file `.coverage.<v>` exists,
      `parseTime` is datetime.fromisoformat, `now` and its results count microseconds, `maxAge` seconds. */
  datatype Check = Check(head: string, splitCount: int, maxAge: Option<int>, now: int,
                         parseTime: string -> Option<int>, present: set<Val>)

  function Get(m: map<string, Val>, key: string): Val {
    if key in m then m[key] else Null
  }

  predicate FreshEnough(c: Check, created: Val) {
    c.maxAge == None
    || (created.Str? && c.parseTime(created.s) != None
        && c.now - c.parseTime(created.s).value <= c.maxAge.value * 1000000)
  }

  /** Everything checked about one sidecar on its own. */
  predicate WellFormed(c: Check, m: Meta) {
    && m.Object?
    && (forall key | key in {"schema_version", "head_sha", "split", "split_count", "test_scope"} :: key in m.fields)
    && m.fields["schema_version"] == Str(SCHEMA_VERSION)
    && m.fields["head_sha"] == Str(c.head)
    && AsInt(m.fields["split"]) != None
    && AsInt(m.fields["split_count"]) == Some(c.splitCount)
    && m.fields["test_scope"] in {Str("full"), Str("smart")}
    && FreshEnough(c, Get(m.fields, "created_at"))
    && m.fields["split"] in c.present
  }

  function SplitOf(m: Meta): int {
    if m.Object? && "split" in m.fields && AsInt(m.fields["split"]) != None then AsInt(m.fields["split"]).value else 0
  }

  function ScopeOf(m: Meta): string {
    if m.Object? && "test_scope" in m.fields && m.fields["test_scope"].Str? then m.fields["test_scope"].s else ""
  }

  function SplitsOf(metas: seq<Meta>): seq<int> {
    seq(|metas|, i requires 0 <= i < |metas| => SplitOf(metas[i]))
  }

  /** The census is complete and of one kind. */
  ghost predicate Complete(c: Check, metas: seq<Meta>, scope: string) {
    && metas != []
    && (forall i | 0 <= i < |metas| :: WellFormed(c, metas[i]) && ScopeOf(metas[i]) == scope)
    && multiset(SplitsOf(metas)) == multiset(UpTo(c.splitCount))
  }

  // ---------- The validator ----------

  /** The loop over the sidecars and the two checks after it; `None` stands for a rejection. */
  method ValidateArtifacts(metas: seq<Meta>, c: Check) returns (scope: Option<string>)
    ensures scope.Some? ==> Complete(c, metas, scope.value)
    ensures scope.None? ==> forall s :: !Complete(c, metas, s)
  {
    hide WellFormed, SplitOf, ScopeOf, Complete;
    if metas == [] {
      NoneGiven(c);
      return None;
    }
    var seenSplits: set<int> := {};
    var scopes: set<string> := {};
    for n := 0 to |metas|
      invariant AllFit(c, metas[..n])
      invariant seenSplits == Members(SplitsOf(metas[..n])) && Distinct(SplitsOf(metas[..n]))
      invariant scopes == ScopesOf(metas[..n])
    {
      hide AllFit, ScopesOf, SplitsOf, Distinct, Members;
      if !WellFormed(c, metas[n]) {
        MisfitRejected(c, metas, n);
        return None;
      }
      var split := SplitOf(metas[n]);
      OneMore(c, metas, n);
      if split in seenSplits {
        DuplicateRejected(c, metas, n);
        return None;
      }
      seenSplits := seenSplits + {split};
      scopes := scopes + {ScopeOf(metas[n])};
    }
    assert metas[..|metas|] == metas;
    DistinctIsPermutation(SplitsOf(metas), c.splitCount);
    LastChecks(c, metas);
    if seenSplits != (set k | k in UpTo(c.splitCount)) {
      return None;
    }
    if |scopes| != 1 {
      return None;
    }
    scope := Some(ScopeOf(metas[0]));
  }

  ghost predicate AllFit(c: Check, metas: seq<Meta>) {
    forall i | 0 <= i < |metas| :: WellFormed(c, metas[i])
  }

  function ScopesOf(metas: seq<Meta>): set<string> {
    set m | m in metas :: ScopeOf(m)
  }

  lemma NoneGiven(c: Check)
    ensures forall s :: !Complete(c, [], s)
  {
  }

  lemma OneMore(c: Check, metas: seq<Meta>, n: nat)
    requires n < |metas| && AllFit(c, metas[..n]) && Distinct(SplitsOf(metas[..n]))
    ensures WellFormed(c, metas[n]) ==> AllFit(c, metas[..n + 1])
    ensures Members(SplitsOf(metas[..n + 1])) == Members(SplitsOf(metas[..n])) + {SplitOf(metas[n])}
    ensures SplitOf(metas[n]) !in Members(SplitsOf(metas[..n])) ==> Distinct(SplitsOf(metas[..n + 1]))
    ensures ScopesOf(metas[..n + 1]) == ScopesOf(metas[..n]) + {ScopeOf(metas[n])}
  {
    hide WellFormed, SplitOf, ScopeOf;
    assert metas[..n + 1] == metas[..n] + [metas[n]];
    assert SplitsOf(metas[..n + 1]) == SplitsOf(metas[..n]) + [SplitOf(metas[n])];
  }

  lemma MisfitRejected(c: Check, metas: seq<Meta>, n: nat)
    requires n < |metas| && !WellFormed(c, metas[n])
    ensures forall s :: !Complete(c, metas, s)
  {
    hide WellFormed, SplitOf, ScopeOf;
  }

  lemma LastChecks(c: Check, metas: seq<Meta>)
    requires metas != [] && AllFit(c, metas)
    ensures forall s | Complete(c, metas, s) ::
              multiset(SplitsOf(metas)) == multiset(UpTo(c.splitCount)) && ScopesOf(metas) == {s}
    ensures multiset(SplitsOf(metas)) == multiset(UpTo(c.splitCount)) && |ScopesOf(metas)| == 1
            ==> Complete(c, metas, ScopeOf(metas[0]))
  {
    hide WellFormed, SplitOf, ScopeOf, UpTo;
    var scopes := ScopesOf(metas);
    assert ScopeOf(metas[0]) in scopes;
    if |scopes| == 1 {
      forall i | 0 <= i < |metas| ensures ScopeOf(metas[i]) == ScopeOf(metas[0]) {
        OnlyMember(scopes, ScopeOf(metas[i]), ScopeOf(metas[0]));
      }
    }
  }

  lemma OnlyMember(s: set<string>, a: string, b: string)
    requires |s| == 1 && a in s && b in s
    ensures a == b
  {
    assert |s - {a}| == 0;
  }

  predicate Distinct(xs: seq<int>) {
    forall i, j | 0 <= i < j < |xs| :: xs[i] != xs[j]
  }

  function Members(xs: seq<int>): set<int> {
    set x | x in xs
  }

  lemma {:induction false} DistinctMultiset(xs: seq<int>)
    requires Distinct(xs)
    ensures multiset(xs) == multiset(Members(xs))
  {
    if xs != [] {
      var n := |xs| - 1;
      DistinctMultiset(xs[..n]);
      assert xs == xs[..n] + [xs[n]];
      assert Members(xs) == Members(xs[..n]) + {xs[n]};
    }
  }

  lemma {:induction false} MultisetDistinct(xs: seq<int>, ys: seq<int>)
    requires Distinct(ys) && multiset(xs) == multiset(ys)
    ensures Distinct(xs) && Members(xs) == Members(ys)
  {
    DistinctMultiset(ys);
    forall i, j | 0 <= i < j < |xs| ensures xs[i] != xs[j] {
      if xs[i] == xs[j] { TwiceCounted(xs, i, j); }
    }
    forall x ensures x in Members(xs) <==> x in Members(ys) {
      assert x in xs <==> x in multiset(xs);
    }
  }

  lemma TwiceCounted(xs: seq<int>, i: int, j: int)
    requires 0 <= i < j < |xs| && xs[i] == xs[j]
    ensures multiset(xs)[xs[i]] >= 2
  {
    assert xs == xs[..j] + [xs[j]] + xs[j + 1..];
    assert xs[i] == xs[..j][i] && xs[i] in xs[..j];
    assert multiset(xs) == multiset(xs[..j]) + multiset{xs[j]} + multiset(xs[j + 1..]);
  }

  lemma DistinctIsPermutation(xs: seq<int>, n: int)
    requires Distinct(xs)
    ensures multiset(xs) == multiset(UpTo(n)) <==> Members(xs) == set k | k in UpTo(n)
  {
    assert Distinct(UpTo(n));
    DistinctMultiset(xs);
    DistinctMultiset(UpTo(n));
    if multiset(xs) == multiset(UpTo(n)) { MultisetDistinct(xs, UpTo(n)); }
  }

  lemma DuplicateRejected(c: Check, metas: seq<Meta>, n: nat)
    requires n < |metas| && SplitOf(metas[n]) in Members(SplitsOf(metas[..n]))
    ensures forall s :: !Complete(c, metas, s)
  {
    hide WellFormed, SplitOf, ScopeOf;
    var splits := SplitsOf(metas);
    var i :| 0 <= i < n && SplitsOf(metas[..n])[i] == splits[n];
    assert splits[i] == splits[n];
    if multiset(splits) == multiset(UpTo(c.splitCount)) {
      MultisetDistinct(splits, UpTo(c.splitCount));
    }
  }

  // ---------- Acceptance, over the fields ----------

  /** The value is this Python int. */
  predicate Numbered(v: Val, n: int) {
    v == Int(n) || (v == Bool(true) && n == 1) || (v == Bool(false) && n == 0)
  }

  /** The sidecar is that of shard `k`, says this scope, and is bound to the validated run; with an age limit its
      creation time can be read and lies no more than that many seconds back. */
  predicate SaysShard(c: Check, m: Meta, k: int, scope: string) {
    && m.Object?
    && "schema_version" in m.fields && m.fields["schema_version"] == Str("omnimarket.coverage-artifact/v1")
    && "head_sha" in m.fields && m.fields["head_sha"] == Str(c.head)
    && "split_count" in m.fields && Numbered(m.fields["split_count"], c.splitCount)
    && "split" in m.fields && Numbered(m.fields["split"], k) && m.fields["split"] in c.present
    && "test_scope" in m.fields && m.fields["test_scope"] == Str(scope) && (scope == "full" || scope == "smart")
    && (c.maxAge.Some? ==>
          && "created_at" in m.fields && m.fields["created_at"].Str?
          && c.parseTime(m.fields["created_at"].s).Some?
          && c.parseTime(m.fields["created_at"].s).value + c.maxAge.value * 1000000 >= c.now)
  }

  lemma SaysExactly(c: Check, m: Meta, k: int, scope: string)
    ensures SaysShard(c, m, k, scope) <==> WellFormed(c, m) && SplitOf(m) == k && ScopeOf(m) == scope
  {
  }

  lemma {:induction false} AsManyMembers(xs: seq<int>)
    ensures |Members(xs)| <= |xs|
    ensures |Members(xs)| == |xs| ==> Distinct(xs)
  {
    if xs != [] {
      var n := |xs| - 1;
      AsManyMembers(xs[..n]);
      assert xs == xs[..n] + [xs[n]];
      assert Members(xs) == Members(xs[..n]) + {xs[n]};
    }
  }

  lemma UpToMembers(n: int)
    ensures forall k :: k in Members(UpTo(n)) <==> 1 <= k <= n
    ensures n >= 0 ==> |Members(UpTo(n))| == n
  {
    forall k | 1 <= k <= n ensures k in UpTo(n) { assert UpTo(n)[k - 1] == k; }
    DistinctMultiset(UpTo(n));
    assert |multiset(UpTo(n))| == |UpTo(n)|;
    assert |multiset(Members(UpTo(n)))| == |Members(UpTo(n))|;
  }

  ghost predicate IsShard(c: Check, m: Meta, scope: string) {
    exists k :: SaysShard(c, m, k, scope)
  }

  ghost predicate HasShard(c: Check, metas: seq<Meta>, k: int, scope: string) {
    exists i | 0 <= i < |metas| :: SaysShard(c, metas[i], k, scope)
  }

  lemma HasExactly(c: Check, metas: seq<Meta>, scope: string)
    requires forall i | 0 <= i < |metas| :: WellFormed(c, metas[i]) && ScopeOf(metas[i]) == scope
    ensures forall k :: HasShard(c, metas, k, scope) <==> k in Members(SplitsOf(metas))
  {
    hide WellFormed, SplitOf, ScopeOf, SaysShard;
    forall k ensures HasShard(c, metas, k, scope) <==> k in Members(SplitsOf(metas)) {
      forall i | 0 <= i < |metas| ensures SaysShard(c, metas[i], k, scope) <==> SplitsOf(metas)[i] == k {
        SaysExactly(c, metas[i], k, scope);
      }
    }
  }

  lemma IsExactly(c: Check, m: Meta, scope: string)
    ensures IsShard(c, m, scope) <==> WellFormed(c, m) && ScopeOf(m) == scope
  {
    hide WellFormed, SplitOf, ScopeOf, SaysShard;
    SaysExactly(c, m, SplitOf(m), scope);
    forall k ensures SaysShard(c, m, k, scope) ==> WellFormed(c, m) && ScopeOf(m) == scope {
      SaysExactly(c, m, k, scope);
    }
  }

  /** A census is accepted with a scope exactly if there are as many sidecars as shards, at least one, each is the
      sidecar of some shard with that scope, and every shard has one. */
  lemma AcceptedExactly(c: Check, metas: seq<Meta>, scope: string)
    ensures Complete(c, metas, scope)
       <==> && |metas| == c.splitCount > 0
            && (forall i | 0 <= i < |metas| :: IsShard(c, metas[i], scope))
            && forall k :: 1 <= k <= c.splitCount ==> HasShard(c, metas, k, scope)
  {
    forall i | 0 <= i < |metas|
      ensures IsShard(c, metas[i], scope) <==> WellFormed(c, metas[i]) && ScopeOf(metas[i]) == scope
    {
      IsExactly(c, metas[i], scope);
    }
    hide IsShard, HasShard, WellFormed, ScopeOf, SplitsOf, Members, UpTo;
    if forall i | 0 <= i < |metas| :: IsShard(c, metas[i], scope) {
      HasExactly(c, metas, scope);
      UpToMembers(c.splitCount);
      SplitsAreAll(c, metas, scope);
    }
  }

  lemma SplitsAreAll(c: Check, metas: seq<Meta>, scope: string)
    ensures metas != [] && multiset(SplitsOf(metas)) == multiset(UpTo(c.splitCount))
       <==> |metas| == c.splitCount > 0 && Members(UpTo(c.splitCount)) <= Members(SplitsOf(metas))
  {
    var splits := SplitsOf(metas);
    if metas != [] && multiset(splits) == multiset(UpTo(c.splitCount)) {
      SameSize(splits, UpTo(c.splitCount));
      MultisetDistinct(splits, UpTo(c.splitCount));
    }
    if |metas| == c.splitCount > 0 && Members(UpTo(c.splitCount)) <= Members(splits) {
      AllShardsOnce(splits, c.splitCount);
    }
  }

  lemma AllShardsOnce(splits: seq<int>, n: int)
    requires |splits| == n > 0 && Members(UpTo(n)) <= Members(splits)
    ensures multiset(splits) == multiset(UpTo(n))
  {
    hide UpTo;
    UpToMembers(n);
    AsManyMembers(splits);
    Sets.SubsetSize(Members(UpTo(n)), Members(splits));
    if extra :| extra in Members(splits) && extra !in Members(UpTo(n)) {
      Sets.SubsetSize(Members(UpTo(n)) + {extra}, Members(splits));
    }
    DistinctIsPermutation(splits, n);
  }

  // ---------- Damage to an accepted census ----------

  lemma SameSize(xs: seq<int>, ys: seq<int>)
    requires multiset(xs) == multiset(ys)
    ensures |xs| == |ys|
  {
    assert |multiset(xs)| == |multiset(ys)|;
  }

  /** Two accepted censuses of one run have equally many sidecars: dropping sidecars from an accepted census, or
      adding any at all, is rejected. */
  lemma NoLossNoAddition(c: Check, metas: seq<Meta>, others: seq<Meta>, s: string, t: string)
    requires Complete(c, metas, s) && |others| != |metas|
    ensures !Complete(c, others, t)
  {
    hide WellFormed, SplitOf, ScopeOf;
    if multiset(SplitsOf(others)) == multiset(UpTo(c.splitCount)) {
      SameSize(SplitsOf(others), SplitsOf(metas));
    }
  }

  /** One sidecar of an accepted census can be exchanged for exactly those that are well-formed themselves, number
      the same shard and say the scope of the others; so one bound to another head never passes. */
  lemma ExchangeOne(c: Check, metas: seq<Meta>, i: nat, m: Meta, s: string, t: string)
    requires Complete(c, metas, s) && i < |metas|
    ensures Complete(c, metas[i := m], t)
       <==> WellFormed(c, m) && SplitOf(m) == SplitOf(metas[i]) && ScopeOf(m) == t && (|metas| > 1 ==> t == s)
  {
    hide WellFormed, SplitOf, ScopeOf, UpTo;
    var other := metas[i := m];
    assert SplitsOf(other) == SplitsOf(metas)[i := SplitOf(m)];
    UpdateMultiset(SplitsOf(metas), i, SplitOf(m));
    if |metas| > 1 {
      var j := if i == 0 then 1 else 0;
      assert other[j] == metas[j];
    }
    assert other[i] == m;
  }

  lemma UpdateMultiset(xs: seq<int>, i: nat, x: int)
    requires i < |xs|
    ensures multiset(xs[i := x]) == multiset(xs) <==> x == xs[i]
  {
    assert multiset(xs[i := x]) == multiset(xs)[xs[i] := multiset(xs)[xs[i]] - 1] + multiset{x};
  }

  /** Binding one sidecar of an accepted census to another head gets the whole census rejected. */
  lemma ReheadingIsRejected(c: Check, metas: seq<Meta>, i: nat, head: string, s: string, t: string)
    requires Complete(c, metas, s) && i < |metas| && head != c.head
    ensures metas[i].Object?
    ensures !Complete(c, metas[i := Object(metas[i].fields["head_sha" := Str(head)])], t)
  {
    assert WellFormed(c, metas[i]);
    var m := Object(metas[i].fields["head_sha" := Str(head)]);
    assert !WellFormed(c, m) by { assert m.fields["head_sha"] == Str(head); }
    hide WellFormed;
    ExchangeOne(c, metas, i, m, s, t);
  }

  // ---------- The order of the sidecars ----------

  /** The order in which the sidecars are found never matters. */
  lemma OrderIsIrrelevant(c: Check, metas: seq<Meta>, shuffled: seq<Meta>, s: string)
    requires multiset(metas) == multiset(shuffled)
    ensures Complete(c, metas, s) <==> Complete(c, shuffled, s)
  {
    hide WellFormed, SplitOf, ScopeOf, UpTo;
    ShuffledSplits(metas, shuffled);
    assert forall m :: m in metas <==> m in shuffled by {
      assert forall m :: m in metas <==> m in multiset(metas);
      assert forall m :: m in shuffled <==> m in multiset(shuffled);
    }
    FitAll(c, metas, s);
    FitAll(c, shuffled, s);
  }

  lemma FitAll(c: Check, metas: seq<Meta>, s: string)
    ensures (forall i | 0 <= i < |metas| :: WellFormed(c, metas[i]) && ScopeOf(metas[i]) == s)
       <==> (forall m | m in metas :: WellFormed(c, m) && ScopeOf(m) == s)
  {
    hide WellFormed, ScopeOf;
  }

  lemma {:induction false} ShuffledSplits(metas: seq<Meta>, shuffled: seq<Meta>)
    requires multiset(metas) == multiset(shuffled)
    ensures multiset(SplitsOf(metas)) == multiset(SplitsOf(shuffled))
    decreases |metas|
  {
    hide SplitOf, SplitsOf, Without;
    if metas == [] {
      assert |multiset(shuffled)| == 0;
    } else {
      assert metas[0] in multiset(shuffled);
      var j :| 0 <= j < |shuffled| && shuffled[j] == metas[0];
      TakeOut(metas, 0);
      TakeOut(shuffled, j);
      ShuffledSplits(Without(metas, 0), Without(shuffled, j));
    }
  }

  function Without(metas: seq<Meta>, j: nat): (rest: seq<Meta>)
    requires j < |metas|
    ensures |rest| == |metas| - 1
  {
    metas[..j] + metas[j + 1..]
  }

  lemma TakeOut(metas: seq<Meta>, j: nat)
    requires j < |metas|
    ensures multiset(Without(metas, j)) == multiset(metas) - multiset{metas[j]}
    ensures multiset(SplitsOf(metas)) == multiset(SplitsOf(Without(metas, j))) + multiset{SplitOf(metas[j])}
  {
    hide SplitOf;
    var front, back := metas[..j], metas[j + 1..];
    assert metas == front + [metas[j]] + back;
    assert SplitsOf(metas) == SplitsOf(front) + [SplitOf(metas[j])] + SplitsOf(back);
    assert SplitsOf(front + back) == SplitsOf(front) + SplitsOf(back);
  }

  // ---------- The producer ----------

  /** What the environment of one shard adds to its sidecar. */
  datatype Shard = Shard(runId: Option<string>, runAttempt: Option<string>, runnerOs: Option<string>,
                         pythonVersion: string, stamp: string)

  function OrNull(s: Option<string>): Val {
    match s case None => Null case Some(t) => Str(t)
  }

  function DeriveTestScope(smartFlag: Option<string>, isFull: Option<string>): (scope: string)
    ensures scope in {"full", "smart"}
    ensures scope == "full" <==> smartFlag != Some("true") || isFull == Some("true")
  {
    if smartFlag == Some("true") && isFull != Some("true") then "smart" else "full"
  }

  /** `None` for the ValueError on an unknown scope. */
  function BuildShardMetadata(head: string, split: int, splitCount: int, scope: string, shard: Shard): Option<Meta> {
    if scope !in {"full", "smart"} then None
    else
      Some(Object(map[
        "schema_version" := Str(SCHEMA_VERSION),
        "head_sha" := Str(head),
        "split" := Int(split),
        "split_count" := Int(splitCount),
        "test_scope" := Str(scope),
        "run_id" := OrNull(shard.runId),
        "run_attempt" := OrNull(shard.runAttempt),
        "python_version" := Str(shard.pythonVersion),
        "runner_os" := OrNull(shard.runnerOs),
        "created_at" := Str(shard.stamp)
      ]))
  }

  /** One built sidecar is well-formed exactly when its scope is known, it is bound to the validated head and split
      count, it is fresh enough, and its data file arrived. */
  lemma BuiltIsWellFormed(c: Check, head: string, split: int, splitCount: int, scope: string, shard: Shard)
    ensures match BuildShardMetadata(head, split, splitCount, scope, shard)
            case None => scope !in {"full", "smart"}
            case Some(m) =>
              && SplitOf(m) == split && ScopeOf(m) == scope
              && (WellFormed(c, m)
                  <==> && head == c.head && splitCount == c.splitCount
                       && FreshEnough(c, Str(shard.stamp)) && Int(split) in c.present)
  {
  }

  /** A built sidecar also says where it comes from. */
  lemma BuiltSaysItsOrigin(head: string, split: int, splitCount: int, scope: string, shard: Shard)
    requires scope in {"full", "smart"}
    ensures var m := BuildShardMetadata(head, split, splitCount, scope, shard).value;
            && {"run_id", "run_attempt", "python_version", "runner_os"} <= m.fields.Keys
            && m.fields["run_id"] == (if shard.runId.None? then Null else Str(shard.runId.value))
            && m.fields["run_attempt"] == (if shard.runAttempt.None? then Null else Str(shard.runAttempt.value))
            && m.fields["runner_os"] == (if shard.runnerOs.None? then Null else Str(shard.runnerOs.value))
            && m.fields["python_version"] == Str(shard.pythonVersion)
  {
  }

  /** The sidecars of a whole matrix, `shards[k]` being the environment of shard k + 1. */
  ghost predicate BuiltFor(metas: seq<Meta>, matrix: seq<int>, head: string, scope: string, shards: seq<Shard>) {
    && |metas| == |matrix| == |shards|
    && forall k | 0 <= k < |matrix| ::
         BuildShardMetadata(head, matrix[k], |matrix|, scope, shards[k]) == Some(metas[k])
  }

  /** The round trip from the selection to the validator: the sidecars built for every entry of the matrix, found in
      any order, are accepted with the scope they were built with, exactly when every shard is bound to the validated
      head, is fresh enough, and brought its data file. */
  lemma SelectionRoundTrip(config: Adjacency, changed: seq<string>, flagOn: bool, refName: string, eventName: string,
                           existing: set<string>, head: string, scope: string, shards: seq<Shard>,
                           metas: seq<Meta>, found: seq<Meta>, c: Check)
    requires SelectionOf(config, changed, flagOn, refName, eventName, existing).Some?
    requires var sel := SelectionOf(config, changed, flagOn, refName, eventName, existing).value;
             BuiltFor(metas, sel.matrix, head, scope, shards) && c.splitCount == sel.splitCount
    requires multiset(metas) == multiset(found)
    ensures Complete(c, found, scope)
       <==> && head == c.head
            && forall k | 0 <= k < |shards| :: FreshEnough(c, Str(shards[k].stamp)) && Int(k + 1) in c.present
  {
    hide WellFormed, SplitOf, ScopeOf, BuildShardMetadata, FreshEnough, SelectionOf, UpTo;
    var matrix := SelectionOf(config, changed, flagOn, refName, eventName, existing).value.matrix;
    MatrixNumbersTheShards(config, changed, flagOn, refName, eventName, existing);
    forall k | 0 <= k < |metas|
      ensures SplitOf(metas[k]) == k + 1 && ScopeOf(metas[k]) == scope
      ensures WellFormed(c, metas[k])
         <==> head == c.head && FreshEnough(c, Str(shards[k].stamp)) && Int(k + 1) in c.present
    {
      BuiltIsWellFormed(c, head, matrix[k], |matrix|, scope, shards[k]);
    }
    assert SplitsOf(metas) == UpTo(c.splitCount) by { UpToItems(c.splitCount); }
    OrderIsIrrelevant(c, metas, found, scope);
    assert WellFormed(c, metas[0]) ==> head == c.head;
  }

  lemma UpToItems(n: int)
    requires n > 0
    ensures |UpTo(n)| == n && forall k | 0 <= k < n :: UpTo(n)[k] == k + 1
  {
  }

  // ---------- Staging ----------

  /** The copies made before combining; a missing data file stops the loop. */
  method StageDataFiles(splitCount: int, present: set<Val>) returns (staged: seq<int>, ok: bool)
    ensures ok <==> forall k | k in UpTo(splitCount) :: Int(k) in present
    ensures ok ==> staged == UpTo(splitCount)
  {
    staged := [];
    var split := 1;
    while split <= splitCount
      invariant staged == UpTo(split - 1)
      invariant 1 <= split && (split <= splitCount + 1 || split == 1)
      invariant forall k | k in staged :: Int(k) in present
    {
      if Int(split) !in present {
        assert UpTo(splitCount)[split - 1] == split;
        return staged, false;
      }
      staged := staged + [split];
      split := split + 1;
    }
    ok := true;
  }

  /** After acceptance every data file but the first is certainly there, and staging succeeds exactly when the file
      of shard 1 is: JSON `true` passes for the number 1, but its data file is `.coverage.True`. */
  lemma StagingAfterAcceptance(c: Check, metas: seq<Meta>, s: string)
    requires Complete(c, metas, s)
    ensures forall k | k in UpTo(c.splitCount) && k != 1 :: Int(k) in c.present
    ensures (forall k | k in UpTo(c.splitCount) :: Int(k) in c.present) <==> Int(1) in c.present
  {
    var splits := SplitsOf(metas);
    assert |multiset(splits)| == |metas|;
    assert UpTo(c.splitCount) != [] && UpTo(c.splitCount)[0] == 1;
    forall k | k in UpTo(c.splitCount) && k != 1 ensures Int(k) in c.present {
      assert k in multiset(splits);
      var i :| 0 <= i < |splits| && splits[i] == k;
      SplitNamesItsFile(c, metas[i]);
    }
  }

  lemma SplitNamesItsFile(c: Check, m: Meta)
    requires WellFormed(c, m) && SplitOf(m) !in {0, 1}
    ensures Int(SplitOf(m)) in c.present
  {
    assert m.fields["split"] == Int(SplitOf(m));
  }

  /** A census that is accepted and cannot be staged. */
  lemma TrueIsAcceptedAsShardOne()
    ensures var c := Check("abc", 1, None, 0, s => None, {Bool(true)});
            var m := Object(map["schema_version" := Str(SCHEMA_VERSION), "head_sha" := Str("abc"),
                                "split" := Bool(true), "split_count" := Int(1), "test_scope" := Str("full")]);
            Complete(c, [m], "full") && Int(1) !in c.present
  {
    var c := Check("abc", 1, None, 0, s => None, {Bool(true)});
    var m := Object(map["schema_version" := Str(SCHEMA_VERSION), "head_sha" := Str("abc"),
                        "split" := Bool(true), "split_count" := Int(1), "test_scope" := Str("full")]);
    assert WellFormed(c, m);
    assert SplitsOf([m]) == [1] == UpTo(1);
  }
}
