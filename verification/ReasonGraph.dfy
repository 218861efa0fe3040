/** The typed reason graph, `scripts/ci/product_reason_graph.py` over `scripts/ci/product_readiness.py`. */
module ReasonGraph {
  import opened Options

  // ---------- Product readiness ----------

  datatype Subcheck = ChangeDetection | Lint | Typecheck | Tests | Coverage

  const SUBCHECKS: seq<Subcheck> := [ChangeDetection, Lint, Typecheck, Tests, Coverage]

  datatype Category = Pass | Fail | Infra | Absent

  datatype Product = Failed(reporter: Subcheck) | Unconfirmed | Green

  /** What is known about one head. A missing entry and Python's None are both `None`; `norm` is str.strip followed
      by str.lower. */
  datatype Facts = Facts(headSha: string, checks: Subcheck -> Option<string>, signals: Signals, norm: string -> string)

  datatype Signals = Signals(occ: Option<string>, runner: Option<string>, ghApi: Option<string>,
                             policy: Option<string>, deploy: Option<string>)

  function Norm(facts: Facts, value: Option<string>): string {
    match value case None => "" case Some(s) => facts.norm(s)
  }

  function Categorize(value: string): Category {
    if value in {"success", "neutral"} then Pass
    else if value in {"failure", "action_required"} then Fail
    else if value in {"", "none", "null", "pending", "queued", "in_progress", "waiting", "expected", "requested"}
    then Absent
    else Infra
  }

  function CategoryOf(facts: Facts, c: Subcheck): Category {
    Categorize(Norm(facts, facts.checks(c)))
  }

  function FirstFailed(facts: Facts, checks: seq<Subcheck>): Option<Subcheck> {
    if checks == [] then None
    else if CategoryOf(facts, checks[0]) == Fail then Some(checks[0])
    else FirstFailed(facts, checks[1..])
  }

  /** `classify`: the first failed subcheck, else whether every subcheck passed. */
  function Classify(facts: Facts): Product {
    match FirstFailed(facts, SUBCHECKS)
    case Some(c) => Failed(c)
    case None =>
      if exists c | c in SUBCHECKS :: CategoryOf(facts, c) in {Infra, Absent} then Unconfirmed else Green
  }

  /** The place of a subcheck in the fixed order. */
  function Rank(c: Subcheck): nat {
    match c case ChangeDetection => 0 case Lint => 1 case Typecheck => 2 case Tests => 3 case Coverage => 4
  }

  lemma {:induction false} FirstFailedMeaning(facts: Facts, checks: seq<Subcheck>)
    ensures match FirstFailed(facts, checks)
            case None => forall c | c in checks :: CategoryOf(facts, c) != Fail
            case Some(c) =>
              exists i | 0 <= i < |checks| :: checks[i] == c && CategoryOf(facts, c) == Fail
                                              && forall d | d in checks[..i] :: CategoryOf(facts, d) != Fail
  {
    hide CategoryOf;
    if checks != [] {
      FirstFailedMeaning(facts, checks[1..]);
      if CategoryOf(facts, checks[0]) != Fail && FirstFailed(facts, checks[1..]).Some? {
        var c := FirstFailed(facts, checks[1..]).value;
        var i :| 0 <= i < |checks[1..]| && checks[1..][i] == c
                 && forall d | d in checks[1..][..i] :: CategoryOf(facts, d) != Fail;
        assert checks[..i + 1] == [checks[0]] + checks[1..][..i];
        assert checks[i + 1] == c;
      }
    }
  }

  lemma RankIsPosition(c: Subcheck)
    ensures Rank(c) < |SUBCHECKS| && SUBCHECKS[Rank(c)] == c && c in SUBCHECKS
    ensures forall i | 0 <= i < |SUBCHECKS| && SUBCHECKS[i] == c :: i == Rank(c)
  {
    assert SUBCHECKS[Rank(c)] == c;
  }

  /** A failure is named by the first failed subcheck in the fixed order, whatever the others say; green means that
      every subcheck passed. */
  lemma ClassifyMeaning(facts: Facts, c: Subcheck)
    ensures Classify(facts) == Failed(c)
       <==> CategoryOf(facts, c) == Fail && forall d | Rank(d) < Rank(c) :: CategoryOf(facts, d) != Fail
    ensures Classify(facts) == Green <==> forall d :: CategoryOf(facts, d) == Pass
    ensures !Classify(facts).Failed? ==> CategoryOf(facts, c) != Fail
  {
    hide CategoryOf;
    forall d { RankIsPosition(d); }
    FirstFailedMeaning(facts, SUBCHECKS);
    if FirstFailed(facts, SUBCHECKS).Some? {
      var e := FirstFailed(facts, SUBCHECKS).value;
      var i :| 0 <= i < |SUBCHECKS| && SUBCHECKS[i] == e
               && forall d | d in SUBCHECKS[..i] :: CategoryOf(facts, d) != Fail;
      forall d | Rank(d) < Rank(e) ensures CategoryOf(facts, d) != Fail {
        assert SUBCHECKS[..i][Rank(d)] == d;
      }
    }
  }

  // ---------- Causes ----------

  datatype Kind = GithubApiOutage | RunnerInfra | PolicyHeld | EvidenceMissing | ProductFailed | DeployTriggerFailed

  const ROOT_PRECEDENCE: seq<Kind> :=
    [GithubApiOutage, RunnerInfra, PolicyHeld, EvidenceMissing, ProductFailed, DeployTriggerFailed]

  function CheckName(c: Subcheck): string {
    match c
    case ChangeDetection => "change_detection"
    case Lint => "lint"
    case Typecheck => "typecheck"
    case Tests => "tests"
    case Coverage => "coverage"
  }

  predicate OccRed(facts: Facts) {
    Norm(facts, facts.signals.occ) in {"failure", "action_required", "absent", "missing", "none", "null"}
  }

  function InfraNames(facts: Facts, checks: seq<Subcheck>): string {
    if checks == [] then ""
    else
      var rest := InfraNames(facts, checks[1..]);
      if CategoryOf(facts, checks[0]) !in {Infra, Absent} then rest
      else CheckName(checks[0]) + if rest == "" then "" else "," + rest
  }

  const OUTAGE_SIGNALS := {"5xx", "ratelimit", "rate_limit", "graphql_down", "503", "502", "500"}

  /** The signal with which a cause is a candidate. */
  function Candidate(facts: Facts, kind: Kind): Option<string> {
    var s := facts.signals;
    match kind
    case GithubApiOutage =>
      var ghApi := Norm(facts, s.ghApi);
      if ghApi in OUTAGE_SIGNALS
      then Some("gh_api=" + ghApi) else None
    case RunnerInfra =>
      if Norm(facts, s.runner) != "" then Some("runner=" + Norm(facts, s.runner))
      else if Classify(facts) == Unconfirmed && !OccRed(facts)
      then Some("product_infra:" + InfraNames(facts, SUBCHECKS)) else None
    case PolicyHeld =>
      if Norm(facts, s.policy) != "" then Some("policy=" + Norm(facts, s.policy)) else None
    case EvidenceMissing =>
      if OccRed(facts) && !Classify(facts).Failed? then Some("occ_eligibility=" + Norm(facts, s.occ)) else None
    case ProductFailed =>
      if Classify(facts).Failed? then Some(CheckName(Classify(facts).reporter) + "=failure") else None
    case DeployTriggerFailed =>
      var deploy := Norm(facts, s.deploy);
      if deploy in {"failure", "action_required", "error"} then Some("deploy_trigger=" + deploy) else None
  }

  // ---------- The graph ----------

  datatype Status = Passed | FailedNode | BlockedUpstream | InfraNode | AbsentNode

  datatype Name = Product(check: Subcheck) | Reporter(kind: Kind)

  /** A receipt is the text that is hashed into the receipt id. */
  datatype Node = Node(name: Name, status: Status, isRoot: bool, receipt: Option<string>)

  datatype Root = Root(kind: Kind, signal: string, receipt: string)

  datatype Graph = Graph(root: Option<Root>, nodes: seq<Node>, blockedUpstream: nat, product: Product, ready: bool)

  function KindText(kind: Kind): string {
    match kind
    case GithubApiOutage => "GITHUB_API_OUTAGE"
    case RunnerInfra => "RUNNER_INFRA"
    case PolicyHeld => "POLICY_HELD"
    case EvidenceMissing => "EVIDENCE_MISSING"
    case ProductFailed => "PRODUCT_FAILED"
    case DeployTriggerFailed => "DEPLOY_TRIGGER_FAILED"
  }

  function ReceiptText(headSha: string, kind: Kind, signal: string): string {
    headSha + "||" + KindText(kind) + "||" + signal
  }

  function FirstCandidate(facts: Facts, kinds: seq<Kind>): Option<Kind> {
    if kinds == [] then None
    else if Candidate(facts, kinds[0]).Some? then Some(kinds[0])
    else FirstCandidate(facts, kinds[1..])
  }

  function RootOf(facts: Facts): Option<Root> {
    match FirstCandidate(facts, ROOT_PRECEDENCE)
    case None => None
    case Some(kind) =>
      var signal := if Candidate(facts, kind).Some? then Candidate(facts, kind).value else "";
      Some(Root(kind, signal, ReceiptText(facts.headSha, kind, signal)))
  }

  function NodeFor(facts: Facts, root: Option<Root>, c: Subcheck): Node {
    var category := CategoryOf(facts, c);
    if root.Some? && root.value.kind == ProductFailed && Classify(facts) == Failed(c)
    then Node(Product(c), FailedNode, true, Some(root.value.receipt))
    else if category == Pass then Node(Product(c), Passed, false, None)
    else if category == Fail || root.Some?
    then Node(Product(c), BlockedUpstream, false, if root.Some? then Some(root.value.receipt) else None)
    else Node(Product(c), if category == Infra then InfraNode else AbsentNode, false, None)
  }

  function NodesFor(facts: Facts, root: Option<Root>, checks: seq<Subcheck>): seq<Node> {
    seq(|checks|, i requires 0 <= i < |checks| => NodeFor(facts, root, checks[i]))
  }

  function ReporterNodes(root: Option<Root>): seq<Node> {
    if root.Some? && root.value.kind != ProductFailed
    then [Node(Reporter(root.value.kind), FailedNode, true, Some(root.value.receipt))]
    else []
  }

  function CountBlocked(nodes: seq<Node>): nat {
    if nodes == [] then 0
    else CountBlocked(nodes[..|nodes| - 1]) + if nodes[|nodes| - 1].status == BlockedUpstream then 1 else 0
  }

  function GraphOf(facts: Facts): Graph {
    var root := RootOf(facts);
    var nodes := ReporterNodes(root) + NodesFor(facts, root, SUBCHECKS);
    Graph(root, nodes, CountBlocked(nodes), Classify(facts), root == None && Classify(facts) == Green)
  }

  /** The program: the candidate causes are collected, the first by precedence becomes the root, and the nodes are
      listed one subcheck at a time. */
  method BuildReasonGraph(facts: Facts) returns (graph: Graph)
    ensures graph == GraphOf(facts)
  {
    var candidates := Candidates(facts);
    var root := ElectRoot(facts, candidates);
    var nodes := SubcheckNodes(facts, root);
    if root.Some? && root.value.kind != ProductFailed {
      nodes := [Node(Reporter(root.value.kind), FailedNode, true, Some(root.value.receipt))] + nodes;
    }
    assert nodes == ReporterNodes(root) + NodesFor(facts, root, SUBCHECKS);
    graph := Graph(root, nodes, CountBlocked(nodes), Classify(facts), root == None && Classify(facts) == Green);
  }

  method SubcheckNodes(facts: Facts, root: Option<Root>) returns (nodes: seq<Node>)
    ensures nodes == NodesFor(facts, root, SUBCHECKS)
  {
    hide NodeFor;
    nodes := [];
    for n := 0 to |SUBCHECKS|
      invariant nodes == NodesFor(facts, root, SUBCHECKS[..n])
    {
      nodes := nodes + [NodeFor(facts, root, SUBCHECKS[n])];
    }
    assert SUBCHECKS[..|SUBCHECKS|] == SUBCHECKS;
  }

  method ElectRoot(facts: Facts, candidates: map<Kind, string>) returns (root: Option<Root>)
    requires forall kind :: kind in candidates <==> Candidate(facts, kind).Some?
    requires forall kind | kind in candidates :: Candidate(facts, kind) == Some(candidates[kind])
    ensures root == RootOf(facts)
  {
    hide Candidate, ReceiptText;
    for k := 0 to |ROOT_PRECEDENCE|
      invariant FirstCandidate(facts, ROOT_PRECEDENCE) == FirstCandidate(facts, ROOT_PRECEDENCE[k..])
    {
      var kind := ROOT_PRECEDENCE[k];
      assert ROOT_PRECEDENCE[k..] == [kind] + ROOT_PRECEDENCE[k + 1..];
      if kind in candidates {
        return Some(Root(kind, candidates[kind], ReceiptText(facts.headSha, kind, candidates[kind])));
      }
    }
    root := None;
  }

  method Candidates(facts: Facts) returns (candidates: map<Kind, string>)
    ensures forall kind :: kind in candidates <==> Candidate(facts, kind).Some?
    ensures forall kind | kind in candidates :: Candidate(facts, kind) == Some(candidates[kind])
  {
    hide Classify, InfraNames;
    candidates := map[];
    var product := Classify(facts);
    var occ, runner := Norm(facts, facts.signals.occ), Norm(facts, facts.signals.runner);
    var ghApi, policy := Norm(facts, facts.signals.ghApi), Norm(facts, facts.signals.policy);
    var deploy := Norm(facts, facts.signals.deploy);
    if ghApi in OUTAGE_SIGNALS {
      candidates := candidates[GithubApiOutage := "gh_api=" + ghApi];
    }
    var occRed := OccRed(facts);
    if runner != "" {
      candidates := candidates[RunnerInfra := "runner=" + runner];
    } else if product == Unconfirmed && !occRed {
      candidates := candidates[RunnerInfra := "product_infra:" + InfraNames(facts, SUBCHECKS)];
    }
    if policy != "" {
      candidates := candidates[PolicyHeld := "policy=" + policy];
    }
    if occRed && !product.Failed? {
      candidates := candidates[EvidenceMissing := "occ_eligibility=" + occ];
    }
    if product.Failed? {
      candidates := candidates[ProductFailed := CheckName(product.reporter) + "=failure"];
    }
    if deploy in {"failure", "action_required", "error"} {
      candidates := candidates[DeployTriggerFailed := "deploy_trigger=" + deploy];
    }
  }

  // ---------- The root ----------

  function Precedence(kind: Kind): nat {
    match kind
    case GithubApiOutage => 0
    case RunnerInfra => 1
    case PolicyHeld => 2
    case EvidenceMissing => 3
    case ProductFailed => 4
    case DeployTriggerFailed => 5
  }

  lemma PrecedenceIsPosition(kind: Kind)
    ensures Precedence(kind) < |ROOT_PRECEDENCE| && ROOT_PRECEDENCE[Precedence(kind)] == kind
  {
  }

  lemma {:induction false} FirstCandidateMeaning(facts: Facts, n: nat)
    requires n <= |ROOT_PRECEDENCE|
    requires forall k | 0 <= k < n :: Candidate(facts, ROOT_PRECEDENCE[k]).None?
    ensures match FirstCandidate(facts, ROOT_PRECEDENCE[n..])
            case None => forall k | 0 <= k < |ROOT_PRECEDENCE| :: Candidate(facts, ROOT_PRECEDENCE[k]).None?
            case Some(kind) =>
              && Candidate(facts, kind).Some?
              && forall k | 0 <= k < Precedence(kind) :: Candidate(facts, ROOT_PRECEDENCE[k]).None?
    decreases |ROOT_PRECEDENCE| - n
  {
    hide Candidate;
    if n < |ROOT_PRECEDENCE| {
      assert ROOT_PRECEDENCE[n..] == [ROOT_PRECEDENCE[n]] + ROOT_PRECEDENCE[n + 1..];
      assert Precedence(ROOT_PRECEDENCE[n]) == n;
      if Candidate(facts, ROOT_PRECEDENCE[n]).None? { FirstCandidateMeaning(facts, n + 1); }
    }
  }

  /** The root is the candidate cause that no other outranks, with that cause's own signal, and there is none exactly
      when there is no candidate. */
  lemma RootByPrecedence(facts: Facts, kind: Kind)
    ensures (RootOf(facts).Some? && RootOf(facts).value.kind == kind)
       <==> Candidate(facts, kind).Some? && forall k | Precedence(k) < Precedence(kind) :: Candidate(facts, k).None?
    ensures RootOf(facts).None? <==> forall k :: Candidate(facts, k).None?
    ensures RootOf(facts).Some? ==>
              && Candidate(facts, RootOf(facts).value.kind) == Some(RootOf(facts).value.signal)
              && RootOf(facts).value.receipt
                 == ReceiptText(facts.headSha, RootOf(facts).value.kind, RootOf(facts).value.signal)
  {
    hide Candidate, ReceiptText;
    assert ROOT_PRECEDENCE[0..] == ROOT_PRECEDENCE;
    FirstCandidateMeaning(facts, 0);
    forall k
      ensures Precedence(k) < |ROOT_PRECEDENCE| && ROOT_PRECEDENCE[Precedence(k)] == k
      ensures RootOf(facts).None? ==> Candidate(facts, k).None?
    {
      PrecedenceIsPosition(k);
    }
  }

  /** Nothing is wrong with a head: every subcheck passed, and no signal reports a cause. */
  predicate AllClear(facts: Facts) {
    && (forall c: Subcheck :: CategoryOf(facts, c) == Pass)
    && !OccRed(facts)
    && Norm(facts, facts.signals.runner) == "" && Norm(facts, facts.signals.policy) == ""
    && Norm(facts, facts.signals.ghApi) !in OUTAGE_SIGNALS
    && Norm(facts, facts.signals.deploy) !in {"failure", "action_required", "error"}
  }

  /** `ready` means that there is no root, and both hold exactly when all is clear. */
  lemma ReadyExactly(facts: Facts)
    ensures GraphOf(facts).ready <==> GraphOf(facts).root == None
    ensures GraphOf(facts).ready <==> AllClear(facts)
  {
    hide CategoryOf, Candidate, RootOf, Classify, AllClear, CountBlocked, NodesFor;
    RootByPrecedence(facts, ProductFailed);
    CandidatesOfAGreenHead(facts);
  }

  lemma CandidatesOfAGreenHead(facts: Facts)
    ensures (forall k :: Candidate(facts, k).None?) <==> AllClear(facts)
    ensures (forall k :: Candidate(facts, k).None?) ==> Classify(facts) == Green
  {
    hide CategoryOf, InfraNames, Classify, OccRed;
    ClassifyMeaning(facts, ChangeDetection);
    if AllClear(facts) {
      forall k ensures Candidate(facts, k).None? {
        match k case _ => {}
      }
    }
    if forall k :: Candidate(facts, k).None? {
      assert Candidate(facts, RunnerInfra).None? && Candidate(facts, PolicyHeld).None?;
      assert Candidate(facts, EvidenceMissing).None? && Candidate(facts, ProductFailed).None?;
      assert Candidate(facts, GithubApiOutage).None? && Candidate(facts, DeployTriggerFailed).None?;
    }
  }

  // ---------- The same over the conclusion strings ----------

  /** The value is there and reads, trimmed and in lower case, as one of these words. */
  predicate Reads(facts: Facts, value: Option<string>, words: set<string>) {
    value.Some? && facts.norm(value.value) in words
  }

  /** The value is missing or reads as nothing. */
  predicate Silent(facts: Facts, value: Option<string>) {
    value == None || facts.norm(value.value) == ""
  }

  predicate CheckFailed(facts: Facts, c: Subcheck) {
    Reads(facts, facts.checks(c), {"failure", "action_required"})
  }

  predicate CheckPassed(facts: Facts, c: Subcheck) {
    Reads(facts, facts.checks(c), {"success", "neutral"})
  }

  predicate EvidenceRed(facts: Facts) {
    Reads(facts, facts.signals.occ, {"failure", "action_required", "absent", "missing", "none", "null"})
  }

  lemma CategoriesExactly(facts: Facts, c: Subcheck)
    ensures CategoryOf(facts, c) == Fail <==> CheckFailed(facts, c)
    ensures CategoryOf(facts, c) == Pass <==> CheckPassed(facts, c)
  {
  }

  /** The product has failed at a subcheck exactly if it says so and no earlier one does; it is green exactly if all of
      them say success or neutral. */
  lemma ProductExactly(facts: Facts, c: Subcheck)
    ensures Classify(facts) == Failed(c)
       <==> CheckFailed(facts, c) && forall d | Rank(d) < Rank(c) :: !CheckFailed(facts, d)
    ensures Classify(facts).Failed? <==> exists d :: CheckFailed(facts, d)
    ensures Classify(facts) == Green <==> forall d :: CheckPassed(facts, d)
  {
    forall d
      ensures CategoryOf(facts, d) == Fail <==> CheckFailed(facts, d)
      ensures CategoryOf(facts, d) == Pass <==> CheckPassed(facts, d)
      ensures Classify(facts) == Failed(d)
         <==> CategoryOf(facts, d) == Fail && forall e | Rank(e) < Rank(d) :: CategoryOf(facts, e) != Fail
      ensures !Classify(facts).Failed? ==> CategoryOf(facts, d) != Fail
    {
      CategoriesExactly(facts, d);
      ClassifyMeaning(facts, d);
    }
    ClassifyMeaning(facts, c);
    hide Classify, CategoryOf, CheckFailed, CheckPassed, Rank;
  }

  /** When each cause is a candidate for the root. */
  predicate Caused(facts: Facts, kind: Kind) {
    match kind
    case GithubApiOutage =>
      Reads(facts, facts.signals.ghApi, {"5xx", "ratelimit", "rate_limit", "graphql_down", "503", "502", "500"})
    case RunnerInfra =>
      || !Silent(facts, facts.signals.runner)
      || ((forall c :: !CheckFailed(facts, c)) && (exists c :: !CheckPassed(facts, c)) && !EvidenceRed(facts))
    case PolicyHeld => !Silent(facts, facts.signals.policy)
    case EvidenceMissing => EvidenceRed(facts) && forall c :: !CheckFailed(facts, c)
    case ProductFailed => exists c :: CheckFailed(facts, c)
    case DeployTriggerFailed => Reads(facts, facts.signals.deploy, {"failure", "action_required", "error"})
  }

  lemma CausesExactly(facts: Facts, kind: Kind)
    ensures Candidate(facts, kind).Some? <==> Caused(facts, kind)
  {
    ProductExactly(facts, Lint);
    hide Classify, CheckFailed, CheckPassed, InfraNames, CheckName;
    match kind case _ =>
  }

  /** The root is the first cause in the order outage, runner, hold, evidence, product, deployment. */
  lemma RootExactly(facts: Facts, kind: Kind)
    ensures (RootOf(facts).Some? && RootOf(facts).value.kind == kind)
       <==> Caused(facts, kind) && forall k | Precedence(k) < Precedence(kind) :: !Caused(facts, k)
    ensures RootOf(facts).None? <==> forall k :: !Caused(facts, k)
  {
    forall k ensures Candidate(facts, k).Some? <==> Caused(facts, k) { CausesExactly(facts, k); }
    hide Candidate, Caused, RootOf, Precedence;
    RootByPrecedence(facts, kind);
  }

  /** A head is ready exactly if every subcheck says success or neutral, the evidence check is not red, the runner and
      the policy are silent, and neither the API nor the deployment reports a failure. */
  lemma ReadyOverStrings(facts: Facts)
    ensures GraphOf(facts).ready
       <==> && (forall c :: CheckPassed(facts, c))
            && !EvidenceRed(facts) && Silent(facts, facts.signals.runner) && Silent(facts, facts.signals.policy)
            && !Reads(facts, facts.signals.ghApi,
                      {"5xx", "ratelimit", "rate_limit", "graphql_down", "503", "502", "500"})
            && !Reads(facts, facts.signals.deploy, {"failure", "action_required", "error"})
  {
    ReadyExactly(facts);
    forall c ensures CategoryOf(facts, c) == Pass <==> CheckPassed(facts, c) { CategoriesExactly(facts, c); }
    hide CategoryOf, CheckPassed, GraphOf;
  }

  /** A failed product names the subcheck in the root's signal. */
  lemma ProductSignal(facts: Facts, c: Subcheck)
    requires RootOf(facts).Some? && RootOf(facts).value.kind == ProductFailed && Classify(facts) == Failed(c)
    ensures RootOf(facts).value.signal == match c
      case ChangeDetection => "change_detection=failure"
      case Lint => "lint=failure"
      case Typecheck => "typecheck=failure"
      case Tests => "tests=failure"
      case Coverage => "coverage=failure"
  {
    RootByPrecedence(facts, ProductFailed);
    hide RootOf, Classify;
    match c case _ =>
  }

  /** The names of these subchecks, with commas between them. */
  function Listed(checks: seq<Subcheck>): string {
    if checks == [] then "" else if |checks| == 1 then CheckName(checks[0])
    else CheckName(checks[0]) + "," + Listed(checks[1..])
  }

  lemma {:induction false} InfraNamesExactly(facts: Facts, checks: seq<Subcheck>) returns (unconfirmed: seq<Subcheck>)
    requires forall i, j | 0 <= i < j < |checks| :: Rank(checks[i]) < Rank(checks[j])
    ensures InfraNames(facts, checks) == Listed(unconfirmed)
    ensures forall c :: c in unconfirmed <==> c in checks && !CheckPassed(facts, c) && !CheckFailed(facts, c)
    ensures forall i, j | 0 <= i < j < |unconfirmed| :: Rank(unconfirmed[i]) < Rank(unconfirmed[j])
  {
    hide Rank, CategoryOf, CheckPassed, CheckFailed;
    if checks == [] {
      unconfirmed := [];
    } else {
      var rest := InfraNamesExactly(facts, checks[1..]);
      CategoriesExactly(facts, checks[0]);
      assert checks == [checks[0]] + checks[1..];
      if CategoryOf(facts, checks[0]) in {Infra, Absent} {
        unconfirmed := [checks[0]] + rest;
        assert unconfirmed[1..] == rest;
        NamesAreThere(rest);
        forall i | 0 <= i < |rest| ensures Rank(checks[0]) < Rank(rest[i]) {
          assert rest[i] in checks[1..];
        }
      } else {
        unconfirmed := rest;
      }
    }
  }

  lemma NamesAreThere(checks: seq<Subcheck>)
    ensures Listed(checks) == "" <==> checks == []
  {
  }

  // ---------- The nodes ----------

  predicate OnlyRootAt(nodes: seq<Node>, i: int) {
    0 <= i < |nodes| && forall j | 0 <= j < |nodes| :: nodes[j].isRoot <==> j == i
  }

  /** No root, no root node; otherwise exactly one node is the root, failed, and carries the root's receipt. */
  lemma ExactlyOneRootNode(facts: Facts)
    ensures var g := GraphOf(facts);
            match g.root
            case None => forall i | 0 <= i < |g.nodes| :: !g.nodes[i].isRoot
            case Some(root) =>
              exists i :: OnlyRootAt(g.nodes, i) && g.nodes[i].status == FailedNode
                          && g.nodes[i].receipt == Some(root.receipt)
  {
    hide CategoryOf, Classify, Candidate, RootOf, CountBlocked;
    var g := GraphOf(facts);
    if g.root.Some? {
      if g.root.value.kind != ProductFailed {
        assert OnlyRootAt(g.nodes, 0);
      } else {
        ReportedCheck(facts);
        var c := Classify(facts).reporter;
        RankIsPosition(c);
        assert OnlyRootAt(g.nodes, Rank(c));
      }
    }
  }

  lemma ReportedCheck(facts: Facts)
    requires RootOf(facts).Some? && RootOf(facts).value.kind == ProductFailed
    ensures Classify(facts).Failed?
  {
    hide CategoryOf, Classify, FirstCandidate;
    RootByPrecedence(facts, ProductFailed);
  }

  /** Each subcheck has one node, which passes exactly when the subcheck did; a blocked node carries the root's
      receipt, so there is a root to wait for; and no node is left unexplained as INFRA or ABSENT. */
  lemma NodesExplained(facts: Facts, node: Node)
    requires node in GraphOf(facts).nodes
    ensures node.status == BlockedUpstream
            ==> GraphOf(facts).root.Some? && node.receipt == Some(GraphOf(facts).root.value.receipt) && !node.isRoot
    ensures node.status in {Passed, FailedNode, BlockedUpstream}
    ensures node.status == FailedNode <==> node.isRoot
    ensures node.name.Product? ==> (node.status == Passed <==> CategoryOf(facts, node.name.check) == Pass)
    ensures node.name.Product? ==> node == NodeFor(facts, RootOf(facts), node.name.check)
  {
    hide CategoryOf, Classify, Candidate, RootOf, CountBlocked;
    ReadyExactly(facts);
    if node.name.Product? {
      ClassifyMeaning(facts, node.name.check);
      assert RootOf(facts).None? ==> CategoryOf(facts, node.name.check) == Pass;
    }
  }

  function NotPassed(facts: Facts, checks: seq<Subcheck>): nat {
    if checks == [] then 0
    else NotPassed(facts, checks[..|checks| - 1])
         + if CategoryOf(facts, checks[|checks| - 1]) != Pass then 1 else 0
  }

  /** Every subcheck that did not pass is accounted for once: it is blocked, or it is the root itself. */
  lemma NonPassingAccountedFor(facts: Facts)
    ensures var g := GraphOf(facts);
            NotPassed(facts, SUBCHECKS)
            == g.blockedUpstream + if g.root.Some? && g.root.value.kind == ProductFailed then 1 else 0
  {
    hide CategoryOf, Classify, Candidate, RootOf, NodeFor, NodesFor;
    var root := RootOf(facts);
    CountUpTo(facts, SUBCHECKS);
    CountAppended(ReporterNodes(root), NodesFor(facts, root, SUBCHECKS));
    if root.Some? && root.value.kind == ProductFailed { ReportedCheck(facts); }
    RanksDiffer();
  }

  lemma RanksDiffer()
    ensures forall i, j | 0 <= i < j < |SUBCHECKS| :: SUBCHECKS[i] != SUBCHECKS[j]
    ensures forall c :: c in SUBCHECKS
  {
    forall c ensures c in SUBCHECKS { RankIsPosition(c); }
  }

  lemma NodeCounted(facts: Facts, c: Subcheck)
    ensures CategoryOf(facts, c) != Pass
       <==> || NodeFor(facts, RootOf(facts), c).status == BlockedUpstream
            || (RootOf(facts).Some? && RootOf(facts).value.kind == ProductFailed && Classify(facts) == Failed(c))
    ensures NodeFor(facts, RootOf(facts), c).status == BlockedUpstream
            ==> !(RootOf(facts).Some? && RootOf(facts).value.kind == ProductFailed && Classify(facts) == Failed(c))
  {
    hide CategoryOf, Classify, Candidate, RootOf;
    ClassifyMeaning(facts, c);
    ReadyExactly(facts);
    assert RootOf(facts).None? ==> CategoryOf(facts, c) == Pass;
  }

  lemma {:induction false} CountUpTo(facts: Facts, checks: seq<Subcheck>)
    requires forall i, j | 0 <= i < j < |checks| :: checks[i] != checks[j]
    ensures NotPassed(facts, checks)
         == CountBlocked(NodesFor(facts, RootOf(facts), checks))
            + if RootOf(facts).Some? && RootOf(facts).value.kind == ProductFailed
                 && Classify(facts).Failed? && Classify(facts).reporter in checks then 1 else 0
  {
    hide CategoryOf, Classify, Candidate, RootOf, NodeFor;
    if checks != [] {
      var n := |checks| - 1;
      CountUpTo(facts, checks[..n]);
      assert checks == checks[..n] + [checks[n]];
      assert NodesFor(facts, RootOf(facts), checks)[..n] == NodesFor(facts, RootOf(facts), checks[..n]);
      NodeCounted(facts, checks[n]);
    }
  }

  lemma {:induction false} CountAppended(a: seq<Node>, b: seq<Node>)
    ensures CountBlocked(a + b) == CountBlocked(a) + CountBlocked(b)
  {
    if b == [] {
      assert a + b == a;
    } else {
      CountAppended(a, b[..|b| - 1]);
      assert (a + b)[..|a + b| - 1] == a + b[..|b| - 1];
    }
  }

  // ---------- The OCC conclusion ----------

  function WithOcc(facts: Facts, occ: Option<string>): Facts {
    facts.(signals := facts.signals.(occ := occ))
  }

  /** A failure reported by the product itself, an API outage, a runner signal, or a hold on a green head. */
  predicate OccOutranked(facts: Facts) {
    || Classify(facts).Failed?
    || Norm(facts, facts.signals.ghApi) in OUTAGE_SIGNALS
    || Norm(facts, facts.signals.runner) != ""
    || (Norm(facts, facts.signals.policy) != "" && Classify(facts) == Green)
  }

  lemma SameCategories(facts: Facts, occ: Option<string>)
    ensures forall c :: CategoryOf(WithOcc(facts, occ), c) == CategoryOf(facts, c)
    ensures Classify(WithOcc(facts, occ)) == Classify(facts)
  {
    SameFirstFailed(facts, occ, SUBCHECKS);
  }

  lemma {:induction false} SameFirstFailed(facts: Facts, occ: Option<string>, checks: seq<Subcheck>)
    ensures FirstFailed(WithOcc(facts, occ), checks) == FirstFailed(facts, checks)
    ensures InfraNames(WithOcc(facts, occ), checks) == InfraNames(facts, checks)
  {
    if checks != [] { SameFirstFailed(facts, occ, checks[1..]); }
  }

  lemma SameCandidates(facts: Facts, occ: Option<string>)
    ensures forall k | k !in {RunnerInfra, EvidenceMissing} ::
              Candidate(WithOcc(facts, occ), k) == Candidate(facts, k)
    ensures Norm(facts, facts.signals.runner) != "" || Classify(facts) != Unconfirmed
            ==> Candidate(WithOcc(facts, occ), RunnerInfra) == Candidate(facts, RunnerInfra)
    ensures Classify(facts).Failed? ==>
              Candidate(WithOcc(facts, occ), EvidenceMissing) == Candidate(facts, EvidenceMissing)
  {
    hide CategoryOf, Classify, InfraNames;
    SameCategories(facts, occ);
    SameFirstFailed(facts, occ, SUBCHECKS);
  }

  /** The cause that outranks OCC. */
  lemma OutrankingCause(facts: Facts) returns (k: Kind)
    requires OccOutranked(facts)
    ensures Candidate(facts, k).Some?
    ensures match k
            case ProductFailed => Classify(facts).Failed?
            case GithubApiOutage => true
            case RunnerInfra => Norm(facts, facts.signals.runner) != ""
            case PolicyHeld => Classify(facts) == Green
            case _ => false
  {
    hide Classify, InfraNames;
    k := if Classify(facts).Failed? then ProductFailed
         else if Norm(facts, facts.signals.ghApi) in OUTAGE_SIGNALS then GithubApiOutage
         else if Norm(facts, facts.signals.runner) != "" then RunnerInfra
         else PolicyHeld;
  }

  lemma SameRoot(facts: Facts, occ: Option<string>)
    requires OccOutranked(facts)
    ensures RootOf(WithOcc(facts, occ)) == RootOf(facts)
  {
    hide CategoryOf, Classify, RootOf, Candidate;
    SameCandidates(facts, occ);
    var k := OutrankingCause(facts);
    RootByPrecedence(facts, k);
    var kind := RootOf(facts).value.kind;
    RootByPrecedence(facts, kind);
    assert Precedence(kind) <= Precedence(k);
    RootByPrecedence(WithOcc(facts, occ), kind);
  }

  /** Where OCC is outranked, the whole graph is the same whatever OCC concludes: in particular once a subcheck has
      failed. */
  lemma OccIndependence(facts: Facts, occ: Option<string>)
    requires OccOutranked(facts)
    ensures GraphOf(WithOcc(facts, occ)) == GraphOf(facts)
  {
    hide CategoryOf, Classify, Candidate, RootOf, OccOutranked;
    SameCategories(facts, occ);
    SameRoot(facts, occ);
    forall c ensures NodeFor(WithOcc(facts, occ), RootOf(facts), c) == NodeFor(facts, RootOf(facts), c) {
    }
    assert NodesFor(WithOcc(facts, occ), RootOf(facts), SUBCHECKS) == NodesFor(facts, RootOf(facts), SUBCHECKS);
  }

  /** Where it is not, a red OCC and an unconsumed one give different roots. */
  lemma OccMattersOtherwise(facts: Facts)
    requires !OccOutranked(facts) && facts.norm("failure") == "failure"
    ensures RootOf(WithOcc(facts, Some("failure"))) != RootOf(WithOcc(facts, None))
  {
    hide CategoryOf, Classify, InfraNames, RootOf;
    var red, unused := WithOcc(facts, Some("failure")), WithOcc(facts, None);
    SameCategories(facts, Some("failure"));
    SameCategories(facts, None);
    RootByPrecedence(red, EvidenceMissing);
    RootByPrecedence(red, PolicyHeld);
    RootByPrecedence(unused, RunnerInfra);
    RootByPrecedence(unused, EvidenceMissing);
    RootByPrecedence(unused, PolicyHeld);
  }

  lemma OccIndependenceExactly(facts: Facts)
    requires facts.norm("failure") == "failure"
    ensures OccOutranked(facts) <==> forall occ :: GraphOf(WithOcc(facts, occ)) == GraphOf(facts)
  {
    hide RootOf, OccOutranked, NodesFor, CountBlocked, Classify;
    if OccOutranked(facts) {
      forall occ { OccIndependence(facts, occ); }
    } else {
      OccMattersOtherwise(facts);
      var red, unused := GraphOf(WithOcc(facts, Some("failure"))), GraphOf(WithOcc(facts, None));
      assert red.root != unused.root;
    }
  }

  // ---------- Receipts ----------

  predicate NoUpper(s: string) {
    forall i | 0 <= i < |s| :: !('A' <= s[i] <= 'Z')
  }

  lemma KindTextShape(kind: Kind)
    ensures var t := KindText(kind);
            t != "" && 'A' <= t[|t| - 1] <= 'Z' && forall i | 0 <= i < |t| :: t[i] != '|'
  {
  }

  lemma KindTextInjective(a: Kind, b: Kind)
    requires KindText(a) == KindText(b)
    ensures a == b
  {
    assert |KindText(a)| == |KindText(b)|;
  }

  /** Receipts of different (head, kind, signal) triples are different texts, as long as the signals hold no upper-case
      letter: the last one in the text then ends the kind, and no kind holds a bar. */
  lemma ReceiptsDistinct(h: string, k: Kind, s: string, h': string, k': Kind, s': string)
    requires NoUpper(s) && NoUpper(s') && ReceiptText(h, k, s) == ReceiptText(h', k', s')
    ensures h == h' && k == k' && s == s'
  {
    hide KindText;
    KindTextShape(k);
    KindTextShape(k');
    NoShorterSignal(h, k, s, h', k', s');
    NoShorterSignal(h', k', s', h, k, s);
    var t := ReceiptText(h, k, s);
    var n := |t| - |s| - 2;
    assert s == t[n + 2..] && s' == t[n + 2..];
    assert h + "||" + KindText(k) == t[..n] == h' + "||" + KindText(k');
    NoShorterKind(h, KindText(k), h', KindText(k'));
    NoShorterKind(h', KindText(k'), h, KindText(k));
    assert KindText(k) == t[n - |KindText(k)|..n] == KindText(k');
    assert h == t[..|h|] == h';
    KindTextInjective(k, k');
  }

  lemma NoShorterSignal(h: string, k: Kind, s: string, h': string, k': Kind, s': string)
    requires NoUpper(s) && ReceiptText(h, k, s) == ReceiptText(h', k', s')
    ensures |s| <= |s'|
  {
    hide KindText;
    KindTextShape(k');
    var t := ReceiptText(h, k, s);
    assert t[|t| - |s'| - 3] == KindText(k')[|KindText(k')| - 1];
    assert t[|t| - |s| - 2..] == "||" + s;
  }

  lemma NoShorterKind(h: string, a: string, h': string, b: string)
    requires h + "||" + a == h' + "||" + b
    requires forall i | 0 <= i < |a| :: a[i] != '|'
    ensures |a| <= |b|
  {
    var t := h + "||" + a;
    assert t[|t| - |b| - 1] == '|';
  }

  /** So two heads never share a root receipt text, nor do two causes on one head. */
  lemma RootReceiptsDistinct(facts: Facts, other: Facts)
    requires forall s :: NoUpper(facts.norm(s)) && NoUpper(other.norm(s))
    requires RootOf(facts).Some? && RootOf(other).Some?
    ensures RootOf(facts).value.receipt == RootOf(other).value.receipt
       <==> RootOf(facts) == RootOf(other) && facts.headSha == other.headSha
  {
    hide Candidate, ReceiptText, FirstCandidate;
    var r, r' := RootOf(facts).value, RootOf(other).value;
    RootByPrecedence(facts, r.kind);
    RootByPrecedence(other, r'.kind);
    SignalHasNoUpper(facts, r.kind);
    SignalHasNoUpper(other, r'.kind);
    if r.receipt == r'.receipt {
      ReceiptsDistinct(facts.headSha, r.kind, r.signal, other.headSha, r'.kind, r'.signal);
    }
  }

  lemma SignalHasNoUpper(facts: Facts, kind: Kind)
    requires (forall s :: NoUpper(facts.norm(s))) && Candidate(facts, kind).Some?
    ensures NoUpper(Candidate(facts, kind).value)
  {
    hide Classify, CategoryOf, InfraNames, OccRed, NoUpper;
    var s := facts.signals;
    NoUpperLabels();
    match kind
    case GithubApiOutage => Joined("gh_api=", Norm(facts, s.ghApi));
    case RunnerInfra =>
      Joined("runner=", Norm(facts, s.runner));
      InfraNamesHaveNoUpper(facts, SUBCHECKS);
      Joined("product_infra:", InfraNames(facts, SUBCHECKS));
    case PolicyHeld => Joined("policy=", Norm(facts, s.policy));
    case EvidenceMissing => Joined("occ_eligibility=", Norm(facts, s.occ));
    case ProductFailed => Joined(CheckName(Classify(facts).reporter), "=failure");
    case DeployTriggerFailed => Joined("deploy_trigger=", Norm(facts, s.deploy));
  }

  lemma Joined(a: string, b: string)
    ensures NoUpper(a) && NoUpper(b) ==> NoUpper(a + b)
  {
  }

  lemma NoUpperLabels()
    ensures NoUpper("") && NoUpper(",") && NoUpper("=failure")
    ensures NoUpper("gh_api=") && NoUpper("runner=") && NoUpper("product_infra:") && NoUpper("policy=")
    ensures NoUpper("occ_eligibility=") && NoUpper("deploy_trigger=")
    ensures forall c :: NoUpper(CheckName(c))
  {
  }

  lemma {:induction false} InfraNamesHaveNoUpper(facts: Facts, checks: seq<Subcheck>)
    ensures NoUpper(InfraNames(facts, checks))
  {
    hide NoUpper, CheckName, CategoryOf;
    NoUpperLabels();
    if checks != [] {
      InfraNamesHaveNoUpper(facts, checks[1..]);
      var rest := InfraNames(facts, checks[1..]);
      Joined(",", rest);
      Joined(CheckName(checks[0]), "," + rest);
      Joined(CheckName(checks[0]), "");
    }
  }

  predicate OccursAt(text: string, part: string, i: int) {
    0 <= i && i + |part| <= |text| && text[i..i + |part|] == part
  }

  ghost predicate Contains(text: string, part: string) {
    exists i :: OccursAt(text, part, i)
  }

  /** A kind between separators, where the head or the signal could be cut instead. */
  ghost predicate Ambiguous(headSha: string, signal: string) {
    exists k :: Contains(headSha + "||", Marker(k)) || Contains("||" + signal, Marker(k))
  }

  function Marker(k: Kind): string {
    "||" + KindText(k) + "||"
  }

  /** Where the parts of a receipt text stand. */
  lemma Layout(h: string, k: Kind, s: string)
    ensures var (t, n) := (ReceiptText(h, k, s), |KindText(k)|);
            && n > 0 && |t| == |h| + n + 4 + |s| && t[..|h|] == h && t[|h| + n + 4..] == s
            && t[|h|..|h| + n + 4] == Marker(k)
            && t[|h|] == t[|h| + 1] == '|' && t[|h| + 2 + n] == t[|h| + 3 + n] == '|'
            && (forall i | |h| + 2 <= i < |h| + 2 + n :: t[i] != '|')
            && t[..|h| + 2] == h + "||" && t[|h| + 2 + n..] == "||" + s
  {
    hide KindText;
    KindTextShape(k);
  }

  /** The markers of two readings of one text do not overlap. */
  lemma MarkersApart(h: string, k: Kind, s: string, h': string, k': Kind, s': string)
    requires ReceiptText(h, k, s) == ReceiptText(h', k', s') && |h'| < |h|
    ensures |h'| + 2 + |KindText(k')| <= |h|
  {
    hide KindText, ReceiptText, Marker;
    Layout(h, k, s);
    Layout(h', k', s');
  }

  lemma SameHeadSameTriple(h: string, k: Kind, s: string, h': string, k': Kind, s': string)
    requires ReceiptText(h, k, s) == ReceiptText(h', k', s') && |h'| == |h|
    ensures h == h' && k == k' && s == s'
  {
    hide KindText, ReceiptText;
    Layout(h, k, s);
    Layout(h', k', s');
    var t, n, n' := ReceiptText(h, k, s), |KindText(k)|, |KindText(k')|;
    assert n == n';
    assert KindText(k) == Marker(k)[2..2 + n] && KindText(k') == Marker(k')[2..2 + n];
    KindTextInjective(k, k');
  }

  lemma OccursInPrefix(text: string, part: string, i: int, n: int)
    requires OccursAt(text, part, i) && i + |part| <= n <= |text|
    ensures Contains(text[..n], part)
  {
    assert text[..n][i..i + |part|] == text[i..i + |part|];
    assert OccursAt(text[..n], part, i);
  }

  lemma OccursInSuffix(text: string, part: string, i: int, n: int)
    requires OccursAt(text, part, i) && 0 <= n <= i
    ensures Contains(text[n..], part)
  {
    assert text[n..][i - n..i - n + |part|] == text[i..i + |part|];
    assert OccursAt(text[n..], part, i - n);
  }

  lemma Parts(h: string, k: Kind, s: string)
    ensures var (t, n) := (ReceiptText(h, k, s), |KindText(k)|);
            && OccursAt(t, Marker(k), |h|)
            && |h| + n + 4 <= |t| && t[..|h| + 2] == h + "||" && t[|h| + 2 + n..] == "||" + s
  {
    hide KindText, ReceiptText;
    Layout(h, k, s);
  }

  lemma CutEarlier(h: string, k: Kind, s: string, h': string, k': Kind, s': string)
    requires ReceiptText(h, k, s) == ReceiptText(h', k', s') && |h'| < |h|
    ensures Contains(h + "||", Marker(k'))
  {
    MarkersApart(h, k, s, h', k', s');
    Parts(h, k, s);
    Parts(h', k', s');
    assert |Marker(k')| == |KindText(k')| + 4;
    hide KindText, ReceiptText, Contains, OccursAt, Marker;
    OccursInPrefix(ReceiptText(h, k, s), Marker(k'), |h'|, |h| + 2);
  }

  lemma CutLater(h: string, k: Kind, s: string, h': string, k': Kind, s': string)
    requires ReceiptText(h, k, s) == ReceiptText(h', k', s') && |h'| > |h|
    ensures Contains("||" + s, Marker(k'))
  {
    MarkersApart(h', k', s', h, k, s);
    Parts(h, k, s);
    Parts(h', k', s');
    hide KindText, ReceiptText, Contains, OccursAt, Marker;
    OccursInSuffix(ReceiptText(h, k, s), Marker(k'), |h'|, |h| + 2 + |KindText(k)|);
  }

  lemma SplitAround(text: string, part: string) returns (front: string, back: string)
    requires Contains(text, part)
    ensures text == front + part + back
  {
    var i :| OccursAt(text, part, i);
    front, back := text[..i], text[i + |part|..];
  }

  lemma ReadEarlier(h: string, k: Kind, s: string, l: Kind) returns (h': string, s': string)
    requires Contains(h + "||", Marker(l))
    ensures ReceiptText(h', l, s') == ReceiptText(h, k, s) && |h'| < |h|
  {
    hide KindText, Contains;
    KindTextShape(l);
    var front, back := SplitAround(h + "||", Marker(l));
    h', s' := front, back + (KindText(k) + "||" + s);
    assert ReceiptText(h, k, s) == (h + "||") + (KindText(k) + "||" + s);
    assert ReceiptText(h', l, s') == (front + Marker(l) + back) + (KindText(k) + "||" + s);
    assert |h + "||"| == |front| + |Marker(l)| + |back|;
  }

  lemma ReadLater(h: string, k: Kind, s: string, l: Kind) returns (h': string, s': string)
    requires Contains("||" + s, Marker(l))
    ensures ReceiptText(h', l, s') == ReceiptText(h, k, s) && |h'| > |h|
  {
    hide KindText, Contains;
    var front, back := SplitAround("||" + s, Marker(l));
    h', s' := h + "||" + KindText(k) + front, back;
    assert ReceiptText(h, k, s) == (h + "||" + KindText(k)) + ("||" + s);
    assert ReceiptText(h', l, s') == (h + "||" + KindText(k)) + (front + Marker(l) + back);
  }

  /** Another triple has the same receipt text exactly if the head with the separator behind it, or the signal with
      the separator before it, holds a kind between separators. */
  lemma CollidesExactly(h: string, k: Kind, s: string)
    ensures (exists h', k', s' :: ReceiptText(h', k', s') == ReceiptText(h, k, s) && !(h' == h && k' == k && s' == s))
       <==> Ambiguous(h, s)
  {
    hide KindText, ReceiptText, Marker, Contains;
    if h', k', s' :| ReceiptText(h', k', s') == ReceiptText(h, k, s) && !(h' == h && k' == k && s' == s) {
      if |h'| == |h| {
        SameHeadSameTriple(h, k, s, h', k', s');
      } else if |h'| < |h| {
        CutEarlier(h, k, s, h', k', s');
      } else {
        CutLater(h, k, s, h', k', s');
      }
    }
    if Ambiguous(h, s) {
      var l :| Contains(h + "||", Marker(l)) || Contains("||" + s, Marker(l));
      if Contains(h + "||", Marker(l)) {
        var h', s' := ReadEarlier(h, k, s, l);
      } else {
        var h', s' := ReadLater(h, k, s, l);
      }
    }
  }

  lemma CommonMiddle(h: string, kind: string)
    ensures h + "||" + kind + "||" + ("x||" + kind + "||y") == (h + "||" + kind + "||x") + "||" + kind + "||" + "y"
  {
  }

  /** For arbitrary triples the separator is not enough. */
  lemma RawTriplesCollide()
    ensures ReceiptText("h", PolicyHeld, "x||POLICY_HELD||y") == ReceiptText("h||POLICY_HELD||x", PolicyHeld, "y")
  {
    assert "x||POLICY_HELD||y" == "x||" + "POLICY_HELD" + "||y";
    assert "h||POLICY_HELD||x" == "h||" + "POLICY_HELD" + "||x";
    assert "||" + "x||" == "||x" + "||" && "||y" == "||" + "y" && "h||" == "h" + "||";
    CommonMiddle("h", "POLICY_HELD");
  }
}
