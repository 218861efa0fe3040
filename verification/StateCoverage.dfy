/** The state-coverage decision of `scripts/validate_state_coverage.py` on Python syntax trees. */
module StateCoverage {

  datatype Value = Text(s: string) | Other(repr: string)

  /** The node classes the gate tells apart; comparison operators are part of the node. */
  datatype Kind =
    | Constant(value: Value)
    | Attribute(attr: string)
    | Expr
    | Assert
    | Compare(ops: seq<string>)
    | Name(name: string)
    | Call
    | Subscript
    | Await
    | Starred
    | Plain(tag: string)

  /** One AST object; `id` is its object identity. */
  datatype Node = Node(id: nat, kind: Kind, children: seq<Node>)

  // ---------- ast.walk and ast.dump ----------

  function Walk(t: Node): seq<Node>
    decreases t, 1, 0
  {
    [t] + WalkFrom(t, 0)
  }

  function WalkFrom(t: Node, i: nat): seq<Node>
    decreases t, 0, |t.children| - i
  {
    if i >= |t.children| then [] else Walk(t.children[i]) + WalkFrom(t, i + 1)
  }

  /** The tree without object identities: what ast.dump prints. */
  datatype Shape = Shape(kind: Kind, children: seq<Shape>)

  function Dump(t: Node): Shape {
    Shape(t.kind, seq(|t.children|, i requires 0 <= i < |t.children| => Dump(t.children[i])))
  }

  // ---------- The two passes of the gate ----------

  predicate RuntimeKind(k: Kind) {
    k.Name? || k.Attribute? || k.Call? || k.Subscript? || k.Await? || k.Starred?
  }

  predicate ReferencesRuntime(t: Node) {
    exists m | m in Walk(t) :: RuntimeKind(m.kind)
  }

  /** A self-tautology, or a comparison without any runtime value in it. */
  predicate VacuousCompare(t: Node) {
    && t.kind.Compare?
    && ((|t.children| >= 2 && forall i | 1 <= i < |t.children| :: Dump(t.children[i]) == Dump(t.children[0]))
        || forall i | 0 <= i < |t.children| :: !ReferencesRuntime(t.children[i]))
  }

  /** A docstring-like expression statement, or an assertion on a bare constant: its first child is excluded. */
  predicate BareConstant(t: Node) {
    && t.children != []
    && ((t.kind.Expr? && t.children[0].kind.Constant? && t.children[0].kind.value.Text?)
        || (t.kind.Assert? && t.children[0].kind.Constant?))
  }

  predicate Mentions(t: Node, state: string, identifierState: bool) {
    || (t.kind.Constant? && t.kind.value == Text(state))
    || (identifierState && t.kind.Attribute? && t.kind.attr == state)
  }

  function Ids(nodes: seq<Node>): set<nat> {
    set m | m in nodes :: m.id
  }

  /** The identities one visited node adds to the excluded set. */
  function ExcludedBy(t: Node): set<nat> {
    if BareConstant(t) then {t.children[0].id}
    else if VacuousCompare(t) then Ids(Walk(t))
    else {}
  }

  // ---------- Vacuous positions, node by node ----------

  /** Equal but for object identities. */
  predicate Alike(a: Node, b: Node) {
    && a.kind == b.kind && |a.children| == |b.children|
    && forall i | 0 <= i < |a.children| :: Alike(a.children[i], b.children[i])
  }

  predicate HoldsRuntime(t: Node) {
    match t.kind
    case Name(_) | Attribute(_) | Call | Subscript | Await | Starred => true
    case Constant(_) | Expr | Assert | Compare(_) | Plain(_) =>
      exists i | 0 <= i < |t.children| :: HoldsRuntime(t.children[i])
  }

  /** A comparison of two or more operands that are all alike, or of operands none of which holds a runtime value. */
  predicate EmptyComparison(t: Node) {
    && t.kind.Compare?
    && (|| (|t.children| >= 2
            && forall i, j | 0 <= i < |t.children| && 0 <= j < |t.children| :: Alike(t.children[i], t.children[j]))
        || !exists i | 0 <= i < |t.children| :: HoldsRuntime(t.children[i]))
  }

  /** A string constant as a statement, or any constant asserted. */
  predicate StandsAlone(parent: Node, i: nat)
    requires i < |parent.children|
  {
    i == 0 && match parent.kind
              case Expr => (match parent.children[0].kind case Constant(Text(_)) => true case _ => false)
              case Assert => parent.children[0].kind.Constant?
              case _ => false
  }

  /** The node excludes this identity. */
  ghost predicate Excludes(t: Node, x: nat) {
    || (t.children != [] && StandsAlone(t, 0) && x == t.children[0].id)
    || (EmptyComparison(t) && exists m :: m in Walk(t) && m.id == x)
  }

  lemma {:induction false} AlikeExactly(a: Node, b: Node)
    ensures Dump(a) == Dump(b) <==> Alike(a, b)
  {
    var n := |a.children|;
    forall i | 0 <= i < n && i < |b.children|
      ensures Dump(a.children[i]) == Dump(b.children[i]) <==> Alike(a.children[i], b.children[i])
    {
      AlikeExactly(a.children[i], b.children[i]);
    }
    if Dump(a) == Dump(b) {
      assert |Dump(a).children| == n && |Dump(b).children| == |b.children|;
      forall i | 0 <= i < n ensures Alike(a.children[i], b.children[i]) {
        assert Dump(a).children[i] == Dump(a.children[i]) && Dump(b).children[i] == Dump(b.children[i]);
      }
    }
    if Alike(a, b) { assert Dump(a).children == Dump(b).children; }
  }

  lemma {:induction false} HoldsRuntimeExactly(t: Node)
    ensures ReferencesRuntime(t) <==> HoldsRuntime(t)
  {
    forall i | 0 <= i < |t.children| ensures ReferencesRuntime(t.children[i]) <==> HoldsRuntime(t.children[i]) {
      HoldsRuntimeExactly(t.children[i]);
    }
    forall m ensures m in Walk(t) <==> m == t || exists j :: 0 <= j < |t.children| && m in Walk(t.children[j]) {
      InWalk(t, m);
    }
  }

  lemma EmptyComparisonExactly(t: Node)
    ensures VacuousCompare(t) <==> EmptyComparison(t)
  {
    forall i | 0 <= i < |t.children| ensures ReferencesRuntime(t.children[i]) <==> HoldsRuntime(t.children[i]) {
      HoldsRuntimeExactly(t.children[i]);
    }
    forall i, j | 0 <= i < |t.children| && 0 <= j < |t.children|
      ensures Dump(t.children[i]) == Dump(t.children[j]) <==> Alike(t.children[i], t.children[j])
    {
      AlikeExactly(t.children[i], t.children[j]);
    }
    hide ReferencesRuntime, HoldsRuntime, Dump, Alike;
  }

  lemma ExcludedExactly(t: Node, x: nat)
    ensures x in ExcludedBy(t) <==> Excludes(t, x)
  {
    EmptyComparisonExactly(t);
  }

  method VacuousOccurrenceIds(tree: Node) returns (excluded: set<nat>)
    ensures forall x :: x in excluded <==> exists m :: m in Walk(tree) && x in ExcludedBy(m)
    ensures forall x :: x in excluded <==> exists m :: m in Walk(tree) && Excludes(m, x)
  {
    forall m, x ensures x in ExcludedBy(m) <==> Excludes(m, x) { ExcludedExactly(m, x); }
    hide Excludes;
    excluded := {};
    var nodes := Walk(tree);
    for n := 0 to |nodes|
      invariant forall x :: x in excluded <==> exists i :: 0 <= i < n && x in ExcludedBy(nodes[i])
    {
      var node := nodes[n];
      if && node.kind.Expr? && node.children != []
         && node.children[0].kind.Constant? && node.children[0].kind.value.Text? {
        excluded := excluded + {node.children[0].id};
      } else if node.kind.Assert? && node.children != [] && node.children[0].kind.Constant? {
        excluded := excluded + {node.children[0].id};
      } else if VacuousCompare(node) {
        var below := Walk(node);
        excluded := excluded + Ids(below);
      }
    }
  }

  method StateMatchNodes(tree: Node, state: string, identifierState: bool) returns (matches: seq<Node>)
    ensures forall m :: m in matches <==> m in Walk(tree) && Mentions(m, state, identifierState)
  {
    matches := [];
    var nodes := Walk(tree);
    for n := 0 to |nodes|
      invariant forall m :: m in matches <==> m in nodes[..n] && Mentions(m, state, identifierState)
    {
      if Mentions(nodes[n], state, identifierState) {
        matches := matches + [nodes[n]];
      }
      assert nodes[..n + 1] == nodes[..n] + [nodes[n]];
    }
    assert nodes[..|nodes|] == nodes;
  }

  /** Some mention of the state whose identity neither pass excluded. */
  ghost predicate TwoPass(tree: Node, state: string, identifierState: bool) {
    exists m :: m in Walk(tree) && Mentions(m, state, identifierState)
                && !exists x :: x in Walk(tree) && m.id in ExcludedBy(x)
  }

  // ---------- The same decision as one walk down the tree ----------

  /** The i-th child is in an excluded position. */
  predicate Masks(t: Node, i: nat) {
    if BareConstant(t) then i == 0 else VacuousCompare(t)
  }

  /** `state` is mentioned outside every vacuous position; `masked` says we are already in one. */
  predicate Exercised(t: Node, state: string, identifierState: bool, masked: bool) {
    || (!masked && Mentions(t, state, identifierState))
    || exists i | 0 <= i < |t.children| :: Exercised(t.children[i], state, identifierState, masked || Masks(t, i))
  }

  /** Trees as ast.parse makes them: constants are leaves, and no object occurs twice. */
  ghost predicate Parsed(t: Node) {
    && (t.kind.Constant? ==> t.children == [])
    && (forall i | 0 <= i < |t.children| :: Parsed(t.children[i]) && t.id !in Ids(Walk(t.children[i])))
    && (forall i, j | 0 <= i < j < |t.children| :: Ids(Walk(t.children[i])) !! Ids(Walk(t.children[j])))
  }

  lemma {:induction false} InWalkFrom(t: Node, i: nat, m: Node)
    ensures m in WalkFrom(t, i) <==> exists j :: i <= j < |t.children| && m in Walk(t.children[j])
    decreases |t.children| - i
  {
    if i < |t.children| { InWalkFrom(t, i + 1, m); }
  }

  lemma InWalk(t: Node, m: Node)
    ensures m in Walk(t) <==> m == t || exists j :: 0 <= j < |t.children| && m in Walk(t.children[j])
  {
    InWalkFrom(t, 0, m);
  }

  lemma {:induction false} ExcludedWithin(t: Node, x: Node)
    requires x in Walk(t)
    ensures ExcludedBy(x) <= Ids(Walk(t))
    decreases t
  {
    InWalk(t, x);
    if x == t {
      if BareConstant(t) {
        var c := t.children[0];
        InWalk(c, c);
        InWalk(t, c);
      }
    } else {
      var j :| 0 <= j < |t.children| && x in Walk(t.children[j]);
      ExcludedWithin(t.children[j], x);
      forall m | m in Walk(t.children[j]) ensures m in Walk(t) { InWalk(t, m); }
    }
  }

  lemma {:induction false} MaskedIsDead(t: Node, state: string, identifierState: bool)
    ensures !Exercised(t, state, identifierState, true)
  {
    forall i | 0 <= i < |t.children| ensures !Exercised(t.children[i], state, identifierState, true) {
      MaskedIsDead(t.children[i], state, identifierState);
    }
  }

  /** A mention in the tree that no visited node excludes. */
  ghost predicate Live(tree: Node, m: Node, state: string, identifierState: bool) {
    && m in Walk(tree) && Mentions(m, state, identifierState)
    && forall x | x in Walk(tree) :: m.id !in ExcludedBy(x)
  }

  /** A mention below the root is live exactly when it is live in its own subtree and the root does not mask that
      subtree. */
  lemma {:induction false} LiveBelow(t: Node, i: nat, m: Node, state: string, identifierState: bool)
    requires Parsed(t) && i < |t.children| && m in Walk(t.children[i])
    ensures Live(t, m, state, identifierState) <==> Live(t.children[i], m, state, identifierState) && !Masks(t, i)
  {
    var c := t.children[i];
    InWalk(t, m);
    InWalk(t, t);
    assert m.id in Ids(Walk(c));
    assert m.id in ExcludedBy(t) <==> Masks(t, i) by { RootExcludes(t, i, m); }
    forall x | x in Walk(c) ensures x in Walk(t) { InWalk(t, x); }
    forall x | x in Walk(t) && x != t && m.id in ExcludedBy(x) ensures x in Walk(c) {
      InWalk(t, x);
      var j :| 0 <= j < |t.children| && x in Walk(t.children[j]);
      ExcludedWithin(t.children[j], x);
      if j != i {
        assert false;
      }
    }
  }

  lemma RootExcludes(t: Node, i: nat, m: Node)
    requires Parsed(t) && i < |t.children| && m in Walk(t.children[i])
    ensures m.id in ExcludedBy(t) <==> Masks(t, i)
  {
    InWalk(t, m);
    assert m.id in Ids(Walk(t.children[i]));
    if BareConstant(t) {
      var c := t.children[0];
      InWalk(c, c);
      InWalk(c, m);
      assert c.id in Ids(Walk(c));
      assert c.children == [];
      if i > 0 { assert Ids(Walk(t.children[0])) !! Ids(Walk(t.children[i])); }
    }
  }

  /** The excluded-identity set and the walk with a flag decide the same thing. */
  lemma {:induction false} TwoPassIsOneWalk(t: Node, state: string, identifierState: bool)
    requires Parsed(t)
    ensures TwoPass(t, state, identifierState) <==> Exercised(t, state, identifierState, false)
    decreases t
  {
    InWalk(t, t);
    if TwoPass(t, state, identifierState) {
      var m :| m in Walk(t) && Mentions(m, state, identifierState)
               && !exists x :: x in Walk(t) && m.id in ExcludedBy(x);
      assert Live(t, m, state, identifierState);
      InWalk(t, m);
      if m != t {
        var i :| 0 <= i < |t.children| && m in Walk(t.children[i]);
        LiveBelow(t, i, m, state, identifierState);
        assert TwoPass(t.children[i], state, identifierState);
        TwoPassIsOneWalk(t.children[i], state, identifierState);
      }
    }
    if Exercised(t, state, identifierState, false) {
      if Mentions(t, state, identifierState) {
        RootMentionIsLive(t, state, identifierState);
      } else {
        var i :| 0 <= i < |t.children| && Exercised(t.children[i], state, identifierState, Masks(t, i));
        if Masks(t, i) { MaskedIsDead(t.children[i], state, identifierState); }
        TwoPassIsOneWalk(t.children[i], state, identifierState);
        var m :| m in Walk(t.children[i]) && Mentions(m, state, identifierState)
                 && !exists x :: x in Walk(t.children[i]) && m.id in ExcludedBy(x);
        assert Live(t.children[i], m, state, identifierState);
        LiveBelow(t, i, m, state, identifierState);
        assert Live(t, m, state, identifierState);
      }
    }
  }

  lemma RootMentionIsLive(t: Node, state: string, identifierState: bool)
    requires Parsed(t) && Mentions(t, state, identifierState)
    ensures TwoPass(t, state, identifierState)
  {
    InWalk(t, t);
    forall x | x in Walk(t) ensures t.id !in ExcludedBy(x) {
      InWalk(t, x);
      if x != t {
        var j :| 0 <= j < |t.children| && x in Walk(t.children[j]);
        ExcludedWithin(t.children[j], x);
      }
    }
  }

  // ---------- The same decision by addresses ----------

  /** Following the child numbers `p` leads to a mention of the state and never into a vacuous position. */
  predicate LeadsToMention(t: Node, p: seq<nat>, state: string, identifierState: bool)
    decreases |p|
  {
    if p == [] then t.kind == Constant(Text(state)) || (identifierState && t.kind == Attribute(state))
    else
      && p[0] < |t.children| && !StandsAlone(t, p[0]) && !EmptyComparison(t)
      && LeadsToMention(t.children[p[0]], p[1..], state, identifierState)
  }

  lemma MasksExactly(t: Node, i: nat)
    requires i < |t.children|
    ensures Masks(t, i) <==> StandsAlone(t, i) || EmptyComparison(t)
  {
    EmptyComparisonExactly(t);
  }

  lemma OneStepMore(t: Node, i: nat, p: seq<nat>, state: string, identifierState: bool)
    requires i < |t.children| && !StandsAlone(t, i) && !EmptyComparison(t)
    requires LeadsToMention(t.children[i], p, state, identifierState)
    ensures LeadsToMention(t, [i] + p, state, identifierState)
  {
    hide StandsAlone, EmptyComparison;
    assert ([i] + p)[0] == i && ([i] + p)[1..] == p;
  }

  lemma MentionHere(t: Node, state: string, identifierState: bool)
    requires Mentions(t, state, identifierState)
    ensures LeadsToMention(t, [], state, identifierState)
  {
  }

  lemma {:induction false} ExercisedLeadsThere(t: Node, state: string, identifierState: bool) returns (p: seq<nat>)
    requires Exercised(t, state, identifierState, false)
    ensures LeadsToMention(t, p, state, identifierState)
  {
    if Mentions(t, state, identifierState) {
      p := [];
    } else {
      var i: nat :| i < |t.children| && Exercised(t.children[i], state, identifierState, Masks(t, i));
      MasksExactly(t, i);
      MaskedIsDead(t.children[i], state, identifierState);
      var below := ExercisedLeadsThere(t.children[i], state, identifierState);
      hide Masks, StandsAlone, EmptyComparison;
      OneStepMore(t, i, below, state, identifierState);
      p := [i] + below;
    }
  }

  lemma {:induction false} LeadingThereExercises(t: Node, p: seq<nat>, state: string, identifierState: bool)
    requires LeadsToMention(t, p, state, identifierState)
    ensures Exercised(t, state, identifierState, false)
    decreases |p|
  {
    if p != [] {
      MasksExactly(t, p[0]);
      hide Masks, StandsAlone, EmptyComparison;
      LeadingThereExercises(t.children[p[0]], p[1..], state, identifierState);
    }
  }

  /** The state is exercised exactly if some address leads to a mention without a vacuous position on the way. */
  lemma ExercisedExactly(t: Node, state: string, identifierState: bool)
    ensures Exercised(t, state, identifierState, false) <==> exists p :: LeadsToMention(t, p, state, identifierState)
  {
    hide Exercised, LeadsToMention;
    if Exercised(t, state, identifierState, false) {
      var p := ExercisedLeadsThere(t, state, identifierState);
    }
    if p :| LeadsToMention(t, p, state, identifierState) {
      LeadingThereExercises(t, p, state, identifierState);
    }
  }

  // ---------- The decision over a node's test files ----------

  predicate IdentStart(c: char) { 'A' <= c <= 'Z' || 'a' <= c <= 'z' || c == '_' }

  predicate IdentRest(c: char) { IdentStart(c) || '0' <= c <= '9' || c == '-' }

  /** The regular expression and the dot test; `$` also matches before one final newline. */
  predicate IdentifierState(state: string) {
    Identifier(if state != "" && state[|state| - 1] == '\n' then state[..|state| - 1] else state)
  }

  predicate Identifier(body: string) {
    body != "" && IdentStart(body[0]) && forall i | 0 <= i < |body| :: IdentRest(body[i])
  }

  predicate IdentifierIn(state: string, body: string) {
    && (state == body || state == body + "\n")
    && body != "" && body[0] != '-' && !('0' <= body[0] <= '9')
    && forall c | c in body :: 'A' <= c <= 'Z' || 'a' <= c <= 'z' || '0' <= c <= '9' || c == '_' || c == '-'
  }

  /** A letter or underscore, then letters, digits, underscores and hyphens; at most one newline may follow. */
  lemma IdentifierStateExactly(state: string)
    ensures IdentifierState(state) <==> exists body :: IdentifierIn(state, body)
  {
    var n := |state|;
    if IdentifierState(state) {
      var body := if state != "" && state[n - 1] == '\n' then state[..n - 1] else state;
      assert Identifier(body);
      assert forall i | 0 <= i < |body| :: IdentRest(body[i]);
      forall c | c in body ensures IdentRest(c) { var i :| 0 <= i < |body| && body[i] == c; }
      assert IdentifierIn(state, body);
    }
    if body :| IdentifierIn(state, body) {
      assert forall i | 0 <= i < |body| :: body[i] in body;
      assert state == body + "\n" ==> state[..n - 1] == body;
      assert IdentStart(body[0]);
      assert forall i | 0 <= i < |body| :: IdentRest(body[i]);
    }
  }

  /** A test file: its tree, or nothing when it does not parse. */
  datatype Source = Unparsable | Tree(root: Node)

  ghost predicate Covered(state: string, sources: seq<Source>) {
    && state != ""
    && exists i | 0 <= i < |sources| ::
         sources[i].Tree? && Exercised(sources[i].root, state, IdentifierState(state), false)
  }

  /** Covered is a non-empty state that some parsed file mentions outside every vacuous position. */
  lemma CoveredExactly(state: string, sources: seq<Source>)
    ensures Covered(state, sources)
       <==> state != "" && exists i, p | 0 <= i < |sources| ::
              sources[i].Tree? && LeadsToMention(sources[i].root, p, state, IdentifierState(state))
  {
    forall i | 0 <= i < |sources| && sources[i].Tree?
      ensures Exercised(sources[i].root, state, IdentifierState(state), false)
         <==> exists p :: LeadsToMention(sources[i].root, p, state, IdentifierState(state))
    {
      ExercisedExactly(sources[i].root, state, IdentifierState(state));
    }
    hide IdentifierState, Exercised, LeadsToMention;
    if Covered(state, sources) {
      var i :| 0 <= i < |sources| && sources[i].Tree?
               && Exercised(sources[i].root, state, IdentifierState(state), false);
      var p :| LeadsToMention(sources[i].root, p, state, IdentifierState(state));
      assert 0 <= i < |sources| && sources[i].Tree?
          && LeadsToMention(sources[i].root, p, state, IdentifierState(state));
    }
  }

  method StateCovered(state: string, sources: seq<Source>) returns (covered: bool)
    requires forall i | 0 <= i < |sources| && sources[i].Tree? :: Parsed(sources[i].root)
    ensures covered <==> Covered(state, sources)
  {
    if state == "" {
      return false;
    }
    var identifierState := IdentifierState(state);
    for n := 0 to |sources|
      invariant forall i | 0 <= i < n && sources[i].Tree? :: !Exercised(sources[i].root, state, identifierState, false)
    {
      if sources[n].Tree? {
        var tree := sources[n].root;
        var excluded := VacuousOccurrenceIds(tree);
        var matches := StateMatchNodes(tree, state, identifierState);
        TwoPassIsOneWalk(tree, state, identifierState);
        if exists m | m in matches :: m.id !in excluded {
          return true;
        }
      }
    }
    return false;
  }

  // ---------- Adding a statement ----------

  /** `tree` with `stmt` inserted into the block reached by following `path`, as its child number `at`. */
  function Insert(tree: Node, path: seq<nat>, at: nat, stmt: Node): Node
    decreases |path|
  {
    if path == [] then
      if at <= |tree.children| then tree.(children := tree.children[..at] + [stmt] + tree.children[at..]) else tree
    else if path[0] < |tree.children| then
      tree.(children := tree.children[path[0] := Insert(tree.children[path[0]], path[1..], at, stmt)])
    else tree
  }

  /** The path leads through blocks (modules, classes, functions, compound statements) to a block. */
  predicate IsBlockPath(tree: Node, path: seq<nat>, at: nat)
    decreases |path|
  {
    && tree.kind.Plain?
    && (if path == [] then at <= |tree.children|
        else path[0] < |tree.children| && IsBlockPath(tree.children[path[0]], path[1..], at))
  }

  /** An inserted statement adds exactly what it exercises itself. */
  lemma {:induction false} InsertAddsItsOwn(tree: Node, path: seq<nat>, at: nat, stmt: Node, state: string,
                                            identifierState: bool)
    requires IsBlockPath(tree, path, at)
    ensures Exercised(Insert(tree, path, at, stmt), state, identifierState, false)
       <==> Exercised(tree, state, identifierState, false) || Exercised(stmt, state, identifierState, false)
    decreases |path|
  {
    if path == [] {
      InsertHere(tree, at, stmt, state, identifierState);
    } else {
      var p := path[0];
      var child := Insert(tree.children[p], path[1..], at, stmt);
      InsertAddsItsOwn(tree.children[p], path[1..], at, stmt, state, identifierState);
      ReplaceChild(tree, p, child, state, identifierState,
                   Exercised(tree.children[p], state, identifierState, false)
                   || Exercised(stmt, state, identifierState, false));
    }
  }

  lemma InsertHere(tree: Node, at: nat, stmt: Node, state: string, identifierState: bool)
    requires tree.kind.Plain? && at <= |tree.children|
    ensures Exercised(Insert(tree, [], at, stmt), state, identifierState, false)
       <==> Exercised(tree, state, identifierState, false) || Exercised(stmt, state, identifierState, false)
  {
    var after := Insert(tree, [], at, stmt);
    BlockExercises(tree, state, identifierState);
    BlockExercises(after, state, identifierState);
    hide Exercised;
    var old', new' := tree.children, after.children;
    assert new' == old'[..at] + [stmt] + old'[at..];
    if i :| 0 <= i < |old'| && Exercised(old'[i], state, identifierState, false) {
      assert new'[if i < at then i else i + 1] == old'[i];
    }
    if j :| 0 <= j < |new'| && Exercised(new'[j], state, identifierState, false) {
      assert j != at ==> old'[if j < at then j else j - 1] == new'[j];
    }
    assert new'[at] == stmt;
  }

  /** Exchanging one child for one that exercises at least as much. */
  lemma ReplaceChild(tree: Node, p: nat, child: Node, state: string, identifierState: bool, exercises: bool)
    requires tree.kind.Plain? && p < |tree.children|
    requires Exercised(tree.children[p], state, identifierState, false) ==> exercises
    requires Exercised(child, state, identifierState, false) <==> exercises
    ensures Exercised(tree.(children := tree.children[p := child]), state, identifierState, false)
       <==> Exercised(tree, state, identifierState, false) || exercises
  {
    var after := tree.(children := tree.children[p := child]);
    BlockExercises(tree, state, identifierState);
    BlockExercises(after, state, identifierState);
    hide Exercised;
    assert after.children[p] == child;
    assert forall i | 0 <= i < |tree.children| && i != p :: after.children[i] == tree.children[i];
  }

  lemma BlockExercises(block: Node, state: string, identifierState: bool)
    requires block.kind.Plain?
    ensures Exercised(block, state, identifierState, false)
       <==> exists i :: 0 <= i < |block.children| && Exercised(block.children[i], state, identifierState, false)
  {
    assert forall i :: !Masks(block, i);
  }

  /** A docstring, an assertion on a bare constant, or a vacuous comparison standing alone or asserted. */
  predicate Inert(stmt: Node) {
    && (stmt.kind.Expr? || stmt.kind.Assert?)
    && |stmt.children| == 1
    && (StandsAlone(stmt, 0) || EmptyComparison(stmt.children[0]))
  }

  lemma InertExercisesNothing(stmt: Node, state: string, identifierState: bool)
    requires Inert(stmt)
    ensures !Exercised(stmt, state, identifierState, false)
  {
    var c := stmt.children[0];
    EmptyComparisonExactly(c);
    if StandsAlone(stmt, 0) {
      MaskedIsDead(c, state, identifierState);
    } else {
      forall i | 0 <= i < |c.children| ensures !Exercised(c.children[i], state, identifierState, Masks(c, i)) {
        MaskedIsDead(c.children[i], state, identifierState);
      }
    }
  }

  /** Docstrings, bare constant assertions and vacuous comparisons can be added anywhere without effect. */
  lemma InertStatementsDoNotCover(tree: Node, path: seq<nat>, at: nat, stmt: Node, state: string, identifierState: bool)
    requires IsBlockPath(tree, path, at) && Inert(stmt)
    ensures Exercised(Insert(tree, path, at, stmt), state, identifierState, false)
       <==> Exercised(tree, state, identifierState, false)
  {
    InsertAddsItsOwn(tree, path, at, stmt, state, identifierState);
    InertExercisesNothing(stmt, state, identifierState);
  }

  /** A comparison that is not vacuous covers what any of its operands mentions, wherever it is asserted. */
  lemma RealComparisonCovers(tree: Node, path: seq<nat>, at: nat, stmt: Node, i: nat, p: seq<nat>, state: string,
                             identifierState: bool)
    requires IsBlockPath(tree, path, at)
    requires (stmt.kind.Expr? || stmt.kind.Assert?) && |stmt.children| == 1 && stmt.children[0].kind.Compare?
    requires !EmptyComparison(stmt.children[0]) && i < |stmt.children[0].children|
    requires LeadsToMention(stmt.children[0].children[i], p, state, identifierState)
    ensures Exercised(Insert(tree, path, at, stmt), state, identifierState, false)
  {
    hide EmptyComparison;
    InsertAddsItsOwn(tree, path, at, stmt, state, identifierState);
    var comparison := stmt.children[0];
    OneStepMore(comparison, i, p, state, identifierState);
    NoComparison(stmt);
    OneStepMore(stmt, 0, [i] + p, state, identifierState);
    ExercisedExactly(stmt, state, identifierState);
  }

  lemma NoComparison(t: Node)
    requires !t.kind.Compare?
    ensures !EmptyComparison(t)
  {
  }

  /** More test files, in any order, never lose coverage. */
  lemma CoverageGrowsWithSources(state: string, sources: seq<Source>, more: seq<Source>)
    requires forall i | 0 <= i < |sources| :: sources[i] in more
    requires Covered(state, sources)
    ensures Covered(state, more)
  {
    var i :| 0 <= i < |sources| && sources[i].Tree? && Exercised(sources[i].root, state, IdentifierState(state), false);
    assert sources[i] in more;
    var j :| 0 <= j < |more| && more[j] == sources[i];
  }

  // ---------- Failing and grandfathered states ----------

  /** The states with this property, in order and as often as declared. */
  ghost function Select(states: seq<string>, wanted: string -> bool): seq<string> {
    if states == [] then []
    else Select(states[..|states| - 1], wanted)
         + if wanted(states[|states| - 1]) then [states[|states| - 1]] else []
  }

  /** A baselined gap stays a warning unless strict mode promotes it. */
  predicate Grandfathered(s: string, baseline: set<string>, strict: bool, exempt: bool) {
    s in baseline && (!strict || exempt)
  }

  /** Splits the uncovered declared states into failing ones and baselined warnings, in declaration order. */
  method ValidateStates(declared: seq<string>, sources: seq<Source>, baseline: set<string>, strict: bool, exempt: bool)
      returns (uncovered: seq<string>, baselinedUncovered: seq<string>)
    requires forall i | 0 <= i < |sources| && sources[i].Tree? :: Parsed(sources[i].root)
    ensures uncovered
         == Select(declared, s => !Covered(s, sources) && !Grandfathered(s, baseline, strict, exempt))
    ensures baselinedUncovered
         == Select(declared, s => !Covered(s, sources) && Grandfathered(s, baseline, strict, exempt))
  {
    uncovered, baselinedUncovered := [], [];
    ghost var failing := s => !Covered(s, sources) && !Grandfathered(s, baseline, strict, exempt);
    ghost var warned := s => !Covered(s, sources) && Grandfathered(s, baseline, strict, exempt);
    for n := 0 to |declared|
      invariant uncovered == Select(declared[..n], failing)
      invariant baselinedUncovered == Select(declared[..n], warned)
    {
      var covered := StateCovered(declared[n], sources);
      assert declared[..n + 1] == declared[..n] + [declared[n]];
      if !covered {
        if declared[n] in baseline && (!strict || exempt) {
          baselinedUncovered := baselinedUncovered + [declared[n]];
        } else {
          uncovered := uncovered + [declared[n]];
        }
      }
    }
    assert declared[..|declared|] == declared;
  }

  /** So a declared state is covered, failing or a baselined warning, and never two of these. */
  lemma {:induction false} SelectMembers(states: seq<string>, wanted: string -> bool, s: string)
    ensures s in Select(states, wanted) <==> s in states && wanted(s)
  {
    if states != [] {
      SelectMembers(states[..|states| - 1], wanted, s);
      assert states == states[..|states| - 1] + [states[|states| - 1]];
    }
  }
}
