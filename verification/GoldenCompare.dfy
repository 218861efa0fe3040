/** The two equivalence tests of `scripts/ci/compute_golden.py`: the structural
    differ and the canonical printer (RFC 8259, section 4 onwards). */
module GoldenCompare {
  import opened Options
  import opened GoldenMask
  import opened SortedKeys

  // ---------- Python's `==` on JSON values ----------

  /** Python's numeric comparison of two printed numbers, such as 1 and 1.0. */
  type NumberEq = (string, string) -> bool

  /** `==` between two values that are neither both lists nor both dicts. */
  predicate AtomEq(same: NumberEq, a: Json, b: Json) {
    match (a, b)
    case (Null, Null) => true
    case (Str(s), Str(t)) => s == t
    case (Bool(x), Bool(y)) => x == y
    case (Num(m), Num(n)) => same(m, n)
    case (Bool(x), Num(n)) => same(if x then "1" else "0", n)
    case (Num(m), Bool(y)) => same(m, if y then "1" else "0")
    case _ => false
  }

  /** The value compares as this printed number. */
  predicate CountsAs(j: Json, n: string) {
    j == Num(n) || (j == Bool(true) && n == "1") || (j == Bool(false) && n == "0")
  }

  /** Two values that are neither both lists nor both dicts are equal exactly if they are the same text or null, or
      compare as equal numbers. */
  lemma AtomEqExactly(same: NumberEq, a: Json, b: Json)
    requires same("0", "0") && same("1", "1") && !same("0", "1") && !same("1", "0")
    ensures AtomEq(same, a, b)
       <==> (a == b && (a.Null? || a.Str?)) || exists m, n :: CountsAs(a, m) && CountsAs(b, n) && same(m, n)
  {
    if AtomEq(same, a, b) && !a.Null? && !a.Str? {
      var m := if a.Num? then a.literal else if a.b then "1" else "0";
      var n := if b.Num? then b.literal else if b.b then "1" else "0";
      assert CountsAs(a, m) && CountsAs(b, n);
    }
  }

  ghost predicate PyEq(same: NumberEq, a: Json, b: Json)
    decreases a
  {
    if a.Obj? && b.Obj? then
      && a.fields.Keys == b.fields.Keys
      && forall k | k in a.fields :: PyEq(same, a.fields[k], b.fields[k])
    else if a.Arr? && b.Arr? then
      && |a.items| == |b.items|
      && forall i | 0 <= i < |a.items| :: PyEq(same, a.items[i], b.items[i])
    else AtomEq(same, a, b)
  }

  // ---------- The structural differ ----------

  datatype Change = Added | Removed | LengthChanged | ValueChanged

  datatype Diff = Diff(at: Address, change: Change)

  /** The two documents really differ in this way at this address. */
  ghost predicate DiffersAt(same: NumberEq, expected: Json, actual: Json, at: Address, change: Change) {
    var e, a := NodeAt(expected, at), NodeAt(actual, at);
    match change
    case Added => e.None? && a.Some? && HasParents(expected, actual, at)
    case Removed => e.Some? && a.None? && HasParents(expected, actual, at)
    case LengthChanged =>
      e.Some? && a.Some? && e.value.Arr? && a.value.Arr? && |e.value.items| != |a.value.items|
    case ValueChanged =>
      && e.Some? && a.Some?
      && !(e.value.Arr? && a.value.Arr?) && !(e.value.Obj? && a.value.Obj?)
      && !AtomEq(same, e.value, a.value)
  }

  /** Both documents hold a dict just above this address. */
  ghost predicate HasParents(expected: Json, actual: Json, at: Address) {
    at != [] &&
    var e, a := NodeAt(expected, at[..|at| - 1]), NodeAt(actual, at[..|at| - 1]);
    e.Some? && e.value.Obj? && a.Some? && a.value.Obj?
  }

  /** The reported differences, in report order. */
  function DiffsOf(same: NumberEq, e: Json, a: Json, prefix: Address): seq<Diff>
    decreases e, 1, 0
  {
    if e.Obj? && a.Obj? then DiffsOfKeys(same, e, a, prefix, Sorted(e.fields.Keys + a.fields.Keys))
    else if e.Arr? && a.Arr? then
      (if |e.items| != |a.items| then [Diff(prefix, LengthChanged)] else []) + DiffsOfItems(same, e, a, prefix, 0)
    else if AtomEq(same, e, a) then []
    else [Diff(prefix, ValueChanged)]
  }

  function DiffsOfKeys(same: NumberEq, e: Json, a: Json, prefix: Address, keys: seq<string>): seq<Diff>
    requires e.Obj? && a.Obj?
    decreases e, 0, |keys|
  {
    if keys == [] then []
    else DiffsAtKey(same, e, a, prefix, keys[0]) + DiffsOfKeys(same, e, a, prefix, keys[1..])
  }

  function DiffsAtKey(same: NumberEq, e: Json, a: Json, prefix: Address, key: string): seq<Diff>
    requires e.Obj? && a.Obj?
    decreases e, 0, 0
  {
    var child := prefix + [Key(key)];
    if key !in e.fields then [Diff(child, Added)]
    else if key !in a.fields then [Diff(child, Removed)]
    else DiffsOf(same, e.fields[key], a.fields[key], child)
  }

  function DiffsOfItems(same: NumberEq, e: Json, a: Json, prefix: Address, n: nat): seq<Diff>
    requires e.Arr? && a.Arr?
    decreases e, 0, |e.items| - n
  {
    if n < |e.items| && n < |a.items| then
      DiffsOf(same, e.items[n], a.items[n], prefix + [Index(n)]) + DiffsOfItems(same, e, a, prefix, n + 1)
    else []
  }

  /** `diff_paths`: the differences are accumulated while walking both documents. */
  method DiffPaths(same: NumberEq, expected: Json, actual: Json, prefix: Address) returns (diffs: seq<Diff>)
    ensures diffs == DiffsOf(same, expected, actual, prefix)
    decreases expected, 1
  {
    if expected.Obj? && actual.Obj? {
      diffs := DiffDicts(same, expected, actual, prefix);
    } else if expected.Arr? && actual.Arr? {
      diffs := DiffLists(same, expected, actual, prefix);
    } else if !AtomEq(same, expected, actual) {
      diffs := [Diff(prefix, ValueChanged)];
    } else {
      diffs := [];
    }
  }

  method DiffDicts(same: NumberEq, expected: Json, actual: Json, prefix: Address) returns (diffs: seq<Diff>)
    requires expected.Obj? && actual.Obj?
    ensures diffs == DiffsOf(same, expected, actual, prefix)
    decreases expected, 0, 1
  {
    var keys := Sorted(expected.fields.Keys + actual.fields.Keys);
    ghost var all := DiffsOfKeys(same, expected, actual, prefix, keys);
    assert all == DiffsOf(same, expected, actual, prefix);
    hide DiffsOf, DiffsAtKey;
    diffs := [];
    assert keys[0..] == keys;
    for n := 0 to |keys|
      invariant diffs + DiffsOfKeys(same, expected, actual, prefix, keys[n..]) == all
    {
      assert keys[n..][0] == keys[n] && keys[n..][1..] == keys[n + 1..];
      ghost var after := DiffsOfKeys(same, expected, actual, prefix, keys[n + 1..]);
      var here := DiffAtKey(same, expected, actual, prefix, keys[n]);
      assert diffs + (here + after) == (diffs + here) + after;
      diffs := diffs + here;
    }
  }

  method DiffAtKey(same: NumberEq, expected: Json, actual: Json, prefix: Address, key: string)
      returns (diffs: seq<Diff>)
    requires expected.Obj? && actual.Obj?
    ensures diffs == DiffsAtKey(same, expected, actual, prefix, key)
    decreases expected, 0, 0
  {
    var child := prefix + [Key(key)];
    if key !in expected.fields {
      diffs := [Diff(child, Added)];
    } else if key !in actual.fields {
      diffs := [Diff(child, Removed)];
    } else {
      diffs := DiffPaths(same, expected.fields[key], actual.fields[key], child);
    }
  }

  method DiffLists(same: NumberEq, expected: Json, actual: Json, prefix: Address) returns (diffs: seq<Diff>)
    requires expected.Arr? && actual.Arr?
    ensures diffs == DiffsOf(same, expected, actual, prefix)
    decreases expected, 0, 0
  {
    diffs := if |expected.items| != |actual.items| then [Diff(prefix, LengthChanged)] else [];
    ghost var all := diffs + DiffsOfItems(same, expected, actual, prefix, 0);
    assert all == DiffsOf(same, expected, actual, prefix);
    hide DiffsOf;
    var n := 0;
    while n < |expected.items| && n < |actual.items|
      invariant n <= |expected.items| && n <= |actual.items|
      invariant diffs + DiffsOfItems(same, expected, actual, prefix, n) == all
    {
      ghost var after := DiffsOfItems(same, expected, actual, prefix, n + 1);
      var below := DiffPaths(same, expected.items[n], actual.items[n], prefix + [Index(n)]);
      assert diffs + (below + after) == (diffs + below) + after;
      diffs := diffs + below;
      n := n + 1;
    }
  }

  // ---------- The report is empty exactly on equal documents ----------

  lemma {:induction false} EmptyReport(same: NumberEq, e: Json, a: Json, prefix: Address)
    ensures DiffsOf(same, e, a, prefix) == [] <==> PyEq(same, e, a)
    decreases e, 1, 0
  {
    if e.Obj? && a.Obj? {
      var keys := Sorted(e.fields.Keys + a.fields.Keys);
      EmptyReportKeys(same, e, a, prefix, keys);
      assert forall k | k in e.fields || k in a.fields :: k in keys;
    } else if e.Arr? && a.Arr? {
      EmptyReportItems(same, e, a, prefix, 0);
    }
  }

  lemma {:induction false} EmptyReportKeys(same: NumberEq, e: Json, a: Json, prefix: Address, keys: seq<string>)
    requires e.Obj? && a.Obj?
    requires forall k | k in keys :: k in e.fields || k in a.fields
    ensures DiffsOfKeys(same, e, a, prefix, keys) == []
       <==> forall k | k in keys :: k in e.fields && k in a.fields && PyEq(same, e.fields[k], a.fields[k])
    decreases e, 0, |keys|
  {
    if keys != [] {
      var k := keys[0];
      EmptyReportKeys(same, e, a, prefix, keys[1..]);
      if k in e.fields && k in a.fields {
        EmptyReport(same, e.fields[k], a.fields[k], prefix + [Key(k)]);
      }
      assert keys == [k] + keys[1..];
    }
  }

  lemma {:induction false} EmptyReportItems(same: NumberEq, e: Json, a: Json, prefix: Address, n: nat)
    requires e.Arr? && a.Arr?
    ensures DiffsOfItems(same, e, a, prefix, n) == []
       <==> forall i | n <= i < |e.items| && i < |a.items| :: PyEq(same, e.items[i], a.items[i])
    decreases e, 0, |e.items| - n
  {
    hide DiffsOf, PyEq;
    if n < |e.items| && n < |a.items| {
      EmptyReport(same, e.items[n], a.items[n], prefix + [Index(n)]);
      EmptyReportItems(same, e, a, prefix, n + 1);
    }
  }

  // ---------- Every reported address is right, and none is missed ----------

  lemma {:induction false} ReportBelow(same: NumberEq, e: Json, a: Json, prefix: Address, d: Diff)
    requires d in DiffsOf(same, e, a, prefix)
    ensures prefix <= d.at
    decreases e, 1, 0
  {
    if e.Obj? && a.Obj? {
      var keys := Sorted(e.fields.Keys + a.fields.Keys);
      var k := ReportKey(same, e, a, prefix, keys, d);
      if k in e.fields && k in a.fields {
        ReportBelow(same, e.fields[k], a.fields[k], prefix + [Key(k)], d);
      }
      assert prefix <= prefix + [Key(k)] <= d.at;
    } else if e.Arr? && a.Arr? {
      if d in DiffsOfItems(same, e, a, prefix, 0) {
        var i := ReportItem(same, e, a, prefix, 0, d);
        ReportBelow(same, e.items[i], a.items[i], prefix + [Index(i)], d);
        assert prefix <= prefix + [Index(i)] <= d.at;
      }
    }
  }

  lemma {:induction false} ReportKey(same: NumberEq, e: Json, a: Json, prefix: Address, keys: seq<string>, d: Diff)
      returns (k: string)
    requires e.Obj? && a.Obj?
    requires d in DiffsOfKeys(same, e, a, prefix, keys)
    ensures k in keys && d in DiffsAtKey(same, e, a, prefix, k)
    decreases |keys|
  {
    if d in DiffsAtKey(same, e, a, prefix, keys[0]) {
      k := keys[0];
    } else {
      k := ReportKey(same, e, a, prefix, keys[1..], d);
    }
  }

  lemma {:induction false} KeyReported(same: NumberEq, e: Json, a: Json, prefix: Address, keys: seq<string>, k: string)
    requires e.Obj? && a.Obj?
    requires k in keys
    ensures forall d | d in DiffsAtKey(same, e, a, prefix, k) :: d in DiffsOfKeys(same, e, a, prefix, keys)
    decreases |keys|
  {
    if keys[0] != k {
      KeyReported(same, e, a, prefix, keys[1..], k);
    }
  }

  lemma {:induction false} ReportItem(same: NumberEq, e: Json, a: Json, prefix: Address, n: nat, d: Diff)
      returns (i: nat)
    requires e.Arr? && a.Arr?
    requires d in DiffsOfItems(same, e, a, prefix, n)
    ensures n <= i < |e.items| && i < |a.items| && d in DiffsOf(same, e.items[i], a.items[i], prefix + [Index(i)])
    decreases |e.items| - n
  {
    if d in DiffsOf(same, e.items[n], a.items[n], prefix + [Index(n)]) {
      i := n;
    } else {
      i := ReportItem(same, e, a, prefix, n + 1, d);
    }
  }

  lemma {:induction false} ItemReported(same: NumberEq, e: Json, a: Json, prefix: Address, n: nat, i: nat)
    requires e.Arr? && a.Arr? && n <= i < |e.items| && i < |a.items|
    ensures forall d | d in DiffsOf(same, e.items[i], a.items[i], prefix + [Index(i)]) ::
              d in DiffsOfItems(same, e, a, prefix, n)
    decreases |e.items| - n
  {
    var here := DiffsOf(same, e.items[n], a.items[n], prefix + [Index(n)]);
    assert DiffsOfItems(same, e, a, prefix, n) == here + DiffsOfItems(same, e, a, prefix, n + 1);
    hide DiffsOf, DiffsOfItems;
    if n < i {
      ItemReported(same, e, a, prefix, n + 1, i);
    }
  }

  lemma OneStep(j: Json, step: Step)
    ensures NodeAt(j, [step]) == match step
      case Index(i) => (if j.Arr? && i < |j.items| then Some(j.items[i]) else None)
      case Key(k) => if j.Obj? && k in j.fields then Some(j.fields[k]) else None
  {
    assert [step][1..] == [];
  }

  lemma NodeBelow(j: Json, step: Step, at: Address)
    ensures NodeAt(j, [step] + at)
         == match NodeAt(j, [step]) case None => None case Some(child) => NodeAt(child, at)
  {
    assert ([step] + at)[1..] == at && [step][1..] == [];
  }

  /** One step down into children that both documents have. */
  lemma DiffersBelow(same: NumberEq, e: Json, a: Json, step: Step, at: Address, change: Change)
    requires NodeAt(e, [step]).Some? && NodeAt(a, [step]).Some?
    ensures DiffersAt(same, e, a, [step] + at, change)
       <==> DiffersAt(same, NodeAt(e, [step]).value, NodeAt(a, [step]).value, at, change)
  {
    NodeBelow(e, step, at);
    NodeBelow(a, step, at);
    if at != [] {
      var full := [step] + at;
      assert full[..|full| - 1] == [step] + at[..|at| - 1];
      NodeBelow(e, step, at[..|at| - 1]);
      NodeBelow(a, step, at[..|at| - 1]);
    }
  }

  /** Below a step that only one document can take there is nothing but the added or removed key itself. */
  lemma DiffersOneSided(same: NumberEq, e: Json, a: Json, step: Step, at: Address, change: Change)
    requires NodeAt(e, [step]).None? || NodeAt(a, [step]).None?
    ensures DiffersAt(same, e, a, [step] + at, change)
       <==> && at == [] && e.Obj? && a.Obj?
            && ((change == Added && NodeAt(e, [step]).None? && NodeAt(a, [step]).Some?)
                || (change == Removed && NodeAt(e, [step]).Some? && NodeAt(a, [step]).None?))
  {
    var full := [step] + at;
    NodeBelow(e, step, at);
    NodeBelow(a, step, at);
    if at == [] {
      assert full == [step] && full[..0] == [];
    } else {
      assert full[..|full| - 1] == [step] + at[..|at| - 1];
      NodeBelow(e, step, at[..|at| - 1]);
      NodeBelow(a, step, at[..|at| - 1]);
    }
  }

  /** A difference is reported at an address exactly when the documents differ there in that way. */
  lemma {:induction false} ReportExact(same: NumberEq, e: Json, a: Json, prefix: Address, at: Address, change: Change)
    ensures Diff(prefix + at, change) in DiffsOf(same, e, a, prefix) <==> DiffersAt(same, e, a, at, change)
    decreases e, |at|
  {
    hide DiffsOf, DiffersAt;
    if at == [] {
      assert prefix + at == prefix;
      ReportAtRoot(same, e, a, prefix, change);
    } else {
      var step, rest := at[0], at[1..];
      assert at == [step] + rest;
      assert prefix + at == (prefix + [step]) + rest;
      ReportGoesDown(same, e, a, prefix, step, rest, change);
      OneStep(e, step);
      if NodeAt(e, [step]).Some? && NodeAt(a, [step]).Some? {
        ReportExact(same, NodeAt(e, [step]).value, NodeAt(a, [step]).value, prefix + [step], rest, change);
        DiffersBelow(same, e, a, step, rest, change);
      } else {
        DiffersOneSided(same, e, a, step, rest, change);
      }
    }
  }

  lemma ReportAtRoot(same: NumberEq, e: Json, a: Json, prefix: Address, change: Change)
    ensures Diff(prefix, change) in DiffsOf(same, e, a, prefix) <==> DiffersAt(same, e, a, [], change)
  {
    var d := Diff(prefix, change);
    if e.Obj? && a.Obj? {
      if d in DiffsOf(same, e, a, prefix) {
        var k := ReportKey(same, e, a, prefix, Sorted(e.fields.Keys + a.fields.Keys), d);
        if k in e.fields && k in a.fields { ReportBelow(same, e.fields[k], a.fields[k], prefix + [Key(k)], d); }
      }
    } else if e.Arr? && a.Arr? {
      if d in DiffsOfItems(same, e, a, prefix, 0) {
        var i := ReportItem(same, e, a, prefix, 0, d);
        ReportBelow(same, e.items[i], a.items[i], prefix + [Index(i)], d);
      }
    }
  }

  lemma InDictReport(same: NumberEq, e: Json, a: Json, prefix: Address, d: Diff)
    requires e.Obj? && a.Obj?
    ensures d in DiffsOf(same, e, a, prefix)
       <==> exists k :: k in e.fields.Keys + a.fields.Keys && d in DiffsAtKey(same, e, a, prefix, k)
  {
    var keys := Sorted(e.fields.Keys + a.fields.Keys);
    assert DiffsOf(same, e, a, prefix) == DiffsOfKeys(same, e, a, prefix, keys);
    hide DiffsOf, DiffsAtKey;
    if d in DiffsOfKeys(same, e, a, prefix, keys) {
      var k := ReportKey(same, e, a, prefix, keys, d);
    }
    if k :| k in e.fields.Keys + a.fields.Keys && d in DiffsAtKey(same, e, a, prefix, k) {
      KeyReported(same, e, a, prefix, keys, k);
    }
  }

  lemma InListReport(same: NumberEq, e: Json, a: Json, prefix: Address, d: Diff)
    requires e.Arr? && a.Arr?
    ensures d in DiffsOf(same, e, a, prefix)
       <==> || (|e.items| != |a.items| && d == Diff(prefix, LengthChanged))
            || exists i | 0 <= i < |e.items| && i < |a.items| ::
                d in DiffsOf(same, e.items[i], a.items[i], prefix + [Index(i)])
  {
    var lengths := if |e.items| != |a.items| then [Diff(prefix, LengthChanged)] else [];
    assert DiffsOf(same, e, a, prefix) == lengths + DiffsOfItems(same, e, a, prefix, 0);
    hide DiffsOf;
    if d in DiffsOfItems(same, e, a, prefix, 0) {
      var i := ReportItem(same, e, a, prefix, 0, d);
    }
    if i :| 0 <= i < |e.items| && i < |a.items| && d in DiffsOf(same, e.items[i], a.items[i], prefix + [Index(i)]) {
      ItemReported(same, e, a, prefix, 0, i);
    }
  }

  /** What is reported below one step comes from the two children there. */
  ghost predicate ComesFromChildren(same: NumberEq, e: Json, a: Json, prefix: Address, step: Step, rest: Address,
                                    change: Change)
  {
    if NodeAt(e, [step]).Some? && NodeAt(a, [step]).Some? then
      Diff(prefix + [step] + rest, change)
      in DiffsOf(same, NodeAt(e, [step]).value, NodeAt(a, [step]).value, prefix + [step])
    else
      && rest == [] && e.Obj? && a.Obj?
      && ((change == Added && NodeAt(e, [step]).None? && NodeAt(a, [step]).Some?)
          || (change == Removed && NodeAt(e, [step]).Some? && NodeAt(a, [step]).None?))
  }

  lemma ReportGoesDown(same: NumberEq, e: Json, a: Json, prefix: Address, step: Step, rest: Address, change: Change)
    ensures Diff(prefix + [step] + rest, change) in DiffsOf(same, e, a, prefix)
       <==> ComesFromChildren(same, e, a, prefix, step, rest, change)
  {
    assert [step][1..] == [];
    if e.Obj? && a.Obj? {
      ReportGoesDownDict(same, e, a, prefix, step, rest, change);
    } else if e.Arr? && a.Arr? {
      ReportGoesDownList(same, e, a, prefix, step, rest, change);
    } else {
      OneStep(e, step);
      OneStep(a, step);
      assert |prefix + [step] + rest| > |prefix|;
    }
  }

  lemma ReportGoesDownDict(same: NumberEq, e: Json, a: Json, prefix: Address, step: Step, rest: Address, change: Change)
    requires e.Obj? && a.Obj?
    ensures Diff(prefix + [step] + rest, change) in DiffsOf(same, e, a, prefix)
       <==> ComesFromChildren(same, e, a, prefix, step, rest, change)
  {
    hide DiffsOf;
    var d := Diff(prefix + [step] + rest, change);
    assert d.at[|prefix|] == step;
    OneStep(e, step);
    OneStep(a, step);
    InDictReport(same, e, a, prefix, d);
    forall k | k in e.fields.Keys + a.fields.Keys && d in DiffsAtKey(same, e, a, prefix, k)
      ensures step == Key(k) && (rest == [] || (k in e.fields && k in a.fields))
    {
      if k in e.fields && k in a.fields {
        ReportBelow(same, e.fields[k], a.fields[k], prefix + [Key(k)], d);
      }
      assert (prefix + [Key(k)])[|prefix|] == step;
      assert |d.at| == |prefix| + 1 + |rest|;
    }
    if rest == [] {
      assert prefix + [step] + rest == prefix + [step];
    }
  }

  lemma ReportGoesDownList(same: NumberEq, e: Json, a: Json, prefix: Address, step: Step, rest: Address, change: Change)
    requires e.Arr? && a.Arr?
    ensures Diff(prefix + [step] + rest, change) in DiffsOf(same, e, a, prefix)
       <==> ComesFromChildren(same, e, a, prefix, step, rest, change)
  {
    hide DiffsOf;
    var d := Diff(prefix + [step] + rest, change);
    assert d.at[|prefix|] == step;
    OneStep(e, step);
    OneStep(a, step);
    InListReport(same, e, a, prefix, d);
    forall i | 0 <= i < |e.items| && i < |a.items| && d in DiffsOf(same, e.items[i], a.items[i], prefix + [Index(i)])
      ensures step == Index(i)
    {
      ReportBelow(same, e.items[i], a.items[i], prefix + [Index(i)], d);
      assert (prefix + [Index(i)])[|prefix|] == step;
    }
    assert |d.at| > |prefix|;
  }
}
