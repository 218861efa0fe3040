/** The canonical printer, `json.dumps(payload, sort_keys=True, ensure_ascii=False)`,
    and the agreement of the two comparators of `scripts/ci/compute_golden.py`. */
module GoldenCanonical {
  import opened Options
  import opened GoldenMask
  import opened GoldenCompare
  import opened SortedKeys

  const HEX := "0123456789abcdef"

  /** String escapes: quote, backslash and the control characters below 0x20. */
  function EscapeChar(c: char): (e: string)
    ensures |e| >= 1 && e[0] != '"'
  {
    if c == '"' then "\\\""
    else if c == '\\' then "\\\\"
    else if c == '\n' then "\\n"
    else if c == '\r' then "\\r"
    else if c == '\t' then "\\t"
    else if c == '\U{0C}' then "\\f"
    else if c == '\U{08}' then "\\b"
    else if c < '\U{20}' then "\\u00" + [HEX[c as int / 16], HEX[c as int % 16]]
    else [c]
  }

  // Each printing function gives the text of its value followed by `rest`.

  function PrintedChars(s: string, rest: string): string {
    if s == "" then rest else EscapeChar(s[0]) + PrintedChars(s[1..], rest)
  }

  function PrintedString(s: string, rest: string): string {
    "\"" + PrintedChars(s, "\"" + rest)
  }

  function Printed(j: Json, rest: string): string
    decreases j, 1, 0
  {
    match j
    case Null => "null" + rest
    case Bool(b) => (if b then "true" else "false") + rest
    case Num(literal) => literal + rest
    case Str(s) => PrintedString(s, rest)
    case Arr(_) => "[" + PrintedItems(j, 0, "]" + rest)
    case Obj(fields) => "{" + PrintedFields(j, Sorted(fields.Keys), "}" + rest)
  }

  /** The elements from position `n` on. */
  function PrintedItems(j: Json, n: nat, rest: string): string
    requires j.Arr?
    decreases j, 0, |j.items| - n
  {
    if n >= |j.items| then rest
    else Printed(j.items[n], if n + 1 == |j.items| then rest else ", " + PrintedItems(j, n + 1, rest))
  }

  function PrintedFields(j: Json, keys: seq<string>, rest: string): string
    requires j.Obj? && forall k | k in keys :: k in j.fields
    decreases j, 0, |keys|
  {
    if keys == [] then rest
    else PrintedString(keys[0], ": " + Printed(j.fields[keys[0]],
           if |keys| == 1 then rest else ", " + PrintedFields(j, keys[1..], rest)))
  }

  function Canonical(j: Json): string {
    Printed(j, "")
  }

  // ---------- Which documents the printer is asked about ----------

  predicate NumberChar(c: char) {
    '0' <= c <= '9' || c == '-' || c == '+' || c == '.' || c == 'e'
  }

  /** What json.dumps prints for an int or a finite float. */
  predicate NumberLiteral(s: string) {
    && s != ""
    && ('0' <= s[0] <= '9' || s[0] == '-')
    && forall i | 0 <= i < |s| :: NumberChar(s[i])
  }

  ghost predicate WellFormed(j: Json) {
    match j
    case Num(literal) => NumberLiteral(literal)
    case Arr(items) => forall i | 0 <= i < |items| :: WellFormed(items[i])
    case Obj(fields) => forall k | k in fields :: WellFormed(fields[k])
    case _ => true
  }

  // ---------- The printer loses nothing ----------

  /** What may follow a printed value inside a larger document. */
  predicate Follows(rest: string) {
    rest == "" || rest[0] == ',' || rest[0] == ']' || rest[0] == '}'
  }

  lemma {:induction false} SplitAt(p: string, q: string, x: string, y: string)
    requires p + x == q + y && |p| == |q|
    ensures p == q && x == y
  {
    assert p == (p + x)[..|p|] && q == (q + y)[..|q|];
    assert x == (p + x)[|p|..] && y == (q + y)[|q|..];
  }

  lemma HexInjective(a: int, b: int)
    requires 0 <= a < 16 && 0 <= b < 16 && HEX[a] == HEX[b]
    ensures a == b
  {
  }

  lemma EscapeCharInjective(c: char, d: char, x: string, y: string)
    requires EscapeChar(c) + x == EscapeChar(d) + y
    ensures c == d && x == y
  {
    var ec, ed := EscapeChar(c), EscapeChar(d);
    assert ec[0] == (ec + x)[0] && ed[0] == (ed + y)[0];
    if ec[0] == '\\' {
      assert ec[1] == (ec + x)[1] && ed[1] == (ed + y)[1];
      if ec[1] == 'u' {
        assert ec[4] == (ec + x)[4] && ed[4] == (ed + y)[4];
        assert ec[5] == (ec + x)[5] && ed[5] == (ed + y)[5];
        HexInjective(c as int / 16, d as int / 16);
        HexInjective(c as int % 16, d as int % 16);
      }
    }
    assert c == d;
    SplitAt(ec, ed, x, y);
  }

  lemma CharsLead(s: string, x: string)
    ensures PrintedChars(s, "\"" + x) != ""
    ensures PrintedChars(s, "\"" + x)[0] == '"' <==> s == ""
  {
  }

  lemma {:induction false} CharsInjective(s: string, t: string, x: string, y: string)
    requires PrintedChars(s, "\"" + x) == PrintedChars(t, "\"" + y)
    ensures s == t && x == y
  {
    CharsLead(s, x);
    CharsLead(t, y);
    if s == "" {
      SplitAt("\"", "\"", x, y);
    } else {
      EscapeCharInjective(s[0], t[0], PrintedChars(s[1..], "\"" + x), PrintedChars(t[1..], "\"" + y));
      CharsInjective(s[1..], t[1..], x, y);
      assert s == [s[0]] + s[1..] && t == [t[0]] + t[1..];
    }
  }

  lemma StringInjective(s: string, t: string, x: string, y: string)
    requires PrintedString(s, x) == PrintedString(t, y)
    ensures s == t && x == y
  {
    SplitAt("\"", "\"", PrintedChars(s, "\"" + x), PrintedChars(t, "\"" + y));
    CharsInjective(s, t, x, y);
  }

  lemma {:induction false} LiteralInjective(m: string, n: string, x: string, y: string)
    requires forall i | 0 <= i < |m| :: NumberChar(m[i])
    requires forall i | 0 <= i < |n| :: NumberChar(n[i])
    requires Follows(x) && Follows(y)
    requires m + x == n + y
    ensures m == n && x == y
  {
    var w := m + x;
    assert forall i | 0 <= i < |m| :: w[i] == m[i];
    assert forall i | 0 <= i < |n| :: w[i] == n[i];
    assert |w| > |m| ==> w[|m|] == x[0];
    assert |w| > |n| ==> w[|n|] == y[0];
    SplitAt(m, n, x, y);
  }

  /** The first character tells the kinds of value apart. */
  function Lead(j: Json): char
    requires j.Num? ==> j.literal != ""
  {
    match j
    case Null => 'n'
    case Bool(b) => if b then 't' else 'f'
    case Num(literal) => literal[0]
    case Str(_) => '"'
    case Arr(_) => '['
    case Obj(_) => '{'
  }

  lemma LeadIsFirst(j: Json, x: string)
    requires WellFormed(j)
    ensures |Printed(j, x)| >= 1 && Printed(j, x)[0] == Lead(j)
  {
  }

  lemma SameShape(a: Json, b: Json, x: string, y: string)
    requires WellFormed(a) && WellFormed(b) && Printed(a, x) == Printed(b, y)
    ensures match a
            case Null => b.Null?
            case Bool(t) => b.Bool? && b.b == t
            case Num(m) =>
              && b.Num? && (forall i | 0 <= i < |m| :: NumberChar(m[i]))
              && (forall i | 0 <= i < |b.literal| :: NumberChar(b.literal[i]))
            case Str(_) => b.Str?
            case Arr(_) => b.Arr?
            case Obj(_) => b.Obj?
  {
    LeadIsFirst(a, x);
    LeadIsFirst(b, y);
    hide Printed;
  }

  /** Printed documents can be told apart, even with more text behind them. */
  lemma {:induction false} PrintedInjective(a: Json, b: Json, x: string, y: string)
    requires WellFormed(a) && WellFormed(b) && Follows(x) && Follows(y)
    requires Printed(a, x) == Printed(b, y)
    ensures a == b && x == y
    decreases a, 1, 0
  {
    hide WellFormed, PrintedItems, PrintedFields, PrintedString, Follows, NumberChar, Lead;
    SameShape(a, b, x, y);
    match a
    case Null => SplitAt("null", "null", x, y);
    case Bool(t) => SplitAt(if t then "true" else "false", if t then "true" else "false", x, y);
    case Num(m) => LiteralInjective(m, b.literal, x, y);
    case Str(s) => StringInjective(s, b.s, x, y);
    case Arr(_) =>
      SplitAt("[", "[", PrintedItems(a, 0, "]" + x), PrintedItems(b, 0, "]" + y));
      ItemsInjective(a, b, 0, x, y);
    case Obj(fields) =>
      var ka, kb := Sorted(fields.Keys), Sorted(b.fields.Keys);
      SplitAt("{", "{", PrintedFields(a, ka, "}" + x), PrintedFields(b, kb, "}" + y));
      FieldsInjective(a, ka, b, kb, x, y);
      SameEntries(a, b);
  }

  lemma SameEntries(a: Json, b: Json)
    requires a.Obj? && b.Obj? && Sorted(a.fields.Keys) == Sorted(b.fields.Keys)
    requires forall k | k in Sorted(a.fields.Keys) :: a.fields[k] == b.fields[k]
    ensures a == b
  {
    assert forall k :: k in Sorted(a.fields.Keys) <==> k in a.fields;
    assert forall k :: k in Sorted(b.fields.Keys) <==> k in b.fields;
    assert a.fields == b.fields;
  }

  lemma {:induction false} ItemsInjective(a: Json, b: Json, n: nat, x: string, y: string)
    requires a.Arr? && b.Arr? && WellFormed(a) && WellFormed(b)
    requires n <= |a.items| && n <= |b.items| && forall i | 0 <= i < n :: a.items[i] == b.items[i]
    requires PrintedItems(a, n, "]" + x) == PrintedItems(b, n, "]" + y)
    ensures a == b && x == y
    decreases a, 0, |a.items| - n
  {
    hide Printed, WellFormed, Lead;
    if n == |a.items| || n == |b.items| {
      ItemsEnd(a, b, n, x, y);
    } else {
      var u := if n + 1 == |a.items| then "]" + x else ", " + PrintedItems(a, n + 1, "]" + x);
      var v := if n + 1 == |b.items| then "]" + y else ", " + PrintedItems(b, n + 1, "]" + y);
      PartsWellFormed(a);
      PartsWellFormed(b);
      PrintedInjective(a.items[n], b.items[n], u, v);
      assert u[0] == if n + 1 == |a.items| then ']' else ',';
      assert v[0] == if n + 1 == |b.items| then ']' else ',';
      if n + 1 < |a.items| {
        SplitAt(", ", ", ", PrintedItems(a, n + 1, "]" + x), PrintedItems(b, n + 1, "]" + y));
      }
      ItemsInjective(a, b, n + 1, x, y);
    }
  }

  lemma PartsWellFormed(j: Json)
    requires WellFormed(j)
    ensures j.Arr? ==> forall i | 0 <= i < |j.items| :: WellFormed(j.items[i])
    ensures j.Obj? ==> forall k | k in j.fields :: WellFormed(j.fields[k])
  {
  }

  lemma ItemsEnd(a: Json, b: Json, n: nat, x: string, y: string)
    requires a.Arr? && b.Arr? && WellFormed(a) && WellFormed(b)
    requires n <= |a.items| && n <= |b.items| && (n == |a.items| || n == |b.items|)
    requires PrintedItems(a, n, "]" + x) == PrintedItems(b, n, "]" + y)
    ensures |a.items| == |b.items| && x == y
  {
    if n < |b.items| {
      LeadIsFirst(b.items[n], if n + 1 == |b.items| then "]" + y else ", " + PrintedItems(b, n + 1, "]" + y));
    } else if n < |a.items| {
      LeadIsFirst(a.items[n], if n + 1 == |a.items| then "]" + x else ", " + PrintedItems(a, n + 1, "]" + x));
    } else {
      SplitAt("]", "]", x, y);
    }
  }

  /** What is printed behind the value of the first key. */
  function FieldTail(j: Json, keys: seq<string>, rest: string): string
    requires keys != [] && j.Obj? && forall k | k in keys :: k in j.fields
  {
    if |keys| == 1 then rest else ", " + PrintedFields(j, keys[1..], rest)
  }

  lemma SameFirstKey(a: Json, ka: seq<string>, b: Json, kb: seq<string>, x: string, y: string)
    requires ka != [] && a.Obj? && forall k | k in ka :: k in a.fields
    requires kb != [] && b.Obj? && forall k | k in kb :: k in b.fields
    requires PrintedFields(a, ka, x) == PrintedFields(b, kb, y)
    ensures ka[0] == kb[0]
    ensures Printed(a.fields[ka[0]], FieldTail(a, ka, x)) == Printed(b.fields[kb[0]], FieldTail(b, kb, y))
  {
    var va, vb := Printed(a.fields[ka[0]], FieldTail(a, ka, x)), Printed(b.fields[kb[0]], FieldTail(b, kb, y));
    assert PrintedFields(a, ka, x) == PrintedString(ka[0], ": " + va);
    assert PrintedFields(b, kb, y) == PrintedString(kb[0], ": " + vb);
    hide Printed, PrintedFields, PrintedString, FieldTail;
    StringInjective(ka[0], kb[0], ": " + va, ": " + vb);
    SplitAt(": ", ": ", va, vb);
  }

  lemma SameTail(a: Json, ka: seq<string>, b: Json, kb: seq<string>, x: string, y: string)
    requires ka != [] && a.Obj? && forall k | k in ka :: k in a.fields
    requires kb != [] && b.Obj? && forall k | k in kb :: k in b.fields
    requires FieldTail(a, ka, "}" + x) == FieldTail(b, kb, "}" + y)
    ensures PrintedFields(a, ka[1..], "}" + x) == PrintedFields(b, kb[1..], "}" + y)
  {
    hide Printed, PrintedString;
    var u, v := FieldTail(a, ka, "}" + x), FieldTail(b, kb, "}" + y);
    assert u[0] == if |ka| == 1 then '}' else ',';
    assert v[0] == if |kb| == 1 then '}' else ',';
    if |ka| > 1 {
      SplitAt(", ", ", ", PrintedFields(a, ka[1..], "}" + x), PrintedFields(b, kb[1..], "}" + y));
    }
  }

  lemma FieldsEnd(a: Json, ka: seq<string>, b: Json, kb: seq<string>, x: string, y: string)
    requires a.Obj? && (forall k | k in ka :: k in a.fields)
    requires b.Obj? && forall k | k in kb :: k in b.fields
    requires PrintedFields(a, ka, "}" + x) == PrintedFields(b, kb, "}" + y)
    requires ka == [] || kb == []
    ensures ka == kb && x == y
  {
    hide Printed;
    assert PrintedFields(a, ka, "}" + x)[0] == if ka == [] then '}' else '"';
    assert PrintedFields(b, kb, "}" + y)[0] == if kb == [] then '}' else '"';
    SplitAt("}", "}", x, y);
  }

  lemma {:induction false} FieldsInjective(a: Json, ka: seq<string>, b: Json, kb: seq<string>, x: string, y: string)
    requires a.Obj? && b.Obj? && WellFormed(a) && WellFormed(b)
    requires (forall k | k in ka :: k in a.fields) && forall k | k in kb :: k in b.fields
    requires PrintedFields(a, ka, "}" + x) == PrintedFields(b, kb, "}" + y)
    ensures ka == kb && x == y && forall k | k in ka :: a.fields[k] == b.fields[k]
    decreases a, 0, |ka|
  {
    if ka == [] || kb == [] {
      hide Printed, PrintedFields, WellFormed;
      FieldsEnd(a, ka, b, kb, x, y);
    } else {
      SameFirstKey(a, ka, b, kb, "}" + x, "}" + y);
      PartsWellFormed(a);
      PartsWellFormed(b);
      assert Follows(FieldTail(a, ka, "}" + x)) && Follows(FieldTail(b, kb, "}" + y));
      hide Printed, WellFormed, PrintedFields, PrintedString, FieldTail, Follows;
      PrintedInjective(a.fields[ka[0]], b.fields[kb[0]], FieldTail(a, ka, "}" + x), FieldTail(b, kb, "}" + y));
      SameTail(a, ka, b, kb, x, y);
      FieldsInjective(a, ka[1..], b, kb[1..], x, y);
      assert ka == [ka[0]] + ka[1..] && kb == [kb[0]] + kb[1..];
    }
  }

  /** The canonical strings of two documents agree exactly when the documents do. */
  lemma CanonicalIffEqual(a: Json, b: Json)
    requires WellFormed(a) && WellFormed(b)
    ensures Canonical(a) == Canonical(b) <==> a == b
  {
    if Canonical(a) == Canonical(b) {
      PrintedInjective(a, b, "", "");
    }
  }

  // ---------- The two comparators ----------

  datatype Golden = Golden(output: Json, volatileMask: Option<seq<string>>)

  /** The output and mask part of a recorded golden; `mask` may be absent. */
  function RecordGolden(output: Json, mask: Option<seq<string>>): Golden {
    Golden(output, Some(MaskOf(mask)))
  }

  function MaskOf(mask: Option<seq<string>>): seq<string> {
    match mask
    case Some(m) => m
    case None => []
  }

  function CompareOutput(same: NumberEq, golden: Golden, output: Json): seq<Diff> {
    var mask := MaskOf(golden.volatileMask);
    DiffsOf(same, ApplyMask(golden.output, mask), ApplyMask(output, mask), [])
  }

  function OutputsEquivalent(a: Json, b: Json, mask: seq<string>): bool {
    Canonical(ApplyMask(a, mask)) == Canonical(ApplyMask(b, mask))
  }

  // ---------- What a comparison with a golden reports ----------

  lemma {:induction false} KeysOfPrefix(at: Address, n: nat)
    requires n <= |at|
    ensures KeysOf(at[..n]) <= KeysOf(at)
    decreases |at|
  {
    if n > 0 {
      assert at[..n][1..] == at[1..][..n - 1];
      KeysOfPrefix(at[1..], n - 1);
    }
  }

  lemma HitAbove(paths: seq<seq<string>>, at: Address, n: nat)
    requires n <= |at| && Hit(paths, at[..n])
    ensures Hit(paths, at)
  {
    KeysOfPrefix(at, n);
    var p :| p in paths && p <= KeysOf(at[..n]);
    assert p <= KeysOf(at);
  }

  lemma AtomEqByLabel(same: NumberEq, a: Json, b: Json, a': Json, b': Json)
    requires LabelOf(a) == LabelOf(a') && LabelOf(b) == LabelOf(b')
    ensures AtomEq(same, a, b) <==> AtomEq(same, a', b')
  {
  }

  lemma MaskedDiffers(same: NumberEq, e: Json, a: Json, mask: seq<string>, at: Address, change: Change)
    ensures DiffersAt(same, ApplyMask(e, mask), ApplyMask(a, mask), at, change)
       <==> !Hit(Paths(mask), at) && DiffersAt(same, e, a, at, change)
  {
    hide ApplyMask, Hit, AtomEq, Paths, NodeAt, KeysOf;
    MaskExact(e, mask, at);
    MaskExact(a, mask, at);
    if at != [] {
      var up := at[..|at| - 1];
      MaskExact(e, mask, up);
      MaskExact(a, mask, up);
      if Hit(Paths(mask), up) { HitAbove(Paths(mask), at, |at| - 1); }
    }
    var x, y, x', y' := NodeAt(e, at), NodeAt(a, at), NodeAt(ApplyMask(e, mask), at), NodeAt(ApplyMask(a, mask), at);
    if !Hit(Paths(mask), at) && x.Some? && y.Some? {
      AtomEqByLabel(same, x.value, y.value, x'.value, y'.value);
    }
  }

  /** An output compared with a golden that was recorded under a mask: a difference is reported exactly where the two
      outputs themselves differ in that way and no mask path leads to. */
  lemma ComparedExactly(same: NumberEq, recorded: Json, mask: Option<seq<string>>, output: Json, at: Address,
                        change: Change)
    ensures RecordGolden(recorded, mask).output == recorded
    ensures RecordGolden(recorded, mask).volatileMask == if mask == None then Some([]) else mask
    ensures Diff(at, change) in CompareOutput(same, RecordGolden(recorded, mask), output)
       <==> !(mask.Some? && Hit(Paths(mask.value), at)) && DiffersAt(same, recorded, output, at, change)
  {
    hide DiffersAt, DiffsOf, ApplyMask;
    var m := MaskOf(mask);
    assert [] + at == at;
    ReportExact(same, ApplyMask(recorded, m), ApplyMask(output, m), [], at, change);
    MaskedDiffers(same, recorded, output, m, at, change);
  }

  /** Two different values that Python's == takes for equal, at the same address: 1 and 1.0, or 1 and True. */
  ghost predicate AliasAt(same: NumberEq, a: Json, b: Json, at: Address) {
    var x, y := NodeAt(a, at), NodeAt(b, at);
    x.Some? && y.Some? && AtomEq(same, x.value, y.value) && x != y
  }

  lemma {:induction false} PyEqReflexive(same: NumberEq, a: Json)
    requires forall n :: same(n, n)
    ensures PyEq(same, a, a)
  {
    match a
    case Arr(items) =>
      forall i | 0 <= i < |items| ensures PyEq(same, items[i], items[i]) { PyEqReflexive(same, items[i]); }
    case Obj(fields) =>
      forall k | k in fields ensures PyEq(same, fields[k], fields[k]) { PyEqReflexive(same, fields[k]); }
    case _ =>
  }

  /** Python-equal documents are identical unless they hold an alias somewhere. */
  lemma {:induction false} OnlyAliasesHide(same: NumberEq, a: Json, b: Json)
    requires PyEq(same, a, b)
    requires forall at :: !AliasAt(same, a, b, at)
    ensures a == b
    decreases a
  {
    if a.Arr? && b.Arr? {
      forall i | 0 <= i < |a.items| ensures a.items[i] == b.items[i] {
        forall at ensures !AliasAt(same, a.items[i], b.items[i], at) {
          NodeBelow(a, Index(i), at);
          NodeBelow(b, Index(i), at);
          OneStep(a, Index(i));
          OneStep(b, Index(i));
          assert !AliasAt(same, a, b, [Index(i)] + at);
        }
        OnlyAliasesHide(same, a.items[i], b.items[i]);
      }
    } else if a.Obj? && b.Obj? {
      forall k | k in a.fields ensures a.fields[k] == b.fields[k] {
        forall at ensures !AliasAt(same, a.fields[k], b.fields[k], at) {
          NodeBelow(a, Key(k), at);
          NodeBelow(b, Key(k), at);
          OneStep(a, Key(k));
          OneStep(b, Key(k));
          assert !AliasAt(same, a, b, [Key(k)] + at);
        }
        OnlyAliasesHide(same, a.fields[k], b.fields[k]);
      }
    } else {
      assert !AliasAt(same, a, b, []);
    }
  }

  lemma {:induction false} RemovePathWellFormed(j: Json, path: seq<string>)
    requires WellFormed(j)
    ensures WellFormed(RemovePath(j, path))
    decreases j
  {
    if path != [] {
      match j
      case Arr(items) =>
        forall i | 0 <= i < |items| ensures WellFormed(RemovePath(items[i], path)) {
          RemovePathWellFormed(items[i], path);
        }
      case Obj(fields) => if path[0] in fields { RemovePathWellFormed(fields[path[0]], path[1..]); }
      case _ =>
    }
  }

  lemma {:induction false} RemoveAllWellFormed(j: Json, paths: seq<seq<string>>)
    requires WellFormed(j)
    ensures WellFormed(RemoveAll(j, paths))
    decreases |paths|
  {
    if paths != [] {
      RemovePathWellFormed(j, paths[0]);
      RemoveAllWellFormed(RemovePath(j, paths[0]), paths[1..]);
    }
  }

  /** Both comparators, on one golden and one fresh output: they agree exactly unless the masked
      documents are equal for Python although some number or boolean in them is printed differently. */
  lemma ComparatorsAgree(same: NumberEq, recorded: Json, output: Json, mask: seq<string>)
    requires forall n :: same(n, n)
    requires WellFormed(recorded) && WellFormed(output)
    ensures var (a, b) := (ApplyMask(recorded, mask), ApplyMask(output, mask));
            var diffs := CompareOutput(same, Golden(recorded, Some(mask)), output);
            && (OutputsEquivalent(recorded, output, mask) <==> a == b)
            && (diffs == [] <==> PyEq(same, a, b))
            && (OutputsEquivalent(recorded, output, mask) ==> diffs == [])
            && ((diffs == [] && !OutputsEquivalent(recorded, output, mask))
                 <==> (PyEq(same, a, b) && exists at :: AliasAt(same, a, b, at)))
  {
    var a, b := ApplyMask(recorded, mask), ApplyMask(output, mask);
    RemoveAllWellFormed(recorded, Paths(mask));
    RemoveAllWellFormed(output, Paths(mask));
    CanonicalIffEqual(a, b);
    EmptyReport(same, a, b, []);
    if a == b { PyEqReflexive(same, a); }
    if PyEq(same, a, b) && forall at :: !AliasAt(same, a, b, at) { OnlyAliasesHide(same, a, b); }
  }

  /** Such a pair exists whatever the numbers compare to: true against 1 is a match for the differ only. */
  lemma TrueIsNotOne(same: NumberEq)
    requires forall n :: same(n, n)
    ensures var (a, b) := (Obj(map["ok" := Bool(true)]), Obj(map["ok" := Num("1")]));
            CompareOutput(same, Golden(a, None), b) == [] && !OutputsEquivalent(a, b, [])
  {
    var a, b := Obj(map["ok" := Bool(true)]), Obj(map["ok" := Num("1")]);
    NothingMasked(a);
    NothingMasked(b);
    assert WellFormed(a) && WellFormed(b);
    assert PyEq(same, a.fields["ok"], b.fields["ok"]);
    assert PyEq(same, a, b);
    assert a.fields["ok"] != b.fields["ok"];
    hide PyEq, WellFormed, ApplyMask, DiffsOf, Canonical;
    EmptyReport(same, a, b, []);
    CanonicalIffEqual(a, b);
  }

  lemma NothingMasked(j: Json)
    ensures ApplyMask(j, []) == j
  {
  }

  /** Replaying the recorded output against its own golden reports nothing. */
  lemma RecordedOutputMatches(same: NumberEq, output: Json, mask: Option<seq<string>>)
    requires forall n :: same(n, n)
    ensures CompareOutput(same, RecordGolden(output, mask), output) == []
  {
    var a := ApplyMask(output, MaskOf(mask));
    PyEqReflexive(same, a);
    EmptyReport(same, a, a, []);
  }

  // ---------- A longer mask never brings up a difference ----------

  lemma {:induction false} RemovePathKeepsPyEq(same: NumberEq, a: Json, b: Json, path: seq<string>)
    requires PyEq(same, a, b)
    ensures PyEq(same, RemovePath(a, path), RemovePath(b, path))
    decreases a
  {
    if path == [] {
    } else if a.Arr? && b.Arr? {
      forall i | 0 <= i < |a.items| ensures PyEq(same, RemovePath(a.items[i], path), RemovePath(b.items[i], path)) {
        RemovePathKeepsPyEq(same, a.items[i], b.items[i], path);
      }
    } else if a.Obj? && b.Obj? {
      if path[0] in a.fields {
        RemovePathKeepsPyEq(same, a.fields[path[0]], b.fields[path[0]], path[1..]);
      }
    }
  }

  lemma {:induction false} RemoveAllKeepsPyEq(same: NumberEq, a: Json, b: Json, paths: seq<seq<string>>)
    requires PyEq(same, a, b)
    ensures PyEq(same, RemoveAll(a, paths), RemoveAll(b, paths))
    decreases |paths|
  {
    if paths != [] {
      RemovePathKeepsPyEq(same, a, b, paths[0]);
      RemoveAllKeepsPyEq(same, RemovePath(a, paths[0]), RemovePath(b, paths[0]), paths[1..]);
    }
  }

  /** Masking more fields, in any order, turns no empty report into a non-empty one. */
  lemma LargerMaskKeepsEmptyReport(same: NumberEq, recorded: Json, output: Json, mask: seq<string>, larger: seq<string>)
    requires forall m | m in mask :: m in larger
    requires CompareOutput(same, Golden(recorded, Some(mask)), output) == []
    ensures CompareOutput(same, Golden(recorded, Some(larger)), output) == []
  {
    var a, b := ApplyMask(recorded, mask), ApplyMask(output, mask);
    EmptyReport(same, a, b, []);
    RemoveAllKeepsPyEq(same, a, b, Paths(larger));
    MaskTwice(recorded, mask, larger);
    MaskTwice(output, mask, larger);
    MaskIsASet(recorded, mask + larger, larger);
    MaskIsASet(output, mask + larger, larger);
    EmptyReport(same, ApplyMask(recorded, larger), ApplyMask(output, larger), []);
  }
}
