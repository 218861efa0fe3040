/** JSON payloads and the volatile-field mask of `scripts/ci/compute_golden.py`. */
module GoldenMask {
  import opened Options

  /** A JSON document; a number is the literal text json.dumps prints for it. */
  datatype Json =
    | Null
    | Bool(b: bool)
    | Num(literal: string)
    | Str(s: string)
    | Arr(items: seq<Json>)
    | Obj(fields: map<string, Json>)
  {
    predicate Scalar() { !Arr? && !Obj? }
  }

  // ---------- Masking, as the program does it ----------

  /** `dotted.split(".")`. */
  function SplitDots(dotted: string): (segments: seq<string>)
    ensures |segments| >= 1
  {
    if dotted == "" then [""]
    else
      var rest := SplitDots(dotted[1..]);
      if dotted[0] == '.' then [""] + rest else [[dotted[0]] + rest[0]] + rest[1..]
  }

  /** Deletes one path; list elements are entered without using up a segment. */
  function RemovePath(node: Json, segments: seq<string>): Json {
    if segments == [] then node
    else match node
      case Arr(items) => Arr(seq(|items|, i requires 0 <= i < |items| => RemovePath(items[i], segments)))
      case Obj(fields) =>
        var head := segments[0];
        if |segments| == 1 then Obj(fields - {head})
        else if head in fields then Obj(fields[head := RemovePath(fields[head], segments[1..])])
        else node
      case _ => node
  }

  function RemoveAll(node: Json, paths: seq<seq<string>>): Json
    decreases |paths|
  {
    if paths == [] then node else RemoveAll(RemovePath(node, paths[0]), paths[1..])
  }

  function Paths(mask: seq<string>): seq<seq<string>> {
    seq(|mask|, i requires 0 <= i < |mask| => SplitDots(mask[i]))
  }

  function ApplyMask(payload: Json, mask: seq<string>): Json {
    RemoveAll(payload, Paths(mask))
  }

  // ---------- What is where in a document ----------

  datatype Step = Key(k: string) | Index(i: nat)

  type Address = seq<Step>

  function NodeAt(j: Json, at: Address): Option<Json> {
    if at == [] then Some(j)
    else match at[0]
      case Index(i) => if j.Arr? && i < |j.items| then NodeAt(j.items[i], at[1..]) else None
      case Key(k) => if j.Obj? && k in j.fields then NodeAt(j.fields[k], at[1..]) else None
  }

  /** What a node is, apart from the content of its children. */
  datatype Label = Leaf(value: Json) | List(length: nat) | Dict

  function LabelOf(j: Json): Label {
    match j
    case Arr(items) => List(|items|)
    case Obj(_) => Dict
    case _ => Leaf(j)
  }

  function LabelAt(j: Json, at: Address): Option<Label> {
    match NodeAt(j, at)
    case None => None
    case Some(node) => Some(LabelOf(node))
  }

  /** The keys along an address, list positions dropped. */
  function KeysOf(at: Address): seq<string> {
    if at == [] then []
    else if at[0].Key? then [at[0].k] + KeysOf(at[1..])
    else KeysOf(at[1..])
  }

  /** Some path of the mask leads to this address or to something above it. */
  ghost predicate Hit(paths: seq<seq<string>>, at: Address) {
    exists p :: p in paths && p <= KeysOf(at)
  }

  // ---------- Exactness ----------

  /** Two documents with the same label at every address are the same document. */
  lemma {:induction false} SameLabelsSameDocument(a: Json, b: Json)
    requires forall at :: LabelAt(a, at) == LabelAt(b, at)
    ensures a == b
  {
    assert LabelAt(a, []) == LabelAt(b, []);
    match a
    case Arr(items) =>
      forall i | 0 <= i < |items| ensures items[i] == b.items[i] {
        forall at ensures LabelAt(items[i], at) == LabelAt(b.items[i], at) {
          assert ([Index(i)] + at)[1..] == at;
          assert LabelAt(a, [Index(i)] + at) == LabelAt(b, [Index(i)] + at);
        }
        SameLabelsSameDocument(items[i], b.items[i]);
      }
    case Obj(fields) =>
      forall k ensures k in fields <==> k in b.fields {
        assert LabelAt(a, [Key(k)]) == LabelAt(b, [Key(k)]);
        assert k in fields <==> NodeAt(a, [Key(k)]).Some?;
        assert k in b.fields <==> NodeAt(b, [Key(k)]).Some?;
      }
      forall k | k in fields ensures fields[k] == b.fields[k] {
        forall at ensures LabelAt(fields[k], at) == LabelAt(b.fields[k], at) {
          assert ([Key(k)] + at)[1..] == at;
          assert LabelAt(a, [Key(k)] + at) == LabelAt(b, [Key(k)] + at);
        }
        SameLabelsSameDocument(fields[k], b.fields[k]);
      }
    case _ =>
  }

  lemma {:induction false} RemovePathExact(j: Json, path: seq<string>, at: Address)
    requires path != []
    ensures LabelAt(RemovePath(j, path), at) == if path <= KeysOf(at) then None else LabelAt(j, at)
    decreases j
  {
    if at != [] {
      match j
      case Arr(items) =>
        if at[0].Index? && at[0].i < |items| {
          RemovePathExact(items[at[0].i], path, at[1..]);
        }
      case Obj(fields) =>
        if at[0].Key? {
          var k := at[0].k;
          assert KeysOf(at) == [k] + KeysOf(at[1..]);
          if |path| > 1 && k in fields && k == path[0] {
            RemovePathExact(fields[k], path[1..], at[1..]);
            PrefixStep(path, k, KeysOf(at[1..]));
          }
        }
      case _ =>
    }
  }

  lemma PrefixStep(path: seq<string>, k: string, keys: seq<string>)
    requires path != [] && path[0] == k
    ensures path <= [k] + keys <==> path[1..] <= keys
  {
    if path <= [k] + keys {
      assert ([k] + keys)[1..] == keys;
      assert forall i | 0 <= i < |path[1..]| :: path[1..][i] == ([k] + keys)[i + 1] == keys[i];
    }
    if path[1..] <= keys {
      assert path == [k] + path[1..];
    }
  }

  lemma {:induction false} RemoveAllExact(j: Json, paths: seq<seq<string>>, at: Address)
    requires forall i | 0 <= i < |paths| :: paths[i] != []
    ensures LabelAt(RemoveAll(j, paths), at) == if Hit(paths, at) then None else LabelAt(j, at)
    decreases |paths|
  {
    if paths != [] {
      RemovePathExact(j, paths[0], at);
      RemoveAllExact(RemovePath(j, paths[0]), paths[1..], at);
      assert paths == [paths[0]] + paths[1..] && paths[0] in paths;
      if Hit(paths[1..], at) {
        var p :| p in paths[1..] && p <= KeysOf(at);
        assert p in paths;
      }
    }
  }

  /** What survives the mask is exactly what no mask path leads to, and it survives unchanged. */
  lemma MaskExact(payload: Json, mask: seq<string>, at: Address)
    ensures LabelAt(ApplyMask(payload, mask), at) == if Hit(Paths(mask), at) then None else LabelAt(payload, at)
  {
    RemoveAllExact(payload, Paths(mask), at);
  }

  // ---------- Masks act as sets ----------

  /** Order and repetition of mask entries do not matter. */
  lemma MaskIsASet(payload: Json, mask: seq<string>, mask': seq<string>)
    requires forall m :: m in mask <==> m in mask'
    ensures ApplyMask(payload, mask) == ApplyMask(payload, mask')
  {
    forall at ensures LabelAt(ApplyMask(payload, mask), at) == LabelAt(ApplyMask(payload, mask'), at) {
      MaskExact(payload, mask, at);
      MaskExact(payload, mask', at);
      SubMaskHits(mask, mask', at);
      SubMaskHits(mask', mask, at);
    }
    SameLabelsSameDocument(ApplyMask(payload, mask), ApplyMask(payload, mask'));
  }

  lemma SubMaskHits(mask: seq<string>, mask': seq<string>, at: Address)
    requires forall m | m in mask :: m in mask'
    ensures Hit(Paths(mask), at) ==> Hit(Paths(mask'), at)
  {
    if Hit(Paths(mask), at) {
      var p :| p in Paths(mask) && p <= KeysOf(at);
      var i :| 0 <= i < |mask| && Paths(mask)[i] == p;
      assert mask[i] in mask';
      var i' :| 0 <= i' < |mask'| && mask'[i'] == mask[i];
      assert Paths(mask')[i'] == p && p in Paths(mask');
    }
  }

  /** Masking in two rounds is masking once with both masks; in particular masking again changes nothing. */
  lemma MaskTwice(payload: Json, mask: seq<string>, mask': seq<string>)
    ensures ApplyMask(ApplyMask(payload, mask), mask') == ApplyMask(payload, mask + mask')
    ensures ApplyMask(ApplyMask(payload, mask), mask) == ApplyMask(payload, mask)
  {
    assert Paths(mask + mask') == Paths(mask) + Paths(mask');
    RemoveAllAppend(payload, Paths(mask), Paths(mask'));
    assert Paths(mask + mask) == Paths(mask) + Paths(mask);
    RemoveAllAppend(payload, Paths(mask), Paths(mask));
    MaskIsASet(payload, mask + mask, mask);
  }

  lemma {:induction false} RemoveAllAppend(j: Json, paths: seq<seq<string>>, paths': seq<seq<string>>)
    ensures RemoveAll(j, paths + paths') == RemoveAll(RemoveAll(j, paths), paths')
    decreases |paths|
  {
    if paths == [] {
      assert paths + paths' == paths';
    } else {
      assert (paths + paths')[1..] == paths[1..] + paths';
      RemoveAllAppend(RemovePath(j, paths[0]), paths[1..], paths');
    }
  }

  // ---------- What masks can reach ----------

  lemma {:induction false} SegmentsHaveNoDot(dotted: string, i: int)
    requires 0 <= i < |SplitDots(dotted)|
    ensures '.' !in SplitDots(dotted)[i]
  {
    if dotted != "" {
      var rest := SplitDots(dotted[1..]);
      if dotted[0] == '.' {
        if i > 0 { SegmentsHaveNoDot(dotted[1..], i - 1); }
      } else {
        SegmentsHaveNoDot(dotted[1..], i);
      }
    }
  }

  /** The mask entry for a list of keys. */
  function JoinDots(keys: seq<string>): string
    requires keys != []
  {
    if |keys| == 1 then keys[0] else keys[0] + ['.'] + JoinDots(keys[1..])
  }

  lemma {:induction false} SplitKeyThen(key: string, rest: string)
    requires '.' !in key
    ensures SplitDots(key) == [key]
    ensures SplitDots(key + ['.'] + rest) == [key] + SplitDots(rest)
  {
    if key == "" {
      assert (['.'] + rest)[1..] == rest && key + ['.'] + rest == ['.'] + rest;
    } else {
      SplitKeyThen(key[1..], rest);
      assert key == [key[0]] + key[1..];
      assert (key + ['.'] + rest)[1..] == key[1..] + ['.'] + rest;
      assert ([key[1..]] + SplitDots(rest))[1..] == SplitDots(rest);
    }
  }

  lemma {:induction false} SplitJoined(keys: seq<string>)
    requires keys != [] && forall k | k in keys :: '.' !in k
    ensures SplitDots(JoinDots(keys)) == keys
  {
    assert keys == [keys[0]] + keys[1..];
    if |keys| == 1 {
      SplitKeyThen(keys[0], "");
    } else {
      SplitJoined(keys[1..]);
      SplitKeyThen(keys[0], JoinDots(keys[1..]));
    }
  }

  /** A mask of one entry hits where the keys begin with that entry's segments. */
  lemma OneEntryHits(entry: string, at: Address)
    ensures Hit(Paths([entry]), at) <==> SplitDots(entry) <= KeysOf(at)
  {
    assert Paths([entry]) == [SplitDots(entry)];
    assert SplitDots(entry) in Paths([entry]);
  }

  /** The hitting entry, and that it is a list of dotless keys. */
  lemma HittingEntry(mask: seq<string>, at: Address) returns (p: seq<string>)
    requires Hit(Paths(mask), at)
    ensures p in Paths(mask) && p != [] && p <= KeysOf(at) && forall k | k in p :: '.' !in k
  {
    p :| p in Paths(mask) && p <= KeysOf(at);
    var i :| 0 <= i < |mask| && Paths(mask)[i] == p;
    forall k | k in p ensures '.' !in k {
      var j :| 0 <= j < |p| && p[j] == k;
      SegmentsHaveNoDot(mask[i], j);
    }
  }

  /** An address can be removed by some mask exactly if there is a key along it and the first one holds no dot. */
  lemma RemovableExactly(payload: Json, at: Address)
    requires NodeAt(payload, at).Some?
    ensures (exists mask :: NodeAt(ApplyMask(payload, mask), at).None?)
       <==> KeysOf(at) != [] && '.' !in KeysOf(at)[0]
  {
    forall mask ensures NodeAt(ApplyMask(payload, mask), at).None? <==> Hit(Paths(mask), at) {
      MaskExact(payload, mask, at);
    }
    if mask :| NodeAt(ApplyMask(payload, mask), at).None? {
      var p := HittingEntry(mask, at);
      assert p[0] == KeysOf(at)[0] && p[0] in p;
    }
    if KeysOf(at) != [] && '.' !in KeysOf(at)[0] {
      SplitKeyThen(KeysOf(at)[0], "");
      OneEntryHits(KeysOf(at)[0], at);
      assert NodeAt(ApplyMask(payload, [KeysOf(at)[0]]), at).None?;
    }
  }

  lemma {:induction false} KeysOfSnoc(parent: Address, k: string)
    ensures KeysOf(parent + [Key(k)]) == KeysOf(parent) + [k]
  {
    if parent == [] {
      assert parent + [Key(k)] == [Key(k)] && [Key(k)][1..] == [];
    } else {
      assert (parent + [Key(k)])[1..] == parent[1..] + [Key(k)];
      KeysOfSnoc(parent[1..], k);
    }
  }

  lemma {:induction false} ParentIsThere(j: Json, parent: Address, k: string)
    requires NodeAt(j, parent + [Key(k)]).Some?
    ensures NodeAt(j, parent).Some?
  {
    if parent != [] {
      assert (parent + [Key(k)])[1..] == parent[1..] + [Key(k)];
      match parent[0]
      case Index(i) => ParentIsThere(j.items[i], parent[1..], k);
      case Key(l) => ParentIsThere(j.fields[l], parent[1..], k);
    }
  }

  /** A field can be removed while its parent stays exactly if no key along its address holds a dot. */
  lemma RemovableAloneExactly(payload: Json, parent: Address, k: string)
    requires NodeAt(payload, parent + [Key(k)]).Some?
    ensures (exists mask ::
               NodeAt(ApplyMask(payload, mask), parent + [Key(k)]).None?
                   && NodeAt(ApplyMask(payload, mask), parent).Some?)
       <==> forall key | key in KeysOf(parent + [Key(k)]) :: '.' !in key
  {
    var at := parent + [Key(k)];
    KeysOfSnoc(parent, k);
    ParentIsThere(payload, parent, k);
    forall mask
      ensures NodeAt(ApplyMask(payload, mask), at).None? <==> Hit(Paths(mask), at)
      ensures NodeAt(ApplyMask(payload, mask), parent).None? <==> Hit(Paths(mask), parent)
    {
      MaskExact(payload, mask, at);
      MaskExact(payload, mask, parent);
    }
    if mask :| NodeAt(ApplyMask(payload, mask), at).None? && NodeAt(ApplyMask(payload, mask), parent).Some? {
      var p := HittingEntry(mask, at);
      assert p <= KeysOf(parent) || p == KeysOf(at);
    }
    if forall key | key in KeysOf(at) :: '.' !in key {
      var entry := JoinDots(KeysOf(at));
      SplitJoined(KeysOf(at));
      OneEntryHits(entry, at);
      OneEntryHits(entry, parent);
      assert NodeAt(ApplyMask(payload, [entry]), at).None? && NodeAt(ApplyMask(payload, [entry]), parent).Some?;
    }
  }
}
