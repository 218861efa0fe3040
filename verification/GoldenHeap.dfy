/** The in-place deletion of `_remove_path` on a mutable copy of a payload. */
module GoldenHeap {
  import opened GoldenMask

  /** The content of a Python object made by json.loads. */
  datatype Content = Atom(value: Json) | PyList(items: seq<PyObject>) | PyDict(entries: map<string, PyObject>)

  class PyObject {
    var content: Content
    ghost var repr: set<PyObject>   // this object and everything below it
    ghost var document: Json        // the JSON document it stands for

    constructor (content: Content, ghost below: set<PyObject>, ghost document: Json)
      ensures this.content == content && this.document == document && repr == below + {this}
    {
      this.content := content;
      this.repr := below + {this};
      this.document := document;
    }

    /** A tree: children are owned by one place only, so an update never shows elsewhere. */
    ghost predicate Valid()
      reads this, repr
      decreases repr
    {
      && this in repr
      && match content
         case Atom(value) => value.Scalar() && document == value
         case PyList(items) =>
           && document.Arr? && |document.items| == |items|
           && (forall i | 0 <= i < |items| ::
                 items[i] in repr && items[i].repr <= repr && this !in items[i].repr
                 && items[i].Valid() && document.items[i] == items[i].document)
           && (forall i, j | 0 <= i < j < |items| :: items[i].repr !! items[j].repr)
         case PyDict(entries) =>
           && document.Obj? && document.fields.Keys == entries.Keys
           && (forall k | k in entries ::
                 entries[k] in repr && entries[k].repr <= repr && this !in entries[k].repr
                 && entries[k].Valid() && document.fields[k] == entries[k].document)
           && (forall k, l | k in entries && l in entries && k != l :: entries[k].repr !! entries[l].repr)
    }

    /** Any payload json.dumps accepts: one object may be held in several places, but never below itself. */
    ghost predicate Acyclic()
      reads this, repr
      decreases repr
    {
      && this in repr
      && match content
         case Atom(value) => value.Scalar() && document == value
         case PyList(items) =>
           && document.Arr? && |document.items| == |items|
           && (forall i | 0 <= i < |items| ::
                 items[i] in repr && items[i].repr <= repr && this !in items[i].repr
                 && items[i].Acyclic() && document.items[i] == items[i].document)
         case PyDict(entries) =>
           && document.Obj? && document.fields.Keys == entries.Keys
           && (forall k | k in entries ::
                 entries[k] in repr && entries[k].repr <= repr && this !in entries[k].repr
                 && entries[k].Acyclic() && document.fields[k] == entries[k].document)
    }
  }

  /** So a tree can be printed, and prints as its document. */
  lemma {:induction false} TreesPrint(o: PyObject)
    requires o.Valid()
    ensures o.Acyclic()
    decreases o.repr
  {
    match o.content
    case Atom(_) =>
    case PyList(items) =>
      forall i | 0 <= i < |items| ensures items[i].Acyclic() { TreesPrint(items[i]); }
    case PyDict(entries) =>
      forall k | k in entries ensures entries[k].Acyclic() { TreesPrint(entries[k]); }
  }

  method RemovePathInPlace(node: PyObject, segments: seq<string>)
    requires node.Valid()
    modifies node.repr
    ensures node.Valid() && node.repr == old(node.repr)
    ensures node.document == RemovePath(old(node.document), segments)
    decreases node.repr, 1
  {
    if segments == [] {
      return;
    }
    match node.content
    case PyList(items) =>
      RemoveFromItems(node, items, segments);
    case PyDict(entries) =>
      RemoveFromEntries(node, entries, segments[0], segments[1..]);
    case Atom(_) =>
  }

  /** The list branch: every element in turn, with all the segments. */
  method RemoveFromItems(node: PyObject, items: seq<PyObject>, segments: seq<string>)
    requires node.Valid() && node.content == PyList(items) && segments != []
    modifies node.repr
    ensures node.Valid() && node.repr == old(node.repr)
    ensures node.document == RemovePath(old(node.document), segments)
    decreases node.repr, 0
  {
    ghost var before := node.document;
    for n := 0 to |items|
      invariant node.content == PyList(items) && node.repr == old(node.repr) && node in node.repr
      invariant forall i | 0 <= i < |items| ::
        items[i] in node.repr && items[i].repr <= node.repr && node !in items[i].repr && items[i].Valid()
      invariant forall i, j | 0 <= i < j < |items| :: items[i].repr !! items[j].repr
      invariant forall i | 0 <= i < n :: items[i].document == RemovePath(before.items[i], segments)
      invariant forall i | n <= i < |items| :: items[i].document == before.items[i]
    {
      label Before:
      RemovePathInPlace(items[n], segments);
      assert forall i | 0 <= i < |items| && i != n :: items[i].repr !! old@Before(items[n].repr);
    }
    node.document := RemovePath(before, segments);
  }

  lemma RemoveKey(j: Json, head: string, rest: seq<string>)
    requires j.Obj?
    ensures RemovePath(j, [head] + rest)
         == if rest == [] then Obj(j.fields - {head})
            else if head in j.fields then Obj(j.fields[head := RemovePath(j.fields[head], rest)])
            else j
  {
    assert ([head] + rest)[1..] == rest;
  }

  method DeleteKey(node: PyObject, entries: map<string, PyObject>, head: string)
    requires node.Valid() && node.content == PyDict(entries)
    modifies node
    ensures node.Valid() && node.repr == old(node.repr)
    ensures node.document == Obj(old(node.document).fields - {head})
  {
    node.content := PyDict(entries - {head});
    node.document := Obj(node.document.fields - {head});
  }

  /** The dictionary branch: pop the last segment, or go on below the key if it is there. */
  method RemoveFromEntries(node: PyObject, entries: map<string, PyObject>, head: string, rest: seq<string>)
    requires node.Valid() && node.content == PyDict(entries)
    modifies node.repr
    ensures node.Valid() && node.repr == old(node.repr)
    ensures node.document == RemovePath(old(node.document), [head] + rest)
    decreases node.repr, 0
  {
    RemoveKey(node.document, head, rest);
    hide RemovePath;
    if rest == [] {
      DeleteKey(node, entries, head);
    } else if head in entries {
      ghost var before := node.document;
      ghost var child := RemovePath(before.fields[head], rest);
      RemovePathInPlace(entries[head], rest);
      node.document := Obj(before.fields[head := child]);
    }
  }

  // ---------- The deep copy, and masking it ----------

  /** json.loads of a serialized document: all new objects. */
  method Load(j: Json) returns (o: PyObject)
    ensures o.Valid() && fresh(o.repr)
    ensures o.document == j
    decreases j, 1
  {
    match j
    case Arr(items) =>
      o := LoadItems(j);
    case Obj(fields) =>
      o := LoadEntries(j);
    case _ =>
      o := new PyObject(Atom(j), {}, j);
  }

  method LoadItems(j: Json) returns (o: PyObject)
    requires j.Arr?
    ensures o.Valid() && fresh(o.repr)
    ensures o.document == j
    decreases j, 0
  {
    var items: seq<PyObject> := [];
    ghost var below: set<PyObject> := {};
    for n := 0 to |j.items|
      invariant |items| == n && fresh(below)
      invariant forall i | 0 <= i < n ::
        items[i] in below && items[i].repr <= below && items[i].Valid() && items[i].document == j.items[i]
      invariant forall i, k | 0 <= i < k < n :: items[i].repr !! items[k].repr
    {
      var item := Load(j.items[n]);
      items := items + [item];
      below := below + item.repr;
    }
    o := new PyObject(PyList(items), below, j);
  }

  method LoadEntries(j: Json) returns (o: PyObject)
    requires j.Obj?
    ensures o.Valid() && fresh(o.repr)
    ensures o.document == j
    decreases j, 0
  {
    var entries: map<string, PyObject> := map[];
    ghost var below: set<PyObject> := {};
    var todo := j.fields.Keys;
    while todo != {}
      invariant todo <= j.fields.Keys && entries.Keys == j.fields.Keys - todo && fresh(below)
      invariant forall k | k in entries ::
        entries[k] in below && entries[k].repr <= below && entries[k].Valid() && entries[k].document == j.fields[k]
      invariant forall k, l | k in entries && l in entries && k != l :: entries[k].repr !! entries[l].repr
    {
      var key :| key in todo;
      var entry := Load(j.fields[key]);
      entries := entries[key := entry];
      below := below + entry.repr;
      todo := todo - {key};
    }
    o := new PyObject(PyDict(entries), below, j);
  }

  /** The mask applied to a deep copy: the payload itself is left alone. */
  method ApplyMaskToCopy(payload: PyObject, mask: seq<string>) returns (masked: PyObject)
    requires payload.Acyclic()
    ensures masked.Valid() && masked.Acyclic() && fresh(masked.repr)
    ensures masked.document == ApplyMask(payload.document, mask)
  {
    var copy := Dump(payload);
    masked := Load(copy);
    for n := 0 to |mask|
      invariant masked.Valid() && fresh(masked.repr)
      invariant RemoveAll(masked.document, Paths(mask)[n..]) == ApplyMask(payload.document, mask)
    {
      assert Paths(mask)[n..][1..] == Paths(mask)[n + 1..];
      RemovePathInPlace(masked, SplitDots(mask[n]));
    }
    TreesPrint(masked);
  }

  /** json.dumps, as the document it prints. */
  method Dump(o: PyObject) returns (j: Json)
    requires o.Acyclic()
    ensures j == o.document
    decreases o.repr
  {
    match o.content
    case Atom(value) => j := value;
    case PyList(items) =>
      var printed: seq<Json> := [];
      for n := 0 to |items|
        invariant |printed| == n && forall i | 0 <= i < n :: printed[i] == o.document.items[i]
      {
        var item := Dump(items[n]);
        printed := printed + [item];
      }
      j := Arr(printed);
    case PyDict(entries) =>
      var printed: map<string, Json> := map[];
      var todo := entries.Keys;
      while todo != {}
        invariant todo <= entries.Keys && printed.Keys == entries.Keys - todo
        invariant forall k | k in printed :: printed[k] == o.document.fields[k]
      {
        var key :| key in todo;
        var entry := Dump(entries[key]);
        printed := printed[key := entry];
        todo := todo - {key};
      }
      j := Obj(printed);
  }
}
