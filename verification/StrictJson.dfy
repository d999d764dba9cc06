/** Detection of repeated object keys while JSON is read: packages/market_data/datasets/conversion_manifest.py marks them, the
    line converter (converter.py) aborts on them. */
module StrictJson {
  import opened Wrappers

  /** JSON text as the reader sees it: an object is its list of pairs, in source order, repeated keys included. */
  datatype Tree = Leaf(text: string) | Items(items: seq<Tree>) | Pairs(pairs: seq<Pair>)
  datatype Pair = Pair(key: string, tree: Tree)

  /** The value built from it: a dictionary keeps insertion order; `Marker` is the private duplicate marker. */
  datatype Value = Scalar(text: string) | Sequence(items: seq<Value>) | Dict(entries: seq<Entry>) | Marker
  datatype Entry = Entry(key: string, value: Value)

  predicate HasKey(entries: seq<Entry>, key: string) {
    exists i :: 0 <= i < |entries| && entries[i].key == key
  }

  predicate KeysDistinct(entries: seq<Entry>) {
    forall i, j :: 0 <= i < j < |entries| ==> entries[i].key != entries[j].key
  }

  /** `_contains_duplicate_json_object`: the marker occurs in the value, through lists and dictionaries. */
  predicate ContainsMarker(v: Value) {
    match v
    case Marker => true
    case Scalar(_) => false
    case Sequence(items) => exists i :: 0 <= i < |items| && ContainsMarker(items[i])
    case Dict(entries) => exists i :: 0 <= i < |entries| && ContainsMarker(entries[i].value)
  }

  predicate Clean(entries: seq<Entry>) {
    KeysDistinct(entries) && forall i :: 0 <= i < |entries| ==> !ContainsMarker(entries[i].value)
  }

  /** What the hook makes of one object: the dictionary, or the marker if a key repeats or a value holds the marker. */
  function StrictObject(entries: seq<Entry>): Value {
    if Clean(entries) then Dict(entries) else Marker
  }

  method StrictJsonObject(pairs: seq<Entry>) returns (v: Value)
    ensures v == StrictObject(pairs)
  {
    hide ContainsMarker;
    var result: seq<Entry> := [];
    var duplicateFound := false;
    for i := 0 to |pairs|
      invariant duplicateFound <==> !Clean(pairs[..i])
      invariant !duplicateFound ==> result == pairs[..i]
    {
      CleanStep(pairs, i);
      if HasKey(result, pairs[i].key) || ContainsMarker(pairs[i].value) {
        duplicateFound := true;
      } else if !duplicateFound {
        result := result + [pairs[i]];
      }
    }
    assert pairs[..|pairs|] == pairs;
    return if duplicateFound then Marker else Dict(result);
  }

  lemma CleanStep(pairs: seq<Entry>, i: nat)
    requires i < |pairs|
    ensures Clean(pairs[..i + 1]) <==> Clean(pairs[..i]) && !HasKey(pairs[..i], pairs[i].key) && !ContainsMarker(pairs[i].value)
    ensures pairs[..i + 1] == pairs[..i] + [pairs[i]]
  {
    hide ContainsMarker;
    var shorter, longer := pairs[..i], pairs[..i + 1];
    if Clean(longer) {
      forall j, k | 0 <= j < k < i ensures shorter[j].key != shorter[k].key {
        assert longer[j].key != longer[k].key;
      }
      forall j | 0 <= j < i ensures shorter[j].key != pairs[i].key && !ContainsMarker(shorter[j].value) {
        assert longer[j].key != longer[i].key && !ContainsMarker(longer[j].value);
      }
      assert !ContainsMarker(longer[i].value);
    }
  }

  /** The hook of the line converter: the dictionary, or an exception at the first repeated key. */
  method RejectDuplicateKeys(pairs: seq<Entry>) returns (r: Result<Value, ()>)
    ensures r == if KeysDistinct(pairs) then Ok(Dict(pairs)) else Err(())
  {
    var result: seq<Entry> := [];
    for i := 0 to |pairs|
      invariant result == pairs[..i] && KeysDistinct(result)
    {
      if HasKey(result, pairs[i].key) {
        var j :| 0 <= j < |result| && result[j].key == pairs[i].key;
        assert pairs[j].key == pairs[i].key;
        return Err(());
      }
      result := result + [pairs[i]];
    }
    assert pairs[..|pairs|] == pairs;
    return Ok(Dict(result));
  }

  // ---------------------------------------------------------------- whole trees

  /** Reading bottom-up through the marking hook. */
  function Read(t: Tree): Value {
    match t
    case Leaf(text) => Scalar(text)
    case Items(items) => Sequence(seq(|items|, i requires 0 <= i < |items| => Read(items[i])))
    case Pairs(pairs) => StrictObject(seq(|pairs|, i requires 0 <= i < |pairs| => Entry(pairs[i].key, Read(pairs[i].tree))))
  }

  /** Reading bottom-up through the aborting hook. */
  function ReadOrAbort(t: Tree): Result<Value, ()> {
    match t
    case Leaf(text) => Ok(Scalar(text))
    case Items(items) =>
      if forall i :: 0 <= i < |items| ==> ReadOrAbort(items[i]).Ok? then
        Ok(Sequence(seq(|items|, i requires 0 <= i < |items| => ReadOrAbort(items[i]).value)))
      else Err(())
    case Pairs(pairs) =>
      if forall i :: 0 <= i < |pairs| ==> ReadOrAbort(pairs[i].tree).Ok? then
        var entries := seq(|pairs|, i requires 0 <= i < |pairs| => Entry(pairs[i].key, ReadOrAbort(pairs[i].tree).value));
        if KeysDistinct(entries) then Ok(Dict(entries)) else Err(())
      else Err(())
  }

  /** The value itself, every pair of every object kept. */
  function Plain(t: Tree): Value {
    match t
    case Leaf(text) => Scalar(text)
    case Items(items) => Sequence(seq(|items|, i requires 0 <= i < |items| => Plain(items[i])))
    case Pairs(pairs) => Dict(seq(|pairs|, i requires 0 <= i < |pairs| => Entry(pairs[i].key, Plain(pairs[i].tree))))
  }

  /** The subtree at a path of child positions, through lists and objects. */
  function At(t: Tree, path: seq<nat>): Option<Tree> {
    if path == [] then Some(t)
    else
      match t
      case Leaf(_) => None
      case Items(items) => if path[0] < |items| then At(items[path[0]], path[1..]) else None
      case Pairs(pairs) => if path[0] < |pairs| then At(pairs[path[0]].tree, path[1..]) else None
  }

  /** The object at the path names two of its members alike. */
  predicate RepeatsAt(t: Tree, path: seq<nat>) {
    At(t, path).Some? && At(t, path).value.Pairs? &&
    var pairs := At(t, path).value.pairs;
    exists i, j :: 0 <= i < j < |pairs| && pairs[i].key == pairs[j].key
  }

  lemma RepeatsBelow(t: Tree, i: nat, path: seq<nat>)
    requires t.Items? ==> i < |t.items| && RepeatsAt(t.items[i], path)
    requires t.Pairs? ==> i < |t.pairs| && RepeatsAt(t.pairs[i].tree, path)
    requires !t.Leaf?
    ensures RepeatsAt(t, [i] + path)
  {
    assert ([i] + path)[1..] == path;
  }

  /** The marker is found only if some object repeats a key, and the path leads to it. */
  lemma {:induction false} MarkedRepeats(t: Tree) returns (path: seq<nat>)
    requires ContainsMarker(Read(t))
    ensures RepeatsAt(t, path)
  {
    match t
    case Leaf(_) =>
      path := [];
    case Items(items) =>
      var i :| 0 <= i < |items| && ContainsMarker(Read(t).items[i]);
      var below := MarkedRepeats(items[i]);
      RepeatsBelow(t, i, below);
      path := [i] + below;
    case Pairs(pairs) =>
      var entries := seq(|pairs|, i requires 0 <= i < |pairs| => Entry(pairs[i].key, Read(pairs[i].tree)));
      if KeysDistinct(entries) {
        var i :| 0 <= i < |entries| && ContainsMarker(entries[i].value);
        var below := MarkedRepeats(pairs[i].tree);
        RepeatsBelow(t, i, below);
        path := [i] + below;
      } else {
        var i, j :| 0 <= i < j < |entries| && entries[i].key == entries[j].key;
        assert pairs[i].key == pairs[j].key;
        path := [];
      }
  }

  /** A repeated key at any depth is found. */
  lemma {:induction false} RepeatIsMarked(t: Tree, path: seq<nat>)
    requires RepeatsAt(t, path)
    ensures ContainsMarker(Read(t))
    decreases path
  {
    if path == [] {
      var i, j :| 0 <= i < j < |t.pairs| && t.pairs[i].key == t.pairs[j].key;
      var entries := seq(|t.pairs|, i requires 0 <= i < |t.pairs| => Entry(t.pairs[i].key, Read(t.pairs[i].tree)));
      assert entries[i].key == entries[j].key;
    } else if t.Items? {
      RepeatIsMarked(t.items[path[0]], path[1..]);
      assert ContainsMarker(Read(t).items[path[0]]);
    } else {
      RepeatIsMarked(t.pairs[path[0]].tree, path[1..]);
      var entries := seq(|t.pairs|, i requires 0 <= i < |t.pairs| => Entry(t.pairs[i].key, Read(t.pairs[i].tree)));
      assert ContainsMarker(entries[path[0]].value);
    }
  }

  /** Without a marker nothing was lost: the value is the plain one. */
  lemma {:induction false} UnmarkedIsPlain(t: Tree)
    requires !ContainsMarker(Read(t))
    ensures Read(t) == Plain(t)
  {
    match t
    case Leaf(_) =>
    case Items(items) =>
      forall i | 0 <= i < |items| ensures Read(items[i]) == Plain(items[i]) {
        assert !ContainsMarker(Read(t).items[i]);
        UnmarkedIsPlain(items[i]);
      }
    case Pairs(pairs) =>
      var entries := seq(|pairs|, i requires 0 <= i < |pairs| => Entry(pairs[i].key, Read(pairs[i].tree)));
      forall i | 0 <= i < |pairs| ensures Read(pairs[i].tree) == Plain(pairs[i].tree) {
        assert !ContainsMarker(entries[i].value);
        UnmarkedIsPlain(pairs[i].tree);
      }
  }

  /** Detection is exact at every depth, and otherwise the value is unchanged. */
  lemma DetectionExact(t: Tree)
    ensures ContainsMarker(Read(t)) <==> exists path :: RepeatsAt(t, path)
    ensures !ContainsMarker(Read(t)) ==> Read(t) == Plain(t)
  {
    if ContainsMarker(Read(t)) {
      var path := MarkedRepeats(t);
    } else {
      UnmarkedIsPlain(t);
    }
    forall path | RepeatsAt(t, path) ensures ContainsMarker(Read(t)) {
      RepeatIsMarked(t, path);
    }
  }

  /** The two hooks agree on every tree: one aborts exactly where the other leaves the marker. */
  lemma {:induction false} HooksAgree(t: Tree)
    ensures ReadOrAbort(t) == if ContainsMarker(Read(t)) then Err(()) else Ok(Read(t))
  {
    match t
    case Leaf(_) =>
    case Items(items) =>
      forall i | 0 <= i < |items| { HooksAgree(items[i]); }
      var read := Read(t).items;
      assert forall i :: 0 <= i < |items| ==> (ReadOrAbort(items[i]).Ok? <==> !ContainsMarker(read[i]));
      if !ContainsMarker(Read(t)) {
        assert seq(|items|, i requires 0 <= i < |items| => ReadOrAbort(items[i]).value) == read;
      }
    case Pairs(pairs) =>
      forall i | 0 <= i < |pairs| { HooksAgree(pairs[i].tree); }
      var entries := seq(|pairs|, i requires 0 <= i < |pairs| => Entry(pairs[i].key, Read(pairs[i].tree)));
      assert forall i :: 0 <= i < |pairs| ==> (ReadOrAbort(pairs[i].tree).Ok? <==> !ContainsMarker(entries[i].value));
      if forall i :: 0 <= i < |pairs| ==> ReadOrAbort(pairs[i].tree).Ok? {
        assert seq(|pairs|, i requires 0 <= i < |pairs| => Entry(pairs[i].key, ReadOrAbort(pairs[i].tree).value)) == entries;
        assert Clean(entries) <==> KeysDistinct(entries);
      } else {
        assert !Clean(entries);
      }
  }
}
