/**
 * Label resolution: from the dataset's labelmap (code, human-readable name) and the
 * object names the user asked for, the dict from lowercased name to label code.
 */
module LabelResolver {
  import opened Seqs
  import opened Text
  import opened Dicts

  /** One labelmap row: the dataset-internal code and its human-readable name. */
  datatype LabelRow = LabelRow(code: string, name: string)

  /** Whether some requested object name equals `name`, ignoring case. */
  function IsRequested(objects: seq<string>, name: string): (b: bool)
    ensures b <==> exists o :: o in objects && Lower(o) == Lower(name)
  {
    if objects == [] then false
    else if Lower(objects[0]) == Lower(name) then
      assert objects[0] in objects;
      true
    else
      var rest := objects[1..];
      assert forall o :: o in objects <==> o == objects[0] || o in rest;
      IsRequested(rest, name)
  }

  /**
   * The resolved dict after scanning `labelmap` in row order: every requested row
   * stores its code under its lowercased name, a later row overwriting an earlier one.
   */
  function Resolve(labelmap: seq<LabelRow>, objects: seq<string>): (r: Dict<string, string>)
    ensures Valid(r)
    ensures |r| <= |labelmap|
  {
    if labelmap == [] then []
    else
      var prev := Resolve(labelmap[..|labelmap| - 1], objects);
      var row := labelmap[|labelmap| - 1];
      if IsRequested(objects, row.name) then Put(prev, Lower(row.name), row.code) else prev
  }

  /** Lowercased names of the requested rows, in row order, repetitions included. */
  function MatchedNames(labelmap: seq<LabelRow>, objects: seq<string>): seq<string> {
    if labelmap == [] then []
    else
      var row := labelmap[|labelmap| - 1];
      MatchedNames(labelmap[..|labelmap| - 1], objects) + (if IsRequested(objects, row.name) then [Lower(row.name)] else [])
  }

  lemma {:induction false} MatchedNamesMembers(labelmap: seq<LabelRow>, objects: seq<string>, n: string)
    ensures n in MatchedNames(labelmap, objects) <==>
              exists j :: 0 <= j < |labelmap| && IsRequested(objects, labelmap[j].name) && Lower(labelmap[j].name) == n
  {
    if labelmap != [] {
      var init := labelmap[..|labelmap| - 1];
      MatchedNamesMembers(init, objects, n);
      assert forall j :: 0 <= j < |init| ==> init[j] == labelmap[j];
    }
  }

  /** The index of the last row whose lowercased name is `k`, or -1 when no row has it. */
  function LastIndex(labelmap: seq<LabelRow>, k: string): (j: int)
    ensures -1 <= j < |labelmap|
    ensures 0 <= j ==> Lower(labelmap[j].name) == k
    ensures forall j' :: j < j' < |labelmap| ==> Lower(labelmap[j'].name) != k
  {
    if labelmap == [] then -1
    else if Lower(labelmap[|labelmap| - 1].name) == k then |labelmap| - 1
    else LastIndex(labelmap[..|labelmap| - 1], k)
  }

  /** One more row of the scan updates the dict with that row alone. */
  lemma ResolveStep(labelmap: seq<LabelRow>, objects: seq<string>, i: nat)
    requires i < |labelmap|
    ensures Resolve(labelmap[..i + 1], objects) ==
              if IsRequested(objects, labelmap[i].name)
              then Put(Resolve(labelmap[..i], objects), Lower(labelmap[i].name), labelmap[i].code)
              else Resolve(labelmap[..i], objects)
  {
    assert labelmap[..i + 1][..i] == labelmap[..i];
  }

  /** The scan of the labelmap that builds the dict of objects of interest. */
  method GetOoiLabelmap(labelmap: seq<LabelRow>, objects: seq<string>) returns (objectCodes: Dict<string, string>)
    ensures objectCodes == Resolve(labelmap, objects)
  {
    objectCodes := [];
    var i := 0;
    while i < |labelmap|
      invariant 0 <= i <= |labelmap|
      invariant objectCodes == Resolve(labelmap[..i], objects)
    {
      var row := labelmap[i];
      ResolveStep(labelmap, objects, i);
      if IsRequested(objects, row.name) {
        objectCodes := Put(objectCodes, Lower(row.name), row.code);
      }
      i := i + 1;
    }
    assert labelmap[..i] == labelmap;
  }

  /** The keys appear in the order in which their names first match a requested object. */
  lemma {:induction false} ResolveKeyOrder(labelmap: seq<LabelRow>, objects: seq<string>)
    ensures Keys(Resolve(labelmap, objects)) == Dedup(MatchedNames(labelmap, objects))
  {
    if labelmap != [] {
      var init := labelmap[..|labelmap| - 1];
      var row := labelmap[|labelmap| - 1];
      ResolveKeyOrder(init, objects);
      var names := MatchedNames(init, objects);
      var prev := Resolve(init, objects);
      if IsRequested(objects, row.name) {
        var k := Lower(row.name);
        assert MatchedNames(labelmap, objects) == names + [k];
        assert Resolve(labelmap, objects) == Put(prev, k, row.code);
        DedupSnoc(names, k);
      } else {
        assert MatchedNames(labelmap, objects) == names;
        assert Resolve(labelmap, objects) == prev;
      }
    }
  }

  /** The distinct lowercased requested object names. */
  function RequestedNames(objects: seq<string>): set<string> {
    set o | o in objects :: Lower(o)
  }

  /** A name is a key exactly when some requested row lowercases to it. */
  lemma ResolveKeyMember(labelmap: seq<LabelRow>, objects: seq<string>, k: string)
    ensures k in Keys(Resolve(labelmap, objects)) <==>
              exists j :: 0 <= j < |labelmap| && IsRequested(objects, labelmap[j].name) && Lower(labelmap[j].name) == k
  {
    ResolveKeyOrder(labelmap, objects);
    DedupMembers(MatchedNames(labelmap, objects));
    MatchedNamesMembers(labelmap, objects, k);
  }

  /** Every key is already lowercase and is the lowercase of some requested object name. */
  lemma KeyIsRequested(labelmap: seq<LabelRow>, objects: seq<string>, k: string)
    requires k in Keys(Resolve(labelmap, objects))
    ensures Lower(k) == k
    ensures exists o :: o in objects && Lower(o) == k
    ensures k in RequestedNames(objects)
  {
    ResolveKeyMember(labelmap, objects, k);
    var j :| 0 <= j < |labelmap| && IsRequested(objects, labelmap[j].name) && Lower(labelmap[j].name) == k;
    LowerIdempotent(labelmap[j].name);
    var o :| o in objects && Lower(o) == k;
  }

  /**
   * The keys are exactly the lowercased names of the requested rows: each is the
   * lowercase of some requested object name, and an unmatched request adds no key.
   */
  lemma ResolveKeys(labelmap: seq<LabelRow>, objects: seq<string>)
    ensures forall k :: k in Keys(Resolve(labelmap, objects)) <==>
              exists j :: 0 <= j < |labelmap| && IsRequested(objects, labelmap[j].name) && Lower(labelmap[j].name) == k
    ensures forall k :: k in Keys(Resolve(labelmap, objects)) ==>
              Lower(k) == k && exists o :: o in objects && Lower(o) == k
    ensures forall o :: o in objects && (forall j :: 0 <= j < |labelmap| ==> Lower(labelmap[j].name) != Lower(o)) ==>
              Lower(o) !in Keys(Resolve(labelmap, objects))
  {
    forall k {
      ResolveKeyMember(labelmap, objects, k);
    }
    forall k | k in Keys(Resolve(labelmap, objects))
      ensures Lower(k) == k && exists o :: o in objects && Lower(o) == k
    {
      KeyIsRequested(labelmap, objects, k);
    }
  }

  /** Entry `e` holds the code of the last row whose lowercased name is its key. */
  ghost predicate HoldsLastCode(labelmap: seq<LabelRow>, e: (string, string)) {
    0 <= LastIndex(labelmap, e.0) && e.1 == labelmap[LastIndex(labelmap, e.0)].code
  }

  /** A row that does not carry key `e.0` leaves the code that key holds unchanged. */
  lemma HoldsLastCodeSnoc(labelmap: seq<LabelRow>, e: (string, string))
    requires labelmap != []
    requires Lower(labelmap[|labelmap| - 1].name) != e.0
    requires HoldsLastCode(labelmap[..|labelmap| - 1], e)
    ensures HoldsLastCode(labelmap, e)
  {
    var init := labelmap[..|labelmap| - 1];
    var j := LastIndex(init, e.0);
    assert LastIndex(labelmap, e.0) == j;
    assert init[j] == labelmap[j];
  }

  /** Scanning one more row keeps every entry holding the code of its key's last row. */
  lemma LastWinsEntry(labelmap: seq<LabelRow>, objects: seq<string>, e: (string, string))
    requires labelmap != []
    requires e in Resolve(labelmap[..|labelmap| - 1], objects) ==> HoldsLastCode(labelmap[..|labelmap| - 1], e)
    requires e in Resolve(labelmap, objects)
    ensures HoldsLastCode(labelmap, e)
  {
    var n := |labelmap| - 1;
    var init := labelmap[..n];
    var row := labelmap[n];
    var prev := Resolve(init, objects);
    if IsRequested(objects, row.name) {
      PutEntry(prev, Lower(row.name), row.code, e);
    }
    if IsRequested(objects, row.name) && e.0 == Lower(row.name) {
      assert LastIndex(labelmap, e.0) == n;
    } else {
      assert e in prev;
      if Lower(row.name) == e.0 {
        var i :| 0 <= i < |prev| && prev[i] == e;
        assert e.0 == Keys(prev)[i];
        KeyIsRequested(init, objects, e.0);
        assert false;
      }
      HoldsLastCodeSnoc(labelmap, e);
    }
  }

  /** Each key holds the code of the last row, in scan order, whose lowercased name is that key. */
  lemma {:induction false} ResolveLastWins(labelmap: seq<LabelRow>, objects: seq<string>)
    ensures forall e :: e in Resolve(labelmap, objects) ==> HoldsLastCode(labelmap, e)
  {
    if labelmap != [] {
      ResolveLastWins(labelmap[..|labelmap| - 1], objects);
      forall e | e in Resolve(labelmap, objects)
        ensures HoldsLastCode(labelmap, e)
      {
        LastWinsEntry(labelmap, objects, e);
      }
    }
  }

  /** An empty request list resolves to an empty dict. */
  lemma {:induction false} ResolveNoObjects(labelmap: seq<LabelRow>)
    ensures Resolve(labelmap, []) == []
  {
    if labelmap != [] {
      ResolveNoObjects(labelmap[..|labelmap| - 1]);
    }
  }

  /** There are no more keys than labelmap rows, nor than distinct lowercased requests. */
  lemma ResolveSize(labelmap: seq<LabelRow>, objects: seq<string>)
    ensures |Resolve(labelmap, objects)| <= |labelmap|
    ensures |Resolve(labelmap, objects)| <= |RequestedNames(objects)|
  {
    var keys := Keys(Resolve(labelmap, objects));
    var requested := RequestedNames(objects);
    forall i | 0 <= i < |keys|
      ensures keys[i] in requested
    {
      KeyIsRequested(labelmap, objects, keys[i]);
    }
    DistinctWithin(keys, requested);
    assert |keys| == |Resolve(labelmap, objects)|;
  }
}
