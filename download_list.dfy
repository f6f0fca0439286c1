/**
 * Download-list construction: the annotation rows whose label code is a value of the
 * resolved dict become image filenames, minus those already present in the output directory.
 */
module DownloadListBuilder {
  import opened Seqs
  import opened Dicts
  import opened Paths

  /** The two annotation columns the builder reads; all other columns are ignored. */
  datatype Annotation = Annotation(imageId: string, labelName: string)

  /** The filename under which an image is stored. */
  function ImageName(imageId: string): (name: string)
    ensures |name| == |imageId| + 4 && name[..|imageId|] == imageId
  {
    imageId + ".jpg"
  }

  /** Distinct images get distinct filenames, so a repeated filename is a repeated image. */
  lemma ImageNameInjective(id1: string, id2: string)
    ensures ImageName(id1) == ImageName(id2) <==> id1 == id2
  {
    if ImageName(id1) == ImageName(id2) {
      assert id1 == ImageName(id1)[..|id1|];
    }
  }

  /** The rows whose label code is `code`, in table order. */
  function Select(annotations: seq<Annotation>, code: string): (rows: seq<Annotation>)
    ensures |rows| <= |annotations|
    ensures forall i :: 0 <= i < |rows| ==> rows[i] in annotations && rows[i].labelName == code
  {
    if annotations == [] then []
    else
      var a := annotations[|annotations| - 1];
      Select(annotations[..|annotations| - 1], code) + (if a.labelName == code then [a] else [])
  }

  /** The selections of every dict entry's code, concatenated in dict iteration order. */
  function Candidates(objectCodes: Dict<string, string>, annotations: seq<Annotation>): (rows: seq<Annotation>)
    ensures forall i :: 0 <= i < |rows| ==> rows[i] in annotations
  {
    if objectCodes == [] then []
    else
      Candidates(objectCodes[..|objectCodes| - 1], annotations) + Select(annotations, objectCodes[|objectCodes| - 1].1)
  }

  /** The filename of every row, in row order. */
  function FileNames(rows: seq<Annotation>): (names: seq<string>)
    ensures |names| == |rows|
  {
    if rows == [] then []
    else FileNames(rows[..|rows| - 1]) + [ImageName(rows[|rows| - 1].imageId)]
  }

  /** The names whose path inside `dir` does not exist, in order. */
  function Remaining(names: seq<string>, dir: string, existing: set<string>): (kept: seq<string>)
    ensures |kept| <= |names|
  {
    if names == [] then []
    else
      var f := names[|names| - 1];
      Remaining(names[..|names| - 1], dir, existing) + (if Join(dir, f) in existing then [] else [f])
  }

  /** The download list the builder returns for these inputs. */
  function Planned(objectCodes: Dict<string, string>, annotations: seq<Annotation>, dir: string, existing: set<string>): (list: seq<string>)
    ensures |list| <= |Candidates(objectCodes, annotations)|
  {
    Remaining(FileNames(Candidates(objectCodes, annotations)), dir, existing)
  }

  lemma SelectSnoc(annotations: seq<Annotation>, a: Annotation, code: string)
    ensures Select(annotations + [a], code) == Select(annotations, code) + (if a.labelName == code then [a] else [])
  {
    assert (annotations + [a])[..|annotations|] == annotations;
  }

  lemma CandidatesSnoc(objectCodes: Dict<string, string>, e: (string, string), annotations: seq<Annotation>)
    ensures Candidates(objectCodes + [e], annotations) == Candidates(objectCodes, annotations) + Select(annotations, e.1)
  {
    assert (objectCodes + [e])[..|objectCodes|] == objectCodes;
  }

  lemma CandidatesSingle(e: (string, string), annotations: seq<Annotation>)
    ensures Candidates([e], annotations) == Select(annotations, e.1)
  {
    assert [e][..0] == [];
  }

  lemma FileNamesSnoc(rows: seq<Annotation>, a: Annotation)
    ensures FileNames(rows + [a]) == FileNames(rows) + [ImageName(a.imageId)]
  {
    assert (rows + [a])[..|rows|] == rows;
  }

  lemma RemainingSnoc(names: seq<string>, f: string, dir: string, existing: set<string>)
    ensures Remaining(names + [f], dir, existing) ==
            Remaining(names, dir, existing) + (if Join(dir, f) in existing then [] else [f])
  {
    assert (names + [f])[..|names|] == names;
  }

  /**
   * Builds the list of image filenames to download. The program's `drop_duplicates()`
   * call discards its result, so it leaves the collected rows as they are here.
   */
  method GenerateDownloadList(annotations: seq<Annotation>, objectCodes: Dict<string, string>,
                              outputDir: string, existing: set<string>)
    returns (urlDownloadList: seq<string>)
    ensures urlDownloadList == Planned(objectCodes, annotations, outputDir, existing)
  {
    var dfDownload: seq<Annotation> := [];
    var i := 0;
    while i < |objectCodes|
      invariant 0 <= i <= |objectCodes|
      invariant dfDownload == Candidates(objectCodes[..i], annotations)
    {
      PrefixSnoc(objectCodes, i);
      CandidatesSnoc(objectCodes[..i], objectCodes[i], annotations);
      dfDownload := dfDownload + Select(annotations, objectCodes[i].1);
      i := i + 1;
    }
    assert objectCodes[..i] == objectCodes;

    urlDownloadList := [];
    var k := 0;
    while k < |dfDownload|
      invariant 0 <= k <= |dfDownload|
      invariant urlDownloadList == Remaining(FileNames(dfDownload[..k]), outputDir, existing)
    {
      var imageName := ImageName(dfDownload[k].imageId);
      PrefixSnoc(dfDownload, k);
      FileNamesSnoc(dfDownload[..k], dfDownload[k]);
      RemainingSnoc(FileNames(dfDownload[..k]), imageName, outputDir, existing);
      if Join(outputDir, imageName) !in existing {
        urlDownloadList := urlDownloadList + [imageName];
      }
      k := k + 1;
    }
    assert dfDownload[..k] == dfDownload;
  }

  // Concatenation and membership facts about the specification functions

  lemma {:induction false} SelectAppend(a1: seq<Annotation>, a2: seq<Annotation>, code: string)
    ensures Select(a1 + a2, code) == Select(a1, code) + Select(a2, code)
  {
    if a2 != [] {
      var init := a2[..|a2| - 1];
      var a := a2[|a2| - 1];
      SelectAppend(a1, init, code);
      SplitLast(a2);
      AppendSnoc(a1, init, a);
      SelectSnoc(a1 + init, a, code);
      SelectSnoc(init, a, code);
    } else {
      AppendNil(a1);
    }
  }

  lemma {:induction false} CandidatesAppend(d1: Dict<string, string>, d2: Dict<string, string>, annotations: seq<Annotation>)
    ensures Candidates(d1 + d2, annotations) == Candidates(d1, annotations) + Candidates(d2, annotations)
  {
    if d2 != [] {
      var init := d2[..|d2| - 1];
      var e := d2[|d2| - 1];
      CandidatesAppend(d1, init, annotations);
      SplitLast(d2);
      AppendSnoc(d1, init, e);
      CandidatesSnoc(d1 + init, e, annotations);
      CandidatesSnoc(init, e, annotations);
    } else {
      AppendNil(d1);
    }
  }

  lemma {:induction false} FileNamesAppend(r1: seq<Annotation>, r2: seq<Annotation>)
    ensures FileNames(r1 + r2) == FileNames(r1) + FileNames(r2)
  {
    if r2 != [] {
      var init := r2[..|r2| - 1];
      var a := r2[|r2| - 1];
      FileNamesAppend(r1, init);
      SplitLast(r2);
      AppendSnoc(r1, init, a);
      FileNamesSnoc(r1 + init, a);
      FileNamesSnoc(init, a);
    } else {
      AppendNil(r1);
    }
  }

  lemma {:induction false} RemainingAppend(n1: seq<string>, n2: seq<string>, dir: string, existing: set<string>)
    ensures Remaining(n1 + n2, dir, existing) == Remaining(n1, dir, existing) + Remaining(n2, dir, existing)
  {
    if n2 != [] {
      var init := n2[..|n2| - 1];
      var f := n2[|n2| - 1];
      RemainingAppend(n1, init, dir, existing);
      SplitLast(n2);
      AppendSnoc(n1, init, f);
      RemainingSnoc(n1 + init, f, dir, existing);
      RemainingSnoc(init, f, dir, existing);
    } else {
      AppendNil(n1);
    }
  }

  lemma {:induction false} SelectMembers(annotations: seq<Annotation>, code: string, a: Annotation)
    ensures a in Select(annotations, code) <==> a in annotations && a.labelName == code
  {
    if annotations != [] {
      var init := annotations[..|annotations| - 1];
      SelectMembers(init, code, a);
      SplitLast(annotations);
    }
  }

  lemma {:induction false} CandidatesMembers(objectCodes: Dict<string, string>, annotations: seq<Annotation>, a: Annotation)
    ensures a in Candidates(objectCodes, annotations) <==>
              a in annotations && exists i :: 0 <= i < |objectCodes| && objectCodes[i].1 == a.labelName
  {
    if objectCodes != [] {
      var n := |objectCodes| - 1;
      var init := objectCodes[..n];
      var e := objectCodes[n];
      CandidatesMembers(init, annotations, a);
      SelectMembers(annotations, e.1, a);
      assert Candidates(objectCodes, annotations) == Candidates(init, annotations) + Select(annotations, e.1);
      assert (exists i :: 0 <= i < |objectCodes| && objectCodes[i].1 == a.labelName) <==>
             (exists i :: 0 <= i < |init| && init[i].1 == a.labelName) || e.1 == a.labelName;
    }
  }

  lemma {:induction false} FileNamesMembers(rows: seq<Annotation>, f: string)
    ensures f in FileNames(rows) <==> exists a :: a in rows && f == ImageName(a.imageId)
  {
    if rows != [] {
      var init := rows[..|rows| - 1];
      FileNamesMembers(init, f);
      SplitLast(rows);
    }
  }

  lemma {:induction false} RemainingMembers(names: seq<string>, dir: string, existing: set<string>, f: string)
    ensures f in Remaining(names, dir, existing) <==> f in names && Join(dir, f) !in existing
  {
    if names != [] {
      var init := names[..|names| - 1];
      RemainingMembers(init, dir, existing, f);
      SplitLast(names);
    }
  }

  // Properties of the download list

  /**
   * A filename is listed exactly when it is the image name of an annotation row whose
   * label code is a value of the dict and its path in the output directory does not exist.
   * In particular an empty dict gives an empty list.
   */
  lemma PlannedMembers(objectCodes: Dict<string, string>, annotations: seq<Annotation>,
                       dir: string, existing: set<string>, f: string)
    ensures f in Planned(objectCodes, annotations, dir, existing) <==>
              && Join(dir, f) !in existing
              && exists a, i :: a in annotations && 0 <= i < |objectCodes| && objectCodes[i].1 == a.labelName &&
                                f == ImageName(a.imageId)
    ensures objectCodes == [] ==> Planned(objectCodes, annotations, dir, existing) == []
  {
    var rows := Candidates(objectCodes, annotations);
    RemainingMembers(FileNames(rows), dir, existing, f);
    FileNamesMembers(rows, f);
    if exists a :: a in rows && f == ImageName(a.imageId) {
      var a :| a in rows && f == ImageName(a.imageId);
      CandidatesMembers(objectCodes, annotations, a);
    }
    if exists a, i :: a in annotations && 0 <= i < |objectCodes| && objectCodes[i].1 == a.labelName &&
                      f == ImageName(a.imageId) {
      var a, i :| a in annotations && 0 <= i < |objectCodes| && objectCodes[i].1 == a.labelName &&
                  f == ImageName(a.imageId);
      CandidatesMembers(objectCodes, annotations, a);
    }
  }

  /** The list is the lists of the dict entries, one after another in iteration order. */
  lemma PlannedEntriesAppend(d1: Dict<string, string>, d2: Dict<string, string>, annotations: seq<Annotation>,
                             dir: string, existing: set<string>)
    ensures Planned(d1 + d2, annotations, dir, existing) ==
            Planned(d1, annotations, dir, existing) + Planned(d2, annotations, dir, existing)
  {
    CandidatesAppend(d1, d2, annotations);
    FileNamesAppend(Candidates(d1, annotations), Candidates(d2, annotations));
    RemainingAppend(FileNames(Candidates(d1, annotations)), FileNames(Candidates(d2, annotations)), dir, existing);
  }

  /** For one dict entry the list follows annotation order: earlier rows contribute earlier names. */
  lemma PlannedRowsAppend(e: (string, string), a1: seq<Annotation>, a2: seq<Annotation>,
                          dir: string, existing: set<string>)
    ensures Planned([e], a1 + a2, dir, existing) == Planned([e], a1, dir, existing) + Planned([e], a2, dir, existing)
  {
    CandidatesSingle(e, a1 + a2);
    CandidatesSingle(e, a1);
    CandidatesSingle(e, a2);
    SelectAppend(a1, a2, e.1);
    FileNamesAppend(Select(a1, e.1), Select(a2, e.1));
    RemainingAppend(FileNames(Select(a1, e.1)), FileNames(Select(a2, e.1)), dir, existing);
  }

  /**
   * A single annotation row under a single dict entry contributes its image name exactly
   * when its label code is the entry's code and the file is not in the output directory.
   */
  lemma PlannedSingleRow(e: (string, string), a: Annotation, dir: string, existing: set<string>)
    ensures Planned([e], [a], dir, existing) ==
              if a.labelName == e.1 && Join(dir, ImageName(a.imageId)) !in existing then [ImageName(a.imageId)] else []
  {
    CandidatesSingle(e, [a]);
    SelectSnoc([], a, e.1);
    FileNamesSnoc([], a);
    RemainingSnoc([], ImageName(a.imageId), dir, existing);
  }

  /** The number of dict entries whose code is `code`. */
  function CountCode(objectCodes: Dict<string, string>, code: string): nat {
    if objectCodes == [] then 0
    else CountCode(objectCodes[..|objectCodes| - 1], code) + (if objectCodes[|objectCodes| - 1].1 == code then 1 else 0)
  }

  /**
   * Reference count of the list, row by row: every annotation row contributes its image
   * name once per dict entry carrying its label code, unless the file already exists.
   */
  function PairsByRow(objectCodes: Dict<string, string>, annotations: seq<Annotation>,
                      dir: string, existing: set<string>): multiset<string>
  {
    if annotations == [] then multiset{}
    else
      var a := annotations[|annotations| - 1];
      var f := ImageName(a.imageId);
      PairsByRow(objectCodes, annotations[..|annotations| - 1], dir, existing) +
      (if Join(dir, f) in existing then multiset{} else multiset{}[f := CountCode(objectCodes, a.labelName)])
  }

  lemma CountCodeSnoc(objectCodes: Dict<string, string>, e: (string, string), code: string)
    ensures CountCode(objectCodes + [e], code) == CountCode(objectCodes, code) + (if e.1 == code then 1 else 0)
  {
    assert (objectCodes + [e])[..|objectCodes|] == objectCodes;
  }

  lemma {:induction false} PairsByRowNoEntries(annotations: seq<Annotation>, dir: string, existing: set<string>)
    ensures PairsByRow([], annotations, dir, existing) == multiset{}
  {
    if annotations != [] {
      PairsByRowNoEntries(annotations[..|annotations| - 1], dir, existing);
    }
  }

  /** The count one annotation row contributes grows by that row's own list under a new entry. */
  lemma RowCountSnocEntry(objectCodes: Dict<string, string>, e: (string, string), a: Annotation,
                          dir: string, existing: set<string>)
    ensures var f := ImageName(a.imageId);
            (if Join(dir, f) in existing then multiset{} else multiset{}[f := CountCode(objectCodes + [e], a.labelName)]) ==
            (if Join(dir, f) in existing then multiset{} else multiset{}[f := CountCode(objectCodes, a.labelName)]) +
            multiset(Planned([e], [a], dir, existing))
  {
    PlannedSingleRow(e, a, dir, existing);
    CountCodeSnoc(objectCodes, e, a.labelName);
    CopiesSucc(ImageName(a.imageId), CountCode(objectCodes, a.labelName));
  }

  /** Under one entry, one more annotation row adds its own list to the count of the list. */
  lemma PlannedRowSnoc(e: (string, string), annotations: seq<Annotation>, dir: string, existing: set<string>)
    requires annotations != []
    ensures multiset(Planned([e], annotations, dir, existing)) ==
            multiset(Planned([e], annotations[..|annotations| - 1], dir, existing)) +
            multiset(Planned([e], [annotations[|annotations| - 1]], dir, existing))
  {
    SplitLast(annotations);
    PlannedRowsAppend(e, annotations[..|annotations| - 1], [annotations[|annotations| - 1]], dir, existing);
  }

  /** Adding one dict entry adds that entry's own list to the row-by-row count. */
  lemma {:induction false} PairsByRowSnocEntry(objectCodes: Dict<string, string>, e: (string, string),
                                               annotations: seq<Annotation>, dir: string, existing: set<string>)
    ensures PairsByRow(objectCodes + [e], annotations, dir, existing) ==
            PairsByRow(objectCodes, annotations, dir, existing) + multiset(Planned([e], annotations, dir, existing))
  {
    if annotations == [] {
      CandidatesSingle(e, annotations);
    } else {
      var pre := annotations[..|annotations| - 1];
      var a := annotations[|annotations| - 1];
      RowCountSnocEntry(objectCodes, e, a, dir, existing);
      PlannedRowSnoc(e, annotations, dir, existing);
      PairsByRowSnocEntry(objectCodes, e, pre, dir, existing);
    }
  }

  /**
   * Duplicates are kept: the list holds each filename exactly as often as there are
   * (dict entry, annotation row) pairs that produce it with the file absent, so its
   * length is the number of such pairs.
   */
  lemma {:induction false} PlannedMultiplicity(objectCodes: Dict<string, string>, annotations: seq<Annotation>,
                                               dir: string, existing: set<string>)
    ensures multiset(Planned(objectCodes, annotations, dir, existing)) == PairsByRow(objectCodes, annotations, dir, existing)
    ensures |Planned(objectCodes, annotations, dir, existing)| == |PairsByRow(objectCodes, annotations, dir, existing)|
  {
    if objectCodes == [] {
      PairsByRowNoEntries(annotations, dir, existing);
    } else {
      var init := objectCodes[..|objectCodes| - 1];
      var e := objectCodes[|objectCodes| - 1];
      PlannedMultiplicity(init, annotations, dir, existing);
      SplitLast(objectCodes);
      PlannedEntriesAppend(init, [e], annotations, dir, existing);
      PairsByRowSnocEntry(init, e, annotations, dir, existing);
    }
    assert |multiset(Planned(objectCodes, annotations, dir, existing))| == |Planned(objectCodes, annotations, dir, existing)|;
  }

  lemma {:induction false} RemainingShrinks(names: seq<string>, dir: string, existing: set<string>)
    ensures multiset(Remaining(names, dir, existing)) <= multiset(names)
  {
    if names != [] {
      var init := names[..|names| - 1];
      RemainingShrinks(init, dir, existing);
      SplitLast(names);
    }
  }

  lemma {:induction false} RemainingTwice(names: seq<string>, dir: string, existing: set<string>, more: set<string>)
    requires existing <= more
    ensures Remaining(Remaining(names, dir, existing), dir, more) == Remaining(names, dir, more)
  {
    if names != [] {
      var init := names[..|names| - 1];
      var f := names[|names| - 1];
      RemainingTwice(init, dir, existing, more);
      var once := Remaining(init, dir, existing);
      if Join(dir, f) !in existing {
        RemainingSnoc(once, f, dir, more);
      } else {
        AppendNil(once);
      }
    }
  }

  /**
   * More files in the output directory can only remove names from the list, never add
   * any: the list for the larger set is the list for the smaller one with the names now
   * present filtered out.
   */
  lemma PlannedMonotone(objectCodes: Dict<string, string>, annotations: seq<Annotation>,
                        dir: string, existing: set<string>, more: set<string>)
    requires existing <= more
    ensures Planned(objectCodes, annotations, dir, more) ==
            Remaining(Planned(objectCodes, annotations, dir, existing), dir, more)
    ensures multiset(Planned(objectCodes, annotations, dir, more)) <= multiset(Planned(objectCodes, annotations, dir, existing))
  {
    var names := FileNames(Candidates(objectCodes, annotations));
    RemainingTwice(names, dir, existing, more);
    RemainingShrinks(Remaining(names, dir, existing), dir, more);
  }

  // The discarded duplicate removal

  /**
   * Two boxes of one class on one image (two equal rows) put that image in the list
   * twice: the duplicate removal has no effect on the result.
   */
  lemma DuplicatesKept(e: (string, string), row: Annotation, dir: string, existing: set<string>)
    requires row.labelName == e.1
    requires Join(dir, ImageName(row.imageId)) !in existing
    ensures Planned([e], [row, row], dir, existing) == [ImageName(row.imageId), ImageName(row.imageId)]
  {
    var f := ImageName(row.imageId);
    var once := Planned([e], [row], dir, existing);
    assert Planned([e], [row, row], dir, existing) == once + once by {
      assert [row] + [row] == [row, row];
      PlannedRowsAppend(e, [row], [row], dir, existing);
    }
    assert once + once == [f, f] by {
      PlannedSingleRow(e, row, dir, existing);
    }
  }

  /** Drops every repeated filename, keeping the first occurrence of each. */
  method DropDuplicates(names: seq<string>) returns (unique: seq<string>)
    ensures unique == Dedup(names)
  {
    unique := [];
    var k := 0;
    while k < |names|
      invariant 0 <= k <= |names|
      invariant unique == Dedup(names[..k])
    {
      PrefixSnoc(names, k);
      DedupSnoc(names[..k], names[k]);
      if names[k] !in unique {
        unique := unique + [names[k]];
      }
      k := k + 1;
    }
    assert names[..k] == names;
  }

  /**
   * The list with duplicate removal applied: each filename once, in the order in which
   * filenames first occur in the list the builder returns, no filename lost, and the list
   * unchanged when it repeats nothing.
   */
  method GenerateUniqueDownloadList(annotations: seq<Annotation>, objectCodes: Dict<string, string>,
                                    outputDir: string, existing: set<string>)
    returns (downloads: seq<string>)
    ensures downloads == Dedup(Planned(objectCodes, annotations, outputDir, existing))
    ensures Distinct(downloads)
    ensures forall f :: f in downloads <==> f in Planned(objectCodes, annotations, outputDir, existing)
    ensures forall i, j :: 0 <= i < j < |downloads| ==>
              var all := Planned(objectCodes, annotations, outputDir, existing);
              FirstIndex(all, downloads[i]) < FirstIndex(all, downloads[j])
    ensures Distinct(Planned(objectCodes, annotations, outputDir, existing)) ==>
              downloads == Planned(objectCodes, annotations, outputDir, existing)
  {
    var all := GenerateDownloadList(annotations, objectCodes, outputDir, existing);
    downloads := DropDuplicates(all);
    DedupMembers(all);
    DedupFirstOrder(all);
    if Distinct(all) {
      DedupOfDistinct(all);
    }
  }
}
