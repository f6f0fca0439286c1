/**
 * The driver's pipeline up to the download: resolve the requested labels, then build
 * the list of images still to fetch.
 */
module Pipeline {
  import opened Seqs
  import opened Dicts
  import opened Paths
  import opened Text
  import opened LabelResolver
  import opened DownloadListBuilder

  /**
   * Resolves the objects of interest and builds their download list, each image once and
   * in the order of its first occurrence in the builder's list: a filename is listed iff
   * some annotation row carrying a resolved code names that image and its file is not yet
   * in the output directory.
   */
  method PlanDownloads(labelmap: seq<LabelRow>, objects: seq<string>, annotations: seq<Annotation>,
                       outputDir: string, existing: set<string>)
    returns (downloadList: seq<string>)
    ensures downloadList == Dedup(Planned(Resolve(labelmap, objects), annotations, outputDir, existing))
    ensures Distinct(downloadList)
    ensures forall f :: f in downloadList <==> f in Planned(Resolve(labelmap, objects), annotations, outputDir, existing)
    ensures forall i, j :: 0 <= i < j < |downloadList| ==>
              var all := Planned(Resolve(labelmap, objects), annotations, outputDir, existing);
              FirstIndex(all, downloadList[i]) < FirstIndex(all, downloadList[j])
  {
    var ooiLabelmap := GetOoiLabelmap(labelmap, objects);
    downloadList := GenerateUniqueDownloadList(annotations, ooiLabelmap, outputDir, existing);
  }

  /** Asking for "cat" against a cat and a dog row resolves to the cat code only. */
  lemma CatDogResolve()
    ensures Resolve([LabelRow("/m/01", "cat"), LabelRow("/m/02", "dog")], ["cat"]) == [("cat", "/m/01")]
  {
    var cat, dog := LabelRow("/m/01", "cat"), LabelRow("/m/02", "dog");
    assert Lower("cat") == "cat" by {
      LowerAt("cat");
    }
    assert Lower("dog") != "cat" by {
      LowerAt("dog");
    }
    assert IsRequested(["cat"], "cat");
    assert !IsRequested(["cat"], "dog");
    assert Resolve([cat], ["cat"]) == [("cat", "/m/01")] by {
      assert [cat][..0] == [];
    }
    assert [cat, dog][..1] == [cat];
  }

  /** The paths of the scenario's two cat images in directory "out" differ. */
  lemma CatImagePaths()
    ensures ImageName("img1") == "img1.jpg" && ImageName("img3") == "img3.jpg"
    ensures Join("out", ImageName("img1")) == "out/img1.jpg"
    ensures Join("out", ImageName("img3")) == "out/img3.jpg"
    ensures "out/img3.jpg" != "out/img1.jpg"
  {
    assert "out/img3.jpg"[7] != "out/img1.jpg"[7];
  }

  /** The first cat image is listed unless its file already exists. */
  lemma CatRowImg1(existing: set<string>)
    requires existing == {} || existing == {"out/img1.jpg"}
    ensures Planned([("cat", "/m/01")], [Annotation("img1", "/m/01")], "out", existing) ==
              if existing == {} then ["img1.jpg"] else []
  {
    CatImagePaths();
    PlannedSingleRow(("cat", "/m/01"), Annotation("img1", "/m/01"), "out", existing);
    assert ("out/img1.jpg" in existing) == (existing != {});
  }

  /** The dog row carries another code, so it contributes nothing. */
  lemma DogRow(existing: set<string>)
    ensures Planned([("cat", "/m/01")], [Annotation("img2", "/m/02")], "out", existing) == []
  {
    PlannedSingleRow(("cat", "/m/01"), Annotation("img2", "/m/02"), "out", existing);
  }

  /** The second cat image is listed, its file being absent. */
  lemma CatRowImg3(existing: set<string>)
    requires existing == {} || existing == {"out/img1.jpg"}
    ensures Planned([("cat", "/m/01")], [Annotation("img3", "/m/01")], "out", existing) == ["img3.jpg"]
  {
    CatImagePaths();
    PlannedSingleRow(("cat", "/m/01"), Annotation("img3", "/m/01"), "out", existing);
  }

  /**
   * Of three annotation rows, the two carrying the cat code are listed in table order,
   * and an image already in the output directory is skipped.
   */
  lemma CatDogList(existing: set<string>)
    requires existing == {} || existing == {"out/img1.jpg"}
    ensures var annotations := [Annotation("img1", "/m/01"), Annotation("img2", "/m/02"), Annotation("img3", "/m/01")];
            Planned([("cat", "/m/01")], annotations, "out", existing) ==
              if existing == {} then ["img1.jpg", "img3.jpg"] else ["img3.jpg"]
  {
    var e := ("cat", "/m/01");
    var r1, r2, r3 := Annotation("img1", "/m/01"), Annotation("img2", "/m/02"), Annotation("img3", "/m/01");
    var p1, p2, p3 := Planned([e], [r1], "out", existing), Planned([e], [r2], "out", existing), Planned([e], [r3], "out", existing);
    assert Planned([e], [r1, r2, r3], "out", existing) == p1 + (p2 + p3) by {
      assert [r1, r2, r3] == [r1] + ([r2] + [r3]);
      PlannedRowsAppend(e, [r1], [r2] + [r3], "out", existing);
      PlannedRowsAppend(e, [r2], [r3], "out", existing);
    }
    assert p1 == (if existing == {} then ["img1.jpg"] else []) by {
      CatRowImg1(existing);
    }
    assert p2 == [] by {
      DogRow(existing);
    }
    assert p3 == ["img3.jpg"] by {
      CatRowImg3(existing);
    }
  }
}
