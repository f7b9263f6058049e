/** apply_order.py: rename the photos so that the k-th name (counting from 1)
    of a chosen ordering becomes "{k}.jpg", through the same two-pass rename
    as number_new_photos.py. */
module Reorder {
  import opened Basics
  import opened Decimal
  import opened Folder

  const ReorderTempPrefix: string := "_temp_reorder_"

  /** rename_map: entry k (counting from 1) of the ordering whose file exists
      is planned to become "{k}.jpg"; entries whose file is missing are
      skipped, and the numbering still follows the position in the ordering. */
  function RenameMap(order: seq<string>, files: Files): (r: seq<Move>)
    ensures |r| <= |order|
  {
    if order == [] then []
    else
      var init := RenameMap(order[..|order| - 1], files);
      var last := order[|order| - 1];
      if last in files then init + [Move(last, JpgName(|order|))] else init
  }

  /** The positions of the ordering whose file exists. */
  function Present(order: seq<string>, files: Files): (r: seq<nat>)
    ensures forall i :: 0 <= i < |r| ==> r[i] < |order|
  {
    Positions(order, name => name in files)
  }

  /** rename_map is the order-preserving selection of the existing entries,
      entry at position p going to "{p + 1}.jpg". */
  lemma {:induction false} RenameMapIsSelection(order: seq<string>, files: Files)
    ensures |RenameMap(order, files)| == |Present(order, files)|
    ensures forall j :: 0 <= j < |RenameMap(order, files)| ==>
      RenameMap(order, files)[j] == Move(order[Present(order, files)[j]], JpgName(Present(order, files)[j] + 1))
  {
    if order != [] {
      var init, last := order[..|order| - 1], order[|order| - 1];
      RenameMapIsSelection(init, files);
      var rm0, ps0 := RenameMap(init, files), Present(init, files);
      var rm, ps := RenameMap(order, files), Present(order, files);
      assert ps == ps0 + (if last in files then [|order| - 1] else []);
      assert rm == rm0 + (if last in files then [Move(last, JpgName(|order|))] else []);
      forall j | 0 <= j < |rm0| ensures ps0[j] < |order| && rm0[j] == Move(order[ps0[j]], JpgName(ps0[j] + 1)) {
        assert init[ps0[j]] == order[ps0[j]];
      }
      SelectionStep(order, ps, ps0, rm, rm0);
    }
  }

  /** Appending position p and its move to a selection keeps them aligned. */
  lemma SelectionStep(order: seq<string>, ps: seq<nat>, ps0: seq<nat>, rm: seq<Move>, rm0: seq<Move>)
    requires order != [] && |rm0| == |ps0|
    requires forall j :: 0 <= j < |rm0| ==> ps0[j] < |order| && rm0[j] == Move(order[ps0[j]], JpgName(ps0[j] + 1))
    requires (ps == ps0 && rm == rm0) || (ps == ps0 + [|order| - 1] && rm == rm0 + [Move(order[|order| - 1], JpgName(|order|))])
    ensures |rm| == |ps|
    ensures forall j :: 0 <= j < |rm| ==> ps[j] < |order| && rm[j] == Move(order[ps[j]], JpgName(ps[j] + 1))
  {
    forall j | 0 <= j < |rm| ensures ps[j] < |order| && rm[j] == Move(order[ps[j]], JpgName(ps[j] + 1)) {
      if j < |rm0| {
        assert rm[j] == rm0[j] && ps[j] == ps0[j];
      }
    }
  }

  /** Every existing entry k (counting from 1) is planned to become "{k}.jpg". */
  lemma RenameMapEntry(order: seq<string>, files: Files, k: nat)
    requires 1 <= k <= |order| && order[k - 1] in files
    ensures exists j :: 0 <= j < |RenameMap(order, files)| && RenameMap(order, files)[j] == Move(order[k - 1], JpgName(k))
  {
    var rm, ps := RenameMap(order, files), Present(order, files);
    RenameMapIsSelection(order, files);
    assert k - 1 in ps;
    var j :| 0 <= j < |ps| && ps[j] == k - 1;
    assert rm[j] == Move(order[k - 1], JpgName(k));
  }

  /** Exactly the existing entries of the ordering are renamed. */
  lemma RenameMapSources(order: seq<string>, files: Files, x: string)
    ensures x in Sources(RenameMap(order, files)) <==> x in order && x in files
  {
    RenameMapIsSelection(order, files);
    SelectionSources(order, files, RenameMap(order, files), Present(order, files), x);
  }

  /** The sources of a selection of the existing entries are those entries. */
  lemma SelectionSources(order: seq<string>, files: Files, rm: seq<Move>, ps: seq<nat>, x: string)
    requires |rm| == |ps| && forall j :: 0 <= j < |ps| ==> ps[j] < |order|
    requires forall j :: 0 <= j < |rm| ==> rm[j].from == order[ps[j]]
    requires forall k :: k in ps <==> 0 <= k < |order| && order[k] in files
    ensures x in Sources(rm) <==> x in order && x in files
  {
    if x in Sources(rm) {
      var j :| 0 <= j < |rm| && rm[j].from == x;
      assert ps[j] in ps;
    }
    if x in order && x in files {
      var p :| 0 <= p < |order| && order[p] == x;
      assert p in ps;
      var j :| 0 <= j < |ps| && ps[j] == p;
      assert rm[j].from == x;
    }
  }

  /** The planned targets are pairwise distinct, and so are the sources when
      the ordering names no file twice. */
  lemma RenameMapDistinct(order: seq<string>, files: Files)
    ensures forall i, j :: 0 <= i < j < |RenameMap(order, files)| ==> RenameMap(order, files)[i].to != RenameMap(order, files)[j].to
    ensures Distinct(order) ==>
      forall i, j :: 0 <= i < j < |RenameMap(order, files)| ==> RenameMap(order, files)[i].from != RenameMap(order, files)[j].from
  {
    var rm, ps := RenameMap(order, files), Present(order, files);
    RenameMapIsSelection(order, files);
    forall i, j | 0 <= i < j < |rm| ensures rm[i].to != rm[j].to {
      JpgNameInjective(ps[i] + 1, ps[j] + 1);
    }
  }

  /** How a run ends: no ordering, the user said no, none of the listed files
      exists, or the renames were carried out. */
  datatype Report = NoOrder | Cancelled | NothingToRename | Reordered(succeeded: nat, failed: nat)

  datatype Run = Run(report: Report, files: Files)

  /** The whole effect of a run on a directory, with the user's answer and the
      positions whose rename the system refuses in each pass as parameters. */
  function ApplyOrderOf(files: Files, order: seq<string>, confirmed: bool, refused1: set<nat>, refused2: set<nat>): (r: Run)
    ensures r.report == NoOrder <==> order == []
    ensures r.report == NothingToRename <==> order != [] && confirmed && RenameMap(order, files) == []
    ensures r.report.Reordered? <==> order != [] && confirmed && RenameMap(order, files) != []
    ensures !r.report.Reordered? ==> r.files == files
    ensures r.report.Reordered? ==> r.report.succeeded + r.report.failed <= |RenameMap(order, files)|
  {
    if order == [] then Run(NoOrder, files)
    else if !confirmed then Run(Cancelled, files)
    else
      var rm := RenameMap(order, files);
      if rm == [] then Run(NothingToRename, files)
      else
        var t := TwoPass(files, rm, TempNames(ReorderTempPrefix, |rm|), refused1, refused2);
        Run(Reordered(t.succeeded, t.failed), t.files)
  }

  /** The plan meets the conditions of the two-pass theorem when the ordering
      names no file twice, no file has a temporary name and the system
      refuses nothing. */
  lemma RenameMapIsClean(order: seq<string>, files: Files)
    requires Distinct(order)
    requires forall i :: TempName(ReorderTempPrefix, i) !in files
    ensures Clean(files, RenameMap(order, files), TempNames(ReorderTempPrefix, |RenameMap(order, files)|), {}, {})
  {
    var rm, ps := RenameMap(order, files), Present(order, files);
    RenameMapIsSelection(order, files);
    RenameMapDistinct(order, files);
    TempNamesDistinct(ReorderTempPrefix, |rm|);
    forall j | 0 <= j < |rm| ensures rm[j].from in files {
      assert ps[j] in ps;
    }
  }

  /** A confirmed run with something to rename is the two-pass rename of rename_map. */
  lemma ApplyOrderOfConfirmed(files: Files, order: seq<string>, refused1: set<nat>, refused2: set<nat>)
    requires order != [] && RenameMap(order, files) != []
    ensures ApplyOrderOf(files, order, true, refused1, refused2) ==
      var t := TwoPass(files, RenameMap(order, files), TempNames(ReorderTempPrefix, |RenameMap(order, files)|), refused1, refused2);
      Run(Reordered(t.succeeded, t.failed), t.files)
  {
  }

  /** When the user confirms, the ordering names no file twice, no temporary
      name is taken and the system refuses nothing: for every k whose entry
      order[k - 1] exists, "{k}.jpg" now holds that file's original contents,
      even when it was itself one of the reordered files (a swap); every
      rename is counted as a success; other files keep their contents; and no
      other name is left behind. */
  lemma ReorderMovesPhotos(files: Files, order: seq<string>)
    requires Distinct(order)
    requires forall i :: TempName(ReorderTempPrefix, i) !in files
    requires order != [] && RenameMap(order, files) != []
    ensures ApplyOrderOf(files, order, true, {}, {}).report == Reordered(|RenameMap(order, files)|, 0)
    ensures forall k :: 1 <= k <= |order| && order[k - 1] in files ==>
      JpgName(k) in ApplyOrderOf(files, order, true, {}, {}).files &&
      ApplyOrderOf(files, order, true, {}, {}).files[JpgName(k)] == files[order[k - 1]]
    ensures forall x :: x in files && x !in order && x !in Targets(RenameMap(order, files)) ==>
      x in ApplyOrderOf(files, order, true, {}, {}).files && ApplyOrderOf(files, order, true, {}, {}).files[x] == files[x]
    ensures forall x :: x in ApplyOrderOf(files, order, true, {}, {}).files ==>
      x in Targets(RenameMap(order, files)) || (x in files && x !in order)
  {
    var rm, ps := RenameMap(order, files), Present(order, files);
    RenameMapIsClean(order, files);
    ApplyOrderOfConfirmed(files, order, {}, {});
    TwoPassMoves(files, rm, TempNames(ReorderTempPrefix, |rm|), {}, {});
    RenameMapIsSelection(order, files);
    var r := ApplyOrderOf(files, order, true, {}, {});
    forall k | 1 <= k <= |order| && order[k - 1] in files
      ensures JpgName(k) in r.files && r.files[JpgName(k)] == files[order[k - 1]]
    {
      RenameMapEntry(order, files, k);
    }
    forall x ensures x in Sources(rm) <==> x in order && x in files {
      RenameMapSources(order, files, x);
    }
  }

  /** The loop that builds rename_map, skipping missing files. */
  method BuildRenameMap(order: seq<string>, files: Files) returns (renameMap: seq<Move>)
    ensures renameMap == RenameMap(order, files)
  {
    renameMap := [];
    for i := 0 to |order|
      invariant renameMap == RenameMap(order[..i], files)
    {
      assert order[..i + 1][..i] == order[..i];
      var oldName := order[i];
      if oldName !in files {
        continue;
      }
      renameMap := renameMap + [Move(oldName, JpgName(i + 1))];
    }
    assert order[..|order|] == order;
  }

  /** The script as a whole, with the user's answer as a parameter. */
  method ApplyOrder(dir: Directory, order: seq<string>, confirmed: bool, refused1: set<nat>, refused2: set<nat>)
    returns (report: Report)
    modifies dir
    ensures Run(report, dir.files) == ApplyOrderOf(old(dir.files), order, confirmed, refused1, refused2)
  {
    if order == [] {
      return NoOrder;
    }
    if !confirmed {
      return Cancelled;
    }
    var renameMap := BuildRenameMap(order, dir.files);
    if renameMap == [] {
      return NothingToRename;
    }
    var successCount, errorCount := dir.TwoPassRename(renameMap, ReorderTempPrefix, refused1, refused2);
    report := Reordered(successCount, errorCount);
  }

  /** The plan for swapping "1.jpg" and "2.jpg". */
  lemma SwapPlan(a: Bytes, b: Bytes)
    ensures RenameMap([JpgName(2), JpgName(1)], map[JpgName(1) := a, JpgName(2) := b])
      == [Move(JpgName(2), JpgName(1)), Move(JpgName(1), JpgName(2))]
  {
    var one, two := JpgName(1), JpgName(2);
    var files := map[one := a, two := b];
    assert [two, one][..1] == [two] && [two][..0] == [];
    assert RenameMap([two], files) == [Move(two, one)];
  }

  /** The directory after applying the ordering ["2.jpg", "1.jpg"] to one that
      holds just "1.jpg" (contents a) and "2.jpg" (contents b). */
  function Swapped(a: Bytes, b: Bytes): Files {
    ApplyOrderOf(map[JpgName(1) := a, JpgName(2) := b], [JpgName(2), JpgName(1)], true, {}, {}).files
  }

  lemma SwapOutcome(a: Bytes, b: Bytes)
    ensures JpgName(1) in Swapped(a, b) && Swapped(a, b)[JpgName(1)] == b
    ensures JpgName(2) in Swapped(a, b) && Swapped(a, b)[JpgName(2)] == a
    ensures forall x :: x in Swapped(a, b) ==> x == JpgName(1) || x == JpgName(2)
  {
    var one, two := JpgName(1), JpgName(2);
    var files := map[one := a, two := b];
    var order := [two, one];
    JpgNameInjective(1, 2);
    forall i ensures TempName(ReorderTempPrefix, i) !in files {
      TempNameIsNotJpgName(ReorderTempPrefix, i, 1);
      TempNameIsNotJpgName(ReorderTempPrefix, i, 2);
    }
    SwapPlan(a, b);
    var rm := RenameMap(order, files);
    assert Targets(rm) == {one, two} by {
      assert rm[0].to == one && rm[1].to == two;
    }
    ReorderMovesPhotos(files, order);
    assert order[0] == two && order[1] == one;
  }

  /** Swapping two photos: the ordering ["2.jpg", "1.jpg"] over a directory
      holding just those two files exchanges their contents. */
  lemma SwapTwoPhotos(a: Bytes, b: Bytes)
    ensures Swapped(a, b) == map[JpgName(1) := b, JpgName(2) := a]
  {
    SwapOutcome(a, b);
    TwoEntries(Swapped(a, b), JpgName(1), b, JpgName(2), a);
  }

  /** A directory holding k1 with contents v1, k2 with contents v2 and
      nothing else. */
  lemma TwoEntries(f: Files, k1: string, v1: Bytes, k2: string, v2: Bytes)
    requires k1 in f && f[k1] == v1 && k2 in f && f[k2] == v2
    requires forall x :: x in f ==> x == k1 || x == k2
    ensures f == map[k1 := v1, k2 := v2]
  {
  }
}
