/** The photo directory as the Python renaming tools see it, and the
    two-pass rename that both of them perform. A directory maps each file
    name to its contents; a rename is an update of that map. */
module Folder {
  import opened Basics
  import opened Decimal

  type Bytes = seq<bv8>
  type Files = map<string, Bytes>

  /** One planned rename, from an existing name to a new one. */
  datatype Move = Move(from: string, to: string)

  /** The directory after os.rename(src, dst) succeeds. */
  function Renamed(files: Files, src: string, dst: string): Files
    requires src in files
  {
    (files - {src})[dst := files[src]]
  }

  /** What a successful rename does: dst now holds what src held (replacing
      any earlier dst, as on POSIX), src is gone unless it is dst, and
      nothing else changes. */
  lemma RenamedEffect(files: Files, src: string, dst: string)
    requires src in files
    ensures
      && dst in Renamed(files, src, dst) && Renamed(files, src, dst)[dst] == files[src]
      && (src != dst ==> src !in Renamed(files, src, dst))
      && (forall k :: k != src && k != dst ==> (k in Renamed(files, src, dst) <==> k in files))
      && (forall k :: k != src && k != dst && k in files ==> Renamed(files, src, dst)[k] == files[k])
  {
  }

  /** The i-th temporary name of a run: prefix + i + ".jpg". */
  function TempName(prefix: string, i: nat): string {
    prefix + NatToString(i) + ".jpg"
  }

  lemma TempNameInjective(prefix: string, i: nat, j: nat)
    ensures TempName(prefix, i) == TempName(prefix, j) ==> i == j
  {
    FramedNumeralInjective(prefix, ".jpg", i, j);
  }

  /** The final name of photo number n: f"{n}.jpg". */
  function JpgName(n: nat): string {
    NatToString(n) + ".jpg"
  }

  lemma JpgNameInjective(m: nat, n: nat)
    ensures JpgName(m) == JpgName(n) ==> m == n
  {
    FramedNumeralInjective([], ".jpg", m, n);
    assert [] + NatToString(m) + ".jpg" == JpgName(m);
    assert [] + NatToString(n) + ".jpg" == JpgName(n);
  }

  /** A temporary name whose prefix does not start with a digit (such as
      "_temp_number_" or "_temp_reorder_") is never a final photo name. */
  lemma TempNameIsNotJpgName(prefix: string, i: nat, n: nat)
    requires |prefix| > 0 && !IsDigit(prefix[0])
    ensures TempName(prefix, i) != JpgName(n)
  {
    assert TempName(prefix, i)[0] == prefix[0];
    assert JpgName(n)[0] == NatToString(n)[0];
  }

  function Sources(moves: seq<Move>): set<string> {
    set i | 0 <= i < |moves| :: moves[i].from
  }

  function Targets(moves: seq<Move>): set<string> {
    set i | 0 <= i < |moves| :: moves[i].to
  }

  /** The names TempName(prefix, 0), ..., TempName(prefix, n - 1). */
  function TempNames(prefix: string, n: nat): (r: seq<string>)
    ensures |r| == n && forall i :: 0 <= i < n ==> r[i] == TempName(prefix, i)
  {
    seq(n, i requires 0 <= i < n => TempName(prefix, i))
  }

  /** The temporary names of a run are pairwise distinct and, when the prefix
      does not start with a digit, none is a final photo name. */
  lemma TempNamesDistinct(prefix: string, n: nat)
    requires |prefix| > 0 && !IsDigit(prefix[0])
    ensures forall i, j :: 0 <= i < j < n ==> TempNames(prefix, n)[i] != TempNames(prefix, n)[j]
    ensures forall i, k :: 0 <= i < n ==> TempNames(prefix, n)[i] != JpgName(k)
  {
    forall i, j | 0 <= i < j < n ensures TempName(prefix, i) != TempName(prefix, j) {
      TempNameInjective(prefix, i, j);
    }
    forall i, k | 0 <= i < n ensures TempName(prefix, i) != JpgName(k) {
      TempNameIsNotJpgName(prefix, i, k);
    }
  }

  /** The state of a renaming loop: the directory, the positions whose rename
      succeeded (in order) and the number of renames that raised an error. */
  datatype Pass = Pass(files: Files, done: seq<nat>, failed: nat)

  /** One iteration of a renaming loop at position i. The rename fails when
      its source is missing or when the system refuses it (i in refused:
      permissions, an existing target on Windows, ...); a failure leaves the
      directory as it was. */
  function Step(p: Pass, m: Move, i: nat, refused: set<nat>): Pass {
    if m.from in p.files && i !in refused then
      Pass(Renamed(p.files, m.from, m.to), p.done + [i], p.failed)
    else
      Pass(p.files, p.done, p.failed + 1)
  }

  /** The first n iterations of a loop that tries moves[0], moves[1], ... in turn. */
  function Renames(files: Files, moves: seq<Move>, refused: set<nat>, n: nat): (r: Pass)
    requires n <= |moves|
    ensures |r.done| + r.failed == n
    ensures forall j :: 0 <= j < |r.done| ==> r.done[j] < n
  {
    if n == 0 then Pass(files, [], 0)
    else Step(Renames(files, moves, refused, n - 1), moves[n - 1], n - 1, refused)
  }

  /** The loop logs each position it moved once, in increasing order, and
      never a position whose rename was refused. */
  lemma {:induction false} RenamesDone(files: Files, moves: seq<Move>, refused: set<nat>, n: nat)
    requires n <= |moves|
    ensures
      && (forall j :: 0 <= j < |Renames(files, moves, refused, n).done| ==> Renames(files, moves, refused, n).done[j] !in refused)
      && (forall i, j :: 0 <= i < j < |Renames(files, moves, refused, n).done| ==> Renames(files, moves, refused, n).done[i] < Renames(files, moves, refused, n).done[j])
  {
    if n > 0 {
      RenamesDone(files, moves, refused, n - 1);
    }
  }

  /** The loop logs position i exactly when the system did not refuse it and
      its source was there when the loop reached it. */
  lemma {:induction false} RenamesLogged(files: Files, moves: seq<Move>, refused: set<nat>, n: nat)
    requires n <= |moves|
    ensures forall i :: 0 <= i < n ==>
      (i in Renames(files, moves, refused, n).done <==> i !in refused && moves[i].from in Renames(files, moves, refused, i).files)
  {
    if n > 0 {
      RenamesLogged(files, moves, refused, n - 1);
      var before := Renames(files, moves, refused, n - 1);
      var ok := moves[n - 1].from in before.files && n - 1 !in refused;
      var done := if ok then before.done + [n - 1] else before.done;
      assert Renames(files, moves, refused, n).done == done;
      assert n - 1 !in before.done;
      forall i | 0 <= i < n
        ensures i in done <==> i !in refused && moves[i].from in Renames(files, moves, refused, i).files
      {
        if i < n - 1 {
          assert i in done <==> i in before.done;
        }
      }
    }
  }

  /** The moves none of which can disturb another when carried out in order:
      the sources exist and are distinct, the targets are distinct and no
      target is the source of any move. */
  ghost predicate Independent(files: Files, moves: seq<Move>) {
    && (forall i :: 0 <= i < |moves| ==> moves[i].from in files)
    && (forall i, j :: 0 <= i < j < |moves| ==> moves[i].from != moves[j].from && moves[i].to != moves[j].to)
    && (forall i, j :: 0 <= i < |moves| && 0 <= j < |moves| ==> moves[i].to != moves[j].from)
  }

  /** A source of independent moves that is still to be moved keeps its
      contents, whatever happened to the moves before it. */
  lemma {:induction false} RenamesPending(files: Files, moves: seq<Move>, refused: set<nat>, n: nat, i: nat)
    requires n <= i < |moves| && Independent(files, moves)
    ensures
      moves[i].from in Renames(files, moves, refused, n).files && Renames(files, moves, refused, n).files[moves[i].from] == files[moves[i].from]
  {
    if n > 0 {
      RenamesPending(files, moves, refused, n - 1, i);
      assert moves[n - 1].from != moves[i].from && moves[n - 1].to != moves[i].from;
    }
  }

  /** Independent moves none of which is refused all succeed, in order. */
  lemma {:induction false} RenamesAllDone(files: Files, moves: seq<Move>, refused: set<nat>, n: nat)
    requires n <= |moves| && Independent(files, moves)
    requires forall i :: 0 <= i < n ==> i !in refused
    ensures
      Renames(files, moves, refused, n).failed == 0 && |Renames(files, moves, refused, n).done| == n && forall j :: 0 <= j < n ==> Renames(files, moves, refused, n).done[j] == j
  {
    if n > 0 {
      RenamesAllDone(files, moves, refused, n - 1);
      RenamesPending(files, moves, refused, n - 1, n - 1);
    }
  }

  /** Each target of such moves then holds its source's original contents ... */
  lemma {:induction false} RenamesReachTarget(files: Files, moves: seq<Move>, refused: set<nat>, n: nat, i: nat)
    requires i < n <= |moves| && Independent(files, moves)
    requires forall i :: 0 <= i < n ==> i !in refused
    ensures
      moves[i].to in Renames(files, moves, refused, n).files && Renames(files, moves, refused, n).files[moves[i].to] == files[moves[i].from]
  {
    RenamesPending(files, moves, refused, n - 1, n - 1);
    if i < n - 1 {
      RenamesReachTarget(files, moves, refused, n - 1, i);
      assert moves[i].to != moves[n - 1].from && moves[i].to != moves[n - 1].to;
    }
  }

  /** ... and each source is gone. */
  lemma {:induction false} RenamesVacate(files: Files, moves: seq<Move>, refused: set<nat>, n: nat, i: nat)
    requires i < n <= |moves| && Independent(files, moves)
    requires forall i :: 0 <= i < n ==> i !in refused
    ensures moves[i].from !in Renames(files, moves, refused, n).files
  {
    RenamesPending(files, moves, refused, n - 1, n - 1);
    if i < n - 1 {
      RenamesVacate(files, moves, refused, n - 1, i);
      assert moves[i].from != moves[n - 1].to;
    }
  }

  /** Any renaming loop leaves a name that is neither a source nor a target
      untouched ... */
  lemma {:induction false} RenamesFrame(files: Files, moves: seq<Move>, refused: set<nat>, n: nat, k: string)
    requires n <= |moves|
    requires forall i :: 0 <= i < |moves| ==> k != moves[i].from && k != moves[i].to
    ensures
      (k in Renames(files, moves, refused, n).files <==> k in files) && (k in files ==> Renames(files, moves, refused, n).files[k] == files[k])
  {
    if n > 0 {
      RenamesFrame(files, moves, refused, n - 1, k);
    }
  }

  /** ... and creates no name that is not one of its targets. */
  lemma {:induction false} RenamesKeys(files: Files, moves: seq<Move>, refused: set<nat>, n: nat, k: string)
    requires n <= |moves|
    requires k in Renames(files, moves, refused, n).files && k !in files
    ensures exists i :: 0 <= i < n && moves[i].to == k
  {
    var r0 := Renames(files, moves, refused, n - 1);
    if k in r0.files {
      RenamesKeys(files, moves, refused, n - 1, k);
    } else {
      assert moves[n - 1].to == k;
    }
  }

  /** Pass 1: each planned move's source goes to the temporary name of its
      position instead of its target. */
  function FirstMoves(moves: seq<Move>, temps: seq<string>): (r: seq<Move>)
    requires |temps| == |moves|
    ensures |r| == |moves|
    ensures forall i :: 0 <= i < |r| ==> r[i] == Move(moves[i].from, temps[i])
  {
    seq(|moves|, i requires 0 <= i < |moves| => Move(moves[i].from, temps[i]))
  }

  /** The list pass 1 builds: for each position it moved, in order, its
      temporary name and its final target. */
  function TempMap(moves: seq<Move>, temps: seq<string>, done: seq<nat>): (r: seq<Move>)
    requires |temps| == |moves|
    requires forall j :: 0 <= j < |done| ==> done[j] < |moves|
    ensures |r| == |done|
    ensures forall j :: 0 <= j < |r| ==> r[j] == Move(temps[done[j]], moves[done[j]].to)
  {
    seq(|done|, j requires 0 <= j < |done| => Move(temps[done[j]], moves[done[j]].to))
  }

  /** Logging one more position appends its entry to the temporary map. */
  lemma TempMapAppend(moves: seq<Move>, temps: seq<string>, done: seq<nat>, i: nat)
    requires |temps| == |moves| && i < |moves|
    requires forall j :: 0 <= j < |done| ==> done[j] < |moves|
    ensures TempMap(moves, temps, done + [i]) == TempMap(moves, temps, done) + [Move(temps[i], moves[i].to)]
  {
    var a, b := TempMap(moves, temps, done + [i]), TempMap(moves, temps, done) + [Move(temps[i], moves[i].to)];
    forall j | 0 <= j < |a| ensures a[j] == b[j] {
      assert (done + [i])[j] == if j < |done| then done[j] else i;
    }
  }

  /** Pass 2 works through exactly what pass 1 moved: entry j of the
      temporary map pairs the temporary name and the target of the j-th
      position pass 1 logged, and pass 1 logs position i exactly when it
      was not refused and its source was still there at that point. */
  lemma TwoPassLog(files: Files, moves: seq<Move>, temps: seq<string>, refused1: set<nat>, refused2: set<nat>)
    requires |temps| == |moves|
    ensures |TwoPass(files, moves, temps, refused1, refused2).tempMap| == |FirstPass(files, moves, temps, refused1).done|
    ensures forall j :: 0 <= j < |FirstPass(files, moves, temps, refused1).done| ==>
      && FirstPass(files, moves, temps, refused1).done[j] < |moves|
      && TwoPass(files, moves, temps, refused1, refused2).tempMap[j]
         == Move(temps[FirstPass(files, moves, temps, refused1).done[j]], moves[FirstPass(files, moves, temps, refused1).done[j]].to)
    ensures forall i :: 0 <= i < |moves| ==>
      (i in FirstPass(files, moves, temps, refused1).done <==>
        i !in refused1 && moves[i].from in Renames(files, FirstMoves(moves, temps), refused1, i).files)
  {
    RenamesLogged(files, FirstMoves(moves, temps), refused1, |moves|);
  }

  /** What a two-pass rename leaves: the directory, the temporary map built
      by pass 1 and the success and error counters of pass 2. */
  datatype Outcome = Outcome(files: Files, tempMap: seq<Move>, succeeded: nat, failed: nat)

  /** The state after pass 1. */
  function FirstPass(files: Files, moves: seq<Move>, temps: seq<string>, refused1: set<nat>): Pass
    requires |temps| == |moves|
  {
    Renames(files, FirstMoves(moves, temps), refused1, |moves|)
  }

  /** Both passes, temps[i] being the temporary name of position i. Pass 2
      renames only what pass 1 moved, each to its final target, so the
      counters add up to the length of the temporary map, which lists only
      positions pass 1 did not refuse. */
  function TwoPass(files: Files, moves: seq<Move>, temps: seq<string>, refused1: set<nat>, refused2: set<nat>): (r: Outcome)
    requires |temps| == |moves|
    ensures r.succeeded + r.failed == |r.tempMap| <= |moves|
    ensures forall j :: 0 <= j < |r.tempMap| ==>
      exists i :: 0 <= i < |moves| && i !in refused1 && r.tempMap[j] == Move(temps[i], moves[i].to)
  {
    var first := FirstPass(files, moves, temps, refused1);
    RenamesDone(files, FirstMoves(moves, temps), refused1, |moves|);
    var tempMap := TempMap(moves, temps, first.done);
    assert forall j :: 0 <= j < |tempMap| ==> first.done[j] !in refused1 && tempMap[j] == Move(temps[first.done[j]], moves[first.done[j]].to);
    var second := Renames(first.files, tempMap, refused2, |tempMap|);
    Outcome(second.files, tempMap, |second.done|, second.failed)
  }

  /** The conditions of the two-pass theorem: every source exists, sources
      are pairwise distinct, targets are pairwise distinct; the temporary
      names are pairwise distinct, unused, and differ from every target; and
      no rename is refused in either pass. */
  ghost predicate Clean(files: Files, moves: seq<Move>, temps: seq<string>, refused1: set<nat>, refused2: set<nat>) {
    && |temps| == |moves|
    && (forall i :: 0 <= i < |moves| ==> moves[i].from in files && temps[i] !in files)
    && (forall i, j :: 0 <= i < j < |moves| ==> moves[i].from != moves[j].from && moves[i].to != moves[j].to)
    && (forall i, j :: 0 <= i < j < |moves| ==> temps[i] != temps[j])
    && (forall i, j :: 0 <= i < |moves| && 0 <= j < |moves| ==> temps[i] != moves[j].to)
    && (forall i :: 0 <= i < |moves| ==> i !in refused1 && i !in refused2)
  }

  /** Pass 1 of a clean plan can never disturb itself ... */
  lemma FirstMovesIndependent(files: Files, moves: seq<Move>, temps: seq<string>, refused1: set<nat>, refused2: set<nat>)
    requires Clean(files, moves, temps, refused1, refused2)
    ensures Independent(files, FirstMoves(moves, temps))
  {
  }

  /** ... so it moves everything: the temporary map is the whole plan with
      each source replaced by its temporary name ... */
  lemma FirstPassLog(files: Files, moves: seq<Move>, temps: seq<string>, refused1: set<nat>, refused2: set<nat>)
    requires Clean(files, moves, temps, refused1, refused2)
    ensures
      |TempMap(moves, temps, FirstPass(files, moves, temps, refused1).done)| == |moves| && forall i :: 0 <= i < |moves| ==> TempMap(moves, temps, FirstPass(files, moves, temps, refused1).done)[i] == Move(temps[i], moves[i].to)
  {
    FirstMovesIndependent(files, moves, temps, refused1, refused2);
    RenamesAllDone(files, FirstMoves(moves, temps), refused1, |moves|);
  }

  /** ... temporary name i holds source i's contents ... */
  lemma FirstPassHolds(files: Files, moves: seq<Move>, temps: seq<string>, refused1: set<nat>, refused2: set<nat>, i: nat)
    requires Clean(files, moves, temps, refused1, refused2) && i < |moves|
    ensures
      temps[i] in FirstPass(files, moves, temps, refused1).files && FirstPass(files, moves, temps, refused1).files[temps[i]] == files[moves[i].from]
  {
    FirstMovesIndependent(files, moves, temps, refused1, refused2);
    RenamesReachTarget(files, FirstMoves(moves, temps), refused1, |moves|, i);
  }

  /** ... and source i is gone. */
  lemma FirstPassVacates(files: Files, moves: seq<Move>, temps: seq<string>, refused1: set<nat>, refused2: set<nat>, i: nat)
    requires Clean(files, moves, temps, refused1, refused2) && i < |moves|
    ensures moves[i].from !in FirstPass(files, moves, temps, refused1).files
  {
    FirstMovesIndependent(files, moves, temps, refused1, refused2);
    RenamesVacate(files, FirstMoves(moves, temps), refused1, |moves|, i);
  }

  /** Pass 2 of a clean plan can never disturb itself either. */
  lemma SecondMovesIndependent(files: Files, moves: seq<Move>, temps: seq<string>, refused1: set<nat>, refused2: set<nat>)
    requires Clean(files, moves, temps, refused1, refused2)
    ensures
      Independent(FirstPass(files, moves, temps, refused1).files, TempMap(moves, temps, FirstPass(files, moves, temps, refused1).done))
  {
    FirstPassLog(files, moves, temps, refused1, refused2);
    var first := FirstPass(files, moves, temps, refused1);
    forall i | 0 <= i < |moves| ensures temps[i] in first.files {
      FirstPassHolds(files, moves, temps, refused1, refused2, i);
    }
    TempPlanIndependent(first.files, moves, temps, TempMap(moves, temps, first.done));
  }

  /** Moves from distinct existing temporary names to distinct targets, none
      of which is a temporary name, cannot disturb one another. */
  lemma TempPlanIndependent(f: Files, moves: seq<Move>, temps: seq<string>, tm: seq<Move>)
    requires |tm| == |moves| == |temps|
    requires forall i :: 0 <= i < |tm| ==> tm[i] == Move(temps[i], moves[i].to)
    requires forall i :: 0 <= i < |temps| ==> temps[i] in f
    requires forall i, j :: 0 <= i < j < |moves| ==> moves[i].to != moves[j].to && temps[i] != temps[j]
    requires forall i, j :: 0 <= i < |moves| && 0 <= j < |moves| ==> temps[i] != moves[j].to
    ensures Independent(f, tm)
  {
  }

  /** Target i of a clean plan ends up with source i's original contents. */
  lemma TwoPassTarget(files: Files, moves: seq<Move>, temps: seq<string>, refused1: set<nat>, refused2: set<nat>, i: nat)
    requires Clean(files, moves, temps, refused1, refused2) && i < |moves|
    ensures
      moves[i].to in TwoPass(files, moves, temps, refused1, refused2).files && TwoPass(files, moves, temps, refused1, refused2).files[moves[i].to] == files[moves[i].from]
  {
    var first := FirstPass(files, moves, temps, refused1);
    var tm := TempMap(moves, temps, first.done);
    FirstPassLog(files, moves, temps, refused1, refused2);
    FirstPassHolds(files, moves, temps, refused1, refused2, i);
    SecondMovesIndependent(files, moves, temps, refused1, refused2);
    RenamesReachTarget(first.files, tm, refused2, |tm|, i);
  }

  /** A file outside a clean plan keeps its contents. */
  lemma TwoPassFrame(files: Files, moves: seq<Move>, temps: seq<string>, refused1: set<nat>, refused2: set<nat>, k: string)
    requires Clean(files, moves, temps, refused1, refused2)
    requires k in files && forall i :: 0 <= i < |moves| ==> k != moves[i].from && k != moves[i].to
    ensures
      k in TwoPass(files, moves, temps, refused1, refused2).files && TwoPass(files, moves, temps, refused1, refused2).files[k] == files[k]
  {
    var first := FirstPass(files, moves, temps, refused1);
    var tm := TempMap(moves, temps, first.done);
    FirstPassLog(files, moves, temps, refused1, refused2);
    RenamesFrame(files, FirstMoves(moves, temps), refused1, |moves|, k);
    RenamesFrame(first.files, tm, refused2, |tm|, k);
  }

  /** No temporary file of a clean plan is left over. */
  lemma TwoPassTempGone(files: Files, moves: seq<Move>, temps: seq<string>, refused1: set<nat>, refused2: set<nat>, i: nat)
    requires Clean(files, moves, temps, refused1, refused2) && i < |moves|
    ensures temps[i] !in TwoPass(files, moves, temps, refused1, refused2).files
  {
    var first := FirstPass(files, moves, temps, refused1);
    var tm := TempMap(moves, temps, first.done);
    FirstPassLog(files, moves, temps, refused1, refused2);
    SecondMovesIndependent(files, moves, temps, refused1, refused2);
    RenamesVacate(first.files, tm, refused2, |tm|, i);
  }

  /** A name a clean plan leaves that is not one of its targets was there
      before and was not moved: no temporary file, no vacated source. */
  lemma TwoPassKeys(files: Files, moves: seq<Move>, temps: seq<string>, refused1: set<nat>, refused2: set<nat>, k: string)
    requires Clean(files, moves, temps, refused1, refused2)
    requires k in TwoPass(files, moves, temps, refused1, refused2).files
    requires forall i :: 0 <= i < |moves| ==> k != moves[i].to
    ensures k in files && forall i :: 0 <= i < |moves| ==> k != moves[i].from
  {
    TwoPassKeysFirst(files, moves, temps, refused1, refused2, k);
    forall i | 0 <= i < |moves| ensures k != temps[i] {
      TwoPassTempGone(files, moves, temps, refused1, refused2, i);
    }
    if k !in files {
      RenamesKeys(files, FirstMoves(moves, temps), refused1, |moves|, k);
    }
    forall i | 0 <= i < |moves| ensures k != moves[i].from {
      FirstPassVacates(files, moves, temps, refused1, refused2, i);
    }
  }

  /** Pass 2 of a clean plan adds no name but its targets. */
  lemma TwoPassKeysFirst(files: Files, moves: seq<Move>, temps: seq<string>, refused1: set<nat>, refused2: set<nat>, k: string)
    requires Clean(files, moves, temps, refused1, refused2)
    requires k in TwoPass(files, moves, temps, refused1, refused2).files
    requires forall i :: 0 <= i < |moves| ==> k != moves[i].to
    ensures k in FirstPass(files, moves, temps, refused1).files
  {
    var first := FirstPass(files, moves, temps, refused1);
    var tm := TempMap(moves, temps, first.done);
    FirstPassLog(files, moves, temps, refused1, refused2);
    assert TwoPass(files, moves, temps, refused1, refused2).files == Renames(first.files, tm, refused2, |tm|).files;
    forall i | 0 <= i < |tm| ensures tm[i].to != k {
      assert tm[i].to == moves[i].to;
    }
    RenamesKeysUntargeted(first.files, tm, refused2, |tm|, k);
  }

  /** A name no rename targets is there afterwards only if it was there before. */
  lemma RenamesKeysUntargeted(files: Files, moves: seq<Move>, refused: set<nat>, n: nat, k: string)
    requires n <= |moves|
    requires k in Renames(files, moves, refused, n).files
    requires forall i :: 0 <= i < n ==> moves[i].to != k
    ensures k in files
  {
    if k !in files {
      RenamesKeys(files, moves, refused, n, k);
    }
  }

  /** The point of the two passes: with distinct sources, distinct targets and
      fresh temporary names, and no rename refused, every rename succeeds;
      every target ends up with the original contents of its source, even
      when targets are also sources (a swap, a rotation); files outside the
      plan keep their contents; and nothing else is left behind, no
      temporary file and no moved source that is not also a target. */
  lemma TwoPassMoves(files: Files, moves: seq<Move>, temps: seq<string>, refused1: set<nat>, refused2: set<nat>)
    requires Clean(files, moves, temps, refused1, refused2)
    ensures
      && TwoPass(files, moves, temps, refused1, refused2).succeeded == |moves| && TwoPass(files, moves, temps, refused1, refused2).failed == 0
      && (forall i :: 0 <= i < |moves| ==> moves[i].to in TwoPass(files, moves, temps, refused1, refused2).files && TwoPass(files, moves, temps, refused1, refused2).files[moves[i].to] == files[moves[i].from])
      && (forall k :: k in files && k !in Sources(moves) && k !in Targets(moves) ==> k in TwoPass(files, moves, temps, refused1, refused2).files && TwoPass(files, moves, temps, refused1, refused2).files[k] == files[k])
      && (forall k :: k in TwoPass(files, moves, temps, refused1, refused2).files ==> k in Targets(moves) || (k in files && k !in Sources(moves)))
  {
    var first := FirstPass(files, moves, temps, refused1);
    var tm := TempMap(moves, temps, first.done);
    var r := TwoPass(files, moves, temps, refused1, refused2);
    FirstPassLog(files, moves, temps, refused1, refused2);
    SecondMovesIndependent(files, moves, temps, refused1, refused2);
    RenamesAllDone(first.files, tm, refused2, |tm|);
    forall i | 0 <= i < |moves| ensures moves[i].to in r.files && r.files[moves[i].to] == files[moves[i].from] {
      TwoPassTarget(files, moves, temps, refused1, refused2, i);
    }
    forall k | k in files && k !in Sources(moves) && k !in Targets(moves) ensures k in r.files && r.files[k] == files[k] {
      forall i | 0 <= i < |moves| ensures k != moves[i].from && k != moves[i].to {
        assert moves[i].from in Sources(moves) && moves[i].to in Targets(moves);
      }
      TwoPassFrame(files, moves, temps, refused1, refused2, k);
    }
    forall k | k in r.files ensures k in Targets(moves) || (k in files && k !in Sources(moves)) {
      if k !in Targets(moves) {
        forall i | 0 <= i < |moves| ensures k != moves[i].to {
          assert moves[i].to in Targets(moves);
        }
        TwoPassKeys(files, moves, temps, refused1, refused2, k);
      }
    }
  }

  /** The directory the scripts work in. */
  class Directory {
    var files: Files

    constructor (contents: Files)
      ensures files == contents
    {
      files := contents;
    }

    /** os.rename(src, dst), failing when src is missing or the system refuses. */
    method Rename(src: string, dst: string, refused: bool) returns (ok: bool)
      modifies this
      ensures ok == (src in old(files) && !refused)
      ensures ok ==> files == Renamed(old(files), src, dst)
      ensures !ok ==> files == old(files)
    {
      ok := src in files && !refused;
      if ok {
        files := (files - {src})[dst := files[src]];
      }
    }

    /** Pass 1 moves each planned source to its temporary name prefix + i +
        ".jpg" and logs its temporary name and target. */
    method FirstPassRename(moves: seq<Move>, prefix: string, refused1: set<nat>) returns (tempMap: seq<Move>)
      modifies this
      ensures var p := FirstPass(old(files), moves, TempNames(prefix, |moves|), refused1);
        files == p.files && tempMap == TempMap(moves, TempNames(prefix, |moves|), p.done)
    {
      ghost var temps := TempNames(prefix, |moves|);
      ghost var fm := FirstMoves(moves, temps);
      tempMap := [];
      var i: nat := 0;
      while i < |moves|
        invariant i <= |moves|
        invariant var p := Renames(old(files), fm, refused1, i);
          files == p.files && tempMap == TempMap(moves, temps, p.done)
      {
        ghost var p := Renames(old(files), fm, refused1, i);
        assert Renames(old(files), fm, refused1, i + 1) == Step(p, Move(moves[i].from, temps[i]), i, refused1);
        var tempName := TempName(prefix, i);
        var ok := Rename(moves[i].from, tempName, i in refused1);
        if ok {
          TempMapAppend(moves, temps, p.done, i);
          tempMap := tempMap + [Move(tempName, moves[i].to)];
        }
        i := i + 1;
      }
    }

    /** Pass 2 moves each logged temporary file to its target and counts
        successes and errors. */
    method SecondPassRename(tempMap: seq<Move>, refused2: set<nat>) returns (succeeded: nat, failed: nat)
      modifies this
      ensures var p := Renames(old(files), tempMap, refused2, |tempMap|);
        files == p.files && succeeded == |p.done| && failed == p.failed
    {
      succeeded, failed := 0, 0;
      var j: nat := 0;
      while j < |tempMap|
        invariant j <= |tempMap|
        invariant var p := Renames(old(files), tempMap, refused2, j);
          files == p.files && succeeded == |p.done| && failed == p.failed
      {
        var ok := Rename(tempMap[j].from, tempMap[j].to, j in refused2);
        if ok {
          succeeded := succeeded + 1;
        } else {
          failed := failed + 1;
        }
        j := j + 1;
      }
    }

    /** The two-pass rename of number_new_photos.py and apply_order.py. */
    method TwoPassRename(moves: seq<Move>, prefix: string, refused1: set<nat>, refused2: set<nat>)
      returns (succeeded: nat, failed: nat)
      modifies this
      ensures var r := TwoPass(old(files), moves, TempNames(prefix, |moves|), refused1, refused2);
        files == r.files && succeeded == r.succeeded && failed == r.failed
    {
      var tempMap := FirstPassRename(moves, prefix, refused1);
      succeeded, failed := SecondPassRename(tempMap, refused2);
    }
  }
}
