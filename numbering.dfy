/** number_new_photos.py: give the photos that do not yet have a number the
    next free numbers, as "{n}.jpg", without touching the numbered ones. */
module Numbering {
  import opened Basics
  import opened Decimal
  import opened Names
  import opened Folder

  /** The glob patterns *.jpg, *.jpeg, ... in lower and upper case. */
  const GlobExtensions: seq<string> :=
    [".jpg", ".jpeg", ".png", ".gif", ".webp", ".JPG", ".JPEG", ".PNG", ".GIF", ".WEBP"]

  const NumberTempPrefix: string := "_temp_number_"

  /** A name matched by one of the patterns: on a case-sensitive file system,
      "*" matches any name that does not start with '.', and the rest must
      be the literal extension. */
  predicate MatchesGlob(name: string) {
    |name| > 0 && name[0] != '.' &&
    exists i :: 0 <= i < |GlobExtensions| && EndsWith(name, GlobExtensions[i])
  }

  /** The set the collection loop builds from all patterns. */
  function GlobMatches(files: Files): set<string> {
    set k | k in files && MatchesGlob(k)
  }

  /** glob.glob of the pattern "*" + ext in the directory. */
  function Glob(files: Files, ext: string): set<string> {
    set k | k in files && |k| > 0 && k[0] != '.' && EndsWith(k, ext)
  }

  /** A name matched by one of the first e patterns. */
  ghost predicate MatchesFirst(name: string, e: nat) {
    |name| > 0 && name[0] != '.' &&
    exists i :: 0 <= i < e && i < |GlobExtensions| && EndsWith(name, GlobExtensions[i])
  }

  /** One more pattern adds the names it matches. */
  lemma MatchesFirstStep(name: string, e: nat)
    requires e < |GlobExtensions|
    ensures MatchesFirst(name, e + 1) <==>
      MatchesFirst(name, e) || (|name| > 0 && name[0] != '.' && EndsWith(name, GlobExtensions[e]))
  {
  }

  /** The collection loop: every match of every pattern, each name once. */
  method CollectFiles(files: Files) returns (allFiles: set<string>)
    ensures allFiles == GlobMatches(files)
  {
    allFiles := {};
    for e := 0 to |GlobExtensions|
      invariant forall k :: k in allFiles <==> k in files && MatchesFirst(k, e)
    {
      var found := Glob(files, GlobExtensions[e]);
      forall k ensures k in allFiles + found <==> k in files && MatchesFirst(k, e + 1) {
        MatchesFirstStep(k, e);
      }
      allFiles := allFiles + found;
    }
    assert forall k :: MatchesFirst(k, |GlobExtensions|) <==> MatchesGlob(k);
  }

  /** all_files, sorted (all paths share the directory, so they sort as
      their names do). */
  function AllFiles(files: Files): seq<string> {
    SortedNames(GlobMatches(files))
  }

  /** os.path.splitext(name)[0]: the name without its last extension, where
      an extension starts at the last dot and leading dots do not count. */
  function Stem(name: string): (r: string)
    ensures |r| <= |name|
  {
    match LastDot(name)
    case None => name
    case Some(d) =>
      if exists j :: 0 <= j < d && name[j] != '.' then name[..d] else name
  }

  /** A name with a dot-free extension loses exactly that extension when
      something other than a dot precedes the extension's dot. */
  lemma StemDropsExtension(head: string, tail: string)
    requires forall j :: 0 <= j < |tail| ==> tail[j] != '.'
    requires exists j :: 0 <= j < |head| && head[j] != '.'
    ensures Stem(head + "." + tail) == head
  {
    var name := head + "." + tail;
    LastDotBeforeTail(head, tail);
    var j :| 0 <= j < |head| && head[j] != '.';
    assert name[j] == head[j];
    assert name[..|head|] == head;
  }

  /** A name in which no dot follows a character other than a dot (no dot
      at all, ".hidden", "..") is its own stem. */
  lemma StemKeepsLeadingDots(name: string)
    requires forall j, k :: 0 <= j < k < |name| && name[j] != '.' ==> name[k] != '.'
    ensures Stem(name) == name
  {
  }

  /** re.match(r'^\d+$', stem): one or more Unicode decimal digits, where
      "$" also matches just before a final newline. */
  predicate IsNumberStem(stem: string) {
    (|stem| > 0 && AllDecimal(stem)) ||
    (|stem| > 1 && stem[|stem| - 1] == '\n' && AllDecimal(stem[..|stem| - 1]))
  }

  /** int(stem) for a number stem (int() ignores the trailing newline). */
  function StemValue(stem: string): nat
    requires IsNumberStem(stem)
  {
    if AllDecimal(stem) then DecimalsValue(stem) else DecimalsValue(stem[..|stem| - 1])
  }

  /** A non-empty stem of ASCII digits is a number, read in decimal. */
  lemma AsciiNumberStem(stem: string)
    requires |stem| > 0 && AllDigits(stem)
    ensures IsNumberStem(stem) && StemValue(stem) == DigitsValue(stem)
  {
    AsciiDecimalsValue(stem);
  }

  /** One final newline is allowed by "$" and ignored by int(). */
  lemma NumberStemNewline(stem: string)
    requires |stem| > 0 && AllDecimal(stem)
    ensures IsNumberStem(stem + "\n") && StemValue(stem + "\n") == StemValue(stem)
  {
    NewlineIsNotDecimal();
    var t := stem + "\n";
    assert !AllDecimal(t) by {
      assert t[|t| - 1] == '\n';
    }
    assert t[..|t| - 1] == stem;
  }

  /** Any character that is not a decimal digit, other than one final
      newline, makes the stem fail the test; so does the empty stem. */
  lemma NonDecimalStem(stem: string, i: nat)
    requires i < |stem| && !IsDecimal(stem[i])
    requires !(i == |stem| - 1 && stem[i] == '\n')
    ensures !IsNumberStem(stem) && !IsNumberStem([])
  {
    if |stem| > 1 && stem[|stem| - 1] == '\n' {
      assert stem[..|stem| - 1][i] == stem[i];
    }
  }

  predicate IsNumbered(name: string) {
    IsNumberStem(Stem(name))
  }

  predicate IsUnnumbered(name: string) {
    !IsNumbered(name)
  }

  function NumberOf(name: string): nat
    requires IsNumbered(name)
  {
    StemValue(Stem(name))
  }

  /** The map a loop builds by storing each name that passes keep under its
      key, a later name replacing an earlier one with the same key. */
  function KeyedBy(names: seq<string>, keep: string -> bool, key: string -> nat): (r: map<nat, string>)
    ensures forall n :: n in r ==> r[n] in names && keep(r[n]) && key(r[n]) == n
  {
    if names == [] then map[]
    else
      var init, last := names[..|names| - 1], names[|names| - 1];
      var r0 := KeyedBy(init, keep, key);
      assert forall i :: 0 <= i < |init| ==> init[i] == names[i];
      if keep(last) then r0[key(last) := last] else r0
  }

  /** Every kept name's key is in the map. */
  lemma {:induction false} KeyedByCovers(names: seq<string>, keep: string -> bool, key: string -> nat, i: nat)
    requires i < |names| && keep(names[i])
    ensures key(names[i]) in KeyedBy(names, keep, key)
  {
    var init := names[..|names| - 1];
    if i < |names| - 1 {
      assert init[i] == names[i];
      KeyedByCovers(init, keep, key, i);
    }
  }

  /** The number of a numbered name, and 0 for any other (never used as a key). */
  function NumberOrZero(name: string): nat {
    if IsNumbered(name) then NumberOf(name) else 0
  }

  /** numbered_files after the classification loop over names: each number
      maps to the last name carrying it. */
  function NumberedOf(names: seq<string>): (r: map<nat, string>)
    ensures forall n :: n in r ==> r[n] in names && IsNumbered(r[n]) && NumberOf(r[n]) == n
  {
    KeyedBy(names, IsNumbered, NumberOrZero)
  }

  /** ... and every numbered name's number is a key. */
  lemma NumberedOfCovers(names: seq<string>, i: nat)
    requires i < |names| && IsNumbered(names[i])
    ensures NumberOf(names[i]) in NumberedOf(names)
  {
    KeyedByCovers(names, IsNumbered, NumberOrZero, i);
  }

  /** unnumbered_files after the classification loop. */
  function Unnumbered(names: seq<string>): seq<string> {
    Filter(names, IsUnnumbered)
  }

  lemma {:induction false} MaxExists(s: set<nat>)
    requires s != {}
    ensures exists m :: m in s && forall x :: x in s ==> x <= m
    decreases |s|
  {
    var y :| y in s;
    if s - {y} != {} {
      MaxExists(s - {y});
      var m :| m in s - {y} && forall x :: x in s - {y} ==> x <= m;
      MaxStep(s, y, m);
    } else {
      assert s == {y};
      assert forall x :: x in s ==> x <= y;
    }
  }

  /** The larger of y and the maximum m of the rest is the maximum of s. */
  lemma MaxStep(s: set<nat>, y: nat, m: nat)
    requires y in s && m in s - {y} && forall x :: x in s - {y} ==> x <= m
    ensures (if m < y then y else m) in s
    ensures forall x :: x in s ==> x <= (if m < y then y else m)
  {
    forall x | x in s ensures x <= (if m < y then y else m) {
      if x != y {
        assert x in s - {y};
      }
    }
  }

  /** max(...) of a non-empty set of numbers. */
  function MaxOf(s: set<nat>): (m: nat)
    requires s != {}
    ensures m in s && forall x :: x in s ==> x <= m
  {
    MaxExists(s);
    var m :| m in s && forall x :: x in s ==> x <= m;
    m
  }

  /** next_number: one more than the largest number in use, or 1. */
  function NextNumber(numbered: map<nat, string>): (n: nat)
    ensures n >= 1
    ensures forall k :: k in numbered ==> k < n
    ensures numbered == map[] ==> n == 1
    ensures numbered != map[] ==> n - 1 in numbered
  {
    if numbered != map[] then
      assert numbered.Keys != {} by {
        var k :| k in numbered;
      }
      MaxOf(numbered.Keys) + 1
    else 1
  }

  /** rename_pairs: the i-th unnumbered file becomes "{next + i}.jpg", whatever
      its extension was. */
  function Plan(unnumbered: seq<string>, next: nat): (r: seq<Move>)
    ensures |r| == |unnumbered|
    ensures forall i :: 0 <= i < |r| ==> r[i] == Move(unnumbered[i], JpgName(next + i))
  {
    seq(|unnumbered|, i requires 0 <= i < |unnumbered| => Move(unnumbered[i], JpgName(next + i)))
  }

  /** How a run ends: nothing to look at, nothing to number, the user said
      no, or the renames were carried out, starting at number first. */
  datatype Report = NoImages | NothingToNumber | Cancelled | Renumbered(first: nat, succeeded: nat, failed: nat)

  datatype Run = Run(report: Report, files: Files)

  /** The whole effect of a run on a directory, with the user's answer and
      the positions whose rename the system refuses in each pass as parameters. */
  function NumberingOf(files: Files, confirmed: bool, refused1: set<nat>, refused2: set<nat>): (r: Run)
    ensures r.report == NoImages <==> GlobMatches(files) == {}
    ensures r.report.Renumbered? <==> Unnumbered(AllFiles(files)) != [] && confirmed
    ensures !r.report.Renumbered? ==> r.files == files
    ensures r.report.Renumbered? ==>
      r.report.succeeded + r.report.failed <= |Unnumbered(AllFiles(files))| &&
      r.report.first == NextNumber(NumberedOf(AllFiles(files)))
  {
    var all := AllFiles(files);
    var u := Unnumbered(all);
    if |all| == 0 then Run(NoImages, files)
    else if |u| == 0 then Run(NothingToNumber, files)
    else if !confirmed then Run(Cancelled, files)
    else
      var next := NextNumber(NumberedOf(all));
      var t := TwoPass(files, Plan(u, next), TempNames(NumberTempPrefix, |u|), refused1, refused2);
      Run(Renumbered(next, t.succeeded, t.failed), t.files)
  }

  /** What the script writes, "{n}.jpg", is matched by the glob and reads back
      as number n. */
  lemma JpgNameIsNumbered(n: nat)
    ensures MatchesGlob(JpgName(n))
    ensures IsNumbered(JpgName(n)) && NumberOf(JpgName(n)) == n
  {
    var digits := NatToString(n);
    var name := JpgName(n);
    assert name == digits + "." + "jpg";
    LastDotBeforeTail(digits, "jpg");
    assert name[0] == digits[0] && name[0] != '.';
    assert Stem(name) == digits;
    DigitsValueOfNatToString(n);
    AsciiDecimalsValue(digits);
    assert EndsWith(name, GlobExtensions[0]);
  }

  /** A stem of non-ASCII decimal digits is a number too: "\U{0663}.jpg"
      (an Arabic-Indic three) is photo number 3 and is left alone. */
  lemma ArabicIndicStemIsNumbered()
    ensures IsNumbered("\U{0663}.jpg") && NumberOf("\U{0663}.jpg") == 3
  {
    var name := "\U{0663}.jpg";
    assert name == "\U{0663}" + "." + "jpg";
    LastDotBeforeTail("\U{0663}", "jpg");
    assert name[0] != '.';
    assert Stem(name) == "\U{0663}";
    ArabicIndicThree();
    assert "\U{0663}"[..0] == [];
  }

  /** The unnumbered image files, in sorted order. */
  function ToNumber(files: Files): seq<string> {
    Unnumbered(AllFiles(files))
  }

  /** The first number the run hands out. */
  function FirstFree(files: Files): nat {
    NextNumber(NumberedOf(AllFiles(files)))
  }

  function Plans(files: Files): seq<Move> {
    Plan(ToNumber(files), FirstFree(files))
  }

  /** The files to number are exactly the image files whose stem is not a
      number ... */
  lemma ToNumberMembers(files: Files, x: string)
    ensures x in ToNumber(files) <==> x in files && MatchesGlob(x) && !IsNumbered(x)
  {
    FilterMembers(AllFiles(files), IsUnnumbered, x);
  }

  /** ... in sorted order ... */
  lemma ToNumberSorted(files: Files)
    ensures forall i, j :: 0 <= i < j < |ToNumber(files)| ==> StrLe(ToNumber(files)[i], ToNumber(files)[j])
  {
    FilterIsPickOfPositions(AllFiles(files), IsUnnumbered);
  }

  /** ... each listed once. */
  lemma ToNumberDistinct(files: Files)
    ensures Distinct(ToNumber(files))
  {
    SortedNamesDistinct(GlobMatches(files));
    FilterDistinct(AllFiles(files), IsUnnumbered);
  }

  /** Exactly the unnumbered image files are renamed: a numbered file is never
      the source of a rename pair. */
  lemma PlanSources(files: Files, x: string)
    ensures x in Sources(Plans(files)) <==> x in ToNumber(files)
  {
    var u := ToNumber(files);
    var plan := Plans(files);
    if x in u {
      var i :| 0 <= i < |u| && u[i] == x;
      assert plan[i].from == x;
    }
  }

  /** Every numbered image in the directory has a number below next. */
  ghost predicate NumbersBelow(files: Files, next: nat) {
    forall name :: name in files && MatchesGlob(name) && IsNumbered(name) ==> NumberOf(name) < next
  }

  /** next_number is above every number in use. */
  lemma NextNumberAboveNumbered(files: Files)
    ensures NumbersBelow(files, NextNumber(NumberedOf(AllFiles(files))))
  {
    var all := AllFiles(files);
    var numbered := NumberedOf(all);
    forall name | name in files && MatchesGlob(name) && IsNumbered(name)
      ensures NumberOf(name) < NextNumber(numbered)
    {
      assert name in GlobMatches(files);
      var i :| 0 <= i < |all| && all[i] == name;
      NumberedOfCovers(all, i);
    }
  }

  /** The targets "{next}.jpg", "{next+1}.jpg", ... are pairwise distinct. */
  lemma PlanTargetsDistinct(u: seq<string>, next: nat)
    ensures forall i, j :: 0 <= i < j < |u| ==> Plan(u, next)[i].to != Plan(u, next)[j].to
  {
    forall i, j | 0 <= i < j < |u| ensures Plan(u, next)[i].to != Plan(u, next)[j].to {
      JpgNameInjective(next + i, next + j);
    }
  }

  /** "{n}.jpg" does not exist yet when n is above every number in use. */
  lemma JpgNameFresh(files: Files, next: nat, n: nat)
    requires NumbersBelow(files, next) && next <= n
    ensures JpgName(n) !in files
  {
    JpgNameIsNumbered(n);
  }

  /** None of the targets exists yet when next is above every number in
      use, so no numbered file is ever overwritten. */
  lemma PlanTargetsFresh(u: seq<string>, next: nat, files: Files)
    requires NumbersBelow(files, next)
    ensures forall i :: 0 <= i < |u| ==> Plan(u, next)[i].to !in files
  {
    var plan := Plan(u, next);
    forall i | 0 <= i < |u| ensures plan[i].to !in files {
      JpgNameFresh(files, next, next + i);
    }
  }

  /** The sources of the plan exist and carry no temporary name ... */
  lemma PlanSourcesExist(files: Files)
    ensures forall i :: 0 <= i < |Plans(files)| ==> Plans(files)[i].from in files
  {
    var u := ToNumber(files);
    forall i | 0 <= i < |u| ensures u[i] in files {
      ToNumberMembers(files, u[i]);
    }
  }

  /** ... and are pairwise distinct, as are its targets. */
  lemma PlanDistinct(files: Files)
    ensures forall i, j :: 0 <= i < j < |Plans(files)| ==>
      Plans(files)[i].from != Plans(files)[j].from && Plans(files)[i].to != Plans(files)[j].to
  {
    ToNumberDistinct(files);
    PlanTargetsDistinct(ToNumber(files), FirstFree(files));
  }

  /** The plan meets the conditions of the two-pass theorem, given only that no
      file already has a temporary name and that the system refuses nothing. */
  lemma PlanIsClean(files: Files)
    requires forall i :: TempName(NumberTempPrefix, i) !in files
    ensures Clean(files, Plans(files), TempNames(NumberTempPrefix, |Plans(files)|), {}, {})
  {
    PlanSourcesExist(files);
    PlanDistinct(files);
    TempNamesDistinct(NumberTempPrefix, |Plans(files)|);
  }

  /** A confirmed run with something to number is the two-pass rename of the plan. */
  lemma NumberingOfConfirmed(files: Files, refused1: set<nat>, refused2: set<nat>)
    requires ToNumber(files) != []
    ensures NumberingOf(files, true, refused1, refused2) ==
      var t := TwoPass(files, Plans(files), TempNames(NumberTempPrefix, |Plans(files)|), refused1, refused2);
      Run(Renumbered(FirstFree(files), t.succeeded, t.failed), t.files)
  {
  }

  /** When the user confirms, no temporary name is taken and the system
      refuses nothing: every unnumbered image i (in sorted order) now is
      "{next+i}.jpg" with its original contents, all renames are counted as
      successes, every other file is untouched, and no other name is left
      behind. */
  lemma NumberingMovesUnnumbered(files: Files)
    requires forall i :: TempName(NumberTempPrefix, i) !in files
    requires ToNumber(files) != []
    ensures NumberingOf(files, true, {}, {}).report == Renumbered(FirstFree(files), |ToNumber(files)|, 0)
    ensures forall i :: 0 <= i < |ToNumber(files)| ==>
      && ToNumber(files)[i] in files
      && JpgName(FirstFree(files) + i) in NumberingOf(files, true, {}, {}).files
      && NumberingOf(files, true, {}, {}).files[JpgName(FirstFree(files) + i)] == files[ToNumber(files)[i]]
    ensures forall k :: k in files && k !in ToNumber(files) && k !in Targets(Plans(files)) ==>
      k in NumberingOf(files, true, {}, {}).files && NumberingOf(files, true, {}, {}).files[k] == files[k]
    ensures forall k :: k in NumberingOf(files, true, {}, {}).files ==>
      k in Targets(Plans(files)) || (k in files && k !in ToNumber(files))
  {
    var plan := Plans(files);
    PlanIsClean(files);
    NumberingOfConfirmed(files, {}, {});
    TwoPassMoves(files, plan, TempNames(NumberTempPrefix, |plan|), {}, {});
    forall k ensures k in Sources(plan) <==> k in ToNumber(files) {
      PlanSources(files, k);
    }
  }

  /** The classification loop: numbered_files and unnumbered_files. */
  method Classify(allFiles: seq<string>) returns (numbered: map<nat, string>, unnumbered: seq<string>)
    ensures numbered == NumberedOf(allFiles) && unnumbered == Unnumbered(allFiles)
  {
    numbered, unnumbered := map[], [];
    for i := 0 to |allFiles|
      invariant numbered == NumberedOf(allFiles[..i])
      invariant unnumbered == Unnumbered(allFiles[..i])
    {
      var filePath := allFiles[i];
      var nameWithoutExt := Stem(filePath);
      assert allFiles[..i + 1][..i] == allFiles[..i];
      if IsNumberStem(nameWithoutExt) {
        var num := StemValue(nameWithoutExt);
        numbered := numbered[num := filePath];
      } else {
        unnumbered := unnumbered + [filePath];
      }
    }
    assert allFiles[..|allFiles|] == allFiles;
  }

  /** The loop that builds rename_pairs. */
  method RenamePairs(unnumbered: seq<string>, nextNumber: nat) returns (renamePairs: seq<Move>)
    ensures renamePairs == Plan(unnumbered, nextNumber)
  {
    renamePairs := [];
    for i := 0 to |unnumbered|
      invariant |renamePairs| == i
      invariant forall j :: 0 <= j < i ==> renamePairs[j] == Move(unnumbered[j], JpgName(nextNumber + j))
    {
      renamePairs := renamePairs + [Move(unnumbered[i], JpgName(nextNumber + i))];
    }
  }

  /** The computation of next_number. */
  method NextFreeNumber(numbered: map<nat, string>) returns (nextNumber: nat)
    ensures nextNumber == NextNumber(numbered)
  {
    if numbered != map[] {
      var maxNumber := MaxOf(numbered.Keys);
      nextNumber := maxNumber + 1;
    } else {
      nextNumber := 1;
    }
  }

  /** The script as a whole, with the user's answer as a parameter. */
  method NumberNewPhotos(dir: Directory, confirmed: bool, refused1: set<nat>, refused2: set<nat>)
    returns (report: Report)
    modifies dir
    ensures Run(report, dir.files) == NumberingOf(old(dir.files), confirmed, refused1, refused2)
  {
    var collected := CollectFiles(dir.files);
    var allFiles := SortedNames(collected);
    if |allFiles| == 0 {
      return NoImages;
    }
    var numbered, unnumbered := Classify(allFiles);
    if |unnumbered| == 0 {
      return NothingToNumber;
    }
    var nextNumber := NextFreeNumber(numbered);
    if !confirmed {
      return Cancelled;
    }
    assert nextNumber == FirstFree(dir.files);
    var renamePairs := RenamePairs(unnumbered, nextNumber);
    assert renamePairs == Plans(dir.files);
    NumberingOfConfirmed(dir.files, refused1, refused2);
    var successCount, errorCount := dir.TwoPassRename(renamePairs, NumberTempPrefix, refused1, refused2);
    report := Renumbered(nextNumber, successCount, errorCount);
  }
}
