/** The gallery page (script.js): the breakpoint rule, round-robin placement
    of images into columns, the rebuild on resize, the lightbox cursor and the
    discovery loop that probes 1.webp, 2.webp, ... until five misses in a row.
    The DOM is abstracted to its state: a column is the sequence of image
    names appended to it, the image list is a sequence of names. */
module Gallery {
  import opened Basics
  import opened Decimal

  /** The discovery loop stops after this many missing indices in a row. */
  const MaxConsecutiveFailures: nat := 5

  /** Breakpoints of the responsive layout: up to 768 pixels one column, up to
      1024 two, wider three. */
  function ColumnCount(width: int): (n: nat)
    ensures 1 <= n <= 3
    ensures n == 1 <==> width <= 768
    ensures n == 2 <==> 768 < width <= 1024
    ensures n == 3 <==> 1024 < width
  {
    if width <= 768 then 1
    else if width <= 1024 then 2
    else 3
  }

  /** A wider window never has fewer columns. */
  lemma ColumnCountMonotone(narrow: int, wide: int)
    requires narrow <= wide
    ensures ColumnCount(narrow) <= ColumnCount(wide)
  {
  }

  type Columns = seq<seq<string>>

  function EmptyColumns(n: nat): (cols: Columns)
    ensures |cols| == n
    ensures forall c :: 0 <= c < n ==> cols[c] == []
  {
    seq(n, _ => [])
  }

  /** The column that round-robin placement picks for list position index
      among n columns: index mod n, counted out by subtraction. Slot and the
      arithmetic lemmas MulBounds, ModUnique, ModSmall and ModShift are proof
      scaffolding around `%`: SlotIsRemainder ties Slot back to the `%` the
      page computes, and keeps nonlinear arithmetic out of the layout proofs. */
  function Slot(index: nat, n: nat): (k: nat)
    requires n > 0
    ensures k < n
    decreases index
  {
    if index < n then index else Slot(index - n, n)
  }

  /** A non-zero multiple of n is at least n away from zero. */
  lemma {:induction false} MulBounds(n: int, k: int)
    requires n > 0
    ensures k >= 1 ==> n * k >= n
    ensures k <= -1 ==> n * k <= -n
    decreases if k < 0 then -k else k
  {
    if k > 1 {
      MulBounds(n, k - 1);
      assert n * k == n * (k - 1) + n;
    } else if k < -1 {
      MulBounds(n, k + 1);
      assert n * k == n * (k + 1) - n;
    }
  }

  /** The remainder is fixed by any quotient and remainder that add up. */
  lemma ModUnique(a: int, n: int, q: int, r: int)
    requires n > 0 && a == q * n + r && 0 <= r < n
    ensures a % n == r
  {
    var q', r' := a / n, a % n;
    assert a == q' * n + r';
    assert n * (q - q') == r' - r;
    MulBounds(n, q - q');
  }

  /** Counting out by subtraction gives the remainder. */
  lemma {:induction false} SlotIsRemainder(index: nat, n: nat)
    requires n > 0
    ensures Slot(index, n) == index % n
    decreases index
  {
    if index >= n {
      SlotIsRemainder(index - n, n);
      var q, r := (index - n) / n, (index - n) % n;
      assert index - n == q * n + r;
      ModUnique(index, n, q + 1, r);
    }
  }

  /** The effect of adding image `name` with list position `index`: nothing
      when there are no columns, otherwise it goes to the end of column
      index mod (number of columns) and every other column stays as it was. */
  function Place(cols: Columns, name: string, index: nat): (r: Columns)
    ensures |r| == |cols|
  {
    if |cols| == 0 then cols
    else
      var k := Slot(index, |cols|);
      cols[k := cols[k] + [name]]
  }

  /** Placing changes one column, the one the round-robin rule picks. */
  lemma PlaceEffect(cols: Columns, name: string, index: nat)
    ensures |cols| == 0 ==> Place(cols, name, index) == cols
    ensures |cols| > 0 ==> forall c :: 0 <= c < |cols| ==>
      Place(cols, name, index)[c] == if c == index % |cols| then cols[c] + [name] else cols[c]
  {
    if |cols| > 0 {
      SlotIsRemainder(index, |cols|);
    }
  }

  /** The columns after placing imgs[lo], ..., imgs[hi-1], each at its own
      list position, onto cols. */
  function Replay(cols: Columns, imgs: seq<string>, lo: nat, hi: nat): (r: Columns)
    requires lo <= hi <= |imgs|
    decreases hi - lo
    ensures |r| == |cols|
  {
    if lo == hi then cols
    else Place(Replay(cols, imgs, lo, hi - 1), imgs[hi - 1], hi - 1)
  }

  /** Placing a prefix does not depend on what comes after it. */
  lemma {:induction false} ReplayPrefix(cols: Columns, imgs: seq<string>, more: seq<string>, lo: nat, hi: nat)
    requires lo <= hi <= |imgs|
    decreases hi - lo
    ensures Replay(cols, imgs + more, lo, hi) == Replay(cols, imgs, lo, hi)
  {
    if lo < hi {
      ReplayPrefix(cols, imgs, more, lo, hi - 1);
      assert (imgs + more)[hi - 1] == imgs[hi - 1];
      assert Replay(cols, imgs + more, lo, hi) == Place(Replay(cols, imgs + more, lo, hi - 1), imgs[hi - 1], hi - 1);
    }
  }

  /** Adding one more image places it after the ones before. */
  lemma ReplayAppend(cols: Columns, imgs: seq<string>, x: string, lo: nat)
    requires lo <= |imgs|
    ensures Replay(cols, imgs + [x], lo, |imgs| + 1) == Place(Replay(cols, imgs, lo, |imgs|), x, |imgs|)
  {
    ReplayPrefix(cols, imgs, [x], lo, |imgs|);
    assert (imgs + [x])[|imgs|] == x;
  }

  /** The columns of a fresh n-column gallery after all of imgs is added in order. */
  function Layout(imgs: seq<string>, n: nat): (r: Columns)
    ensures |r| == n
  {
    Replay(EmptyColumns(n), imgs, 0, |imgs|)
  }

  /** The list positions below len that round-robin placement sends to
      column c of n, in increasing order. */
  function Stride(n: nat, c: nat, len: nat): (r: seq<nat>)
    requires n > 0
    ensures forall i :: 0 <= i < |r| ==> r[i] < len
    ensures forall p :: p in r <==> 0 <= p < len && p % n == c
    ensures forall i, j :: 0 <= i < j < |r| ==> r[i] < r[j]
  {
    if len == 0 then []
    else
      var r0 := Stride(n, c, len - 1);
      assert forall i :: 0 <= i < |r0| ==> r0[i] < len - 1;
      r0 + (if (len - 1) % n == c then [len - 1] else [])
  }

  /** Adding one image to the layout extends the column it is sent to. */
  lemma LayoutStep(init: seq<string>, x: string, n: nat, c: nat)
    requires c < n
    ensures Layout(init + [x], n)[c] == Layout(init, n)[c] + (if |init| % n == c then [x] else [])
  {
    ReplayAppend(EmptyColumns(n), init, x, 0);
    PlaceEffect(Layout(init, n), x, |init|);
  }

  /** Round-robin layout: column c of an n-column gallery holds exactly the
      images whose list position p has p mod n == c, in increasing p. */
  lemma {:induction false} LayoutColumn(imgs: seq<string>, n: nat, c: nat)
    requires c < n
    ensures Layout(imgs, n)[c] == Pick(imgs, Stride(n, c, |imgs|))
  {
    if imgs != [] {
      var p := |imgs| - 1;
      var init, x := imgs[..p], imgs[p];
      LayoutColumn(init, n, c);
      assert init + [x] == imgs;
      LayoutStep(init, x, n, c);
      var col0, col := Layout(init, n)[c], Layout(imgs, n)[c];
      var s0, s := Stride(n, c, p), Stride(n, c, p + 1);
      assert col == col0 + (if p % n == c then [x] else []);
      assert s == s0 + (if p % n == c then [p] else []);
      forall i | 0 <= i < |col| ensures col[i] == imgs[s[i]] {
        if i < |col0| {
          assert col0[i] == init[s0[i]];
        }
      }
    }
  }

  // ----- Lightbox cursor -----

  /** JavaScript's `%` on numbers: truncating, so the remainder takes the
      sign of the dividend. The quotient (a - r) / b is a divided by b with
      the fraction cut off. */
  function JsRemainder(a: int, b: int): (r: int)
    requires b > 0
    ensures (a - r) % b == 0
    ensures a >= 0 ==> 0 <= r < b
    ensures a < 0 ==> -b < r <= 0
  {
    if a >= 0 then
      ModUnique(a - a % b, b, a / b, 0);
      a % b
    else
      var m := -a;
      assert m == (m / b) * b + m % b;
      ModUnique(a + m % b, b, -(m / b), 0);
      -(m % b)
  }

  lemma ModSmall(a: int, b: int)
    requires 0 <= a < b
    ensures a % b == a
  {
  }

  lemma ModShift(a: int, b: int)
    requires 0 <= a < b
    ensures (a + b) % b == a
  {
  }

  /** The cursor after "next" on a list of len images. */
  function NextIndex(cursor: int, len: int): int
    requires len > 0
  {
    JsRemainder(cursor + 1, len)
  }

  /** The cursor after "previous" on a list of len images. */
  function PreviousIndex(cursor: int, len: int): int
    requires len > 0
  {
    JsRemainder(cursor - 1 + len, len)
  }

  /** On a non-empty list, next and previous keep a valid cursor valid, wrap
      around at both ends and undo each other. */
  lemma CursorNavigation(cursor: int, len: int)
    requires 0 <= cursor < len
    ensures 0 <= NextIndex(cursor, len) < len && 0 <= PreviousIndex(cursor, len) < len
    ensures NextIndex(cursor, len) == if cursor == len - 1 then 0 else cursor + 1
    ensures PreviousIndex(cursor, len) == if cursor == 0 then len - 1 else cursor - 1
    ensures PreviousIndex(NextIndex(cursor, len), len) == cursor
    ensures NextIndex(PreviousIndex(cursor, len), len) == cursor
  {
    var next := if cursor == len - 1 then 0 else cursor + 1;
    var prev := if cursor == 0 then len - 1 else cursor - 1;
    if cursor == len - 1 { ModShift(0, len); } else { ModSmall(cursor + 1, len); }
    if cursor == 0 { ModSmall(len - 1, len); } else { ModShift(cursor - 1, len); }
    assert NextIndex(cursor, len) == next;
    assert PreviousIndex(cursor, len) == prev;
    if next == 0 { ModSmall(len - 1, len); } else { ModShift(next - 1, len); }
    if prev == len - 1 { ModShift(0, len); } else { ModSmall(prev + 1, len); }
  }

  // ----- Discovery -----

  /** The file name probed for index k. */
  function ImageName(k: nat): string {
    NatToString(k) + ".webp"
  }

  /** Indices m, ..., m + 4 all fail the existence check. */
  ghost predicate MissRun(imageExists: nat -> bool, m: nat) {
    forall j :: m <= j < m + MaxConsecutiveFailures ==> !imageExists(j)
  }

  /** The discovery loop ends with index `end`: the probes of indices
      end - 5, ..., end - 1 all failed, and no earlier run of five failures
      started at an index of 1 or more. */
  ghost predicate StopsAt(imageExists: nat -> bool, end: nat) {
    && end >= 1 + MaxConsecutiveFailures
    && MissRun(imageExists, end - MaxConsecutiveFailures)
    && forall m :: 1 <= m < end - MaxConsecutiveFailures ==> !MissRun(imageExists, m)
  }

  /** The names the loop collects while probing indices 1, ..., hi - 1. */
  function Discovered(imageExists: nat -> bool, hi: nat): seq<string>
  {
    if hi <= 1 then []
    else Discovered(imageExists, hi - 1) + (if imageExists(hi - 1) then [ImageName(hi - 1)] else [])
  }

  /** The collected list is "{k}.webp" for exactly the indices k in [1, hi)
      that exist, in increasing k. */
  lemma {:induction false} DiscoveredIsSelection(imageExists: nat -> bool, hi: nat)
    ensures var ks := Select(imageExists, 1, hi);
      && |Discovered(imageExists, hi)| == |ks|
      && forall i :: 0 <= i < |ks| ==> Discovered(imageExists, hi)[i] == ImageName(ks[i])
  {
    if hi > 1 {
      DiscoveredIsSelection(imageExists, hi - 1);
    }
  }

  lemma ImageNameInjective(a: nat, b: nat)
    ensures ImageName(a) == ImageName(b) ==> a == b
  {
    FramedNumeralInjective("", ".webp", a, b);
    assert "" + NatToString(a) + ".webp" == ImageName(a);
    assert "" + NatToString(b) + ".webp" == ImageName(b);
  }

  /** "{k}.webp" is listed exactly when k was probed and found. */
  lemma DiscoveredMembers(imageExists: nat -> bool, hi: nat, k: nat)
    ensures ImageName(k) in Discovered(imageExists, hi) <==> 1 <= k < hi && imageExists(k)
  {
    DiscoveredIsSelection(imageExists, hi);
    var ks := Select(imageExists, 1, hi);
    var d := Discovered(imageExists, hi);
    if ImageName(k) in d {
      var i :| 0 <= i < |d| && d[i] == ImageName(k);
      ImageNameInjective(k, ks[i]);
      assert ks[i] in ks;
    }
    if 1 <= k < hi && imageExists(k) {
      assert k in ks;
      var i :| 0 <= i < |ks| && ks[i] == k;
      assert d[i] == ImageName(k);
    }
  }

  /** An empty directory: if 1.webp to 5.webp are all missing, the loop stops
      after the fifth probe with nothing found. */
  lemma NothingFoundWhenFirstFiveMissing(imageExists: nat -> bool)
    requires forall j :: 1 <= j <= 5 ==> !imageExists(j)
    ensures StopsAt(imageExists, 6) && Discovered(imageExists, 6) == []
  {
  }

  /** Images 1 to 3 present and 4 to 8 absent: the loop stops after probing
      8 with exactly the first three, whatever 9 and later hold. */
  lemma StopsAfterFiveMisses(imageExists: nat -> bool)
    requires imageExists(1) && imageExists(2) && imageExists(3)
    requires forall j :: 4 <= j <= 8 ==> !imageExists(j)
    ensures StopsAt(imageExists, 9)
    ensures Discovered(imageExists, 9) == [ImageName(1), ImageName(2), ImageName(3)]
  {
    assert !MissRun(imageExists, 1) && !MissRun(imageExists, 2) && !MissRun(imageExists, 3);
  }

  /** A gap of at most four missing indices does not end discovery: an
      existing index k with no run of five misses before it is listed. */
  lemma GapsBelowFiveDoNotStop(imageExists: nat -> bool, end: nat, k: nat)
    requires StopsAt(imageExists, end)
    requires 1 <= k && imageExists(k)
    requires forall m :: 1 <= m && m + MaxConsecutiveFailures <= k ==> !MissRun(imageExists, m)
    ensures ImageName(k) in Discovered(imageExists, end)
  {
    DiscoveredMembers(imageExists, end, k);
  }

  /** The bookkeeping of the discovery loop before probing `index`, with
      `failures` the value of its consecutive-failure counter. */
  ghost predicate Probing(imageExists: nat -> bool, index: nat, failures: nat) {
    && 1 <= index && failures <= MaxConsecutiveFailures && failures < index
    // the last `failures` probes failed and the one before them succeeded
    && (forall j :: index - failures <= j < index ==> !imageExists(j))
    && (index - failures - 1 >= 1 ==> imageExists(index - failures - 1))
    // no run of five failures lies wholly before the current one
    && forall m :: 1 <= m < index - failures && m + MaxConsecutiveFailures <= index ==>
         !MissRun(imageExists, m)
  }

  /** One probe keeps the bookkeeping right. */
  lemma ProbingStep(imageExists: nat -> bool, index: nat, failures: nat)
    requires Probing(imageExists, index, failures) && failures < MaxConsecutiveFailures
    ensures Probing(imageExists, index + 1, if imageExists(index) then 0 else failures + 1)
  {
    var failures' := if imageExists(index) then 0 else failures + 1;
    forall m | 1 <= m < index + 1 - failures' && m + MaxConsecutiveFailures <= index + 1
      ensures !MissRun(imageExists, m)
    {
      if m + MaxConsecutiveFailures == index + 1 {
        if imageExists(index) {
          assert m <= index < m + MaxConsecutiveFailures;
        } else {
          var last := index - failures - 1;
          assert m <= last < m + MaxConsecutiveFailures && imageExists(last);
        }
      }
    }
  }

  /** While the counter is below five, the loop has not passed the end of a
      known run of five misses. */
  lemma ProbingBound(imageExists: nat -> bool, index: nat, failures: nat, stop: nat)
    requires Probing(imageExists, index, failures) && failures < MaxConsecutiveFailures
    requires 1 <= stop && MissRun(imageExists, stop)
    ensures index < stop + MaxConsecutiveFailures
  {
  }

  /** When the counter reaches five, the loop stops at the first run of five. */
  lemma ProbingExit(imageExists: nat -> bool, index: nat, failures: nat)
    requires Probing(imageExists, index, failures) && failures == MaxConsecutiveFailures
    ensures StopsAt(imageExists, index)
  {
  }

  /** A probe that finds its image appends it to the list and places it at
      its list position. */
  lemma FoundStep(imageExists: nat -> bool, index: nat, before: seq<string>, images: seq<string>,
                  empty: Columns, columns: Columns)
    requires 1 <= index && imageExists(index)
    requires images == before + Discovered(imageExists, index)
    requires columns == Replay(empty, images, |before|, |images|)
    ensures images + [ImageName(index)] == before + Discovered(imageExists, index + 1)
    ensures Place(columns, ImageName(index), |images|)
      == Replay(empty, images + [ImageName(index)], |before|, |images| + 1)
  {
    ReplayAppend(empty, images, ImageName(index), |before|);
  }

  /** A probe that fails adds nothing. */
  lemma MissStep(imageExists: nat -> bool, index: nat)
    requires 1 <= index && !imageExists(index)
    ensures Discovered(imageExists, index + 1) == Discovered(imageExists, index)
  {
  }

  /** The state script.js keeps at module level: the discovered image list,
      the columns of the layout and the lightbox cursor. */
  class Gallery {
    var images: seq<string>
    var columns: Columns
    var currentImageIndex: int

    constructor ()
      ensures images == [] && columns == [] && currentImageIndex == 0
    {
      images := [];
      columns := [];
      currentImageIndex := 0;
    }

    /** Replaces the columns by ColumnCount(width) empty ones. */
    method CreateGallery(width: int)
      modifies this
      ensures columns == EmptyColumns(ColumnCount(width))
      ensures images == old(images) && currentImageIndex == old(currentImageIndex)
    {
      var columnCount := ColumnCount(width);
      columns := [];
      var i := 0;
      while i < columnCount
        invariant 0 <= i <= columnCount
        invariant columns == EmptyColumns(i)
        invariant images == old(images) && currentImageIndex == old(currentImageIndex)
      {
        columns := columns + [[]];
        i := i + 1;
      }
    }

    /** Adds image `imageName` with list position `index` to the layout. */
    method AddImageToGallery(imageName: string, index: nat)
      modifies this
      ensures columns == Place(old(columns), imageName, index)
      ensures images == old(images) && currentImageIndex == old(currentImageIndex)
    {
      if |columns| == 0 {
        return;
      }
      var columnCount := |columns|;
      var columnIndex := index % columnCount;
      SlotIsRemainder(index, columnCount);
      columns := columns[columnIndex := columns[columnIndex] + [imageName]];
    }

    /** What the resize handler does once the debounce delay has passed:
        rebuild and replay the list only if the column count changes. */
    method OnResize(width: int)
      modifies this
      ensures images == old(images) && currentImageIndex == old(currentImageIndex)
      ensures |old(columns)| != ColumnCount(width) ==> columns == Layout(images, ColumnCount(width))
      ensures |old(columns)| == ColumnCount(width) ==> columns == old(columns)
    {
      var currentColumnCount := |columns|;
      var newColumnCount := ColumnCount(width);
      if currentColumnCount != newColumnCount {
        CreateGallery(width);
        var index := 0;
        while index < |images|
          invariant 0 <= index <= |images|
          invariant columns == Replay(EmptyColumns(newColumnCount), images, 0, index)
          invariant images == old(images) && currentImageIndex == old(currentImageIndex)
        {
          AddImageToGallery(images[index], index);
          index := index + 1;
        }
      }
    }

    method OpenLightbox(index: int)
      modifies this
      ensures currentImageIndex == index
      ensures images == old(images) && columns == old(columns)
    {
      currentImageIndex := index;
    }

    method ShowPreviousImage()
      requires |images| > 0
      modifies this
      ensures images == old(images) && columns == old(columns)
      ensures currentImageIndex == PreviousIndex(old(currentImageIndex), |images|)
    {
      currentImageIndex := JsRemainder(currentImageIndex - 1 + |images|, |images|);
    }

    method ShowNextImage()
      requires |images| > 0
      modifies this
      ensures images == old(images) && columns == old(columns)
      ensures currentImageIndex == NextIndex(old(currentImageIndex), |images|)
    {
      currentImageIndex := JsRemainder(currentImageIndex + 1, |images|);
    }

    /** Builds the columns, then probes 1.webp, 2.webp, ... one at a time,
        appending each image found to the list and to the layout at its list
        position, until five probes in a row fail. The loop terminates only
        if such a run exists; `stop` names one. */
    method LoadImages(width: int, imageExists: nat -> bool, ghost stop: nat) returns (ghost end: nat)
      requires 1 <= stop && MissRun(imageExists, stop)
      modifies this
      ensures StopsAt(imageExists, end) && end <= stop + MaxConsecutiveFailures
      ensures images == old(images) + Discovered(imageExists, end)
      ensures columns == Replay(EmptyColumns(ColumnCount(width)), images, |old(images)|, |images|)
      ensures currentImageIndex == old(currentImageIndex)
    {
      CreateGallery(width);
      ghost var before, empty := images, columns;
      var index := 1;
      var consecutiveFailures := 0;
      while consecutiveFailures < MaxConsecutiveFailures
        invariant Probing(imageExists, index, consecutiveFailures)
        invariant index <= stop + MaxConsecutiveFailures
        invariant images == before + Discovered(imageExists, index)
        invariant columns == Replay(empty, images, |before|, |images|)
        invariant currentImageIndex == old(currentImageIndex) && before == old(images)
        decreases stop + MaxConsecutiveFailures - index
      {
        ProbingBound(imageExists, index, consecutiveFailures, stop);
        ProbingStep(imageExists, index, consecutiveFailures);
        var found := imageExists(index);
        if found {
          var imageName := ImageName(index);
          FoundStep(imageExists, index, before, images, empty, columns);
          images := images + [imageName];
          AddImageToGallery(imageName, |images| - 1);
          consecutiveFailures := 0;
        } else {
          MissStep(imageExists, index);
          consecutiveFailures := consecutiveFailures + 1;
        }
        index := index + 1;
      }
      ProbingExit(imageExists, index, consecutiveFailures);
      end := index;
    }
  }
}
