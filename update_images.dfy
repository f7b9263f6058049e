/** update-images.js: list the image files of the photo directory and write
    that list, as a JavaScript array literal, over the first marked image
    list of a script, with String.prototype.replace and a regular expression
    that matches the marker line and everything up to the first "];". */
module UpdateImages {
  import opened Basics
  import opened Names

  /** The extensions the tool keeps, compared in lower case. */
  const ImageExtensions: seq<string> := [".jpg", ".jpeg", ".png", ".gif", ".webp"]

  /** path.extname of a plain file name (no '/'): from the last dot to the
      end, except that a name whose only dot is its first character, a name
      without a dot and the name ".." have no extension. */
  function Extname(name: string): (r: string)
    ensures r == [] || (r[0] == '.' && EndsWith(name, r))
  {
    match LastDot(name)
    case None => []
    case Some(d) => if d == 0 || name == ".." then [] else name[d..]
  }

  /** toLowerCase on ASCII letters; every other character is left as is. */
  function LowerChar(c: char): char {
    if 'A' <= c <= 'Z' then (c as int - 'A' as int + 'a' as int) as char else c
  }

  function Lower(s: string): (r: string)
    ensures |r| == |s| && forall i :: 0 <= i < |s| ==> r[i] == LowerChar(s[i])
  {
    seq(|s|, i requires 0 <= i < |s| => LowerChar(s[i]))
  }

  /** The filter callback: the lower-cased extension is one of the five. */
  predicate IsImage(file: string) {
    Lower(Extname(file)) in ImageExtensions
  }

  /** images: the entries of the directory listing that are image files. */
  function Images(files: seq<string>): seq<string> {
    Filter(files, IsImage)
  }

  /** The filter keeps exactly the image entries, in the order of the listing. */
  lemma ImagesAreSelection(files: seq<string>, x: string)
    ensures Images(files) == Pick(files, Positions(files, IsImage))
    ensures x in Images(files) <==> x in files && IsImage(x)
  {
    FilterIsPickOfPositions(files, IsImage);
    FilterMembers(files, IsImage, x);
  }

  /** The extension of a name is what follows its last dot, dot included,
      unless that dot starts the name or the name is "..". */
  lemma ExtnameAfterLastDot(head: string, tail: string)
    requires forall j :: 0 <= j < |tail| ==> tail[j] != '.'
    requires head != [] && !(head == "." && tail == [])
    ensures Extname(head + "." + tail) == "." + tail
  {
    LastDotBeforeTail(head, tail);
    var name := head + "." + tail;
    if |head| == 1 && tail == [] {
      assert head == [head[0]] && head[0] != '.' && name[0] == head[0];
    }
    assert name[|head|..] == "." + tail;
  }

  /** A hidden file whose only dot is the first character has no extension,
      so ".jpg" is not an image. */
  lemma HiddenHasNoExtension(tail: string)
    requires forall j :: 0 <= j < |tail| ==> tail[j] != '.'
    ensures Extname("." + tail) == [] && !IsImage("." + tail)
  {
    LastDotBeforeTail([], tail);
    assert [] + "." + tail == "." + tail;
  }

  /** A name without a dot has no extension. */
  lemma NoDotNoExtension(name: string)
    requires forall j :: 0 <= j < |name| ==> name[j] != '.'
    ensures Extname(name) == [] && !IsImage(name)
  {
  }

  /** A name with an extension is an image exactly when that extension, lower
      cased, is one of the five: upper case extensions count, and only the
      last extension matters. */
  lemma IsImageByExtension(head: string, tail: string)
    requires forall j :: 0 <= j < |tail| ==> tail[j] != '.'
    requires head != [] && !(head == "." && tail == [])
    ensures IsImage(head + "." + tail) <==> Lower("." + tail) in ImageExtensions
  {
    ExtnameAfterLastDot(head, tail);
  }

  /** Lower-casing neither creates nor removes a dot, so the last dot stays where it is. */
  lemma {:induction false} LastDotLower(s: string)
    ensures LastDot(Lower(s)) == LastDot(s)
  {
    if s != [] {
      assert Lower(s)[..|s| - 1] == Lower(s[..|s| - 1]);
      LastDotLower(s[..|s| - 1]);
    }
  }

  /** The extension of the lower-cased name is the lower-cased extension. */
  lemma ExtnameLower(name: string)
    ensures Extname(Lower(name)) == Lower(Extname(name))
  {
    LastDotLower(name);
    var low := Lower(name);
    if LastDot(name).Some? {
      var d := LastDot(name).value;
      assert low[d..] == Lower(name[d..]);
      assert low == ".." <==> name == "..";
    }
  }

  /** The filter ignores case: names that differ only in the case of ASCII
      letters are both kept or both dropped. */
  lemma IsImageIgnoresCase(a: string, b: string)
    requires Lower(a) == Lower(b)
    ensures IsImage(a) <==> IsImage(b)
  {
    ExtnameLower(a);
    ExtnameLower(b);
  }

  /** The elements of s separated by sep: Array.prototype.join. */
  function Join(s: seq<string>, sep: string): string {
    if |s| == 0 then []
    else if |s| == 1 then s[0]
    else Join(s[..|s| - 1], sep) + sep + s[|s| - 1]
  }

  /** Joining two non-empty lists is joining each and putting one
      separator between the results. */
  lemma {:induction false} JoinConcat(a: seq<string>, b: seq<string>, sep: string)
    requires a != [] && b != []
    ensures Join(a + b, sep) == Join(a, sep) + sep + Join(b, sep)
    decreases |b|
  {
    var ab := a + b;
    if |b| == 1 {
      assert ab[..|ab| - 1] == a;
    } else {
      var b0 := b[..|b| - 1];
      assert ab[..|ab| - 1] == a + b0;
      JoinConcat(a, b0, sep);
    }
  }

  /** One line of the array literal: the name, quoted, indented by two spaces. */
  function Entry(img: string): string {
    "  '" + img + "'"
  }

  /** imagesList: the entries joined by a comma and a line break. */
  function ImagesList(imgs: seq<string>): string {
    Join(seq(|imgs|, i requires 0 <= i < |imgs| => Entry(imgs[i])), ",\n")
  }

  /** The list of no name is empty, and the list of one name is its line. */
  lemma ImagesListShort(img: string)
    ensures ImagesList([]) == []
    ensures ImagesList([img]) == "  '" + img + "'"
  {
  }

  /** The lines of two lists are joined by ",\n" at the seam, so every pair of
      neighbouring names is separated by exactly ",\n". */
  lemma ImagesListConcat(a: seq<string>, b: seq<string>)
    requires a != [] && b != []
    ensures ImagesList(a + b) == ImagesList(a) + ",\n" + ImagesList(b)
  {
    var ea := seq(|a|, i requires 0 <= i < |a| => Entry(a[i]));
    var eb := seq(|b|, i requires 0 <= i < |b| => Entry(b[i]));
    var ab := a + b;
    assert seq(|ab|, i requires 0 <= i < |ab| => Entry(ab[i])) == ea + eb;
    JoinConcat(ea, eb, ",\n");
  }

  /** The marker line and the start of the declaration the regular
      expression looks for. */
  const Marker: string := "// Liste des images" + " dans le dossier photos" + "\n" + "const images = ["

  /** The end of the region it replaces. */
  const Closer: string := "];"

  /** newImagesArray: the marker, a line break, the entries, a line break and "];". */
  function NewImagesArray(imgs: seq<string>): (r: string)
    ensures |r| >= |Marker| + |Closer| && r[..|Marker|] == Marker && r[|r| - |Closer|..] == Closer
  {
    Marker + "\n" + ImagesList(imgs) + "\n" + Closer
  }

  predicate OccursAt(s: string, pat: string, i: nat) {
    i + |pat| <= |s| && s[i..i + |pat|] == pat
  }

  /** The first occurrence of pat in s at or after position from. */
  function FindFrom(s: string, pat: string, from: nat): (r: Option<nat>)
    ensures r.Some? ==> from <= r.value && OccursAt(s, pat, r.value)
    ensures r.Some? ==> forall j :: from <= j < r.value ==> !OccursAt(s, pat, j)
    ensures r.None? ==> forall j :: from <= j ==> !OccursAt(s, pat, j)
    decreases |s| - from
  {
    if from + |pat| > |s| then None
    else if OccursAt(s, pat, from) then Some(from)
    else FindFrom(s, pat, from + 1)
  }

  /** What a replacement string stands for, given the match and the text
      before and after it: "$$" is a dollar sign, "$&" the match, "$`" the
      text before it and "$'" the text after it; any other '$' is literal. */
  function Expand(rep: string, matched: string, before: string, after: string): string
  {
    if rep == [] then []
    else if rep[0] == '$' && |rep| >= 2 && rep[1] == '$' then "$" + Expand(rep[2..], matched, before, after)
    else if rep[0] == '$' && |rep| >= 2 && rep[1] == '&' then matched + Expand(rep[2..], matched, before, after)
    else if rep[0] == '$' && |rep| >= 2 && rep[1] == '`' then before + Expand(rep[2..], matched, before, after)
    else if rep[0] == '$' && |rep| >= 2 && rep[1] == '\'' then after + Expand(rep[2..], matched, before, after)
    else [rep[0]] + Expand(rep[1..], matched, before, after)
  }

  /** The patterns at work: "$&" is the match, "$`" and "$'" the text before
      and after it, "$$" one dollar sign; a "$" before anything else, such as
      "$1" when the expression has no groups, or at the end, is literal. */
  lemma ExpandExamples(matched: string, before: string, after: string)
    ensures Expand("[$&]", matched, before, after) == "[" + matched + "]"
    ensures Expand("$`|$'", matched, before, after) == before + "|" + after
    ensures Expand("$$&", matched, before, after) == "$&"
    ensures Expand("$1", matched, before, after) == "$1"
    ensures Expand("a$", matched, before, after) == "a$"
  {
    var m, b, a := matched, before, after;
    assert "]"[1..] == [] && Expand("]", m, b, a) == "]";
    assert "$&]"[2..] == "]" && Expand("$&]", m, b, a) == m + "]";
    assert "[$&]"[1..] == "$&]";
    assert "$'"[2..] == [] && Expand("$'", m, b, a) == a;
    assert "|$'"[1..] == "$'" && Expand("|$'", m, b, a) == "|" + a;
    assert "$`|$'"[2..] == "|$'";
    assert "&"[1..] == [] && Expand("&", m, b, a) == "&";
    assert "$$&"[2..] == "&";
    assert "1"[1..] == [] && Expand("1", m, b, a) == "1";
    assert "$1"[1..] == "1";
    assert "$"[1..] == [] && Expand("$", m, b, a) == "$";
    assert "a$"[1..] == "$";
  }

  /** A replacement without a dollar sign stands for itself. */
  lemma {:induction false} ExpandPlain(rep: string, matched: string, before: string, after: string)
    requires '$' !in rep
    ensures Expand(rep, matched, before, after) == rep
  {
    if rep != [] {
      assert rep[0] in rep;
      assert forall c :: c in rep[1..] ==> c in rep;
      ExpandPlain(rep[1..], matched, before, after);
    }
  }

  /** The text with data[p..e] replaced by what rep stands for. */
  function Splice(data: string, p: nat, e: nat, rep: string): (r: string)
    requires p <= e <= |data|
  {
    data[..p] + Expand(rep, data[p..e], data[..p], data[e..]) + data[e..]
  }

  /** Splicing in a replacement without '$' keeps both sides of the region. */
  lemma {:induction false} SplicePlain(data: string, p: nat, e: nat, rep: string)
    requires p <= e <= |data| && '$' !in rep
    ensures Splice(data, p, e, rep) == data[..p] + rep + data[e..]
  {
    ExpandPlain(rep, data[p..e], data[..p], data[e..]);
  }

  /** Where a match of a regular expression starts and where it ends. */
  datatype Region = Region(start: nat, end: nat)

  /** The match of the regular expression open[\s\S]*?close: the first
      open, then the first close after it, however far, since [\s\S] also
      takes line breaks. */
  function FindRegion(data: string, open: string, close: string): (r: Option<Region>)
    ensures r.Some? ==> r.value.start <= r.value.end <= |data|
  {
    var first := FindFrom(data, open, 0);
    if first.None? then None
    else
      var last := FindFrom(data, close, first.value + |open|);
      if last.None? then None
      else Some(Region(first.value, last.value + |close|))
  }

  /** The match is the leftmost one and the shortest from there: it starts
      with open at the first place open occurs, ends with close, and holds no
      close between the two; and there is no match exactly when there is no
      open, or no close after the first open. */
  lemma {:induction false} FindRegionIsFirstMatch(data: string, open: string, close: string)
    ensures FindRegion(data, open, close).None? <==>
      (forall j :: 0 <= j ==> !OccursAt(data, open, j)) ||
      (exists p :: FindFrom(data, open, 0) == Some(p) && forall j :: p + |open| <= j ==> !OccursAt(data, close, j))
    ensures forall p: nat, e: nat :: FindRegion(data, open, close) == Some(Region(p, e)) ==>
      && OccursAt(data, open, p) && (forall j :: 0 <= j < p ==> !OccursAt(data, open, j))
      && p + |open| + |close| <= e && OccursAt(data, close, e - |close|)
      && (forall j :: p + |open| <= j < e - |close| ==> !OccursAt(data, close, j))
  {
    var first := FindFrom(data, open, 0);
    if first.Some? {
      var p := first.value;
      var last := FindFrom(data, close, p + |open|);
      if last.None? {
        assert FindFrom(data, open, 0) == Some(p) && forall j :: p + |open| <= j ==> !OccursAt(data, close, j);
      } else {
        assert OccursAt(data, open, p);
      }
    }
  }

  /** The facts about one match taken apart. */
  lemma {:induction false} FindRegionSome(data: string, open: string, close: string, p: nat, e: nat)
    requires FindRegion(data, open, close) == Some(Region(p, e))
    ensures FindFrom(data, open, 0) == Some(p) && FindFrom(data, close, p + |open|) == Some(e - |close|)
    ensures OccursAt(data, open, p) && p + |open| + |close| <= e <= |data|
  {
  }

  /** A first open followed by a close makes the match. */
  lemma {:induction false} FindRegionAt(data: string, open: string, close: string, p: nat, q: nat)
    requires FindFrom(data, open, 0) == Some(p) && FindFrom(data, close, p + |open|) == Some(q)
    ensures FindRegion(data, open, close) == Some(Region(p, q + |close|))
  {
  }

  /** data.replace(regex, rep) for that regular expression: the match is
      replaced by what rep stands for; without a match the text is returned
      unchanged. */
  function ReplaceRegion(data: string, open: string, close: string, rep: string): string
  {
    match FindRegion(data, open, close)
    case None => data
    case Some(g) => Splice(data, g.start, g.end, rep)
  }

  /** The replacement update-images.js performs: from the marker to "];". */
  function ReplaceFirst(data: string, rep: string): string {
    ReplaceRegion(data, Marker, Closer, rep)
  }

  /** Without a match the text is unchanged; with one, exactly the match is
      replaced, and the text before and after it is kept. */
  lemma {:induction false} ReplaceRegionSplices(data: string, open: string, close: string, rep: string)
    ensures FindRegion(data, open, close).None? ==> ReplaceRegion(data, open, close, rep) == data
    ensures forall p: nat, e: nat :: FindRegion(data, open, close) == Some(Region(p, e)) ==>
      && p <= e <= |data|
      && ReplaceRegion(data, open, close, rep) == Splice(data, p, e, rep)
      && ReplaceRegion(data, open, close, rep)[..p] == data[..p]
      && EndsWith(ReplaceRegion(data, open, close, rep), data[e..])
  {
  }

  /** The text of script.js after the tool ran over the given directory listing. */
  function UpdateScript(data: string, files: seq<string>): string {
    ReplaceFirst(data, NewImagesArray(Images(files)))
  }

  /** update-images.js as a whole: nothing is written when the directory or
      the script cannot be read. */
  function UpdateImagesRun(listing: Option<seq<string>>, script: Option<string>): (r: Option<string>)
    ensures r.Some? <==> listing.Some? && script.Some?
    ensures r.Some? ==> r.value == UpdateScript(script.value, listing.value)
  {
    match listing
    case None => None
    case Some(files) =>
      match script
      case None => None
      case Some(data) => Some(UpdateScript(data, files))
  }

  /** No "];" starts anywhere in s. */
  predicate NoCloser(s: string) {
    forall i :: 0 <= i < |s| - 1 ==> !(s[i] == ']' && s[i + 1] == ';')
  }

  lemma {:induction false} NoCloserConcat(a: string, b: string)
    requires NoCloser(a) && NoCloser(b)
    requires a == [] || b == [] || !(a[|a| - 1] == ']' && b[0] == ';')
    ensures NoCloser(a + b)
  {
    var s := a + b;
    forall i | 0 <= i < |s| - 1 ensures !(s[i] == ']' && s[i + 1] == ';') {
      if i + 1 < |a| {
        assert s[i] == a[i] && s[i + 1] == a[i + 1];
      } else if i >= |a| {
        assert s[i] == b[i - |a|] && s[i + 1] == b[i - |a| + 1];
      }
    }
  }

  /** Names the tool can list any number of times: no "];" and no '$'. */
  predicate PlainName(name: string) {
    NoCloser(name) && '$' !in name
  }

  /** An entry holds no "];" and no '$', and starts and ends with a
      character that cannot be part of a "];". */
  lemma {:induction false} EntryPlain(img: string)
    requires PlainName(img)
    ensures NoCloser(Entry(img)) && '$' !in Entry(img)
    ensures Entry(img)[0] == ' ' && Entry(img)[|Entry(img)| - 1] == '\''
  {
    NoCloserConcat("  '", img);
    NoCloserConcat("  '" + img, "'");
  }

  /** The same holds for the entries joined. */
  lemma {:induction false} JoinPlain(entries: seq<string>)
    requires forall i :: 0 <= i < |entries| ==> |entries[i]| > 0 && NoCloser(entries[i]) && '$' !in entries[i]
    requires forall i :: 0 <= i < |entries| ==> entries[i][0] == ' ' && entries[i][|entries[i]| - 1] == '\''
    ensures NoCloser(Join(entries, ",\n")) && '$' !in Join(entries, ",\n")
    ensures Join(entries, ",\n") == [] || Join(entries, ",\n")[|Join(entries, ",\n")| - 1] == '\''
  {
    if |entries| >= 2 {
      var init, last := entries[..|entries| - 1], entries[|entries| - 1];
      JoinPlain(init);
      var j := Join(init, ",\n");
      assert init[|init| - 1] == entries[|entries| - 2];
      assert |init| >= 1;
      assert j != [] by {
        if |init| >= 2 {
          assert Join(init, ",\n") == Join(init[..|init| - 1], ",\n") + ",\n" + init[|init| - 1];
        }
      }
      NoCloserConcat(j, ",\n");
      NoCloserConcat(j + ",\n", last);
    }
  }

  /** Between the marker and the final "];", the generated block holds no
      "];" and no '$' when the names hold none. */
  lemma {:induction false} ImagesListPlain(imgs: seq<string>)
    requires forall i :: 0 <= i < |imgs| ==> PlainName(imgs[i])
    ensures NoCloser("\n" + ImagesList(imgs) + "\n]")
    ensures '$' !in ImagesList(imgs)
  {
    var entries := seq(|imgs|, i requires 0 <= i < |imgs| => Entry(imgs[i]));
    forall i | 0 <= i < |imgs| ensures |entries[i]| > 0 && NoCloser(entries[i]) && '$' !in entries[i]
      && entries[i][0] == ' ' && entries[i][|entries[i]| - 1] == '\''
    {
      EntryPlain(imgs[i]);
    }
    JoinPlain(entries);
    var l := ImagesList(imgs);
    NoCloserConcat("\n", l);
    NoCloserConcat("\n" + l, "\n]");
  }

  lemma {:induction false} MarkerPlain()
    ensures '$' !in Marker
  {
  }

  /** Whether pat occurs at j depends only on a prefix that covers it. */
  lemma {:induction false} OccursInPrefix(s: string, t: string, n: nat, pat: string, j: nat)
    requires n <= |s| && n <= |t| && s[..n] == t[..n] && j + |pat| <= n
    ensures OccursAt(s, pat, j) <==> OccursAt(t, pat, j)
  {
    assert s[j..j + |pat|] == s[..n][j..j + |pat|];
    assert t[j..j + |pat|] == t[..n][j..j + |pat|];
  }

  /** A search finds an occurrence with none before it. */
  lemma {:induction false} FindFromFirst(s: string, pat: string, from: nat, k: nat)
    requires from <= k && OccursAt(s, pat, k)
    requires forall j :: from <= j < k ==> !OccursAt(s, pat, j)
    ensures FindFrom(s, pat, from) == Some(k)
  {
  }

  /** After a splice whose block starts with pat, the first pat is still
      where the first pat of the input was. */
  lemma {:induction false} PatternStaysFirst(data: string, block: string, pat: string, p: nat, e: nat)
    requires p + |pat| <= e <= |data|
    requires OccursAt(data, pat, p) && forall j :: 0 <= j < p ==> !OccursAt(data, pat, j)
    requires |block| >= |pat| && block[..|pat|] == pat
    ensures FindFrom(data[..p] + block + data[e..], pat, 0) == Some(p)
  {
    var out := data[..p] + block + data[e..];
    var n := p + |pat|;
    assert out[..n] == data[..n] by {
      forall k | 0 <= k < n ensures out[k] == data[k] {
        if k >= p {
          assert out[k] == block[k - p] == pat[k - p] == data[p..p + |pat|][k - p];
        }
      }
    }
    OccursInPrefix(out, data, n, pat, p);
    forall j | 0 <= j < p ensures !OccursAt(out, pat, j) {
      OccursInPrefix(out, data, n, pat, j);
    }
    FindFromFirst(out, pat, 0, p);
  }

  /** In a text holding at p a block whose first "];" after its first m
      characters is its last two, the first "];" from p + m is that one. */
  lemma {:induction false} CloserEndsBlockAt(out: string, block: string, p: nat, m: nat)
    requires p + |block| <= |out| && out[p..p + |block|] == block
    requires |block| >= m + |Closer| && block[|block| - |Closer|..] == Closer
    requires NoCloser(block[m..|block| - 1])
    ensures FindFrom(out, Closer, p + m) == Some(p + |block| - |Closer|)
  {
    var e := p + |block| - |Closer|;
    assert |Closer| == 2 && Closer[0] == ']' && Closer[1] == ';';
    assert out[e..e + |Closer|] == block[|block| - |Closer|..];
    assert OccursAt(out, Closer, e);
    var mid := block[m..|block| - 1];
    forall j | p + m <= j < e ensures !OccursAt(out, Closer, j) {
      var i := j - p - m;
      assert 0 <= i < |mid| - 1;
      assert out[j] == mid[i] && out[j + 1] == mid[i + 1];
      assert !(mid[i] == ']' && mid[i + 1] == ';');
      assert out[j..j + 2][0] != Closer[0] || out[j..j + 2][1] != Closer[1];
    }
    FindFromFirst(out, Closer, p + m, e);
  }

  /** When that block also sits at the first open and starts with open, the
      match is the block. */
  lemma {:induction false} CloserEndsBlock(out: string, open: string, block: string, p: nat)
    requires p + |block| <= |out| && out[p..p + |block|] == block && FindFrom(out, open, 0) == Some(p)
    requires |block| >= |open| + |Closer| && block[|block| - |Closer|..] == Closer
    requires NoCloser(block[|open|..|block| - 1])
    ensures FindRegion(out, open, Closer) == Some(Region(p, p + |block|))
  {
    CloserEndsBlockAt(out, block, p, |open|);
    FindRegionAt(out, open, Closer, p, p + |block| - |Closer|);
  }

  /** Splicing the block in where it already is changes nothing. */
  lemma {:induction false} SpliceSame(out: string, block: string, p: nat)
    requires p + |block| <= |out| && out[p..p + |block|] == block
    ensures out[..p] + block + out[p + |block|..] == out
  {
    assert out == out[..p] + out[p..p + |block|] + out[p + |block|..];
  }

  /** The generated block for names without "];" or '$': it has no '$', and
      no "];" between the marker and its own final "];". */
  lemma {:induction false} BlockPlain(imgs: seq<string>)
    requires forall i :: 0 <= i < |imgs| ==> PlainName(imgs[i])
    ensures '$' !in NewImagesArray(imgs)
    ensures NoCloser(NewImagesArray(imgs)[|Marker|..|NewImagesArray(imgs)| - 1])
  {
    var block := NewImagesArray(imgs);
    ImagesListPlain(imgs);
    MarkerPlain();
    assert block == Marker + "\n" + ImagesList(imgs) + "\n" + Closer;
    assert block[|Marker|..|block| - 1] == "\n" + ImagesList(imgs) + "\n]";
  }

  /** Replacing, over its own output, the region that starts with open and
      ends with "];": the match is now exactly the block that was spliced in. */
  lemma {:induction false} SecondRunFindsBlock(data: string, open: string, block: string, p: nat, e: nat)
    requires FindRegion(data, open, Closer) == Some(Region(p, e))
    requires |block| >= |open| + |Closer| && block[..|open|] == open && block[|block| - |Closer|..] == Closer
    requires NoCloser(block[|open|..|block| - 1])
    ensures e <= |data|
    ensures FindRegion(data[..p] + block + data[e..], open, Closer) == Some(Region(p, p + |block|))
    ensures (data[..p] + block + data[e..])[p..p + |block|] == block
  {
    FindRegionSome(data, open, Closer, p, e);
    var out := data[..p] + block + data[e..];
    PatternStaysFirst(data, block, open, p, e);
    assert out[p..p + |block|] == block;
    CloserEndsBlock(out, open, block, p);
  }

  /** Replacing twice with a block that starts with open and whose first "];"
      after open is its end gives the text of replacing once. */
  lemma {:induction false} ReplaceRegionTwice(data: string, open: string, block: string)
    requires |block| >= |open| + |Closer| && block[..|open|] == open && block[|block| - |Closer|..] == Closer
    requires NoCloser(block[|open|..|block| - 1]) && '$' !in block
    ensures ReplaceRegion(ReplaceRegion(data, open, Closer, block), open, Closer, block)
      == ReplaceRegion(data, open, Closer, block)
  {
    ReplaceRegionSplices(data, open, Closer, block);
    if FindRegion(data, open, Closer).Some? {
      var g := FindRegion(data, open, Closer).value;
      SplicePlain(data, g.start, g.end, block);
      var out := data[..g.start] + block + data[g.end..];
      SecondRunFindsBlock(data, open, block, g.start, g.end);
      ReplaceRegionSplices(out, open, Closer, block);
      SplicePlain(out, g.start, g.start + |block|, block);
      SpliceSame(out, block, g.start);
    }
  }

  /** Running the tool twice over the same listing gives the text of running it
      once, provided no image name holds "];" or '$': the generated block
      starts with the very marker the regular expression looks for and ends
      at the first "];" after it. */
  lemma {:induction false} UpdateIsIdempotent(data: string, files: seq<string>)
    requires forall i :: 0 <= i < |Images(files)| ==> PlainName(Images(files)[i])
    ensures UpdateScript(UpdateScript(data, files), files) == UpdateScript(data, files)
  {
    var imgs := Images(files);
    BlockPlain(imgs);
    ReplaceRegionTwice(data, Marker, NewImagesArray(imgs));
  }
}
