# Photo gallery: gallery logic and photo-renaming tools

This project models the logic of a small static photo gallery and its three
maintenance tools:

- **The gallery page (`script.js`).** It picks one, two or three columns from
  the window width. It deals images round-robin into the columns. It rebuilds
  the columns on resize only when the column count changes. It moves a
  lightbox cursor with wrap-around. It discovers `1.webp`, `2.webp`, … one
  probe at a time and stops after five misses in a row.
  - The page's state (image list, columns, cursor) is the class
    `Gallery.Gallery`, whose methods update it in place.
  - The existence check is an oracle `imageExists: nat -> bool`.
- **`number_new_photos.py`.** It splits the image files into numbered ones
  (stem of one or more Unicode decimal digits, as Python's `\d` reads it) and unnumbered ones. It computes the next free number
  and renames the unnumbered files, in sorted order, to `{n}.jpg`,
  `{n+1}.jpg`, ….
- **`apply_order.py`.** It renames entry k (counting from 1) of an ordering
  to `{k}.jpg` and skips entries whose file is missing.
- **Both renaming tools** use the same two-pass rename through temporary
  names (`_temp_number_i.jpg`, `_temp_reorder_i.jpg`).
  - This rename is written once, as the loops of `Folder.Directory`.
  - The directory is a map from names to contents, and `os.rename` is an
    update of that map.
  - The main theorem (`Folder.TwoPassMoves`) says that a clean plan moves
    every source's contents to its target without clobbering. This holds even
    when targets are also sources, as in a swap.
- **`update-images.js`** (pure). It keeps the directory entries with an image
  extension. It renders them as a JavaScript array literal. It splices that
  text over the first marker-delimited region of the script, with the
  semantics of `String.prototype.replace`, including `$` patterns in the
  replacement.

Modules:

- `Basics`: Option, order-preserving selection, distinctness.
- `Decimal`: decimal numerals, their injectivity, and the Unicode decimal digits that Python's `\d` and `int()` accept.
- `Names`: suffixes, the last dot, Python string order, sorting.
- `Folder`: the directory and the two-pass rename.
- `Numbering`, `Reorder`, `UpdateImages`, `Gallery`: one module per source file.

Each imperative method is proved against a specification function. The
properties the tools promise are proved as lemmas about that function.

## Model

| member | source | states |
|---|---|---|
| Gallery.ColumnCount | script.js:5-10 | The result is in 1..3. It is 1 exactly when the width is at most 768, 2 exactly when the width is in (768, 1024], and 3 exactly above 1024. |
| Gallery.ColumnCountMonotone | script.js:5-10 | A wider window never gets fewer columns. |
| Gallery.SlotIsRemainder | script.js:58 | The round-robin slot of list position index among n columns is index mod n. |
| Gallery.PlaceEffect | script.js:32-34 | With no columns, placing an image changes nothing. Otherwise it appends the image to column index mod column count and leaves every other column as it was. |
| Gallery.Gallery.AddImageToGallery | script.js:31-59 | The columns become the placement of the image at its list position. The image list and the cursor are unchanged. |
| Gallery.Gallery.CreateGallery | script.js:16-28 | The columns become ColumnCount(width) empty columns. Nothing else changes. |
| Gallery.LayoutColumn | script.js:21-27 | After an n-column gallery is built and the list is replayed in order, column c holds exactly the images whose list position p has p mod n == c, in increasing p. |
| Gallery.ReplayPrefix | script.js:83-85 | Replaying a prefix of the list does not depend on the images after it. |
| Gallery.Gallery.OnResize | script.js:74-86 | If the column count changes, the columns become the round-robin layout of the whole image list under the new count. If it does not change, the columns are untouched. The image list and the cursor are never modified. |
| Gallery.Gallery.OpenLightbox | script.js:151-152 | The cursor becomes the given index. Nothing else changes. |
| Gallery.JsRemainder | script.js:166 | JavaScript's truncating `%`: a non-negative dividend gives a result in [0, b), a negative one a result in (-b, 0], and the dividend minus the result is a multiple of b. Together these fix the result: it is what is left after the quotient truncated toward zero. |
| Gallery.CursorNavigation | script.js:165-174 | On a non-empty list, next and previous keep a valid cursor in [0, len). Next from len-1 gives 0, and previous from 0 gives len-1. Each undoes the other. |
| Gallery.Gallery.ShowPreviousImage | script.js:165-166 | The cursor moves to PreviousIndex of its old value. The list and the columns are unchanged. |
| Gallery.Gallery.ShowNextImage | script.js:171-172 | The cursor moves to NextIndex of its old value. The list and the columns are unchanged. |
| Gallery.DiscoveredIsSelection | script.js:203-219 | The names collected while probing indices 1..hi-1 are "{k}.webp" for the found indices, in increasing k. |
| Gallery.DiscoveredMembers | script.js:203-219 | "{k}.webp" is collected exactly when 1 <= k < hi and the probe of k succeeds. |
| Gallery.ImageNameInjective | script.js:204-208 | Different indices give different image names. |
| Gallery.NothingFoundWhenFirstFiveMissing | script.js:199-217 | If 1.webp to 5.webp are all missing, the loop stops after probing 5 and the list is empty. |
| Gallery.StopsAfterFiveMisses | script.js:199-217 | With 1 to 3 present and 4 to 8 missing, the loop stops after probing 8 with exactly the first three images, whatever lies beyond. |
| Gallery.GapsBelowFiveDoNotStop | script.js:201-216 | An existing index with no run of five misses before it is collected, so gaps of up to four do not end discovery. |
| Gallery.ProbingStep | script.js:203-219 | One probe keeps the loop's bookkeeping invariant. The counter counts the latest misses, and no run of five misses lies before them. |
| Gallery.ProbingExit | script.js:203 | When the counter reaches five, the loop has stopped at the first run of five misses. |
| Gallery.Gallery.LoadImages | script.js:187-221 | The loop stops at the first run of five consecutive misses. The image list gains exactly the discovered names, in increasing index. Each image is placed in the columns at its list position, and the cursor is unchanged. |
| Folder.RenamedEffect | number_new_photos.py:102 | A successful rename makes dst hold src's contents. src is gone unless it is dst. Every other name is unchanged. |
| Folder.TempNameInjective | number_new_photos.py:100 | Different loop positions give different temporary names. |
| Folder.JpgNameInjective | number_new_photos.py:93 | Different numbers give different "{n}.jpg" names. |
| Folder.TempNameIsNotJpgName | apply_order.py:72 | A temporary name (its prefix does not start with a digit) is never a final "{n}.jpg" name. |
| Folder.RenamesDone | number_new_photos.py:99-106 | A renaming loop logs each moved position once, in increasing order, and never a refused one. |
| Folder.RenamesLogged | number_new_photos.py:99-106 | Position i is logged exactly when the system does not refuse it and its source is still there when the loop reaches it. |
| Folder.TwoPassLog | number_new_photos.py:98-106 | The temporary map has one entry per position that pass 1 logged, in order: that position's temporary name with its target. A position is logged exactly when it is not refused and its source is still there when pass 1 reaches it. |
| Folder.TwoPass | number_new_photos.py:96-120 | Pass 2 renames only what pass 1 moved. Each temporary-map entry is an unrefused position's temporary name with its target. success + errors == temporary-map length <= plan length. |
| Folder.TwoPassMoves | number_new_photos.py:96-120 | For a clean plan (existing distinct sources, distinct targets, fresh temporary names, nothing refused): every rename succeeds, each target holds its source's original contents (also in a swap), other files keep their contents, and no other name is left behind. |
| Folder.TwoPassTempGone | apply_order.py:84-92 | No temporary file of a clean plan is left over. |
| Folder.Directory.Rename | number_new_photos.py:102 | The rename succeeds exactly when the source exists and the system does not refuse. On success the directory is the renamed map; otherwise it is unchanged. |
| Folder.Directory.FirstPassRename | number_new_photos.py:98-106 | Pass 1 leaves the directory and the temporary map that the first-pass function describes. |
| Folder.Directory.SecondPassRename | number_new_photos.py:109-120 | Pass 2 leaves the directory, success count and error count of the renaming function over the temporary map. |
| Folder.Directory.TwoPassRename | apply_order.py:68-92 | The directory and both counters are exactly those of TwoPass. |
| Numbering.CollectFiles | number_new_photos.py:14-21 | The loop over the ten patterns, taking the union of each glob's matches, collects exactly the directory's non-hidden names that end in one of the ten extensions. |
| Names.SortedNames | number_new_photos.py:23 | The result holds exactly the elements of the set, each once, in increasing Python string order. |
| Numbering.StemDropsExtension | number_new_photos.py:41 | A name head + "." + tail with a dot-free tail has stem head, when head holds some character other than a dot. |
| Numbering.StemKeepsLeadingDots | number_new_photos.py:41 | A name in which no dot follows a character other than a dot (no dot at all, ".hidden", "..") is its own stem. |
| Numbering.AsciiNumberStem | number_new_photos.py:44-45 | A non-empty stem of ASCII digits passes `^\d+$`, and `int()` gives its decimal value. |
| Numbering.NumberStemNewline | number_new_photos.py:44-45 | `$` also matches before one final newline and `int()` ignores it: a decimal stem followed by "\n" passes, with the same value. |
| Numbering.NonDecimalStem | number_new_photos.py:44 | A stem holding a character that is not a decimal digit, other than one final newline, fails `^\d+$`; so does the empty stem. |
| Numbering.JpgNameIsNumbered | number_new_photos.py:44-45 | "{n}.jpg" is matched by the glob, counts as numbered and reads back as number n. |
| Numbering.NumberedOf | number_new_photos.py:39-46 | Every number in numbered_files maps to a listed numbered name carrying that number. |
| Numbering.NumberedOfCovers | number_new_photos.py:39-46 | Every numbered name's number is a key of numbered_files. |
| Numbering.ArabicIndicStemIsNumbered | number_new_photos.py:44-45 | A stem of a non-ASCII decimal digit (ARABIC-INDIC DIGIT THREE) counts as numbered, with number 3. |
| Decimal.AsciiDecimalsValue | number_new_photos.py:44-45 | On ASCII digits, the Unicode decimal reading agrees with the plain decimal reading. |
| Numbering.ToNumberMembers | number_new_photos.py:39-48 | The files to number are exactly the collected image files whose stem is not `^\d+$`, with `\d` any Unicode decimal digit. |
| Numbering.ToNumberSorted | number_new_photos.py:23-48 | The files to number are in increasing string order, so the i-th of them in sorted order is the one numbered next_number + i. |
| Numbering.ToNumberDistinct | number_new_photos.py:17-23 | The sorted list of files to number has no repeats. |
| Numbering.Classify | number_new_photos.py:36-48 | The loop computes exactly numbered_files and unnumbered_files, reading stems with Unicode `\d` and `int()`. |
| Numbering.NextNumber | number_new_photos.py:58-62 | next_number >= 1 and is above every key. It is 1 with no numbered files; otherwise next_number - 1 is a key (max + 1). |
| Numbering.NextFreeNumber | number_new_photos.py:58-62 | The computation of next_number yields exactly NextNumber of numbered_files. |
| Numbering.NextNumberAboveNumbered | number_new_photos.py:58-60 | Every numbered image in the directory has a number below next_number. |
| Numbering.Plan | number_new_photos.py:89-94 | Pair i moves the i-th unnumbered file to "{next+i}.jpg", whatever its extension. |
| Numbering.RenamePairs | number_new_photos.py:89-94 | The loop builds exactly that plan. |
| Numbering.PlanSources | number_new_photos.py:90-94 | Exactly the unnumbered files are rename sources, so a numbered file is never the source of a pair. |
| Numbering.PlanTargetsDistinct | number_new_photos.py:90-93 | The targets are pairwise distinct. |
| Numbering.PlanTargetsFresh | number_new_photos.py:58-60 | When next is above every number in use, no target already exists, so no numbered file is overwritten. |
| Numbering.PlanIsClean | number_new_photos.py:89-100 | If no temporary name exists and nothing is refused, the plan meets the two-pass theorem's conditions. |
| Numbering.NumberingOf | number_new_photos.py:31-120 | No image files means NoImages. There is a rename exactly when there are unnumbered files and the user confirms; otherwise nothing changes. The counters are bounded by the unnumbered count, and numbering starts at next_number. |
| Numbering.NumberingMovesUnnumbered | number_new_photos.py:96-120 | When confirmed, with no temporary name taken and nothing refused: all renames succeed, the i-th unnumbered file becomes "{next+i}.jpg" with its contents, every other file is untouched, and no other name remains. |
| Numbering.NumberNewPhotos | number_new_photos.py:5-120 | The report and the directory after the script are exactly NumberingOf. |
| Reorder.RenameMap | apply_order.py:51-62 | rename_map has at most one pair per ordering entry. |
| Reorder.RenameMapIsSelection | apply_order.py:53-62 | rename_map is the order-preserving selection of the existing entries. The entry at position p goes to "{p+1}.jpg", so numbering follows the position in the ordering, not in rename_map. |
| Reorder.RenameMapEntry | apply_order.py:53-62 | Each existing entry k (counting from 1) has the pair (order[k-1], "{k}.jpg"). |
| Reorder.RenameMapSources | apply_order.py:57-62 | A name is renamed exactly when it is in the ordering and exists; missing entries get no pair. |
| Reorder.RenameMapDistinct | apply_order.py:53-62 | The targets are pairwise distinct. So are the sources, when the ordering has no repeats. |
| Reorder.BuildRenameMap | apply_order.py:51-62 | The loop with `continue` builds exactly rename_map. |
| Reorder.ApplyOrderOf | apply_order.py:23-92 | An empty ordering means NoOrder. NothingToRename means confirmed but no entry exists. A rename happens exactly when confirmed and something exists; otherwise the directory is untouched. The counters are bounded by rename_map's length. |
| Reorder.RenameMapIsClean | apply_order.py:51-72 | With no repeats in the ordering and no temporary name taken, rename_map meets the two-pass theorem's conditions. |
| Reorder.ReorderMovesPhotos | apply_order.py:68-92 | When confirmed, with no repeats, no temporary name taken and nothing refused: all renames succeed, "{k}.jpg" holds order[k-1]'s original contents (also when it was itself reordered), other files keep their contents, and no other name remains. |
| Reorder.ApplyOrder | apply_order.py:5-92 | The report and the directory after the script are exactly ApplyOrderOf. |
| Reorder.SwapPlan | apply_order.py:51-62 | The ordering ["2.jpg", "1.jpg"] plans 2.jpg -> 1.jpg and 1.jpg -> 2.jpg. |
| Reorder.SwapTwoPhotos | apply_order.py:68-92 | Applying ["2.jpg", "1.jpg"] to a directory of just 1.jpg and 2.jpg exchanges their contents without clobbering. |
| UpdateImages.Extname | update-images.js:17 | The extension is empty, or it starts with a dot and ends the name. |
| UpdateImages.ExtnameAfterLastDot | update-images.js:17 | The extension is the text from the last dot on, unless that dot starts the name or the name is "..". |
| UpdateImages.HiddenHasNoExtension | update-images.js:17-18 | A name whose only dot is its first character has no extension and is not an image. |
| UpdateImages.NoDotNoExtension | update-images.js:17-18 | A name without a dot has no extension and is not an image. |
| UpdateImages.ExtnameLower | update-images.js:17 | Taking the extension and lower-casing commute: the last dot is where it was. |
| UpdateImages.IsImageIgnoresCase | update-images.js:17-18 | Two names that differ only in letter case are both images or both not. |
| UpdateImages.IsImageByExtension | update-images.js:15-19 | A name is kept exactly when its lower-cased last extension is one of .jpg, .jpeg, .png, .gif, .webp (upper case counts too). |
| UpdateImages.ImagesAreSelection | update-images.js:16-19 | The filter output is the order-preserving selection of the image entries of the listing, and holds exactly those entries. |
| UpdateImages.JoinConcat | update-images.js:29 | Joining two non-empty lists is joining each, with one separator between the two results. |
| UpdateImages.ImagesListShort | update-images.js:29 | No names give the empty text; one name gives its quoted line `  'name'` and no separator. |
| UpdateImages.ImagesListConcat | update-images.js:29 | The lines of two lists are separated by exactly ",\n" at the seam. |
| UpdateImages.NewImagesArray | update-images.js:29-30 | The generated text begins with the marker the regular expression looks for and ends with "];". |
| UpdateImages.FindFrom | update-images.js:33 | The result is the first occurrence of the pattern at or after the start position, or none when there is no occurrence. |
| UpdateImages.ExpandExamples | update-images.js:34 | The replacement patterns of `String.prototype.replace`: "$&" is the match, "$`" and "$'" the text before and after it, "$$" one dollar sign, and "$1" (no groups) or a final "$" is literal. |
| UpdateImages.ExpandPlain | update-images.js:34 | A replacement without '$' stands for itself. |
| UpdateImages.SplicePlain | update-images.js:34 | Splicing a '$'-free replacement keeps exactly the text before and after the region. |
| UpdateImages.FindRegion | update-images.js:33 | A match lies within the text. |
| UpdateImages.FindRegionIsFirstMatch | update-images.js:33 | The match starts at the first marker and ends at the first "];" after it, with no "];" in between. There is no match exactly when there is no marker, or no "];" after the first marker. |
| UpdateImages.ReplaceRegionSplices | update-images.js:33-34 | Without a match the text is returned unchanged. With one, only the matched region is replaced; the text before it is kept and the text after it still ends the result. |
| UpdateImages.UpdateImagesRun | update-images.js:8-37 | An output is written exactly when both the directory and the script could be read, and it is the updated script. |
| UpdateImages.NoCloserConcat | update-images.js:29-30 | Two texts without "];" stay without it when joined, unless the join creates one. |
| UpdateImages.ImagesListPlain | update-images.js:29 | For names without "];" or '$', the entries hold no "];" and no '$'. |
| UpdateImages.FindRegionSome | update-images.js:33 | A match starts at the first marker and ends right after the first "];" that follows it. |
| UpdateImages.CloserEndsBlock | update-images.js:30-33 | Written at a text's first marker, the generated block is itself the region the regular expression then matches. |
| UpdateImages.ReplaceRegionTwice | update-images.js:33-34 | Replacing with a '$'-free block that starts with the marker and holds no "];" before its end gives the same text when done twice as when done once. |
| UpdateImages.UpdateIsIdempotent | update-images.js:29-34 | Running the tool twice over the same listing gives the same script as running it once, provided no name that the filter keeps as an image holds "];" or '$'. |

## Left out

- DOM work in the page: element creation, classes, styles, the fade-in animation and its timer, event listeners, the lightbox markup and body scrolling. None of it affects the state modelled.
- The resize debounce timer; `Gallery.Gallery.OnResize` models the decision made after the delay.
- Gallery.Gallery.OnResize: the count compared is the length of the `columns` state, not the number of children of the content element. The two agree as long as only this script adds children to that element.
- The browser image load behind `imageExists`, `async`/`await` and the `DOMContentLoaded` wiring. The existence check is an oracle from index to answer.
- Gallery.Gallery.LoadImages: a resize can fire while a probe's `await` is pending and rebuild the columns between two probes. The model runs the loop without interleaving, so its postcondition describes a load during which no resize happens.
- Gallery.Gallery.LoadImages: termination is proved only when the oracle has some run of five misses; the ghost parameter `stop` names one. Without such a run the page probes forever.
- Gallery.Gallery.ShowPreviousImage and Gallery.Gallery.ShowNextImage require a non-empty image list. On an empty list the page computes a remainder by zero (NaN), which the model does not represent.
- Gallery.Gallery.OpenLightbox sets the cursor only. Showing the image at that index is DOM work.
- `convert_to_webp.py` is not part of this model. It transcodes images, computes floating-point statistics and reads an interactive quality choice.
- Interactive confirmation with `input()` is the boolean parameter `confirmed`. All console output is left out.
- JSON parsing in `apply_order.py`: reading the file, a missing file and a malformed file. The ordering is given as a sequence of names, and an empty or absent `order` is the empty sequence.
- Real file-system behaviour. Path joining, `abspath` and directories are left out; the directory is a flat map from names to contents. A rename fails when its source is missing or when its position is in the parameter set `refused1` (pass 1) or `refused2` (pass 2). That set stands for every other system error: permissions, and an existing target on systems that will not overwrite.
- `glob` is modelled with case-sensitive matching, hidden names excluded. The absolute paths all share the directory, so sorting them sorts the names.
- Numbering.NumberingMovesUnnumbered, Reorder.ReorderMovesPhotos: proved only when no file already has a temporary name, and only when no rename is refused. A leftover `_temp_number_i.jpg` or `_temp_reorder_i.jpg` would be overwritten in pass 1, and neither script checks for it. Partial failures are covered by the counters of Numbering.NumberingOf and Reorder.ApplyOrderOf and by Folder.RenamesLogged.
- Reorder.ReorderMovesPhotos: proved only for an ordering that names no file twice. With a repeat, pass 1 fails on the second occurrence, which the counters of `Reorder.ApplyOrderOf` still cover.
- The Node callbacks of `update-images.js` and their error messages. Unreadable inputs are `None` in `UpdateImages.UpdateImagesRun`. Writing the file is the function's result, and a write error is not modelled.
- UpdateImages.ExtnameLower, UpdateImages.IsImageIgnoresCase: only ASCII letters are lower-cased. The full Unicode mapping of `toLowerCase` is not modelled.
- UpdateImages.UpdateIsIdempotent: stated only for names without "];" or '$'. A '$' in a name is read by `String.prototype.replace` as a replacement pattern, which `UpdateImages.Expand` models.
- The regular expression is modelled for its one fixed pattern only: the literal marker, then the shortest text up to the first "];".
- That the page's own first lines differ from the marker, so that running the tool over the `script.js` shown leaves it unchanged, is a fact about a whole file. The model states the general rule instead: `UpdateImages.ReplaceRegionSplices` with `UpdateImages.FindRegionIsFirstMatch`.
