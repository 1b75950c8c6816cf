# update_images_from_folder, modelled in Dafny

This project models the decision logic of the Django management command
`update_images_from_folder`. The command walks the movie images folder. For each
file it:

- skips placeholder and screenshot files (`should_skip_file`);
- converts a file whose extension is not `.png`, `.jpg`, `.jpeg` or `.gif` to JPEG,
  and drops the file when that fails;
- turns the file name's stem into a title and looks for a movie with
  `find_movie_by_title`;
- on a match, stores `movie/images/<file name>` as the movie's image and saves it.

It reports how many images it updated.

The model has five modules:

- `Wrappers`: the `Option` type.
- `PyStrings`: the Python string and path primitives the command relies on, with
  their contracts:
  - `str.replace` (all occurrences, and first occurrence only);
  - `str.strip` (Python's whitespace set);
  - `str.lower` (ASCII);
  - `str.split(':')[0]`, `str.endswith` and `a in b`;
  - `os.path.splitext` (POSIX rules, including the leading-dots rule).
- `TitleMatcher`: `find_movie_by_title`.
  - The cleaned stem and the comparison key of a title are functions.
  - The search over the titles in enumeration order is a method with a loop. It
    keeps both tests of the source: equality first, then containment either way.
  - The method is proved equal to `FirstContaining`, a search that uses
    containment only.
- `FileFilter`: `should_skip_file` with its nine-name `SYSTEM_FILES` set, the
  accepted-extension test, and the name `convert_to_jpg` returns.
- `UpdateImages`: the loop of `handle`.
  - Each listed file is a `DirEntry`. The entry also carries the two results the
    command gets from code outside the model: whether conversion produces a file,
    and whether `movie.save()` goes through.
  - `Outcome` is the specification of one pass of the loop body.
  - `MovieStore` is a class holding the titles and the stored image paths. Its
    `SaveImage` method changes the stored image only when the save succeeds.
  - `ProcessEntry` is the loop body as a method. `Handle` is the loop with its
    counter.
  - `Handle` is proved to return `UpdatedCount` of the outcomes, and to leave the
    store holding `ImagesAfter` of them.

Two consequences of the code are worth stating plainly:

- Exact equality has no priority across titles. The search returns the first title
  that passes either test, so an earlier title that only contains the stem (or is
  contained in it) wins over a later title whose key equals the stem
  (`TitleMatcher.EarlierContainmentBeatsLaterExact`).
- A converted file is matched under its whole original name. With the files
  `default.png`, `m_Matrix.bmp` and `Heat.jpg` and the titles "The Matrix" and
  "Heat", the command counts 1:
  - "default.png" is a system file and is skipped.
  - "m_Matrix.bmp" is converted to "m_Matrix.bmp.jpg". `splitext` removes only
    ".jpg", so the stem reaching the matcher is "m_Matrix.bmp"
    (`UpdateImages.ConvertedFileIsMatchedByWholeName`,
    `FileFilter.ConvertedStemKeepsOldExtension`).
  - That stem cleans to "matrix.bmp". This neither contains nor is contained in
    "the matrix" (same length, different text) or "heat", so the file is not
    matched.
  - "Heat.jpg" cleans to "heat", which equals the key of "Heat".

## Model

| member | source | states |
|---|---|---|
| PyStrings.ReplaceAll | DjangoProjectBase/movie/management/commands/update_images_from_folder.py:42 | `replace(pat, repl)` in one left-to-right pass: the text is unchanged when the pattern does not occur, never longer when the replacement is shorter, and strictly shorter when a pattern that occurs is deleted |
| PyStrings.ReplaceAllKeepsFreePrefix | DjangoProjectBase/movie/management/commands/update_images_from_folder.py:42 | `replace` keeps, unchanged, a prefix in which no occurrence of the pattern starts |
| PyStrings.ReplaceAllFromFirstOccurrence | DjangoProjectBase/movie/management/commands/update_images_from_folder.py:42 | at an occurrence with none before it, `replace` keeps the text before it, puts the replacement in its place and goes on after it |
| PyStrings.ReplaceAllAtFirstOccurrence | DjangoProjectBase/movie/management/commands/update_images_from_folder.py:42 | `replace` seen from the occurrence `Find` reports: the text unchanged when there is none, otherwise the text before it, the replacement, and `replace` of the rest after it |
| PyStrings.Find | DjangoProjectBase/movie/management/commands/update_images_from_folder.py:110 | the first occurrence of the pattern, as `replace(…, 1)` locates it: an occurrence with none before it, or -1 exactly when there is none |
| PyStrings.ReplaceFirst | DjangoProjectBase/movie/management/commands/update_images_from_folder.py:110 | `replace(pat, repl, 1)`: unchanged without an occurrence, otherwise the first occurrence (none before it) replaced and everything else kept |
| PyStrings.Strip | DjangoProjectBase/movie/management/commands/update_images_from_folder.py:42-49 | `strip()` never lengthens the string, and its result neither starts nor ends with whitespace |
| PyStrings.StripIsInnerSlice | DjangoProjectBase/movie/management/commands/update_images_from_folder.py:42-49 | what `strip()` keeps is the slice that starts after the leading whitespace, and only whitespace follows it |
| PyStrings.StripKeepsTrimmed | DjangoProjectBase/movie/management/commands/update_images_from_folder.py:108 | a string without surrounding whitespace is left unchanged by `strip()` |
| PyStrings.BeforeFirst | DjangoProjectBase/movie/management/commands/update_images_from_folder.py:49 | `split(c)[0]` is a prefix without `c` that is either the whole string or followed by `c` |
| PyStrings.BeforeFirstOfJoin | DjangoProjectBase/movie/management/commands/update_images_from_folder.py:49 | what follows the first separator never changes `split(c)[0]` |
| PyStrings.Splitext | DjangoProjectBase/movie/management/commands/update_images_from_folder.py:105 | `os.path.splitext`: root and extension join to the input, and the extension is empty or a dot followed by no dot or slash after a named base |
| PyStrings.SplitextOfStemAndExtension | DjangoProjectBase/movie/management/commands/update_images_from_folder.py:73 | a named base followed by an extension splits exactly there (the converse of `Splitext`'s contract) |
| PyStrings.SubstringReflexive | DjangoProjectBase/movie/management/commands/update_images_from_folder.py:52-56 | equality implies containment, so the equality test is subsumed by the containment test |
| PyStrings.IsSubstring | DjangoProjectBase/movie/management/commands/update_images_from_folder.py:56 | `a in b`: `a` occurs at some index of `b`; `SubstringUnfold` states the search from the left and `Find` the first index |
| PyStrings.Lower | DjangoProjectBase/movie/management/commands/update_images_from_folder.py:42-49 | `lower()` keeps the length, turns each of 'A'..'Z' into its lower-case letter, so none is left, and keeps every other character |
| PyStrings.EndsWith | DjangoProjectBase/movie/management/commands/update_images_from_folder.py:96 | `endswith(suffix)`: the string's last `|suffix|` characters are the suffix |
| TitleMatcher.CleanTitle | DjangoProjectBase/movie/management/commands/update_images_from_folder.py:42 | cleaning never lengthens the stem and strictly shortens one that holds `m_` |
| TitleMatcher.CleanTitleAtFirstMarker | DjangoProjectBase/movie/management/commands/update_images_from_folder.py:42 | cleaning seen from the first `m_`: the text before it is kept, the marker dropped and the removal continued after it, then the whole stripped and lower-cased; without a marker the stem is only stripped and lower-cased |
| TitleMatcher.TitleKey | DjangoProjectBase/movie/management/commands/update_images_from_folder.py:49 | a title's comparison key holds no colon and is no longer than the title |
| TitleMatcher.FirstContainingFrom | DjangoProjectBase/movie/management/commands/update_images_from_folder.py:47-59 | from index `i` on: the result matches, nothing between `i` and it matches, and None means nothing from `i` on matches |
| TitleMatcher.FirstContaining | DjangoProjectBase/movie/management/commands/update_images_from_folder.py:47-59 | the result is a matching title with no matching title before it, and None exactly when no title matches |
| TitleMatcher.FirstContainingIsFirstMatch | DjangoProjectBase/movie/management/commands/update_images_from_folder.py:47-57 | a matching title with no match before it is the result of the search |
| TitleMatcher.FindMovieByTitle | DjangoProjectBase/movie/management/commands/update_images_from_folder.py:38-62 | the equality-then-containment loop returns exactly what the containment-only search returns |
| TitleMatcher.EarlierContainmentBeatsLaterExact | DjangoProjectBase/movie/management/commands/update_images_from_folder.py:52-57 | an earlier title that only contains the stem (or is contained in it) wins over a later title whose key equals the stem |
| TitleMatcher.EmptyCleanTitleMatchesFirst | DjangoProjectBase/movie/management/commands/update_images_from_folder.py:42-57 | a stem that cleans to the empty string matches the first title whenever there is one |
| TitleMatcher.BlankKeyMatchesEverything | DjangoProjectBase/movie/management/commands/update_images_from_folder.py:49-57 | a title whose key is blank matches every stem, so the search stops at it or earlier |
| TitleMatcher.MarkerCanSurviveCleaning | DjangoProjectBase/movie/management/commands/update_images_from_folder.py:42 | one pass of `replace('m_', '')` turns "mm__" into "m_" |
| TitleMatcher.EveryMarkerIsRemoved | DjangoProjectBase/movie/management/commands/update_images_from_folder.py:42 | every marker is removed, not just a leading one: "m_m_Heat" becomes "Heat" |
| TitleMatcher.DebugCleaningRemovesOneMarker | DjangoProjectBase/movie/management/commands/update_images_from_folder.py:110 | `replace('m_', '', 1)` turns "m_m_Heat" into "m_Heat" |
| TitleMatcher.MarkerOnlyStemCleansToEmpty | DjangoProjectBase/movie/management/commands/update_images_from_folder.py:42 | the stem "m_" cleans to the empty string |
| TitleMatcher.LeadingColonGivesBlankKey | DjangoProjectBase/movie/management/commands/update_images_from_folder.py:49 | the title ":x" has a blank key |
| TitleMatcher.KeyIgnoresSubtitle | DjangoProjectBase/movie/management/commands/update_images_from_folder.py:49 | a title and the same title followed by ":" and a subtitle have the same key |
| TitleMatcher.LeadingMarkerIsDropped | DjangoProjectBase/movie/management/commands/update_images_from_folder.py:42 | "m_" + stem cleans to what stem cleans to |
| TitleMatcher.CleanTitleOfPlainStem | DjangoProjectBase/movie/management/commands/update_images_from_folder.py:42 | a stem without `_` or surrounding whitespace cleans to its lower-case form |
| TitleMatcher.KeyOfPlainTitle | DjangoProjectBase/movie/management/commands/update_images_from_folder.py:49 | a title without a colon or surrounding whitespace has its lower-case form as key |
| FileFilter.SystemFilesHaveNamedBase | DjangoProjectBase/movie/management/commands/update_images_from_folder.py:67-71 | every system name has a named base, so `splitext` can split after it |
| FileFilter.ShouldSkipFile | DjangoProjectBase/movie/management/commands/update_images_from_folder.py:64-74 | the `splitext` root or the whole name is one of the nine system names; `SkipIffSystemNameOrSystemStem` characterises it |
| FileFilter.SkipIffSystemNameOrSystemStem | DjangoProjectBase/movie/management/commands/update_images_from_folder.py:64-74 | a file is skipped exactly when its name is a system name or a system name followed by one extension |
| FileFilter.DefaultWithUpperCaseExtensionIsSkipped | DjangoProjectBase/movie/management/commands/update_images_from_folder.py:73-74 | "default.JPG" is skipped: the extension is not compared |
| FileFilter.SkippedNamesStartWithSystemInitial | DjangoProjectBase/movie/management/commands/update_images_from_folder.py:67-74 | every skipped name starts with 'C', 'd' or 'S', as the system names do (case-sensitive) |
| FileFilter.CapitalisedDefaultIsNotSkipped | DjangoProjectBase/movie/management/commands/update_images_from_folder.py:67-74 | "Default.png" is not skipped, "default.png" is |
| FileFilter.HasImageExtension | DjangoProjectBase/movie/management/commands/update_images_from_folder.py:96 | the lower-cased name ends with ".png", ".jpg", ".jpeg" or ".gif" |
| FileFilter.ConvertedName | DjangoProjectBase/movie/management/commands/update_images_from_folder.py:26-32 | the converted name is the old name followed by exactly ".jpg", and passes the extension test |
| FileFilter.ConvertedStemKeepsOldExtension | DjangoProjectBase/movie/management/commands/update_images_from_folder.py:105 | the stem of a converted name is the whole old name, old extension included; a name of dots only keeps even the ".jpg" |
| UpdateImages.UsableName | DjangoProjectBase/movie/management/commands/update_images_from_folder.py:96-103 | a name with an accepted extension goes on unchanged, an unaccepted one that converts goes on as `ConvertedName` (the old name plus ".jpg"); the name that goes on always passes the extension test, and there is none exactly when the extension is not accepted and conversion fails |
| UpdateImages.MatcherTitle | DjangoProjectBase/movie/management/commands/update_images_from_folder.py:105-108 | the title given to the matcher is the stripped `splitext` root: it occurs in the file name after the root's leading whitespace, is no longer than the root and neither starts nor ends with whitespace |
| UpdateImages.ImagePath | DjangoProjectBase/movie/management/commands/update_images_from_folder.py:115 | the stored path ends with the file name and has "movie/images/" before it |
| UpdateImages.Outcome | DjangoProjectBase/movie/management/commands/update_images_from_folder.py:88-138 | a matched movie is one of the stored titles, and an update happens only when the save succeeds |
| UpdateImages.SystemFileIsNeitherConvertedNorMatched | DjangoProjectBase/movie/management/commands/update_images_from_folder.py:87-91 | a system file's outcome is the skip: it never reaches conversion or matching |
| UpdateImages.UnconvertibleFileIsNotMatched | DjangoProjectBase/movie/management/commands/update_images_from_folder.py:96-103 | a file that is kept, has no accepted extension and fails to convert is dropped before matching |
| UpdateImages.ConvertedFileIsMatchedByWholeName | DjangoProjectBase/movie/management/commands/update_images_from_folder.py:98-115 | a converted file is matched by its whole stripped original name, and the stored path names the converted file |
| UpdateImages.AcceptedFileIsMatchedByOwnStem | DjangoProjectBase/movie/management/commands/update_images_from_folder.py:96-122 | a file that is kept and has an accepted extension is matched by its stripped `splitext` root, and the stored path names the file as listed |
| UpdateImages.Outcomes | DjangoProjectBase/movie/management/commands/update_images_from_folder.py:87-138 | one outcome per listed file, in listing order, each naming a stored movie |
| UpdateImages.UpdatedCount | DjangoProjectBase/movie/management/commands/update_images_from_folder.py:84-124 | the count never exceeds the number of listed files |
| UpdateImages.UpdatedCountIsNumberOfUpdatedEntries | DjangoProjectBase/movie/management/commands/update_images_from_folder.py:119-124 | the count is the number of entries whose outcome is an update |
| UpdateImages.UpdatedIffCounted | DjangoProjectBase/movie/management/commands/update_images_from_folder.py:89-124 | an entry's outcome is an update exactly when it is not a system file, is usable, matches a title and saves |
| UpdateImages.CountIsNumberOfCountedFiles | DjangoProjectBase/movie/management/commands/update_images_from_folder.py:87-124 | the count is the number of listed files that are not system files, are usable, match a title and save |
| UpdateImages.ImagesAfter | DjangoProjectBase/movie/management/commands/update_images_from_folder.py:121-123 | a run never changes how many movies the store holds |
| UpdateImages.RunStep | DjangoProjectBase/movie/management/commands/update_images_from_folder.py:87-124 | one more entry adds one to the count exactly when it is an update, and then stores its path for its movie |
| UpdateImages.ImageKeptWithoutUpdate | DjangoProjectBase/movie/management/commands/update_images_from_folder.py:119-123 | a movie no entry updates keeps its image |
| UpdateImages.LastUpdateWins | DjangoProjectBase/movie/management/commands/update_images_from_folder.py:119-123 | a movie ends with the path of the last entry that updated it |
| UpdateImages.MovieStore.SaveImage | DjangoProjectBase/movie/management/commands/update_images_from_folder.py:122-123 | a successful save stores the path for that movie only; a failed save changes nothing |
| UpdateImages.ProcessEntry | DjangoProjectBase/movie/management/commands/update_images_from_folder.py:88-138 | the loop body counts the entry exactly when its outcome is an update, and then stores that path for that movie; otherwise the store is unchanged |
| UpdateImages.Handle | DjangoProjectBase/movie/management/commands/update_images_from_folder.py:84-140 | the reported count is `UpdatedCount` of the entries' outcomes and at most the number of files; the store ends with `ImagesAfter` those outcomes |

## Left out

- `normalize_title` (lines 11-17) and the debug titles built from it (lines 109-110,
  113): they feed only output and the diagnostic query. The first-occurrence
  `replace` of line 110 is modelled (`PyStrings.ReplaceFirst`) only to contrast it
  with line 42.
- `convert_to_jpg` internals (lines 19-36): image decoding, colour-mode conversion,
  JPEG encoding, `os.path.exists` and `os.remove` belong to a foreign library and the
  filesystem. Whether conversion produces a file is a field of `DirEntry`. The
  returned name is the old name followed by ".jpg". This relies on the names
  `os.listdir` returns holding no '/', which the model assumes rather than checks.
- The missing-folder check and `os.listdir` (lines 78-87) are filesystem I/O. The
  listing is the input sequence of `Handle`.
- The ORM:
  - `Movie.objects.all()` is the title sequence of `MovieStore`, in its enumeration
    order.
  - `movie.save()` is the `saves` field of `DirEntry`.
  - The "similar titles" query of lines 130-135 has no effect on the result. So
    does the exception it can raise on a blank stem, which line 137 catches.
- A failed save: the source has already set `movie.image` on the in-memory object
  (line 122). The model tracks what the store holds, which such a save leaves
  unchanged.
- The catch-all `except` of `find_movie_by_title` (lines 60-62) only fires on store
  errors. The titles are a given sequence, so there are none to model.
- The title enumeration is taken to be the same for every file. The source runs
  `Movie.objects.all()` afresh for every file (line 45, reached from line 119), with
  no ordering, so the store may in principle enumerate the titles in a different
  order each time. The model searches one fixed sequence.
- All `stdout`/`stderr` messages and their styling are output only.
- `PyStrings.Lower`: lowers ASCII letters only. Python's `str.lower` also lowers
  other Unicode letters, some of them into two characters. This affects only the
  matcher. The only non-ASCII characters whose lower-case form holds an ASCII letter
  are U+212A KELVIN SIGN (to "k") and U+0130 (to "i" followed by U+0307). Neither
  can complete ".png", ".jpg", ".jpeg" or ".gif", so the extension test gives
  Python's answer for every name.
- File names are compared as the code points given, with no Unicode normalisation
  of what the filesystem returns.
