/**
 * `Command.handle`: one pass over the directory listing. Each entry is skipped if
 * it is a system file, converted to JPEG if its extension is not accepted (and
 * skipped if that fails), matched against the stored titles by its stem, and on a
 * match the movie's image is set to "movie/images/<name>" and saved. The command
 * reports how many saves succeeded.
 */
module UpdateImages {
  import opened Wrappers
  import opened PyStrings
  import opened TitleMatcher
  import opened FileFilter

  /**
   * One entry of the folder listing, with what the two foreign calls made for it
   * do: whether `convert_to_jpg` produces a file, and whether `movie.save()` succeeds.
   */
  datatype DirEntry = DirEntry(name: string, converts: bool, saves: bool)

  /** What the loop body does with one entry. */
  datatype FileOutcome =
    | SkippedSystemFile
    | ConversionFailed
    | MovieNotFound
    | SaveFailed(movie: nat, path: string)
    | Updated(movie: nat, path: string)

  /** `os.path.join('movie/images', filename)` for a name from the listing. */
  function ImagePath(filename: string): (r: string)
    ensures EndsWith(r, filename)
    ensures r[..|r| - |filename|] == "movie/images/"
  {
    "movie/images/" + filename
  }

  /**
   * The name the entry has once the extension test is passed: the listed name if
   * its extension is accepted, the converted name if conversion succeeds, None if
   * it fails.
   */
  function UsableName(e: DirEntry): (r: Option<string>)
    ensures r.Some? ==> HasImageExtension(r.value)
    ensures r.None? <==> !HasImageExtension(e.name) && !e.converts
    ensures HasImageExtension(e.name) ==> r == Some(e.name)
    ensures !HasImageExtension(e.name) && e.converts ==> r == Some(ConvertedName(e.name))
  {
    if HasImageExtension(e.name) then Some(e.name)
    else if e.converts then Some(ConvertedName(e.name))
    else None
  }

  /** `os.path.splitext(filename)[0].strip()`: the title handed to the matcher. */
  function MatcherTitle(filename: string): (r: string)
    ensures OccursAt(r, filename, LeadingSpaces(Splitext(filename).0))
    ensures |r| <= |Splitext(filename).0|
    ensures r == [] || (!IsSpace(r[0]) && !IsSpace(r[|r| - 1]))
  {
    var root := Splitext(filename).0;
    StripIsInnerSlice(root);
    OccursInPrefix(Strip(root), root, filename, LeadingSpaces(root));
    Strip(root)
  }

  /** The outcome of the loop body for entry `e` against the stored titles. */
  function Outcome(e: DirEntry, titles: seq<string>): (r: FileOutcome)
    ensures (r.Updated? || r.SaveFailed?) ==> r.movie < |titles|
    ensures r.Updated? ==> e.saves
  {
    if ShouldSkipFile(e.name) then SkippedSystemFile
    else match UsableName(e)
      case None => ConversionFailed
      case Some(filename) =>
        match FirstContaining(CleanTitle(MatcherTitle(filename)), titles)
        case None => MovieNotFound
        case Some(k) =>
          if e.saves then Updated(k, ImagePath(filename)) else SaveFailed(k, ImagePath(filename))
  }

  /** A system file is skipped before anything else: it is neither converted nor matched. */
  lemma SystemFileIsNeitherConvertedNorMatched(e: DirEntry, titles: seq<string>)
    requires ShouldSkipFile(e.name)
    ensures Outcome(e, titles) == SkippedSystemFile
  {
  }

  /** A file that is not a system file, has no accepted extension and fails to convert is never matched. */
  lemma UnconvertibleFileIsNotMatched(e: DirEntry, titles: seq<string>)
    requires !ShouldSkipFile(e.name) && !HasImageExtension(e.name) && !e.converts
    ensures Outcome(e, titles) == ConversionFailed
  {
  }

  /**
   * A converted file is matched under its whole original name: `splitext` removes
   * only the appended ".jpg", so the old extension stays in the stem, while the
   * stored path names the converted file.
   */
  lemma {:induction false} ConvertedFileIsMatchedByWholeName(e: DirEntry, titles: seq<string>)
    requires !ShouldSkipFile(e.name) && !HasImageExtension(e.name) && e.converts
    requires '/' !in e.name && HasNamedBase(e.name)
    ensures Outcome(e, titles).Updated? || Outcome(e, titles).SaveFailed? <==>
              FirstContaining(CleanTitle(Strip(e.name)), titles).Some?
    ensures Outcome(e, titles).Updated? || Outcome(e, titles).SaveFailed? ==>
              Outcome(e, titles).movie == FirstContaining(CleanTitle(Strip(e.name)), titles).value
              && Outcome(e, titles).path == ImagePath(e.name + ".jpg")
  {
    ConvertedStemKeepsOldExtension(e.name);
    assert MatcherTitle(ConvertedName(e.name)) == Strip(e.name);
  }

  /**
   * A file with an accepted extension is matched under its own `splitext` stem, and
   * the stored path names the file as listed.
   */
  lemma AcceptedFileIsMatchedByOwnStem(e: DirEntry, titles: seq<string>)
    requires !ShouldSkipFile(e.name) && HasImageExtension(e.name)
    ensures Outcome(e, titles).Updated? || Outcome(e, titles).SaveFailed? <==>
              FirstContaining(CleanTitle(Strip(Splitext(e.name).0)), titles).Some?
    ensures Outcome(e, titles).Updated? || Outcome(e, titles).SaveFailed? ==>
              Outcome(e, titles).movie == FirstContaining(CleanTitle(Strip(Splitext(e.name).0)), titles).value
              && Outcome(e, titles).path == ImagePath(e.name)
  {
  }

  /**
   * The entry passes every test of the loop body: it is not a system file, it has
   * an accepted extension or converts, its stem matches a title, and the save goes through.
   */
  predicate Counted(e: DirEntry, titles: seq<string>)
  {
    && !ShouldSkipFile(e.name)
    && UsableName(e).Some?
    && FirstContaining(CleanTitle(MatcherTitle(UsableName(e).value)), titles).Some?
    && e.saves
  }

  /** Every movie index an Updated outcome names is below `n`. */
  predicate MoviesBelow(outs: seq<FileOutcome>, n: nat)
  {
    forall i :: 0 <= i < |outs| && outs[i].Updated? ==> outs[i].movie < n
  }

  /** The outcome of every entry of the listing, in listing order. */
  function Outcomes(listing: seq<DirEntry>, titles: seq<string>): (r: seq<FileOutcome>)
    ensures |r| == |listing|
    ensures forall i :: 0 <= i < |listing| ==> r[i] == Outcome(listing[i], titles)
    ensures MoviesBelow(r, |titles|)
  {
    seq(|listing|, i requires 0 <= i < |listing| => Outcome(listing[i], titles))
  }

  /** `updated_count` after a run whose entries had the outcomes `outs`: one per Updated. */
  function UpdatedCount(outs: seq<FileOutcome>): (n: nat)
    ensures n <= |outs|
    decreases |outs|
  {
    if outs == [] then 0
    else UpdatedCount(outs[..|outs| - 1]) + (if outs[|outs| - 1].Updated? then 1 else 0)
  }

  /** The indices of the entries whose image was stored. */
  function UpdatedIndices(outs: seq<FileOutcome>): set<nat>
  {
    set i: nat | i < |outs| && outs[i].Updated?
  }

  /** The reported count is the number of entries whose save succeeded after a match. */
  lemma {:induction false} UpdatedCountIsNumberOfUpdatedEntries(outs: seq<FileOutcome>)
    ensures UpdatedCount(outs) == |UpdatedIndices(outs)|
    decreases |outs|
  {
    if outs != [] {
      var n := |outs| - 1;
      UpdatedCountIsNumberOfUpdatedEntries(outs[..n]);
      var before := UpdatedIndices(outs[..n]);
      if outs[n].Updated? {
        assert UpdatedIndices(outs) == before + {n};
      } else {
        assert UpdatedIndices(outs) == before;
      }
    }
  }

  /** An entry's outcome is an update exactly when it passes every test of the loop body. */
  lemma UpdatedIffCounted(e: DirEntry, titles: seq<string>)
    ensures Outcome(e, titles).Updated? <==> Counted(e, titles)
  {
  }

  /** The reported count is the number of listed files that pass every test of the loop body. */
  lemma {:induction false} CountIsNumberOfCountedFiles(listing: seq<DirEntry>, titles: seq<string>)
    ensures UpdatedCount(Outcomes(listing, titles))
            == |set i: nat | i < |listing| && Counted(listing[i], titles)|
  {
    var outs := Outcomes(listing, titles);
    UpdatedCountIsNumberOfUpdatedEntries(outs);
    assert UpdatedIndices(outs) == set i: nat | i < |listing| && Counted(listing[i], titles) by {
      forall i: nat | i < |listing| ensures outs[i].Updated? <==> Counted(listing[i], titles) {
        UpdatedIffCounted(listing[i], titles);
      }
    }
  }

  /** The stored images after a run whose entries had the outcomes `outs`. */
  function ImagesAfter(images: seq<string>, outs: seq<FileOutcome>): (r: seq<string>)
    requires MoviesBelow(outs, |images|)
    ensures |r| == |images|
    decreases |outs|
  {
    if outs == [] then images
    else
      var before := ImagesAfter(images, outs[..|outs| - 1]);
      match outs[|outs| - 1]
      case Updated(k, path) => before[k := path]
      case _ => before
  }

  /** Extending a run by one entry: the count and the stored images take one step. */
  lemma RunStep(images: seq<string>, outs: seq<FileOutcome>, i: nat)
    requires i < |outs| && MoviesBelow(outs, |images|)
    ensures MoviesBelow(outs[..i], |images|) && MoviesBelow(outs[..i + 1], |images|)
    ensures UpdatedCount(outs[..i + 1]) == UpdatedCount(outs[..i]) + (if outs[i].Updated? then 1 else 0)
    ensures ImagesAfter(images, outs[..i + 1])
            == if outs[i].Updated? then ImagesAfter(images, outs[..i])[outs[i].movie := outs[i].path]
               else ImagesAfter(images, outs[..i])
  {
    assert outs[..i + 1][..i] == outs[..i];
  }

  /** The outcome updates movie `k`. */
  predicate UpdatesMovie(o: FileOutcome, k: nat)
  {
    o.Updated? && o.movie == k
  }

  /** A movie that no entry updates keeps the image it had. */
  lemma {:induction false} ImageKeptWithoutUpdate(images: seq<string>, outs: seq<FileOutcome>, k: nat)
    requires MoviesBelow(outs, |images|) && k < |images|
    requires forall i :: 0 <= i < |outs| ==> !UpdatesMovie(outs[i], k)
    ensures ImagesAfter(images, outs)[k] == images[k]
    decreases |outs|
  {
    if outs != [] {
      ImageKeptWithoutUpdate(images, outs[..|outs| - 1], k);
    }
  }

  /** A movie holds the path stored by the last entry that updated it. */
  lemma {:induction false} LastUpdateWins(images: seq<string>, outs: seq<FileOutcome>, i: nat)
    requires MoviesBelow(outs, |images|) && i < |outs| && outs[i].Updated?
    requires forall j :: i < j < |outs| ==> !UpdatesMovie(outs[j], outs[i].movie)
    ensures ImagesAfter(images, outs)[outs[i].movie] == outs[i].path
    decreases |outs|
  {
    var n := |outs| - 1;
    if i < n {
      LastUpdateWins(images, outs[..n], i);
    }
  }

  /**
   * The movie store: the titles in enumeration order and the image each movie has
   * in the store. Only a successful save changes what is stored.
   */
  class MovieStore {
    var titles: seq<string>
    var images: seq<string>

    ghost predicate Valid()
      reads this
    {
      |titles| == |images|
    }

    /**
     * `movie.image = image_path; movie.save()` for movie `k`; `succeeds` tells
     * whether the save goes through or raises.
     */
    method SaveImage(k: nat, path: string, succeeds: bool) returns (saved: bool)
      requires Valid() && k < |titles|
      modifies this
      ensures Valid() && titles == old(titles)
      ensures saved == succeeds
      ensures images == if succeeds then old(images)[k := path] else old(images)
    {
      saved := succeeds;
      if succeeds {
        images := images[k := path];
      }
    }
  }

  /**
   * The body of the loop of `handle` for one entry: skip a system file, convert a
   * file whose extension is not accepted (skip it when that fails), match its stem
   * and, on a match, store the image path. `counted` says whether `updated_count`
   * goes up.
   */
  method ProcessEntry(entry: DirEntry, store: MovieStore, ghost outcome: FileOutcome) returns (counted: bool)
    requires store.Valid() && outcome == Outcome(entry, store.titles)
    modifies store
    ensures store.Valid() && store.titles == old(store.titles)
    ensures counted == outcome.Updated?
    ensures counted ==> outcome.movie < |store.images| && store.images == old(store.images)[outcome.movie := outcome.path]
    ensures !counted ==> store.images == old(store.images)
  {
    counted := false;
    var filename := entry.name;
    if ShouldSkipFile(filename) {
      assert Outcome(entry, store.titles) == SkippedSystemFile;
      return;
    }
    if !HasImageExtension(filename) {
      if entry.converts {
        filename := ConvertedName(filename);
      } else {
        assert Outcome(entry, store.titles) == ConversionFailed;
        return;
      }
    }
    assert UsableName(entry) == Some(filename);
    var (movieTitle, _) := Splitext(filename);
    var movieTitleOriginal := Strip(movieTitle);
    assert movieTitleOriginal == MatcherTitle(filename);
    var imagePath := ImagePath(filename);
    var movie := FindMovieByTitle(movieTitleOriginal, store.titles);
    if movie.Some? {
      counted := store.SaveImage(movie.value, imagePath, entry.saves);
      assert Outcome(entry, old(store.titles))
        == if entry.saves then Updated(movie.value, imagePath) else SaveFailed(movie.value, imagePath);
    } else {
      assert Outcome(entry, store.titles) == MovieNotFound;
    }
  }

  /**
   * The loop of `handle` over the listing, with the store. It returns the final
   * `updated_count`; the store afterwards holds the images of `ImagesAfter`.
   */
  method Handle(listing: seq<DirEntry>, store: MovieStore) returns (updatedCount: nat)
    requires store.Valid()
    modifies store
    ensures store.Valid() && store.titles == old(store.titles)
    ensures updatedCount == UpdatedCount(Outcomes(listing, old(store.titles)))
    ensures updatedCount <= |listing|
    ensures store.images == ImagesAfter(old(store.images), Outcomes(listing, old(store.titles)))
  {
    ghost var outs := Outcomes(listing, store.titles);
    ghost var images0 := store.images;
    updatedCount := 0;
    for i := 0 to |listing|
      invariant store.Valid() && store.titles == old(store.titles)
      invariant MoviesBelow(outs[..i], |images0|)
      invariant updatedCount == UpdatedCount(outs[..i])
      invariant store.images == ImagesAfter(images0, outs[..i])
    {
      RunStep(images0, outs, i);
      var counted := ProcessEntry(listing[i], store, outs[i]);
      if counted {
        updatedCount := updatedCount + 1;
      }
    }
    assert outs[..|listing|] == outs;
  }
}
