/**
 * `Command.find_movie_by_title`: the filename stem is cleaned, then the movie
 * titles are searched in the store's enumeration order. The first title whose
 * part before its first colon (stripped, lower-cased) equals the cleaned stem,
 * contains it or is contained in it is the match.
 */
module TitleMatcher {
  import opened Wrappers
  import opened PyStrings

  /** `title.replace('m_', '').strip().lower()`: every `m_` is removed in one pass. */
  function CleanTitle(title: string): (r: string)
    ensures |r| <= |title|
    ensures IsSubstring("m_", title) ==> |r| < |title|
  {
    Lower(Strip(ReplaceAll(title, "m_", "")))
  }

  /** `movie.title.split(':')[0].strip().lower()`: the comparison key of a stored title. */
  function TitleKey(title: string): (r: string)
    ensures ':' !in r
    ensures |r| <= |title|
  {
    var head := BeforeFirst(title, ':');
    var stripped := Strip(head);
    StripIsInnerSlice(head);
    assert forall k :: 0 <= k < |stripped| ==> stripped[k] in head by {
      forall k | 0 <= k < |stripped| ensures stripped[k] in head {
        assert stripped[k] == head[LeadingSpaces(head) + k];
      }
    }
    Lower(stripped)
  }

  /** The containment test on line 56: either string is a substring of the other. */
  predicate Contained(clean: string, key: string)
  {
    IsSubstring(clean, key) || IsSubstring(key, clean)
  }

  /** The stored title `title` is a match for the cleaned stem `clean`. */
  predicate Matches(clean: string, title: string)
  {
    Contained(clean, TitleKey(title))
  }

  /**
   * The containment-only search from index `i` on: the first title at or after `i`
   * whose key contains or is contained in `clean`; None when none does.
   */
  function FirstContainingFrom(clean: string, titles: seq<string>, i: nat): (r: Option<nat>)
    requires i <= |titles|
    ensures r.Some? ==> i <= r.value < |titles| && Matches(clean, titles[r.value])
    ensures r.Some? ==> forall j :: i <= j < r.value ==> !Matches(clean, titles[j])
    ensures r.None? ==> forall j :: i <= j < |titles| ==> !Matches(clean, titles[j])
    decreases |titles| - i
  {
    if i == |titles| then None
    else if Matches(clean, titles[i]) then Some(i)
    else FirstContainingFrom(clean, titles, i + 1)
  }

  /**
   * The containment-only search: the index of the first title, in enumeration
   * order, whose key contains or is contained in `clean`; None exactly when none does.
   */
  function FirstContaining(clean: string, titles: seq<string>): (r: Option<nat>)
    ensures r.Some? ==> r.value < |titles| && Matches(clean, titles[r.value])
    ensures r.Some? ==> forall j :: 0 <= j < r.value ==> !Matches(clean, titles[j])
    ensures r.None? <==> forall j :: 0 <= j < |titles| ==> !Matches(clean, titles[j])
  {
    FirstContainingFrom(clean, titles, 0)
  }

  /** The first matching index is the result of the search, and only it. */
  lemma FirstContainingIsFirstMatch(clean: string, titles: seq<string>, i: nat)
    requires i < |titles| && Matches(clean, titles[i])
    requires forall j :: 0 <= j < i ==> !Matches(clean, titles[j])
    ensures FirstContaining(clean, titles) == Some(i)
  {
    var r := FirstContaining(clean, titles);
    assert r.Some?;
    assert !(r.value < i);
    assert !(r.value > i);
  }

  /**
   * `find_movie_by_title(title)` over the titles `movies` in enumeration order.
   * The loop tests exact equality first and containment second, as the source does;
   * the result is nevertheless that of the containment-only search, because a
   * string equal to the key is also contained in it.
   */
  method FindMovieByTitle(title: string, movies: seq<string>) returns (r: Option<nat>)
    ensures r == FirstContaining(CleanTitle(title), movies)
  {
    var cleanTitle := CleanTitle(title);
    var i := 0;
    while i < |movies|
      invariant 0 <= i <= |movies|
      invariant forall j :: 0 <= j < i ==> !Matches(cleanTitle, movies[j])
    {
      var dbTitleParts := TitleKey(movies[i]);
      if cleanTitle == dbTitleParts {
        SubstringReflexive(cleanTitle);
        FirstContainingIsFirstMatch(cleanTitle, movies, i);
        return Some(i);
      }
      if IsSubstring(cleanTitle, dbTitleParts) || IsSubstring(dbTitleParts, cleanTitle) {
        FirstContainingIsFirstMatch(cleanTitle, movies, i);
        return Some(i);
      }
      assert !Matches(cleanTitle, movies[i]);
      i := i + 1;
    }
    return None;
  }

  /**
   * There is no priority of exact equality over containment across titles: a title
   * that merely contains (or is contained in) the cleaned stem wins over a later
   * title whose key equals it.
   */
  lemma EarlierContainmentBeatsLaterExact(clean: string, titles: seq<string>, i: nat, j: nat)
    requires i < j < |titles|
    requires Matches(clean, titles[i])
    requires TitleKey(titles[j]) == clean
    ensures FirstContaining(clean, titles).Some?
    ensures FirstContaining(clean, titles).value <= i
    ensures FirstContaining(clean, titles) != Some(j)
  {
  }

  /** An empty cleaned stem is contained in every key: the first title matches. */
  lemma EmptyCleanTitleMatchesFirst(title: string, titles: seq<string>)
    requires CleanTitle(title) == [] && |titles| > 0
    ensures FirstContaining(CleanTitle(title), titles) == Some(0)
  {
    assert OccursAt(CleanTitle(title), TitleKey(titles[0]), 0);
  }

  /** A title whose part before the colon is blank matches every filename. */
  lemma BlankKeyMatchesEverything(clean: string, titles: seq<string>, i: nat)
    requires i < |titles| && TitleKey(titles[i]) == []
    ensures FirstContaining(clean, titles).Some?
    ensures FirstContaining(clean, titles).value <= i
  {
    assert OccursAt(TitleKey(titles[i]), clean, 0);
    assert Matches(clean, titles[i]);
  }

  /** `replace('m_', '')` is a single pass: removing one marker can form another ("mm__" becomes "m_"). */
  lemma MarkerCanSurviveCleaning()
    ensures ReplaceAll("mm__", "m_", "") == "m_"
  {
    assert "mm__"[..2][1] != "m_"[1] && "mm__"[1..] == "m__";
    assert "m__"[..2] == "m_" && "m__"[2..] == "_";
  }

  /** `replace('m_', '')` removes every marker: "m_m_Heat" becomes "Heat". */
  lemma EveryMarkerIsRemoved()
    ensures ReplaceAll("m_m_Heat", "m_", "") == "Heat"
  {
    NotSubstringMissingChar("m_", "Heat", '_');
    assert "m_m_Heat"[..2] == "m_" && "m_m_Heat"[2..] == "m_Heat";
    assert "m_Heat"[..2] == "m_" && "m_Heat"[2..] == "Heat";
  }

  /** The `replace('m_', '', 1)` of the debug line removes only the first: "m_m_Heat" becomes "m_Heat". */
  lemma DebugCleaningRemovesOneMarker()
    ensures ReplaceFirst("m_m_Heat", "m_", "") == "m_Heat"
  {
    assert Find("m_", "m_m_Heat") == 0;
    assert "m_m_Heat"[2..] == "m_Heat";
  }

  /**
   * Cleaning seen from the first `m_` of the stem: the text before it is kept, the marker
   * is dropped and the removal goes on after it; a stem without a marker is only
   * stripped and lower-cased.
   */
  lemma CleanTitleAtFirstMarker(title: string, i: int)
    requires i == Find("m_", title)
    ensures CleanTitle(title)
            == Lower(Strip(if i < 0 then title else title[..i] + ReplaceAll(title[i + 2..], "m_", "")))
  {
    ReplaceAllAtFirstOccurrence(title, "m_", "", i);
    if i >= 0 {
      assert title[..i] + "" == title[..i];
    }
  }

  /** A stem that is only the marker cleans to the empty string. */
  lemma MarkerOnlyStemCleansToEmpty()
    ensures CleanTitle("m_") == []
  {
  }

  /** A title that starts with a colon has a blank key. */
  lemma LeadingColonGivesBlankKey()
    ensures TitleKey(":x") == []
  {
  }

  /** Only the part before the first colon is compared: a subtitle never affects the key. */
  lemma {:induction false} KeyIgnoresSubtitle(head: string, subtitle: string)
    requires ':' !in head
    ensures TitleKey(head + [':'] + subtitle) == TitleKey(head)
  {
    BeforeFirstOfJoin(head, ':', subtitle);
    assert BeforeFirst(head, ':') == head;
  }

  /** A leading marker is dropped: "m_Heat" and "Heat" clean to the same title. */
  lemma {:induction false} LeadingMarkerIsDropped(stem: string)
    ensures CleanTitle("m_" + stem) == CleanTitle(stem)
  {
    var s := "m_" + stem;
    assert s[..2] == "m_" && s[2..] == stem;
    assert ReplaceAll(s, "m_", "") == "" + ReplaceAll(stem, "m_", "");
    assert "" + ReplaceAll(stem, "m_", "") == ReplaceAll(stem, "m_", "");
  }

  /** A stem with no underscore and no surrounding whitespace cleans to its lower-case form. */
  lemma {:induction false} CleanTitleOfPlainStem(stem: string)
    requires '_' !in stem
    requires stem == [] || (!IsSpace(stem[0]) && !IsSpace(stem[|stem| - 1]))
    ensures CleanTitle(stem) == Lower(stem)
  {
    NotSubstringMissingChar("m_", stem, '_');
    if stem != [] {
      StripKeepsTrimmed(stem);
    }
  }

  /** A title with no colon and no surrounding whitespace is its own key, lower-cased. */
  lemma {:induction false} KeyOfPlainTitle(title: string)
    requires ':' !in title
    requires title == [] || (!IsSpace(title[0]) && !IsSpace(title[|title| - 1]))
    ensures TitleKey(title) == Lower(title)
  {
    assert BeforeFirst(title, ':') == title;
    if title != [] {
      StripKeepsTrimmed(title);
    }
  }
}
