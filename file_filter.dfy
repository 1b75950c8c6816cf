/**
 * `Command.should_skip_file`, the accepted-extension test of `handle` and the
 * name `convert_to_jpg` gives a converted file.
 */
module FileFilter {
  import opened PyStrings

  /** `SYSTEM_FILES`: placeholder and screenshot names that are never processed. */
  const SystemFiles: set<string> := {
    "Captura", "Captura.jpg", "Captura.png",
    "default", "default.jpg", "default.png",
    "Sin_t\U{ed}tulo", "Sin_t\U{ed}tulo.jpg", "Sin_t\U{ed}tulo.png"
  }

  /** `should_skip_file(filename)`: the name, or its `splitext` root, is a system file. */
  predicate ShouldSkipFile(filename: string)
  {
    Splitext(filename).0 in SystemFiles || filename in SystemFiles
  }

  /** `filename` is `stem` followed by an extension as `splitext` recognises one. */
  predicate StemWithExtension(stem: string, filename: string)
  {
    |stem| < |filename| && filename[..|stem|] == stem && IsExtension(filename[|stem|..])
  }

  /** Every system name has a named base: none is made of dots only, none holds a slash. */
  lemma SystemFilesHaveNamedBase(s: string)
    requires s in SystemFiles
    ensures HasNamedBase(s)
  {
    assert s[0] != '.' && NoSlashFrom(s, 0);
  }

  /**
   * A file is skipped exactly when its name is a system name, or is a system name
   * followed by any single extension (".JPG", ".webp", ...): the extension is not
   * compared, and the stem is compared case-sensitively.
   */
  lemma {:induction false} SkipIffSystemNameOrSystemStem(filename: string)
    ensures ShouldSkipFile(filename) <==>
              filename in SystemFiles || exists s :: s in SystemFiles && StemWithExtension(s, filename)
  {
    var (root, ext) := Splitext(filename);
    if ext != [] {
      assert filename[..|root|] == root && filename[|root|..] == ext;
      if root in SystemFiles {
        assert StemWithExtension(root, filename);
      }
    }
    if s :| s in SystemFiles && StemWithExtension(s, filename) {
      SystemFilesHaveNamedBase(s);
      assert s + filename[|s|..] == filename;
      SplitextOfStemAndExtension(s, filename[|s|..]);
    }
  }

  /** The extension is ignored for a system stem: "default.JPG" is skipped. */
  lemma DefaultWithUpperCaseExtensionIsSkipped()
    ensures ShouldSkipFile("default.JPG")
  {
    assert StemWithExtension("default", "default.JPG");
    SkipIffSystemNameOrSystemStem("default.JPG");
  }

  /**
   * Matching is case-sensitive: a skipped name starts with the first letter of a
   * system name, exactly as written there.
   */
  lemma SkippedNamesStartWithSystemInitial(filename: string)
    requires ShouldSkipFile(filename)
    ensures |filename| > 0 && filename[0] in {'C', 'd', 'S'}
  {
    if filename in SystemFiles {
      SystemInitial(filename);
    } else {
      var (root, ext) := Splitext(filename);
      SystemInitial(root);
      assert filename == root + ext;
      assert filename[0] == root[0];
    }
  }

  /** Every system name starts with 'C', 'd' or 'S'. */
  lemma SystemInitial(s: string)
    requires s in SystemFiles
    ensures |s| > 0 && s[0] in {'C', 'd', 'S'}
  {
  }

  /** So "Default.png" is not skipped although "default.png" is. */
  lemma CapitalisedDefaultIsNotSkipped()
    ensures !ShouldSkipFile("Default.png") && ShouldSkipFile("default.png")
  {
    if ShouldSkipFile("Default.png") {
      SkippedNamesStartWithSystemInitial("Default.png");
    }
  }

  /** `filename.lower().endswith(('.png', '.jpg', '.jpeg', '.gif'))`. */
  predicate HasImageExtension(filename: string)
  {
    var lower := Lower(filename);
    EndsWith(lower, ".png") || EndsWith(lower, ".jpg") || EndsWith(lower, ".jpeg") || EndsWith(lower, ".gif")
  }

  /**
   * The base name `convert_to_jpg` returns: `.jpg` is appended to the whole file
   * name, the old extension is kept.
   */
  function ConvertedName(filename: string): (r: string)
    ensures HasImageExtension(r)
    ensures |r| == |filename| + 4 && r[..|filename|] == filename && r[|filename|..] == ".jpg"
  {
    var r := filename + ".jpg";
    assert Lower(r)[|r| - 4..] == ".jpg";
    r
  }

  /**
   * The stem that reaches the matcher after a conversion is the whole original
   * name, old extension included ("m_Matrix.bmp"); a name of dots only has no
   * extension at all, so even the new ".jpg" stays in the stem.
   */
  lemma {:induction false} ConvertedStemKeepsOldExtension(filename: string)
    requires '/' !in filename
    ensures Splitext(ConvertedName(filename)).0
            == if HasNamedBase(filename) then filename else ConvertedName(filename)
  {
    var p := ConvertedName(filename);
    if HasNamedBase(filename) {
      assert IsExtension(".jpg");
      SplitextOfStemAndExtension(filename, ".jpg");
    }
  }
}
