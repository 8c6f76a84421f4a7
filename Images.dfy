/** The file-name check that guards every image load (Colmeleon/Image.py). */
module Images {
  import opened Outcomes
  import opened Text

  /** `check_extension(file)`: a case-sensitive test of the final suffix. */
  predicate CheckExtension(file: string) {
    || EndsWith(file, ".png") || EndsWith(file, ".pdf")
    || EndsWith(file, ".jpg") || EndsWith(file, ".jpeg")
    || EndsWith(file, ".bmp") || EndsWith(file, ".gif")
  }

  /** The text after the last dot, when there is a dot. */
  function Extension(file: string): (r: Option<string>)
    ensures r.Some? ==> '.' !in r.value && EndsWith(file, "." + r.value)
    ensures r.None? <==> '.' !in file
  {
    match LastIndexOf(file, '.')
    case Ok(i) =>
      assert file[|file| - |"." + file[i + 1..]|..] == "." + file[i + 1..];
      Some(file[i + 1..])
    case Err(_) => None
  }

  /** The extensions the viewer accepts. */
  const Accepted: set<string> := {"png", "pdf", "jpg", "jpeg", "bmp", "gif"}

  /** A name ends with `.e`, for a dot-free `e`, exactly when `e` is its
      extension. */
  lemma {:induction false} EndsWithExtension(file: string, e: string)
    requires '.' !in e
    ensures EndsWith(file, "." + e) <==> Extension(file) == Some(e)
  {
    if EndsWith(file, "." + e) {
      var d := |file| - |e| - 1;
      assert file[d] == '.' by {
        assert file[d..] == "." + e;
      }
      assert file[d + 1..] == e by {
        assert file[d..] == "." + e;
      }
      var i := LastIndexOf(file, '.').value;
      assert i == d by {
        if i < d {
          assert false;
        } else if i > d {
          assert false;
        }
      }
    }
  }

  /** The check accepts a name exactly when its extension is one of the six. */
  lemma CheckExtensionByExtension(file: string)
    ensures CheckExtension(file) <==> Extension(file).Some? && Extension(file).value in Accepted
  {
    SuffixByExtension(file, "png", ".png");
    SuffixByExtension(file, "pdf", ".pdf");
    SuffixByExtension(file, "jpg", ".jpg");
    SuffixByExtension(file, "jpeg", ".jpeg");
    SuffixByExtension(file, "bmp", ".bmp");
    SuffixByExtension(file, "gif", ".gif");
  }

  lemma SuffixByExtension(file: string, e: string, suffix: string)
    requires '.' !in e && suffix == "." + e
    ensures EndsWith(file, suffix) <==> Extension(file) == Some(e)
  {
    EndsWithExtension(file, e);
  }

  /** Upper-case extensions and a later suffix are rejected; a bare `.gif` is
      accepted. */
  lemma CheckExtensionExamples()
    ensures !CheckExtension("x.PNG")
    ensures !CheckExtension("a.png.txt")
    ensures CheckExtension(".gif")
    ensures CheckExtension("photo.jpeg")
  {
    assert "x.PNG"[1..] != ".png";
    assert "a.png.txt"[5..] != ".png";
    assert "a.png.txt"[4..] != ".jpeg";
    assert ".gif"[0..] == ".gif";
    assert "photo.jpeg"[5..] == ".jpeg";
  }

  /** `Parser._parse`'s guard: the two `assert`s on the path it is given,
      which it then opens. Whether the file is present is an input. */
  function ParsePath(file: string, present: bool): (r: Result<string>)
    ensures r.Ok? <==> CheckExtension(file) && present
    ensures r.Err? ==> r.error == AssertionError
    ensures r.Ok? ==> r.value == file
  {
    if !CheckExtension(file) then Err(AssertionError)
    else if !present then Err(AssertionError)
    else Ok(file)
  }

  /** The path an `Image` keeps. The `assert`s on the extension and on the
      file's existence run on the path as given; then the path is stripped,
      and without a loaded image (`img == None`) `Parser._parse` repeats both
      checks on the stripped path. `onDisk` says which paths exist. */
  function ImagePath(file: string, onDisk: string -> bool, imgGiven: bool): (r: Result<string>)
    ensures r.Ok? <==> CheckExtension(file) && onDisk(file) && (imgGiven || onDisk(Strip(file)))
    ensures r.Err? ==> r.error == AssertionError
    ensures r.Ok? ==> r.value == Strip(file)
  {
    if !CheckExtension(file) then Err(AssertionError)
    else if !onDisk(file) then Err(AssertionError)
    else if imgGiven then Ok(Strip(file))
    else
      StripAccepted(file);
      ParsePath(Strip(file), onDisk(Strip(file)))
  }

  /** A name padded with blanks whose stripped form is missing: the first
      checks pass, and the parse of the stripped path fails. */
  lemma ImagePathPadded()
    ensures ImagePath(" a.png", p => p == " a.png", false) == Err(AssertionError)
    ensures ImagePath(" a.png", p => p == " a.png", true) == Ok("a.png")
  {
    PaddedName();
    assert "a.png" != " a.png" by {
      assert "a.png"[0] != " a.png"[0];
    }
  }

  lemma PaddedName()
    ensures CheckExtension(" a.png") && Strip(" a.png") == "a.png"
  {
    assert EndsWith(" a.png", ".png") by {
      assert " a.png"[2..] == ".png";
    }
    PaddedStrip();
  }

  lemma PaddedStrip()
    ensures Strip(" a.png") == "a.png"
  {
    StripOneBlank("a.png");
    assert [' '] + "a.png" == " a.png";
  }

  lemma StripOneBlank(b: string)
    requires |b| > 0 && !IsSpace(b[0]) && !IsSpace(b[|b| - 1])
    ensures Strip([' '] + b) == b
  {
    StripClean(b);
    StripSkipsLeadingSpace([' '], b);
  }

  /** Stripping never removes a suffix that contains no white space. */
  lemma StripKeepsSuffix(file: string, suffix: string)
    requires EndsWith(file, suffix) && |suffix| > 0
    requires forall k :: 0 <= k < |suffix| ==> !IsSpace(suffix[k])
    ensures EndsWith(Strip(file), suffix)
  {
    TrimLeftKeepsSuffix(file, suffix);
    var l := TrimLeft(file);
    assert l[|l| - 1] == suffix[|suffix| - 1];
    assert TrimRight(l) == l;
  }

  /** Only white space is removed on the left, so a non-space suffix stays. */
  lemma TrimLeftKeepsSuffix(file: string, suffix: string)
    requires EndsWith(file, suffix) && |suffix| > 0
    requires forall k :: 0 <= k < |suffix| ==> !IsSpace(suffix[k])
    ensures EndsWith(TrimLeft(file), suffix)
  {
    var l := TrimLeft(file);
    var start := |file| - |suffix|;
    assert file[start] == suffix[0];
    assert |file| - |l| <= start;
    assert l[|l| - |suffix|..] == file[start..];
  }

  /** Stripping keeps an accepted name accepted. */
  lemma StripAccepted(file: string)
    requires CheckExtension(file)
    ensures CheckExtension(Strip(file))
  {
    StripKeepsExtension(file, ".png");
    StripKeepsExtension(file, ".pdf");
    StripKeepsExtension(file, ".jpg");
    StripKeepsExtension(file, ".jpeg");
    StripKeepsExtension(file, ".bmp");
    StripKeepsExtension(file, ".gif");
  }

  /** The path an `Image` keeps still passes the check. */
  lemma ImagePathAccepted(file: string, onDisk: string -> bool, imgGiven: bool)
    requires ImagePath(file, onDisk, imgGiven).Ok?
    ensures CheckExtension(ImagePath(file, onDisk, imgGiven).value)
  {
    StripAccepted(file);
  }

  lemma StripKeepsExtension(file: string, suffix: string)
    requires suffix in [".png", ".pdf", ".jpg", ".jpeg", ".bmp", ".gif"]
    ensures EndsWith(file, suffix) ==> EndsWith(Strip(file), suffix)
  {
    if EndsWith(file, suffix) {
      StripKeepsSuffix(file, suffix);
    }
  }
}
