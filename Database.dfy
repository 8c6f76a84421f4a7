/** The bookkeeping of an image database (Colmeleon/Database.py): the names
    under which histograms are stored, the rows of `histograms.csv`, the
    choice of files still to process and the test for a computed base. The
    file system is abstracted away: listings and CSV rows are inputs. */
module Database {
  import opened Outcomes
  import opened Text
  import opened Images

  /** `_calculate_histogram`'s file name: from the last separator up to four
      characters before the end, then `_hist`. `str.rindex` fails when the
      path holds no separator. */
  function HistogramName(file: string, sep: char): (r: Result<string>)
    ensures r.Err? <==> sep !in file
    ensures r.Err? ==> r.error == ValueError
    ensures r.Ok? ==> EndsWith(r.value, "_hist")
    ensures r.Ok? && LastIndexOf(file, sep).value + 4 <= |file| ==>
      r.value == file[LastIndexOf(file, sep).value..|file| - 4] + "_hist"
  {
    var i :- LastIndexOf(file, sep);
    var name := PySlice(file, i, |file| - 4) + "_hist";
    assert name[|name| - 5..] == "_hist";
    Ok(name)
  }

  /** A path `dir/base.ext` with a four-character extension is named after
      its base, the separator kept in front. */
  lemma HistogramNameOfBase(dir: string, base: string, ext: string, sep: char)
    requires |ext| == 4 && sep !in base && sep !in ext
    ensures HistogramName(dir + [sep] + base + ext, sep) == Ok([sep] + base + "_hist")
  {
    var file := dir + [sep] + base + ext;
    assert file[|dir|] == sep;
    assert file[|dir| + 1..] == base + ext;
    LastIndexOfAt(file, sep, |dir|);
    assert file[|dir|..|file| - 4] == [sep] + base;
  }

  /** With a five-character extension such as `.jpeg`, the dot stays in the
      name. */
  lemma HistogramNameOfJpeg()
    ensures HistogramName("db/x.jpeg", '/') == Ok("/x._hist")
  {
    assert "db/x.jpeg" == "db" + ['/'] + "x." + "jpeg";
    assert '/' !in "x." && '/' !in "jpeg";
    HistogramNameOfBase("db", "x.", "jpeg", '/');
    assert ['/'] + "x." + "_hist" == "/x._hist";
  }

  /** The three stored files of one image. */
  datatype StoredPaths = StoredPaths(color: string, bins: string, grey: string)

  /** What `_calculate_histogram` returns: the three directories of the base
      followed by the one name, the bins file with `bin` and the grey file
      with `grey` appended. */
  function CalculatedPaths(database: string, file: string, sep: char): (r: Result<StoredPaths>)
    ensures r.Err? <==> sep !in file
    ensures r.Ok? ==>
      var name := HistogramName(file, sep).value;
      && r.value.color == database + [sep] + "histograms" + name
      && r.value.bins == database + [sep] + "bins_histograms" + name + "bin"
      && r.value.grey == database + [sep] + "grey_histograms" + name + "grey"
  {
    var name :- HistogramName(file, sep);
    Ok(StoredPaths(
      database + [sep] + "histograms" + name,
      database + [sep] + "bins_histograms" + name + "bin",
      database + [sep] + "grey_histograms" + name + "grey"))
  }

  /** `add`'s stem as written: from the last separator up to one character
      before the last dot, so the character in front of the dot is lost.
      Either `rindex` can fail. */
  function AddStemAsWritten(newPath: string, sep: char): (r: Result<string>)
    ensures r.Err? <==> sep !in newPath || '.' !in newPath
    ensures r.Err? ==> r.error == ValueError
  {
    var i :- LastIndexOf(newPath, sep);
    var d :- LastIndexOf(newPath, '.');
    Ok(PySlice(newPath, i, d - 1))
  }

  /** The stem with only the extension removed. */
  function AddStem(newPath: string, sep: char): (r: Result<string>)
    ensures r.Err? <==> sep !in newPath || '.' !in newPath
    ensures r.Err? ==> r.error == ValueError
  {
    var i :- LastIndexOf(newPath, sep);
    var d :- LastIndexOf(newPath, '.');
    Ok(PySlice(newPath, i, d))
  }

  /** The names `add` stores an image's histograms under. */
  datatype AddedNames = AddedNames(color: string, grey: string)

  /** `add`, both branches, from a stem: for a colour histogram the grey
      name is the colour name plus `grey`; for a grey histogram the colour
      name is the grey name without its last four characters. */
  function NamesFromStem(stem: string, color: bool): (r: AddedNames)
    ensures r.grey == r.color + "grey"
    ensures EndsWith(r.color, "_hist")
    ensures r.color == stem + "_hist"
  {
    if color then
      var name := stem + "_hist";
      assert name[|name| - 5..] == "_hist";
      AddedNames(name, name + "grey")
    else
      var g := stem + "_histgrey";
      var name := PySlice(g, 0, |g| - 4);
      assert name == stem + "_hist";
      assert name[|name| - 5..] == "_hist";
      assert g == name + "grey";
      AddedNames(name, g)
  }

  /** Both branches of `add` agree on the names. */
  lemma NamesBranchesAgree(stem: string)
    ensures NamesFromStem(stem, true) == NamesFromStem(stem, false)
  {
  }

  function AddNamesAsWritten(newPath: string, sep: char, color: bool): (r: Result<AddedNames>)
    ensures r.Err? <==> sep !in newPath || '.' !in newPath
    ensures r.Ok? ==> r.value == NamesFromStem(AddStemAsWritten(newPath, sep).value, color)
  {
    var stem :- AddStemAsWritten(newPath, sep);
    Ok(NamesFromStem(stem, color))
  }

  function AddNames(newPath: string, sep: char, color: bool): (r: Result<AddedNames>)
    ensures r.Err? <==> sep !in newPath || '.' !in newPath
    ensures r.Ok? ==> r.value == NamesFromStem(AddStem(newPath, sep).value, color)
  {
    var stem :- AddStem(newPath, sep);
    Ok(NamesFromStem(stem, color))
  }

  /** As written, two images whose names differ only just before the dot get
      the same histogram names, so the second overwrites the first; with the
      extension alone removed they stay apart (for example `/db/ab.png` and
      `/db/ac.png`). */
  lemma AddStemCollision(dir: string, b1: string, b2: string)
    requires |b1| == |b2| == 2 && b1[0] == b2[0] && b1[1] != b2[1]
    requires '/' !in b1 && '.' !in b1 && '/' !in b2 && '.' !in b2
    ensures AddNamesAsWritten(dir + "/" + b1 + ".png", '/', true) == AddNamesAsWritten(dir + "/" + b2 + ".png", '/', true)
    ensures AddNames(dir + "/" + b1 + ".png", '/', true) != AddNames(dir + "/" + b2 + ".png", '/', true)
  {
    StemOfTwo(dir, b1);
    StemOfTwo(dir, b2);
    assert ("/" + b1 + "_hist")[2] != ("/" + b2 + "_hist")[2];
  }

  lemma StemOfTwo(dir: string, base: string)
    requires |base| == 2 && '/' !in base && '.' !in base
    ensures AddStemAsWritten(dir + "/" + base + ".png", '/') == Ok(['/', base[0]])
    ensures AddStem(dir + "/" + base + ".png", '/') == Ok("/" + base)
  {
    var p := dir + "/" + base + ".png";
    var n := |dir|;
    assert p[n] == '/' && p[n + 1..] == base + ".png";
    LastIndexOfAt(p, '/', n);
    assert p[n + 3] == '.' && p[n + 4..] == "png";
    LastIndexOfAt(p, '.', n + 3);
    assert p[n..n + 2] == ['/', base[0]];
    assert p[n..n + 3] == "/" + base;
  }

  /** With the extension alone removed, `add` names an image as
      `_calculate_histogram` does whenever the extension has four characters. */
  lemma AddStemMatchesCalculated(dir: string, base: string, ext: string, sep: char)
    requires |ext| == 4 && ext[0] == '.' && sep != '.'
    requires sep !in base && sep !in ext && '.' !in base && '.' !in ext[1..]
    ensures AddStem(dir + [sep] + base + ext, sep) == Ok([sep] + base)
    ensures HistogramName(dir + [sep] + base + ext, sep) == Ok(AddNames(dir + [sep] + base + ext, sep, true).value.color)
  {
    HistogramNameOfBase(dir, base, ext, sep);
    AddStemOfBase(dir, base, ext, sep);
  }

  lemma AddStemOfBase(dir: string, base: string, ext: string, sep: char)
    requires |ext| == 4 && ext[0] == '.' && sep != '.'
    requires sep !in base && sep !in ext && '.' !in base && '.' !in ext[1..]
    ensures AddStem(dir + [sep] + base + ext, sep) == Ok([sep] + base)
  {
    var file := dir + [sep] + base + ext;
    assert file[|dir|] == sep;
    assert file[|dir| + 1..] == base + ext;
    LastIndexOfAt(file, sep, |dir|);
    assert file[|file| - 4] == '.';
    assert file[|file| - 3..] == ext[1..];
    LastIndexOfAt(file, '.', |file| - 4);
    assert file[|dir|..|file| - 4] == [sep] + base;
  }

  /** One line of `histograms.csv`, as `csv.reader` yields it. */
  type Row = seq<string>

  /** The row `_calculate_histograms` writes: the absolute image path and its
      three stored files. */
  function CalculatedRow(image: string, p: StoredPaths): (r: Row)
    ensures |r| == 4 && r[0] == image && r[3] == p.grey
  {
    [image, p.color, p.bins, p.grey]
  }

  /** The row `add` writes: four fields when it creates the file, three when
      it appends to an existing one. */
  function AddedRow(newPath: string, color: string, bins: string, grey: string, firstImage: bool): (r: Row)
    ensures |r| == (if firstImage then 4 else 3)
    ensures r[0] == newPath
  {
    if firstImage then [newPath, color, bins, grey] else [newPath, color, bins]
  }

  /** `grey_histograms`: every non-blank row yields its image and its fourth
      field; a shorter row raises `IndexError`. */
  function GreyEntries(rows: seq<Row>): (r: Result<seq<(string, string)>>)
    ensures r.Err? <==> exists k :: 0 <= k < |rows| && 0 < |rows[k]| < 4
    ensures r.Err? ==> r.error == IndexError
    ensures r.Ok? ==> |r.value| <= |rows|
    ensures r.Ok? ==> forall e :: e in r.value ==> exists k :: 0 <= k < |rows| && |rows[k]| >= 4 && e == (rows[k][0], rows[k][3])
  {
    if |rows| == 0 then Ok([])
    else
      var rest :- GreyEntries(rows[1..]);
      assert forall k :: 1 <= k < |rows| ==> rows[k] == rows[1..][k - 1];
      if |rows[0]| == 0 then Ok(rest)
      else if |rows[0]| < 4 then Err(IndexError)
      else Ok([(rows[0][0], rows[0][3])] + rest)
  }

  /** Rows written by `add` on an existing file break `grey_histograms`. */
  lemma AppendedRowBreaksGrey(rows: seq<Row>, newPath: string, color: string, bins: string, grey: string)
    ensures GreyEntries(rows + [AddedRow(newPath, color, bins, grey, false)]).Err?
  {
    var all := rows + [AddedRow(newPath, color, bins, grey, false)];
    assert 0 < |all[|rows|]| < 4;
  }

  /** Rows that all come from `_calculate_histograms` are read back, one
      entry per row, image and grey file in order. */
  lemma {:induction false} CalculatedRowsGrey(images: seq<string>, paths: seq<StoredPaths>)
    requires |images| == |paths|
    ensures var rows := seq(|images|, k requires 0 <= k < |images| => CalculatedRow(images[k], paths[k]));
      GreyEntries(rows) == Ok(seq(|images|, k requires 0 <= k < |images| => (images[k], paths[k].grey)))
  {
    var rows := seq(|images|, k requires 0 <= k < |images| => CalculatedRow(images[k], paths[k]));
    if |images| > 0 {
      CalculatedRowsGrey(images[1..], paths[1..]);
      var tail := seq(|images| - 1, k requires 0 <= k < |images| - 1 => CalculatedRow(images[1..][k], paths[1..][k]));
      assert rows == [rows[0]] + tail;
      GreyEntriesCons(rows[0], tail);
      var out := seq(|images|, k requires 0 <= k < |images| => (images[k], paths[k].grey));
      var outTail := seq(|images| - 1, k requires 0 <= k < |images| - 1 => (images[1..][k], paths[1..][k].grey));
      assert out == [out[0]] + outTail;
    }
  }

  /** A full row in front adds its pair in front. */
  lemma GreyEntriesCons(row: Row, rest: seq<Row>)
    requires |row| >= 4 && GreyEntries(rest).Ok?
    ensures GreyEntries([row] + rest) == Ok([(row[0], row[3])] + GreyEntries(rest).value)
  {
    assert ([row] + rest)[1..] == rest;
  }

  /** `images_ready`: the first field of every non-blank row, in order. */
  function Ready(rows: seq<Row>): (r: seq<string>)
    ensures forall p :: p in r <==> exists k :: 0 <= k < |rows| && |rows[k]| > 0 && rows[k][0] == p
  {
    if |rows| == 0 then []
    else
      var front := rows[..|rows| - 1];
      var rest := Ready(front);
      assert forall k :: 0 <= k < |front| ==> front[k] == rows[k];
      var last := rows[|rows| - 1];
      if |last| > 0 then rest + [last[0]] else rest
  }

  /** Whether a listed file is still to be processed: an image whose
      absolute path is not already recorded. */
  predicate Wanted(file: string, ready: seq<string>, abs: string -> string) {
    CheckExtension(file) && abs(file) !in ready
  }

  /** The files still to process, in listing order. */
  function Pending(files: seq<string>, ready: seq<string>, abs: string -> string): (r: seq<string>)
    ensures |r| <= |files|
    ensures forall f :: f in r <==> f in files && Wanted(f, ready, abs)
    ensures (forall k :: 0 <= k < |files| ==> !Wanted(files[k], ready, abs)) ==> r == []
  {
    if |files| == 0 then []
    else
      var front := files[..|files| - 1];
      var last := files[|files| - 1];
      assert files == front + [last];
      Pending(front, ready, abs) + (if Wanted(last, ready, abs) then [last] else [])
  }

  /** The files `_calculate_histograms` computes: with no `histograms.csv`
      every image of the listing; otherwise the images whose absolute path is
      not the first field of a non-blank row. `csv` is the file's rows when it
      exists. */
  method CalculationTargets(files: seq<string>, csv: Option<seq<Row>>, abs: string -> string) returns (todo: seq<string>)
    ensures csv.Some? ==> todo == Pending(files, Ready(csv.value), abs)
    ensures csv.None? ==> todo == Pending(files, [], abs)
  {
    var ready: seq<string> := [];
    if csv.Some? {
      var rows := csv.value;
      for k := 0 to |rows|
        invariant ready == Ready(rows[..k])
      {
        assert rows[..k + 1][..k] == rows[..k];
        if |rows[k]| > 0 {
          ready := ready + [rows[k][0]];
        }
      }
      assert rows[..|rows|] == rows;
    }
    todo := [];
    for k := 0 to |files|
      invariant todo == Pending(files[..k], ready, abs)
    {
      assert files[..k + 1][..k] == files[..k];
      if CheckExtension(files[k]) && abs(files[k]) !in ready {
        todo := todo + [files[k]];
      }
    }
    assert files[..|files|] == files;
  }

  /** Once a row is recorded for each processed file, nothing is left to
      process: the computation is idempotent. */
  lemma PendingThenDone(files: seq<string>, rows: seq<Row>, abs: string -> string, added: seq<Row>)
    requires |added| == |Pending(files, Ready(rows), abs)|
    requires forall k :: 0 <= k < |added| ==> |added[k]| > 0 && added[k][0] == abs(Pending(files, Ready(rows), abs)[k])
    ensures Pending(files, Ready(rows + added), abs) == []
  {
    var todo := Pending(files, Ready(rows), abs);
    var all := rows + added;
    forall i | 0 <= i < |files|
      ensures !Wanted(files[i], Ready(all), abs)
    {
      var f := files[i];
      if !CheckExtension(f) {
      } else if abs(f) in Ready(rows) {
        var k :| 0 <= k < |rows| && |rows[k]| > 0 && rows[k][0] == abs(f);
        assert all[k] == rows[k];
      } else {
        assert f in todo;
        var j :| 0 <= j < |todo| && todo[j] == f;
        assert all[|rows| + j] == added[j];
      }
    }
  }

  /** `is_computed`: some listed path ends with `histograms.csv`. */
  method IsComputed(files: seq<string>) returns (computed: bool)
    ensures computed <==> exists k :: 0 <= k < |files| && EndsWith(files[k], "histograms.csv")
  {
    for k := 0 to |files|
      invariant forall j :: 0 <= j < k ==> !EndsWith(files[j], "histograms.csv")
    {
      if EndsWith(files[k], "histograms.csv") {
        return true;
      }
    }
    return false;
  }
}
