/** The default-options file of the command-line front end
    (Colmeleon/CLI.py): `key=value` lines read at start-up, the parsers that
    look a key up in them, and the rewrite that saves the current arguments. */
module Cli {
  import opened Outcomes
  import opened Text

  /** The built-in default lines, without their newline; `sep` is the
      platform's path separator. */
  function DefaultOptionLines(sep: char): seq<string> {
    [ "image=None"
    , "database=.." + [sep] + "Colmeleon" + [sep] + "chameleon_smallDB"
    , "depth=5"
    , "bins=255"
    , "saver=None"
    , "noadd=False"
    , "incremental=False"
    , "grey=False"
    , "background_color=#554356" ]
  }

  /** `DEFAULT_CLI_OPTIONS`: every line carries its newline. */
  function DefaultOptions(sep: char): seq<string> {
    Terminated(DefaultOptionLines(sep), '\n')
  }

  /** `list.remove(x)`: drops the first occurrence of `x`, if any. */
  function RemoveFirst<T(==)>(s: seq<T>, x: T): (r: seq<T>)
    ensures x !in s ==> r == s
    ensures x in s ==> |r| == |s| - 1
    ensures multiset(r) == multiset(s) - multiset{x}
  {
    if |s| == 0 then s
    else
      assert s == [s[0]] + s[1..];
      if s[0] == x then s[1..]
      else [s[0]] + RemoveFirst(s[1..], x)
  }

  lemma {:induction false} RemoveFirstAbsent<T>(s: seq<T>, x: T, tail: seq<T>)
    requires x !in s
    ensures RemoveFirst(s + [x] + tail, x) == s + tail
  {
    if |s| > 0 {
      var rest := s[1..] + [x] + tail;
      assert s + [x] + tail == [s[0]] + rest;
      RemoveFirstSkips(s[0], rest, x);
      RemoveFirstAbsent(s[1..], x, tail);
      ConsAppend(s, tail);
    } else {
      assert s + [x] + tail == [x] + tail;
      RemoveFirstHead(x, tail);
    }
  }

  lemma ConsAppend<T>(s: seq<T>, tail: seq<T>)
    requires |s| > 0
    ensures [s[0]] + (s[1..] + tail) == s + tail
  {
  }

  lemma RemoveFirstSkips<T>(h: T, rest: seq<T>, x: T)
    requires h != x
    ensures RemoveFirst([h] + rest, x) == [h] + RemoveFirst(rest, x)
  {
    assert ([h] + rest)[1..] == rest;
  }

  lemma RemoveFirstHead<T>(x: T, rest: seq<T>)
    ensures RemoveFirst([x] + rest, x) == rest
  {
    assert ([x] + rest)[1..] == rest;
  }

  /** The file as `__init__` keeps it: split on newlines, and when the last
      piece is empty, the first empty piece is removed. */
  function ReadDefaults(text: string): (r: seq<string>)
    ensures var parts := Split(text, '\n');
      && (parts[|parts| - 1] == "" ==> |r| == |parts| - 1 && multiset(r) == multiset(parts) - multiset{""})
      && (parts[|parts| - 1] != "" ==> r == parts)
  {
    var parts := Split(text, '\n');
    if parts[|parts| - 1] == "" then RemoveFirst(parts, "") else parts
  }

  /** Lines written one per newline, none of them empty, are read back as
      they were written. */
  lemma ReadWrittenLines(lines: seq<string>)
    requires forall k :: 0 <= k < |lines| ==> '\n' !in lines[k] && lines[k] != ""
    ensures ReadDefaults(Concat(Terminated(lines, '\n'))) == lines
  {
    SplitTerminated(lines, '\n');
    assert "" !in lines;
    RemoveFirstAbsent(lines, "", []);
    assert lines + [""] + [] == lines + [""];
    assert lines + [] == lines;
  }

  /** The position of the first line that starts with `key` (the lines come
      in file order), or `|lines|` when no line does. */
  function FirstWith(lines: seq<string>, key: string): (k: nat)
    ensures k <= |lines|
    ensures forall j :: 0 <= j < k ==> !StartsWith(lines[j], key)
    ensures k < |lines| ==> StartsWith(lines[k], key)
  {
    if |lines| == 0 then 0
    else if StartsWith(lines[0], key) then 0
    else 1 + FirstWith(lines[1..], key)
  }

  /** The value text of a line: what follows the first `=`, stripped, with
      every double quote removed; `str.index` fails without an `=`. */
  function ValueText(line: string): (r: Result<string>)
    ensures r.Err? <==> '=' !in line
    ensures r.Err? ==> r.error == ValueError
    ensures r.Ok? ==> '"' !in r.value
  {
    var i :- IndexOf(line, '=');
    Ok(RemoveChar(Strip(line[i + 1..]), '"'))
  }

  /** An integer line: `None` at its end gives `none`, otherwise `int()` of
      its value text. */
  function LineInt(line: string, none: int): (r: Result<int>)
    ensures EndsWith(line, "None") ==> r == Ok(none)
    ensures !EndsWith(line, "None") && '=' !in line ==> r == Err(ValueError)
    ensures r.Err? ==> r.error == ValueError
  {
    if EndsWith(line, "None") then Ok(none)
    else
      var v :- ValueText(line);
      ParseInt(v)
  }

  /** A boolean line: true exactly when the lower-cased value text is `true`. */
  function LineBool(line: string): (r: Result<bool>)
    ensures EndsWith(line, "None") ==> r == Ok(false)
    ensures !EndsWith(line, "None") ==> (r.Err? <==> '=' !in line)
    ensures r.Err? ==> r.error == ValueError
  {
    if EndsWith(line, "None") then Ok(false)
    else
      var v :- ValueText(line);
      Ok(SaysTrue(v))
  }

  /** The comparison the boolean parsers make: lower-cased, the text is `true`. */
  predicate SaysTrue(v: string) {
    Lower(v) == "true"
  }

  /** The shared shape of `parse_default_depth` and `parse_default_bins`: the
      first line starting with `key` decides; `missing` when none does. */
  function DefaultInt(lines: seq<string>, key: string, none: int, missing: int): (r: Result<int>)
    ensures FirstWith(lines, key) == |lines| ==> r == Ok(missing)
    ensures FirstWith(lines, key) < |lines| ==> r == LineInt(lines[FirstWith(lines, key)], none)
  {
    var k := FirstWith(lines, key);
    if k == |lines| then Ok(missing) else LineInt(lines[k], none)
  }

  /** The shape of the three boolean parsers; a missing line gives False. */
  function DefaultBool(lines: seq<string>, key: string): (r: Result<bool>)
    ensures FirstWith(lines, key) == |lines| ==> r == Ok(false)
    ensures FirstWith(lines, key) < |lines| ==> r == LineBool(lines[FirstWith(lines, key)])
  {
    var k := FirstWith(lines, key);
    if k == |lines| then Ok(false) else LineBool(lines[k])
  }

  /** `parse_default_depth`: 5 for `None`, 15 when no line matches. */
  function ParseDefaultDepth(lines: seq<string>): (r: Result<int>)
    ensures (forall k :: 0 <= k < |lines| ==> !StartsWith(lines[k], "depth")) ==> r == Ok(15)
    ensures r.Err? ==> r.error == ValueError
  {
    DefaultInt(lines, "depth", 5, 15)
  }

  /** `parse_default_bins`: 255 both for `None` and when no line matches. */
  function ParseDefaultBins(lines: seq<string>): (r: Result<int>)
    ensures (forall k :: 0 <= k < |lines| ==> !StartsWith(lines[k], "bins")) ==> r == Ok(255)
    ensures r.Err? ==> r.error == ValueError
  {
    DefaultInt(lines, "bins", 255, 255)
  }

  /** `parse_default_noadd`, `parse_default_incremental` and
      `parse_default_grey` differ only in their key. */
  function ParseDefaultNoadd(lines: seq<string>): (r: Result<bool>)
    ensures (forall k :: 0 <= k < |lines| ==> !StartsWith(lines[k], "noadd")) ==> r == Ok(false)
  {
    DefaultBool(lines, "noadd")
  }

  function ParseDefaultIncremental(lines: seq<string>): (r: Result<bool>)
    ensures (forall k :: 0 <= k < |lines| ==> !StartsWith(lines[k], "incremental")) ==> r == Ok(false)
  {
    DefaultBool(lines, "incremental")
  }

  function ParseDefaultGrey(lines: seq<string>): (r: Result<bool>)
    ensures (forall k :: 0 <= k < |lines| ==> !StartsWith(lines[k], "grey")) ==> r == Ok(false)
  {
    DefaultBool(lines, "grey")
  }

  /** Lines that do not start with the key are skipped; once a line matches,
      later lines no longer matter. */
  lemma {:induction false} FirstWithFrame(skipped: seq<string>, lines: seq<string>, more: seq<string>, key: string)
    requires forall j :: 0 <= j < |skipped| ==> !StartsWith(skipped[j], key)
    requires FirstWith(lines, key) < |lines|
    ensures FirstWith(skipped + lines + more, key) == |skipped| + FirstWith(lines, key)
  {
    if |skipped| > 0 {
      assert (skipped + lines + more)[1..] == skipped[1..] + lines + more;
      FirstWithFrame(skipped[1..], lines, more, key);
    } else if !StartsWith(lines[0], key) {
      assert skipped + lines + more == lines + more;
      assert (lines + more)[1..] == lines[1..] + more;
      FirstWithFrame([], lines[1..], more, key);
      assert [] + lines[1..] + more == lines[1..] + more;
    }
  }

  /** The first matching line wins: non-matching lines before it and any lines
      after it leave every parser's result as that line decides it. */
  lemma FirstMatchWins(skipped: seq<string>, line: string, more: seq<string>, key: string, none: int, missing: int)
    requires forall j :: 0 <= j < |skipped| ==> !StartsWith(skipped[j], key)
    requires StartsWith(line, key)
    ensures DefaultInt(skipped + [line] + more, key, none, missing) == LineInt(line, none)
    ensures DefaultBool(skipped + [line] + more, key) == LineBool(line)
  {
    FirstWithFrame(skipped, [line], more, key);
    assert (skipped + [line] + more)[|skipped|] == line;
  }

  /** What `str()` gives for the argument values the parser produces. */
  datatype Arg = IntArg(n: int) | BoolArg(b: bool) | NoneArg | TextArg(t: string)

  function Format(v: Arg): string {
    match v
    case IntArg(n) => IntToString(n)
    case BoolArg(b) => if b then "True" else "False"
    case NoneArg => "None"
    case TextArg(t) => t
  }

  /** The attribute name of a line: the text before its first `=`, stripped. */
  function Attr(line: string): (r: Result<string>)
    ensures r.Err? <==> '=' !in line
    ensures r.Ok? ==> '=' !in r.value
  {
    var i :- IndexOf(line, '=');
    var a := Strip(line[..i]);
    assert forall c :: c in a ==> c in line[..i] by {
      assert TrimLeft(line[..i]) == line[..i][|line[..i]| - |TrimLeft(line[..i])|..];
    }
    Ok(a)
  }

  /** One line of `_saveparams`: `background_color` lines stay as they are;
      any other line becomes `attr = value` with a newline, and fails when it
      has no `=` or names no argument. */
  function RewriteLine(line: string, args: map<string, Arg>): (r: Result<string>)
    ensures StartsWith(line, "background_color") ==> r == Ok(line)
    ensures !StartsWith(line, "background_color") ==>
      (r.Err? <==> Attr(line).Err? || Attr(line).value !in args)
    ensures !StartsWith(line, "background_color") && r.Ok? ==>
      var a := Attr(line).value;
      && r.value == a + " = " + Format(args[a]) + "\n"
      && StartsWith(r.value, a) && EndsWith(r.value, "\n")
  {
    if StartsWith(line, "background_color") then Ok(line)
    else
      var a :- Attr(line);
      if a !in args then Err(AttributeError)
      else
        var out := a + " = " + Format(args[a]) + "\n";
        assert out[..|a|] == a;
        Ok(out)
  }

  /** Every line rewritten in turn; any failure fails the whole. */
  function RewriteAll(lines: seq<string>, args: map<string, Arg>): (r: Result<seq<string>>)
    ensures r.Ok? <==> forall k :: 0 <= k < |lines| ==> RewriteLine(lines[k], args).Ok?
    ensures r.Ok? ==> |r.value| == |lines|
    ensures r.Ok? ==> forall k :: 0 <= k < |lines| ==> RewriteLine(lines[k], args) == Ok(r.value[k])
  {
    if |lines| == 0 then Ok([])
    else
      var first :- RewriteLine(lines[0], args);
      var rest :- RewriteAll(lines[1..], args);
      assert forall k :: 1 <= k < |lines| ==> lines[k] == lines[1..][k - 1];
      Ok([first] + rest)
  }

  /** The entries that are not empty, in order. */
  function NonBlank(lines: seq<string>): (r: seq<string>)
    ensures "" !in r
    ensures forall x :: x in r <==> x in lines && x != ""
    ensures "" !in lines ==> r == lines
  {
    if |lines| == 0 then []
    else if lines[0] == "" then NonBlank(lines[1..])
    else
      assert lines == [lines[0]] + lines[1..];
      [lines[0]] + NonBlank(lines[1..])
  }

  /** `data.remove("")` keeps the non-empty entries and their order. */
  lemma {:induction false} NonBlankRemoveFirst(lines: seq<string>)
    ensures NonBlank(RemoveFirst(lines, "")) == NonBlank(lines)
  {
    if |lines| > 0 && lines[0] != "" {
      NonBlankRemoveFirst(lines[1..]);
      assert ([lines[0]] + RemoveFirst(lines[1..], ""))[1..] == RemoveFirst(lines[1..], "");
    }
  }

  /** `self.default_path`: the directory, the separator and the file name. */
  function DefaultPath(defaultDir: string, defaultFile: string, sep: char): string {
    defaultDir + [sep] + defaultFile
  }

  /** The file `_saveparams` reads and rewrites, `./options/CLI.init`,
      whatever `self.default_path` is. */
  function SavedOptionsPath(sep: char): string {
    "." + [sep] + "options" + [sep] + "CLI.init"
  }

  /** With the constructor's default arguments the reset writes
      `../options/CLI.init`, which is not the file `_saveparams` rewrites. */
  lemma ResetTargetDiffers(sep: char)
    ensures DefaultPath(".." + [sep] + "options", "CLI.init", sep) != SavedOptionsPath(sep)
  {
    assert |DefaultPath(".." + [sep] + "options", "CLI.init", sep)| == 19;
    assert |SavedOptionsPath(sep)| == 18;
  }

  /** `_saveparams` on the text of `./options/CLI.init` and the current
      arguments: drops the empty entries one `remove` at a time, rewrites the
      lines in place, and writes them back to that file; on any failure the
      file at `self.default_path` is reset to the built-in defaults and the
      result is false. `target` is the file written. */
  method SaveParams(text: string, args: map<string, Arg>, sep: char, defaultPath: string)
    returns (ok: bool, target: string, written: string)
    ensures ok ==> target == SavedOptionsPath(sep)
    ensures !ok ==> target == defaultPath
    ensures ok <==> RewriteAll(NonBlank(Split(text, '\n')), args).Ok?
    ensures ok ==> written == Concat(RewriteAll(NonBlank(Split(text, '\n')), args).value)
    ensures !ok ==> written == Concat(DefaultOptions(sep))
  {
    var data := Split(text, '\n');
    while "" in data
      invariant NonBlank(data) == NonBlank(Split(text, '\n'))
      decreases |data|
    {
      NonBlankRemoveFirst(data);
      data := RemoveFirst(data, "");
    }
    ghost var lines := data;
    assert lines == NonBlank(Split(text, '\n'));
    var i := 0;
    while i < |data|
      invariant 0 <= i <= |data| == |lines|
      invariant data[i..] == lines[i..]
      invariant forall k :: 0 <= k < i ==> RewriteLine(lines[k], args) == Ok(data[k])
    {
      var line := RewriteLine(data[i], args);
      if line.Err? {
        assert lines[i] == data[i];
        return false, defaultPath, Concat(DefaultOptions(sep));
      }
      data := data[i := line.value];
      i := i + 1;
    }
    assert RewriteAll(lines, args).Ok?;
    assert RewriteAll(lines, args).value == data;
    return true, SavedOptionsPath(sep), Concat(data);
  }

  /** The value text of `attr=v`, for an attribute without `=`. */
  lemma ValueTextOf(attr: string, v: string)
    requires '=' !in attr
    ensures ValueText(attr + "=" + v) == Ok(RemoveChar(Strip(v), '"'))
  {
    var line := attr + "=" + v;
    assert line[|attr|] == '=';
    assert line[..|attr|] == attr;
    assert IndexOf(line, '=').value == |attr|;
    assert line[|attr| + 1..] == v;
  }

  /** A value written after `=` and some blanks is read back unchanged when
      it has no white space at its ends and no double quote. */
  lemma PaddedValue(attr: string, pad: string, v: string)
    requires '=' !in attr && |v| > 0
    requires forall k :: 0 <= k < |pad| ==> IsSpace(pad[k])
    requires !IsSpace(v[0]) && !IsSpace(v[|v| - 1]) && '"' !in v
    ensures ValueText(attr + "=" + pad + v) == Ok(v)
  {
    assert attr + "=" + pad + v == attr + "=" + (pad + v);
    ValueTextOf(attr, pad + v);
    StripSkipsLeadingSpace(pad, v);
    StripClean(v);
  }

  /** An integer line `attr=n`, blanks allowed after the `=`, gives `n`. */
  lemma IntLine(attr: string, pad: string, n: int, none: int)
    requires '=' !in attr
    requires forall k :: 0 <= k < |pad| ==> IsSpace(pad[k])
    ensures LineInt(attr + "=" + pad + IntToString(n), none) == Ok(n)
  {
    var digits := IntToString(n);
    IntToStringChars(n);
    IntToStringDigitLast(n);
    PaddedValue(attr, pad, digits);
    ParseIntToString(n);
    assert !EndsWith(attr + "=" + pad + digits, "None") by {
      var line := attr + "=" + pad + digits;
      assert line[|line| - 1] == digits[|digits| - 1];
    }
  }

  /** A saved integer line is read back as the integer that was saved. */
  lemma SavedIntRoundTrip(attr: string, n: int, none: int)
    requires '=' !in attr
    ensures LineInt(attr + " = " + Format(IntArg(n)), none) == Ok(n)
  {
    assert attr + " = " + IntToString(n) == (attr + " ") + "=" + " " + IntToString(n);
    IntLine(attr + " ", " ", n, none);
  }

  lemma IntToStringDigitLast(n: int)
    ensures IsDigit(IntToString(n)[|IntToString(n)| - 1])
  {
    var m := if n < 0 then -n else n;
    assert IntToString(n)[|IntToString(n)| - 1] == NatToString(m)[|NatToString(m)| - 1];
  }

  /** A saved boolean line is read back as the boolean that was saved. */
  lemma SavedBoolRoundTrip(attr: string, b: bool)
    requires '=' !in attr
    ensures LineBool(attr + " = " + Format(BoolArg(b))) == Ok(b)
  {
    BoolWord(b);
    LineBoolOf(attr, Format(BoolArg(b)));
  }

  lemma LineBoolOf(attr: string, word: string)
    requires '=' !in attr && |word| > 0
    requires !IsSpace(word[0]) && word[|word| - 1] == 'e' && '"' !in word
    requires |word| >= 4 && !EndsWith(word, "None")
    ensures LineBool(attr + " = " + word) == Ok(SaysTrue(word))
  {
    assert attr + " = " + word == (attr + " ") + "=" + " " + word;
    PaddedValue(attr + " ", " ", word);
    SameSuffix(attr + " = ", word, "None");
  }

  lemma SameSuffix(front: string, word: string, suffix: string)
    requires |suffix| <= |word|
    ensures EndsWith(front + word, suffix) <==> EndsWith(word, suffix)
  {
    var line := front + word;
    assert line[|line| - |suffix|..] == word[|word| - |suffix|..];
  }

  /** `str(True)` and `str(False)` are clean words whose lower case is
      `true` exactly for True. */
  lemma BoolWord(b: bool)
    ensures var word := Format(BoolArg(b));
      && |word| >= 4 && !IsSpace(word[0]) && word[|word| - 1] == 'e' && '"' !in word
      && !EndsWith(word, "None")
      && (Lower(word) == "true" <==> b)
  {
    if b {
      assert Lower("True") == "true";
      assert "True"[0] != "None"[0];
    } else {
      assert Lower("False")[0] == 'f';
      assert "False"[1..] != "None";
    }
  }

  /** Parsing the built-in defaults gives depth 5, bins 255 and three
      false flags. */
  lemma BuiltInDefaults(sep: char)
    requires sep != '\n'
    ensures var lines := ReadDefaults(Concat(DefaultOptions(sep)));
      && ParseDefaultDepth(lines) == Ok(5)
      && ParseDefaultBins(lines) == Ok(255)
      && ParseDefaultNoadd(lines) == Ok(false)
      && ParseDefaultIncremental(lines) == Ok(false)
      && ParseDefaultGrey(lines) == Ok(false)
  {
    var ls := DefaultOptionLines(sep);
    DefaultLinesClean(sep);
    ReadWrittenLines(ls);
    BuiltInDepth(ls, sep);
    BuiltInBins(ls, sep);
    BuiltInNoadd(ls, sep);
    BuiltInIncremental(ls, sep);
    BuiltInGrey(ls, sep);
  }

  /** No built-in line is empty or holds a newline. */
  lemma DefaultLinesClean(sep: char)
    requires sep != '\n'
    ensures forall k :: 0 <= k < |DefaultOptionLines(sep)| ==>
      '\n' !in DefaultOptionLines(sep)[k] && DefaultOptionLines(sep)[k] != ""
  {
    var ls := DefaultOptionLines(sep);
    forall k | 0 <= k < |ls|
      ensures '\n' !in ls[k] && ls[k] != ""
    {
    }
  }

  /** A line whose character at `i` differs from the key's does not start with it. */
  lemma Differs(s: string, key: string, i: nat)
    requires i < |s| && i < |key| && s[i] != key[i]
    ensures !StartsWith(s, key)
  {
  }

  lemma BuiltInDepth(ls: seq<string>, sep: char)
    requires ls == DefaultOptionLines(sep)
    ensures DefaultInt(ls, "depth", 5, 15) == Ok(5)
  {
    forall j | 0 <= j < 2
      ensures !StartsWith(ls[j], "depth")
    {
      if j == 0 {
        Differs(ls[0], "depth", 0);
      } else {
        Differs(ls[1], "depth", 1);
      }
    }
    assert IntToString(5) == "5";
    DefaultValue(ls, 2, "depth", "depth=5", 5, 15);
  }

  lemma BuiltInBins(ls: seq<string>, sep: char)
    requires ls == DefaultOptionLines(sep)
    ensures DefaultInt(ls, "bins", 255, 255) == Ok(255)
  {
    forall j | 0 <= j < 3
      ensures !StartsWith(ls[j], "bins")
    {
      Differs(ls[j], "bins", 0);
    }
    assert IntToString(255) == "255" by {
      assert NatToString(25) == "25";
    }
    DefaultValue(ls, 3, "bins", "bins=255", 255, 255);
  }

  lemma BuiltInNoadd(ls: seq<string>, sep: char)
    requires ls == DefaultOptionLines(sep)
    ensures DefaultBool(ls, "noadd") == Ok(false)
  {
    forall j | 0 <= j < 5
      ensures !StartsWith(ls[j], "noadd")
    {
      Differs(ls[j], "noadd", 0);
    }
    DefaultFalse(ls, 5, "noadd", "noadd=False");
  }

  lemma BuiltInIncremental(ls: seq<string>, sep: char)
    requires ls == DefaultOptionLines(sep)
    ensures DefaultBool(ls, "incremental") == Ok(false)
  {
    forall j | 0 <= j < 6
      ensures !StartsWith(ls[j], "incremental")
    {
      if j == 0 {
        Differs(ls[0], "incremental", 1);
      } else {
        Differs(ls[j], "incremental", 0);
      }
    }
    DefaultFalse(ls, 6, "incremental", "incremental=False");
  }

  lemma BuiltInGrey(ls: seq<string>, sep: char)
    requires ls == DefaultOptionLines(sep)
    ensures DefaultBool(ls, "grey") == Ok(false)
  {
    forall j | 0 <= j < 7
      ensures !StartsWith(ls[j], "grey")
    {
      Differs(ls[j], "grey", 0);
    }
    DefaultFalse(ls, 7, "grey", "grey=False");
  }

  lemma Around<T>(s: seq<T>, k: nat)
    requires k < |s|
    ensures s == s[..k] + [s[k]] + s[k + 1..]
  {
  }

  lemma DefaultValue(ls: seq<string>, k: nat, key: string, line: string, n: int, missing: int)
    requires k < |ls| && ls[k] == line && line == key + "=" + IntToString(n) && '=' !in key
    requires forall j :: 0 <= j < k ==> !StartsWith(ls[j], key)
    ensures DefaultInt(ls, key, n, missing) == Ok(n)
  {
    KeyIntLine(key, n);
    Around(ls, k);
    FirstMatchWins(ls[..k], line, ls[k + 1..], key, n, missing);
  }

  /** `key=n` starts with the key and parses to `n`. */
  lemma KeyIntLine(key: string, n: int)
    requires '=' !in key
    ensures StartsWith(key + "=" + IntToString(n), key)
    ensures LineInt(key + "=" + IntToString(n), n) == Ok(n)
  {
    var line := key + "=" + IntToString(n);
    assert line[..|key|] == key;
    assert line == key + "=" + "" + IntToString(n);
    IntLine(key, "", n, n);
  }

  lemma DefaultFalse(ls: seq<string>, k: nat, key: string, line: string)
    requires k < |ls| && ls[k] == line && line == key + "=False" && '=' !in key
    requires forall j :: 0 <= j < k ==> !StartsWith(ls[j], key)
    ensures DefaultBool(ls, key) == Ok(false)
  {
    KeyFalseLine(key);
    Around(ls, k);
    FirstMatchWins(ls[..k], line, ls[k + 1..], key, 0, 0);
  }

  /** `key=False` starts with the key and parses to False. */
  lemma KeyFalseLine(key: string)
    requires '=' !in key
    ensures StartsWith(key + "=False", key)
    ensures LineBool(key + "=False") == Ok(false)
  {
    var line := key + "=False";
    assert line[..|key|] == key;
    BoolWord(false);
    assert line == key + "=" + "" + "False";
    PaddedValue(key, "", "False");
    SameSuffix(key + "=", "False", "None");
  }
}
