/** The Python string operations that the modelled code relies on, over `seq<char>`. */
module Text {
  import opened Outcomes

  /** `s.startswith(prefix)` */
  predicate StartsWith(s: string, prefix: string) {
    |prefix| <= |s| && s[..|prefix|] == prefix
  }

  /** `s.endswith(suffix)` */
  predicate EndsWith(s: string, suffix: string) {
    |suffix| <= |s| && s[|s| - |suffix|..] == suffix
  }

  /** `c.isspace()`: the characters Python's `str.strip()` removes. */
  predicate IsSpace(c: char) {
    || ('\t' <= c <= '\r')
    || ('\U{1C}' <= c <= ' ')
    || c == '\U{85}' || c == '\U{A0}' || c == '\U{1680}'
    || ('\U{2000}' <= c <= '\U{200A}')
    || c == '\U{2028}' || c == '\U{2029}' || c == '\U{202F}' || c == '\U{205F}' || c == '\U{3000}'
  }

  predicate IsDigit(c: char) {
    '0' <= c <= '9'
  }

  /** `s.lstrip()` */
  function TrimLeft(s: string): (r: string)
    ensures |r| <= |s| && r == s[|s| - |r|..]
    ensures r == [] || !IsSpace(r[0])
    ensures forall k :: 0 <= k < |s| - |r| ==> IsSpace(s[k])
  {
    if |s| > 0 && IsSpace(s[0]) then TrimLeft(s[1..]) else s
  }

  /** `s.rstrip()` */
  function TrimRight(s: string): (r: string)
    ensures |r| <= |s| && r == s[..|r|]
    ensures r == [] || !IsSpace(r[|r| - 1])
    ensures forall k :: |r| <= k < |s| ==> IsSpace(s[k])
  {
    if |s| > 0 && IsSpace(s[|s| - 1]) then TrimRight(s[..|s| - 1]) else s
  }

  /** `s.strip()`: the text between the white space at the two ends. */
  function Strip(s: string): (r: string)
    ensures |r| <= |s|
    ensures r == [] || (!IsSpace(r[0]) && !IsSpace(r[|r| - 1]))
    ensures exists i, j ::
      && 0 <= i <= j <= |s| && r == s[i..j]
      && (forall k :: 0 <= k < i ==> IsSpace(s[k]))
      && (forall k :: j <= k < |s| ==> IsSpace(s[k]))
  {
    SpaceAround(s, TrimLeft(s), TrimRight(TrimLeft(s)));
    TrimRight(TrimLeft(s))
  }

  /** A suffix `l` of `s` after white space, cut to a prefix `m` before white
      space, is a slice of `s` with only white space around it. */
  lemma SpaceAround(s: string, l: string, m: string)
    requires |l| <= |s| && l == s[|s| - |l|..]
    requires forall k :: 0 <= k < |s| - |l| ==> IsSpace(s[k])
    requires |m| <= |l| && m == l[..|m|]
    requires forall k :: |m| <= k < |l| ==> IsSpace(l[k])
    ensures exists i, j ::
      && 0 <= i <= j <= |s| && m == s[i..j]
      && (forall k :: 0 <= k < i ==> IsSpace(s[k]))
      && (forall k :: j <= k < |s| ==> IsSpace(s[k]))
  {
    var i := |s| - |l|;
    var j := i + |m|;
    assert m == s[i..j];
    forall k | j <= k < |s|
      ensures IsSpace(s[k])
    {
      assert s[k] == l[k - i];
    }
  }

  /** Text with no white space at either end is left as it is by `strip()`. */
  lemma StripClean(s: string)
    requires s == [] || (!IsSpace(s[0]) && !IsSpace(s[|s| - 1]))
    ensures Strip(s) == s
  {
  }

  /** Leading blanks never survive `lstrip()`, hence `strip()`. */
  lemma {:induction false} StripSkipsLeadingSpace(sp: string, s: string)
    requires forall k :: 0 <= k < |sp| ==> IsSpace(sp[k])
    ensures TrimLeft(sp + s) == TrimLeft(s)
    ensures Strip(sp + s) == Strip(s)
  {
    if |sp| > 0 {
      assert (sp + s)[0] == sp[0];
      assert (sp + s)[1..] == sp[1..] + s;
      StripSkipsLeadingSpace(sp[1..], s);
    } else {
      assert sp + s == s;
    }
  }

  /** `s.lower()` restricted to the ASCII letters. Only non-ASCII letters differ,
      and none of them lowers to a letter of "true", so comparing with "true"
      gives the same answer as Python's full case mapping. */
  function Lower(s: string): (r: string)
    ensures |r| == |s|
    ensures forall k :: 0 <= k < |s| ==> r[k] == if 'A' <= s[k] <= 'Z' then (s[k] as int + 32) as char else s[k]
  {
    if |s| == 0 then []
    else [if 'A' <= s[0] <= 'Z' then (s[0] as int + 32) as char else s[0]] + Lower(s[1..])
  }

  /** `s.replace(c, '')` for a single character `c`. */
  function RemoveChar(s: string, c: char): (r: string)
    ensures c !in r
    ensures forall x :: x in r <==> x in s && x != c
    ensures c !in s ==> r == s
  {
    if |s| == 0 then []
    else (if s[0] == c then [] else [s[0]]) + RemoveChar(s[1..], c)
  }

  /** Position of the first `c` in `s`, or `|s|` when there is none. */
  function FirstIndex(s: string, c: char): (i: nat)
    ensures i <= |s|
    ensures c !in s[..i]
    ensures i < |s| ==> s[i] == c
    ensures i == |s| <==> c !in s
  {
    if |s| == 0 then 0
    else if s[0] == c then 0
    else
      assert s[1..][..FirstIndex(s[1..], c)] == s[1..1 + FirstIndex(s[1..], c)];
      1 + FirstIndex(s[1..], c)
  }

  /** `s.index(c)`: the first position of `c`, or ValueError. */
  function IndexOf(s: string, c: char): (r: Result<nat>)
    ensures r.Err? <==> c !in s
    ensures r.Err? ==> r.error == ValueError
    ensures r.Ok? ==> r.value < |s| && s[r.value] == c && c !in s[..r.value]
  {
    var i := FirstIndex(s, c);
    if i == |s| then Err(ValueError) else Ok(i)
  }

  /** `s.rindex(c)`: the last position of `c`, or ValueError. */
  function LastIndexOf(s: string, c: char): (r: Result<nat>)
    ensures r.Err? <==> c !in s
    ensures r.Err? ==> r.error == ValueError
    ensures r.Ok? ==> r.value < |s| && s[r.value] == c && c !in s[r.value + 1..]
  {
    if |s| == 0 then Err(ValueError)
    else if s[|s| - 1] == c then Ok(|s| - 1)
    else
      var r := LastIndexOf(s[..|s| - 1], c);
      assert r.Err? ==> s == s[..|s| - 1] + [s[|s| - 1]];
      assert r.Ok? ==> s[r.value + 1..] == s[..|s| - 1][r.value + 1..] + [s[|s| - 1]];
      r
  }

  /** The last occurrence is found at `k` when nothing after `k` matches. */
  lemma LastIndexOfAt(s: string, c: char, k: nat)
    requires k < |s| && s[k] == c && c !in s[k + 1..]
    ensures LastIndexOf(s, c) == Ok(k)
  {
  }

  /** Python's normalisation of a slice bound: negative bounds count from the end,
      and the result is clamped to `0 .. n`. */
  function SliceBound(i: int, n: nat): (b: nat)
    ensures b <= n
    ensures 0 <= i <= n ==> b == i
    ensures i < 0 && i + n >= 0 ==> b == i + n
    ensures i + n < 0 ==> b == 0
    ensures i > n ==> b == n
  {
    if i < 0 then (if i + n < 0 then 0 else i + n) else if i > n then n else i
  }

  /** `s[start:stop]`: the characters from the normalised start up to the
      normalised stop, or none when the start is not before the stop. */
  function PySlice(s: string, start: int, stop: int): (r: string)
    ensures 0 <= start <= stop <= |s| ==> r == s[start..stop]
    ensures |r| <= |s|
    ensures var a, b := SliceBound(start, |s|), SliceBound(stop, |s|);
      && (a >= b ==> r == [])
      && (a < b ==> |r| == b - a && forall k :: 0 <= k < |r| ==> r[k] == s[a + k])
  {
    var a := SliceBound(start, |s|);
    var b := SliceBound(stop, |s|);
    if a < b then s[a..b] else []
  }

  /** `s.split(sep)` for a one-character separator. */
  function Split(s: string, sep: char): (r: seq<string>)
    ensures |r| >= 1
    ensures forall k :: 0 <= k < |r| ==> sep !in r[k]
    decreases |s|
  {
    var i := FirstIndex(s, sep);
    if i == |s| then [s] else [s[..i]] + Split(s[i + 1..], sep)
  }

  /** `"".join(parts)`, and what `file.writelines(parts)` writes. */
  function Concat(parts: seq<string>): string {
    if |parts| == 0 then [] else parts[0] + Concat(parts[1..])
  }

  /** Each part followed by the separator. */
  function Terminated(parts: seq<string>, sep: char): (r: seq<string>)
    ensures |r| == |parts|
    ensures forall k :: 0 <= k < |parts| ==> r[k] == parts[k] + [sep]
  {
    if |parts| == 0 then [] else [parts[0] + [sep]] + Terminated(parts[1..], sep)
  }

  /** Writing separator-terminated lines and splitting the text again gives
      the lines back, followed by the empty text after the last separator. */
  lemma {:induction false} SplitTerminated(lines: seq<string>, sep: char)
    requires forall k :: 0 <= k < |lines| ==> sep !in lines[k]
    ensures Split(Concat(Terminated(lines, sep)), sep) == lines + [""]
  {
    if |lines| > 0 {
      var l := lines[0];
      var rest := Concat(Terminated(lines[1..], sep));
      calc {
        Split(Concat(Terminated(lines, sep)), sep);
        == { ConcatTerminatedCons(lines, sep); }
        Split(l + [sep] + rest, sep);
        == { SplitAfterFirst(l, rest, sep); }
        [l] + Split(rest, sep);
        == { TailWithout(lines, sep); SplitTerminated(lines[1..], sep); }
        [l] + (lines[1..] + [""]);
        == { assert lines == [l] + lines[1..]; }
        lines + [""];
      }
    } else {
      assert Concat(Terminated(lines, sep)) == [];
    }
  }

  lemma TailWithout(lines: seq<string>, sep: char)
    requires |lines| > 0 && forall k :: 0 <= k < |lines| ==> sep !in lines[k]
    ensures forall k :: 0 <= k < |lines[1..]| ==> sep !in lines[1..][k]
  {
    forall k | 0 <= k < |lines[1..]|
      ensures sep !in lines[1..][k]
    {
      assert lines[1..][k] == lines[k + 1];
    }
  }

  lemma ConcatTerminatedCons(lines: seq<string>, sep: char)
    requires |lines| > 0
    ensures Concat(Terminated(lines, sep)) == lines[0] + [sep] + Concat(Terminated(lines[1..], sep))
  {
    assert Terminated(lines, sep)[1..] == Terminated(lines[1..], sep);
  }

  /** The first piece of a split ends at the first separator. */
  lemma SplitAfterFirst(l: string, rest: string, sep: char)
    requires sep !in l
    ensures Split(l + [sep] + rest, sep) == [l] + Split(rest, sep)
  {
    var s := l + [sep] + rest;
    assert s[..|l|] == l;
    assert s[|l|] == sep;
    assert FirstIndex(s, sep) == |l|;
    assert s[|l| + 1..] == rest;
  }

  /** Strictly-less on strings, as Python compares `str` values: by code point,
      a proper prefix coming first. */
  predicate StrLess(a: string, b: string) {
    if |a| == 0 then |b| > 0
    else if |b| == 0 then false
    else a[0] < b[0] || (a[0] == b[0] && StrLess(a[1..], b[1..]))
  }

  lemma {:induction false} StrLessIrreflexive(a: string)
    ensures !StrLess(a, a)
  {
    if |a| > 0 { StrLessIrreflexive(a[1..]); }
  }

  lemma {:induction false} StrLessTransitive(a: string, b: string, c: string)
    requires StrLess(a, b) && StrLess(b, c)
    ensures StrLess(a, c)
  {
    if |a| > 0 && a[0] == b[0] && b[0] == c[0] {
      StrLessTransitive(a[1..], b[1..], c[1..]);
    }
  }

  lemma {:induction false} StrLessAsymmetric(a: string, b: string)
    requires StrLess(a, b)
    ensures !StrLess(b, a)
  {
    if |a| > 0 && a[0] == b[0] {
      StrLessAsymmetric(a[1..], b[1..]);
    }
  }

  lemma {:induction false} StrLessTotal(a: string, b: string)
    ensures a == b || StrLess(a, b) || StrLess(b, a)
  {
    if |a| > 0 && |b| > 0 && a[0] == b[0] {
      StrLessTotal(a[1..], b[1..]);
      if a[1..] == b[1..] {
        assert a == [a[0]] + a[1..] && b == [b[0]] + b[1..];
      }
    }
  }

  // ---- int(text) and str(n) ----

  function DigitValue(c: char): nat
    requires IsDigit(c)
  {
    c as int - '0' as int
  }

  function DigitChar(d: nat): (c: char)
    requires d < 10
    ensures IsDigit(c) && DigitValue(c) == d
  {
    ('0' as int + d) as char
  }

  /** Python's digit grammar for `int()`: decimal digits, with single underscores
      allowed between two digits. */
  predicate DigitText(b: string) {
    && |b| > 0
    && IsDigit(b[0]) && IsDigit(b[|b| - 1])
    && (forall k :: 0 <= k < |b| ==> IsDigit(b[k]) || b[k] == '_')
    && (forall k :: 0 <= k < |b| - 1 ==> !(b[k] == '_' && b[k + 1] == '_'))
  }

  /** The value of a digit text, underscores ignored. */
  function DigitsValue(b: string): nat
    requires forall k :: 0 <= k < |b| ==> IsDigit(b[k]) || b[k] == '_'
  {
    if |b| == 0 then 0
    else if b[|b| - 1] == '_' then DigitsValue(b[..|b| - 1])
    else 10 * DigitsValue(b[..|b| - 1]) + DigitValue(b[|b| - 1])
  }

  /** `int(s)` on text: surrounding white space, an optional sign, then digits
      (ASCII digits only). Anything else raises ValueError. */
  function ParseInt(s: string): (r: Result<int>)
    ensures r.Err? ==> r.error == ValueError
    ensures r.Ok? ==> exists k :: 0 <= k < |s| && IsDigit(s[k])
  {
    var t := Strip(s);
    var negative := |t| > 0 && t[0] == '-';
    var body := if |t| > 0 && (t[0] == '-' || t[0] == '+') then t[1..] else t;
    if DigitText(body) then
      assert TrimLeft(s) == s[|s| - |TrimLeft(s)|..];
      assert body[0] in s;
      var v: int := DigitsValue(body);
      Ok(if negative then -v else v)
    else Err(ValueError)
  }

  /** `str(n)` for a non-negative `n`: decimal digits, no leading zero. */
  function NatToString(n: nat): (r: string)
    ensures |r| > 0
    ensures forall k :: 0 <= k < |r| ==> IsDigit(r[k])
  {
    if n < 10 then [DigitChar(n)] else NatToString(n / 10) + [DigitChar(n % 10)]
  }

  /** `str(n)` */
  function IntToString(n: int): (r: string)
    ensures |r| > 0
  {
    if n < 0 then "-" + NatToString(-n) else NatToString(n)
  }

  lemma {:induction false} NatToStringValue(n: nat)
    ensures DigitsValue(NatToString(n)) == n
  {
    if n >= 10 {
      NatToStringValue(n / 10);
      var s := NatToString(n);
      assert s[..|s| - 1] == NatToString(n / 10);
    }
  }

  /** `int(str(n)) == n` */
  lemma ParseIntToString(n: int)
    ensures ParseInt(IntToString(n)) == Ok(n)
  {
    var m := if n < 0 then -n else n;
    var d := NatToString(m);
    NatToStringValue(m);
    assert DigitText(d) by {
      assert forall k :: 0 <= k < |d| ==> IsDigit(d[k]);
    }
    var s := IntToString(n);
    assert !IsSpace(s[0]) && !IsSpace(s[|s| - 1]) by {
      IntToStringChars(n);
    }
    StripClean(s);
    if n < 0 {
      assert s == ['-'] + d;
      assert s[1..] == d;
    } else {
      assert s == d;
      assert IsDigit(s[0]);
    }
  }

  /** The text of `str(n)` holds no white space and no quote. */
  lemma IntToStringChars(n: int)
    ensures forall k :: 0 <= k < |IntToString(n)| ==> !IsSpace(IntToString(n)[k]) && IntToString(n)[k] != '"'
  {
    var m := if n < 0 then -n else n;
    var d := NatToString(m);
    if n < 0 {
      assert IntToString(n) == ['-'] + d;
    }
  }
}
