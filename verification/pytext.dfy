/** The pieces of Python's text handling that the fetcher relies on:
    `str.isspace`/`str.strip`, `str.splitlines`, iterating over a file opened in
    text mode (universal newlines), and `"\n".join`. Strings are sequences of
    Unicode code points, as Python's `str` is. */
module PyText {
  import opened Base

  /** The characters `str.isspace` accepts, which are exactly those `str.strip()`
      removes: the ASCII controls 0x09-0x0D and 0x1C-0x1F, the space, and the
      Unicode separators. */
  predicate IsSpace(c: char)
  {
    || c == ' '
    || ('\t' <= c <= '\r')
    || ('\U{1C}' <= c <= '\U{1F}')
    || c == '\U{85}'
    || c == '\U{A0}'
    || c == '\U{1680}'
    || ('\U{2000}' <= c <= '\U{200A}')
    || c == '\U{2028}'
    || c == '\U{2029}'
    || c == '\U{202F}'
    || c == '\U{205F}'
    || c == '\U{3000}'
  }

  /** Which characters end a line. */
  datatype Newlines =
    | UniversalNewlines   // iterating over a file opened in text mode: \n, \r and \r\n
    | StrSplitlines       // str.splitlines(): also \v, \f, 0x1C-0x1E, 0x85, U+2028, U+2029

  predicate IsBreak(mode: Newlines, c: char)
  {
    match mode
    case UniversalNewlines => c == '\n' || c == '\r'
    case StrSplitlines =>
      || c == '\n' || c == '\r' || c == '\U{0B}' || c == '\U{0C}'
      || ('\U{1C}' <= c <= '\U{1E}')
      || c == '\U{85}' || c == '\U{2028}' || c == '\U{2029}'
  }

  predicate NoBreak(mode: Newlines, s: string)
  {
    forall i :: 0 <= i < |s| ==> !IsBreak(mode, s[i])
  }

  predicate AllSpace(s: string)
  {
    forall i :: 0 <= i < |s| ==> IsSpace(s[i])
  }

  /** Neither end of `s` is whitespace: what `str.strip()` returns. */
  predicate IsStripped(s: string)
  {
    s == [] || (!IsSpace(s[0]) && !IsSpace(s[|s| - 1]))
  }

  /** `s` with its leading whitespace removed (`str.lstrip()`). */
  function TrimStart(s: string): (r: string)
    ensures |r| <= |s|
  {
    if s != [] && IsSpace(s[0]) then TrimStart(s[1..]) else s
  }

  /** What `str.lstrip()` removes is a whitespace prefix, and what it keeps does
      not start with whitespace. */
  lemma {:induction false} TrimStartSpec(s: string)
    ensures TrimStart(s) == s[|s| - |TrimStart(s)|..]
    ensures AllSpace(s[..|s| - |TrimStart(s)|])
    ensures TrimStart(s) == [] || !IsSpace(TrimStart(s)[0])
    decreases |s|
  {
    if s != [] && IsSpace(s[0]) {
      TrimStartSpec(s[1..]);
      TrimStartStep(s, TrimStart(s[1..]));
    }
  }

  lemma TrimStartStep(s: string, r: string)
    requires s != [] && IsSpace(s[0])
    requires |r| <= |s| - 1 && r == s[1..][|s| - 1 - |r|..] && AllSpace(s[1..][..|s| - 1 - |r|])
    ensures r == s[|s| - |r|..] && AllSpace(s[..|s| - |r|])
  {
    var k := |s| - |r|;
    assert s[1..][k - 1..] == s[k..];
    forall j | 0 <= j < k
      ensures IsSpace(s[..k][j])
    {
      if j > 0 {
        assert s[..k][j] == s[1..][..k - 1][j - 1];
      }
    }
  }

  /** `s` with its trailing whitespace removed (`str.rstrip()`). */
  function TrimEnd(s: string): (r: string)
    ensures |r| <= |s|
  {
    if s != [] && IsSpace(s[|s| - 1]) then TrimEnd(s[..|s| - 1]) else s
  }

  /** What `str.rstrip()` removes is a whitespace suffix, and what it keeps
      does not end with whitespace. */
  lemma {:induction false} TrimEndSpec(s: string)
    ensures TrimEnd(s) == s[..|TrimEnd(s)|]
    ensures AllSpace(s[|TrimEnd(s)|..])
    ensures TrimEnd(s) == [] || !IsSpace(TrimEnd(s)[|TrimEnd(s)| - 1])
    decreases |s|
  {
    if s != [] && IsSpace(s[|s| - 1]) {
      var t := s[..|s| - 1];
      TrimEndSpec(t);
      var r := TrimEnd(t);
      assert s[|r|..] == t[|r|..] + [s[|s| - 1]];
    }
  }

  /** Python's `str.strip()` with no argument: leading and trailing whitespace
      removed; nothing is left exactly when `s` is all whitespace. */
  function Strip(s: string): (r: string)
    ensures |r| <= |s| && IsStripped(r)
    ensures r == [] <==> AllSpace(s)
  {
    var t := TrimStart(s);
    var r := TrimEnd(t);
    TrimStartSpec(s);
    TrimEndSpec(t);
    StripInfix(s, |s| - |t|, t, r);
    r
  }

  /** The result of `str.strip()` is the infix of `s` that is surrounded by
      whitespace only. */
  lemma StripIsInfix(s: string)
    ensures exists i :: 0 <= i <= |s| - |Strip(s)| && s[i..i + |Strip(s)|] == Strip(s) &&
                        AllSpace(s[..i]) && AllSpace(s[i + |Strip(s)|..])
  {
    var t := TrimStart(s);
    var r := TrimEnd(t);
    TrimStartSpec(s);
    TrimEndSpec(t);
    var i := |s| - |t|;
    StripInfix(s, i, t, r);
    assert 0 <= i <= |s| - |r| && s[i..i + |r|] == r && AllSpace(s[..i]) && AllSpace(s[i + |r|..]);
  }

  lemma StripInfix(s: string, i: nat, t: string, r: string)
    requires i <= |s| && t == s[i..] && AllSpace(s[..i])
    requires |r| <= |t| && r == t[..|r|] && AllSpace(t[|r|..]) && IsStripped(r)
    ensures s[i..i + |r|] == r && AllSpace(s[i + |r|..])
    ensures r == [] <==> AllSpace(s)
  {
    assert s[i + |r|..] == t[|r|..];
    if r == [] {
      forall j | 0 <= j < |s|
        ensures IsSpace(s[j])
      {
        if j < i {
          assert s[j] == s[..i][j];
        } else {
          assert s[j] == t[j - i];
        }
      }
    } else {
      assert r[0] == s[i];
    }
  }

  /** Stripping leaves a stripped string alone, so `str.strip()` is idempotent. */
  lemma StripStripped(s: string)
    requires IsStripped(s)
    ensures Strip(s) == s
  {
    if s != [] {
      assert TrimStart(s) == s;
    }
  }

  /** The characters of `s` that are not line breaks. The \r\n pair is one
      break made of two characters, both of which are dropped. */
  function DropBreaks(mode: Newlines, s: string): string
  {
    if s == [] then []
    else if IsBreak(mode, s[0]) then DropBreaks(mode, s[1..])
    else [s[0]] + DropBreaks(mode, s[1..])
  }

  /** Splits `s` into lines without their terminators, treating \r\n as one
      terminator; a terminator at the very end does not start a new line and
      the empty string has no lines. With StrSplitlines this is
      `s.splitlines()`; with UniversalNewlines it is the lines a text-mode file
      yields, each with its trailing newline removed. */
  function Split(mode: Newlines, s: string): (r: seq<string>)
    ensures r == [] <==> s == []
    ensures forall i :: 0 <= i < |r| ==> NoBreak(mode, r[i])
    ensures Flatten(r) == DropBreaks(mode, s)
    decreases |s|
  {
    if s == [] then []
    else if s[0] == '\r' && |s| > 1 && s[1] == '\n' then
      assert DropBreaks(mode, s) == DropBreaks(mode, s[2..]) by {
        assert s[1..][1..] == s[2..];
      }
      [""] + Split(mode, s[2..])
    else if IsBreak(mode, s[0]) then
      [""] + Split(mode, s[1..])
    else
      var rest := Split(mode, s[1..]);
      if rest == [] then
        [[s[0]]]
      else
        ExtendFirstLine(mode, s[0], rest);
        [[s[0]] + rest[0]] + rest[1..]
  }

  /** Putting a non-break character in front of the first line keeps every
      line break-free and puts the character in front of the concatenation. */
  lemma ExtendFirstLine(mode: Newlines, c: char, rest: seq<string>)
    requires !IsBreak(mode, c) && rest != []
    requires forall i :: 0 <= i < |rest| ==> NoBreak(mode, rest[i])
    ensures forall i :: 0 <= i < |rest| ==> NoBreak(mode, ([[c] + rest[0]] + rest[1..])[i])
    ensures Flatten([[c] + rest[0]] + rest[1..]) == [c] + Flatten(rest)
  {
    var r := [[c] + rest[0]] + rest[1..];
    PrependNoBreak(mode, c, rest[0]);
    forall i | 0 <= i < |rest|
      ensures NoBreak(mode, r[i])
    {
      if i > 0 {
        assert r[i] == rest[i];
      }
    }
    FlattenCons(c, rest, r);
  }

  lemma FlattenCons(c: char, rest: seq<string>, r: seq<string>)
    requires rest != [] && r == [[c] + rest[0]] + rest[1..]
    ensures Flatten(r) == [c] + Flatten(rest)
  {
    assert r[1..] == rest[1..];
    assert Flatten(r) == r[0] + Flatten(rest[1..]);
  }

  lemma PrependNoBreak(mode: Newlines, c: char, line: string)
    requires !IsBreak(mode, c) && NoBreak(mode, line)
    ensures NoBreak(mode, [c] + line)
  {
    var l := [c] + line;
    assert forall j :: 1 <= j < |l| ==> l[j] == line[j - 1];
  }

  /** `"\n".join(xs)`. */
  function Join(xs: seq<string>): string
  {
    if xs == [] then ""
    else if |xs| == 1 then xs[0]
    else xs[0] + "\n" + Join(xs[1..])
  }

  /** Every line followed by "\n": a body as a server typically sends it. */
  function Terminated(xs: seq<string>): string
  {
    if xs == [] then "" else xs[0] + "\n" + Terminated(xs[1..])
  }

  /** A break-free line followed by one break character splits off as exactly
      that line, unless the break is \r and the rest starts with \n (then the
      two are one terminator, see SplitLineCrLfRest). */
  lemma {:induction false} SplitLineBreakRest(mode: Newlines, x: string, c: char, t: string)
    requires NoBreak(mode, x) && IsBreak(mode, c)
    requires c == '\r' ==> t == [] || t[0] != '\n'
    ensures Split(mode, x + [c] + t) == [x] + Split(mode, t)
    decreases |x|
  {
    var s := x + [c] + t;
    if x == [] {
      assert s == [c] + t;
      assert s[1..] == t;
    } else {
      assert s[0] == x[0];
      assert !IsBreak(mode, x[0]);
      assert s[1..] == x[1..] + [c] + t;
      assert NoBreak(mode, x[1..]);
      SplitLineBreakRest(mode, x[1..], c, t);
      assert [x[0]] + x[1..] == x;
    }
  }

  /** A break-free line followed by \r\n splits off as exactly that line: the
      pair is one terminator in both modes. */
  lemma {:induction false} SplitLineCrLfRest(mode: Newlines, x: string, t: string)
    requires NoBreak(mode, x)
    ensures Split(mode, x + "\r\n" + t) == [x] + Split(mode, t)
    decreases |x|
  {
    var s := x + "\r\n" + t;
    if x == [] {
      assert s == "\r\n" + t;
      assert s[2..] == t;
    } else {
      assert s[0] == x[0];
      assert !IsBreak(mode, x[0]);
      assert s[1..] == x[1..] + "\r\n" + t;
      assert NoBreak(mode, x[1..]);
      SplitLineCrLfRest(mode, x[1..], t);
      assert [x[0]] + x[1..] == x;
    }
  }

  /** A break-free line followed by "\n" splits off as exactly that line. */
  lemma SplitLineThenRest(mode: Newlines, x: string, t: string)
    requires NoBreak(mode, x)
    ensures Split(mode, x + "\n" + t) == [x] + Split(mode, t)
  {
    SplitLineBreakRest(mode, x, '\n', t);
  }

  /** A non-empty line without breaks is one line. */
  lemma {:induction false} SplitSingleLine(mode: Newlines, x: string)
    requires x != [] && NoBreak(mode, x)
    ensures Split(mode, x) == [x]
    decreases |x|
  {
    assert !IsBreak(mode, x[0]);
    if |x| > 1 {
      assert NoBreak(mode, x[1..]);
      SplitSingleLine(mode, x[1..]);
      assert [x[0]] + x[1..] == x;
    } else {
      assert x[1..] == [];
      assert x == [x[0]];
    }
  }

  /** In either mode, splitting a body whose every line is terminated by "\n"
      gives back those lines. */
  lemma {:induction false} SplitTerminated(mode: Newlines, xs: seq<string>)
    requires forall i :: 0 <= i < |xs| ==> NoBreak(mode, xs[i])
    ensures Split(mode, Terminated(xs)) == xs
    decreases |xs|
  {
    if xs != [] {
      SplitLineThenRest(mode, xs[0], Terminated(xs[1..]));
      SplitTerminated(mode, xs[1..]);
    }
  }

  /** Splitting a joined list gives the list back when no entry holds a break
      and the last one is not empty (a trailing "" leaves no trace in the text). */
  lemma {:induction false} SplitJoin(mode: Newlines, xs: seq<string>)
    requires xs != [] && xs[|xs| - 1] != []
    requires forall i :: 0 <= i < |xs| ==> NoBreak(mode, xs[i])
    ensures Split(mode, Join(xs)) == xs
    decreases |xs|
  {
    if |xs| == 1 {
      SplitSingleLine(mode, xs[0]);
    } else {
      SplitLineThenRest(mode, xs[0], Join(xs[1..]));
      SplitJoin(mode, xs[1..]);
    }
  }

  /** Two non-empty break-free lines separated by one break character, or by
      \r\n, split into exactly those two lines. */
  lemma SplitTwoLines(mode: Newlines, x: string, sep: string, y: string)
    requires NoBreak(mode, x) && y != [] && NoBreak(mode, y)
    requires sep == "\r\n" || (|sep| == 1 && IsBreak(mode, sep[0]))
    ensures Split(mode, x + sep + y) == [x, y]
  {
    if sep == "\r\n" {
      SplitLineCrLfRest(mode, x, y);
    } else {
      assert sep == [sep[0]];
      SplitLineBreakRest(mode, x, sep[0], y);
    }
    SplitSingleLine(mode, y);
  }

  /** The two modes differ on a vertical tab: `str.splitlines` breaks there,
      a text-mode file does not. */
  lemma VerticalTabSplitsOnlyForSplitlines(x: string, y: string)
    requires NoBreak(StrSplitlines, x) && y != [] && NoBreak(StrSplitlines, y)
    ensures Split(StrSplitlines, x + "\U{0B}" + y) == [x, y]
    ensures Split(UniversalNewlines, x + "\U{0B}" + y) == [x + "\U{0B}" + y]
  {
    SplitTwoLines(StrSplitlines, x, "\U{0B}", y);
    var s := x + "\U{0B}" + y;
    forall i | 0 <= i < |s|
      ensures !IsBreak(UniversalNewlines, s[i])
    {
      if i < |x| {
        assert s[i] == x[i] && !IsBreak(StrSplitlines, x[i]);
      } else if i > |x| {
        assert s[i] == y[i - |x| - 1] && !IsBreak(StrSplitlines, y[i - |x| - 1]);
      }
    }
    SplitSingleLine(UniversalNewlines, s);
  }
}
