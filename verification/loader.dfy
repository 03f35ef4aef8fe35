/** Reading newline-separated lists back from text: the line loader
    `[line.strip() for line in f if line.strip()]` used for domain files, URL
    files and every file of a domain directory, the `"\n".join` writer it is the
    inverse of, and the merge of a directory of `.txt` domain lists. */
module Loader {
  import opened Base
  import opened PyText

  /** `[line.strip() for line in lines if line.strip()]`: every line stripped,
      the ones that strip to nothing dropped, file order kept. */
  function StripNonBlank(lines: seq<string>): (r: seq<string>)
    ensures |r| <= |lines|
    ensures forall i :: 0 <= i < |r| ==> r[i] != [] && IsStripped(r[i])
  {
    if lines == [] then []
    else
      var head := Strip(lines[0]);
      var rest := StripNonBlank(lines[1..]);
      if head == [] then rest
      else
        ConsClean(head, rest);
        [head] + rest
  }

  lemma ConsClean(head: string, rest: seq<string>)
    requires head != [] && IsStripped(head)
    requires forall i :: 0 <= i < |rest| ==> rest[i] != [] && IsStripped(rest[i])
    ensures forall i :: 0 <= i < |[head] + rest| ==> ([head] + rest)[i] != [] && IsStripped(([head] + rest)[i])
  {
    var r := [head] + rest;
    forall i | 0 <= i < |r|
      ensures r[i] != [] && IsStripped(r[i])
    {
      if i > 0 {
        assert r[i] == rest[i - 1];
      }
    }
  }

  /** Some line of `lines` strips to `x`. */
  predicate StripsTo(lines: seq<string>, x: string)
  {
    exists j :: 0 <= j < |lines| && Strip(lines[j]) == x
  }

  lemma StripsToCons(lines: seq<string>, x: string)
    requires lines != []
    ensures StripsTo(lines, x) <==> Strip(lines[0]) == x || StripsTo(lines[1..], x)
  {
    var tail := lines[1..];
    if StripsTo(tail, x) {
      var j :| 0 <= j < |tail| && Strip(tail[j]) == x;
      assert lines[j + 1] == tail[j];
    }
    if StripsTo(lines, x) {
      var j :| 0 <= j < |lines| && Strip(lines[j]) == x;
      if j > 0 {
        assert tail[j - 1] == lines[j];
      }
    }
  }

  /** A string is loaded exactly when it is the non-empty stripped form of
      some line. */
  lemma {:induction false} StripNonBlankMembers(lines: seq<string>, x: string)
    ensures x in StripNonBlank(lines) <==> x != [] && StripsTo(lines, x)
    decreases |lines|
  {
    if lines != [] {
      var tail := lines[1..];
      StripNonBlankMembers(tail, x);
      StripsToCons(lines, x);
      var head := Strip(lines[0]);
      var rest := StripNonBlank(tail);
      if head != [] {
        assert StripNonBlank(lines) == [head] + rest;
        assert x in [head] + rest <==> x == head || x in rest;
      } else {
        assert StripNonBlank(lines) == rest;
      }
    }
  }

  /** Stripping only removes characters, so it cannot introduce a break. */
  lemma StripKeepsNoBreak(mode: Newlines, s: string)
    requires NoBreak(mode, s)
    ensures NoBreak(mode, Strip(s))
  {
    var t := TrimStart(s);
    TrimStartSpec(s);
    assert t == s[|s| - |t|..|s|];
    NoBreakSlice(mode, s, |s| - |t|, |s|);
    var r := TrimEnd(t);
    TrimEndSpec(t);
    NoBreakSlice(mode, t, 0, |r|);
  }

  lemma NoBreakSlice(mode: Newlines, s: string, i: nat, j: nat)
    requires i <= j <= |s| && NoBreak(mode, s)
    ensures NoBreak(mode, s[i..j])
  {
    forall k | 0 <= k < j - i
      ensures !IsBreak(mode, s[i..j][k])
    {
      assert s[i..j][k] == s[i + k];
    }
  }

  /** Loading lines that hold no break gives entries that hold none either. */
  lemma {:induction false} StripNonBlankNoBreak(mode: Newlines, lines: seq<string>)
    requires forall j :: 0 <= j < |lines| ==> NoBreak(mode, lines[j])
    ensures forall i :: 0 <= i < |StripNonBlank(lines)| ==> NoBreak(mode, StripNonBlank(lines)[i])
    decreases |lines|
  {
    if lines != [] {
      var tail := lines[1..];
      forall j | 0 <= j < |tail|
        ensures NoBreak(mode, tail[j])
      {
        assert tail[j] == lines[j + 1];
      }
      StripNonBlankNoBreak(mode, tail);
      var head := Strip(lines[0]);
      StripKeepsNoBreak(mode, lines[0]);
      var rest := StripNonBlank(tail);
      if head != [] {
        var r := [head] + rest;
        assert StripNonBlank(lines) == r;
        forall i | 0 <= i < |r|
          ensures NoBreak(mode, r[i])
        {
          if i > 0 {
            assert r[i] == rest[i - 1];
          }
        }
      }
    }
  }

  lemma {:induction false} StripNonBlankConcat(a: seq<string>, b: seq<string>)
    ensures StripNonBlank(a + b) == StripNonBlank(a) + StripNonBlank(b)
    decreases |a|
  {
    if a == [] {
      assert a + b == b;
    } else {
      assert (a + b)[1..] == a[1..] + b;
      StripNonBlankConcat(a[1..], b);
    }
  }

  /** A list that is already clean passes through unchanged. */
  lemma {:induction false} StripNonBlankClean(xs: seq<string>)
    requires forall i :: 0 <= i < |xs| ==> xs[i] != [] && IsStripped(xs[i])
    ensures StripNonBlank(xs) == xs
    decreases |xs|
  {
    if xs != [] {
      var tail := xs[1..];
      assert xs[0] != [] && IsStripped(xs[0]);
      StripStripped(xs[0]);
      forall i | 0 <= i < |tail|
        ensures tail[i] != [] && IsStripped(tail[i])
      {
        assert tail[i] == xs[i + 1];
      }
      StripNonBlankClean(tail);
      assert StripNonBlank(xs) == [xs[0]] + StripNonBlank(tail);
      assert xs == [xs[0]] + tail;
    }
  }

  /** The loader applied to the whole text of a file opened in text mode. */
  function LoadLines(content: string): (r: seq<string>)
    ensures forall i :: 0 <= i < |r| ==> r[i] != [] && IsStripped(r[i]) && NoBreak(UniversalNewlines, r[i])
  {
    var lines := Split(UniversalNewlines, content);
    StripNonBlankNoBreak(UniversalNewlines, lines);
    StripNonBlank(lines)
  }

  /** A string is loaded from a file exactly when it is the non-empty stripped
      form of one of the file's lines. */
  lemma LoadLinesMembers(content: string, x: string)
    ensures x in LoadLines(content) <==>
            x != [] && exists line :: line in Split(UniversalNewlines, content) && Strip(line) == x
  {
    var lines := Split(UniversalNewlines, content);
    StripNonBlankMembers(lines, x);
    if exists line :: line in lines && Strip(line) == x {
      var line :| line in lines && Strip(line) == x;
      var j :| 0 <= j < |lines| && lines[j] == line;
      assert Strip(lines[j]) == x;
    }
    if StripsTo(lines, x) {
      var j :| 0 <= j < |lines| && Strip(lines[j]) == x;
      assert lines[j] in lines;
    }
  }

  /** Writing a list with `"\n".join` and loading it back yields the entries
      stripped, with blank ones gone, provided no entry holds a line break. */
  lemma {:induction false} SaveThenLoad(xs: seq<string>)
    requires forall i :: 0 <= i < |xs| ==> NoBreak(UniversalNewlines, xs[i])
    ensures LoadLines(Join(xs)) == StripNonBlank(xs)
    decreases |xs|
  {
    if |xs| == 1 {
      SaveThenLoadOne(xs[0]);
      assert xs[1..] == [];
    } else if |xs| > 1 {
      var tail := xs[1..];
      forall i | 0 <= i < |tail|
        ensures NoBreak(UniversalNewlines, tail[i])
      {
        assert tail[i] == xs[i + 1];
      }
      SaveThenLoad(tail);
      SaveThenLoadStep(xs[0], tail);
      assert [xs[0]] + tail == xs;
    }
  }

  lemma SaveThenLoadOne(x: string)
    requires NoBreak(UniversalNewlines, x)
    ensures LoadLines(Join([x])) == StripNonBlank([x])
  {
    if x != [] {
      SplitSingleLine(UniversalNewlines, x);
    }
  }

  lemma SaveThenLoadStep(x: string, tail: seq<string>)
    requires NoBreak(UniversalNewlines, x) && tail != []
    requires LoadLines(Join(tail)) == StripNonBlank(tail)
    ensures LoadLines(Join([x] + tail)) == StripNonBlank([x] + tail)
  {
    var xs := [x] + tail;
    assert xs[1..] == tail;
    assert Join(xs) == x + "\n" + Join(tail);
    SplitLineThenRest(UniversalNewlines, x, Join(tail));
    var lines := Split(UniversalNewlines, Join(tail));
    StripNonBlankConcat([x], lines);
    StripNonBlankConcat([x], tail);
  }

  /** The round trip of the saved result file: a list of non-empty, stripped,
      break-free entries comes back exactly, order and duplicates included. */
  lemma SaveLoadRoundTrip(xs: seq<string>)
    requires forall i :: 0 <= i < |xs| ==> xs[i] != [] && IsStripped(xs[i]) && NoBreak(UniversalNewlines, xs[i])
    ensures LoadLines(Join(xs)) == xs
  {
    SaveThenLoad(xs);
    StripNonBlankClean(xs);
  }

  /** Loading what was saved from a load changes nothing. */
  lemma LoadSaveLoad(content: string)
    ensures LoadLines(Join(LoadLines(content))) == LoadLines(content)
  {
    SaveLoadRoundTrip(LoadLines(content));
  }

  /** One entry of `os.listdir`: its name and its text, or None when opening or
      reading it raised (a sub-directory called `x.txt`, no permission, bad
      encoding), which the loader reports and skips. */
  datatype Entry = Entry(name: string, content: Option<string>)

  /** The path given by the user: not a directory, or its listing. */
  datatype Directory = NotADirectory | Listing(entries: seq<Entry>)

  /** `filename.endswith(".txt")`, which is case-sensitive. */
  predicate IsTxt(name: string)
  {
    |name| >= 4 && name[|name| - 4..] == ".txt"
  }

  /** Whether an entry is a readable `.txt` file. */
  predicate Loaded(e: Entry)
  {
    IsTxt(e.name) && e.content.Some?
  }

  /** The domains one entry contributes. */
  function EntryDomains(e: Entry): seq<string>
  {
    if Loaded(e) then LoadLines(e.content.value) else []
  }

  /** The domains of the entries, in listing order. */
  function MergeEntries(es: seq<Entry>): (r: seq<string>)
  {
    Flatten(Map(EntryDomains, es))
  }

  /** A domain is in the merge exactly when some readable `.txt` entry holds
      it, and every merged domain is non-empty and stripped. */
  lemma MergeMembers(es: seq<Entry>, x: string)
    ensures x in MergeEntries(es) <==>
            exists i :: 0 <= i < |es| && Loaded(es[i]) && x in LoadLines(es[i].content.value)
    ensures x in MergeEntries(es) ==> x != [] && IsStripped(x)
  {
    var parts := Map(EntryDomains, es);
    MapIndex(EntryDomains, es);
    FlattenMembers(parts, x);
    if x in MergeEntries(es) {
      var i :| 0 <= i < |parts| && x in parts[i];
      assert parts[i] == EntryDomains(es[i]);
    }
    if exists i :: 0 <= i < |es| && Loaded(es[i]) && x in LoadLines(es[i].content.value) {
      var i :| 0 <= i < |es| && Loaded(es[i]) && x in LoadLines(es[i].content.value);
      assert parts[i] == EntryDomains(es[i]);
    }
  }

  /** `load_domains_from_directory`: nothing when the path is not a directory,
      otherwise the loader's output for every readable `.txt` entry, in
      listing order. */
  function LoadDomainsFromDirectory(d: Directory): (r: seq<string>)
    ensures d.NotADirectory? ==> r == []
    ensures forall x :: x in r ==> x != [] && IsStripped(x)
  {
    match d
    case NotADirectory => []
    case Listing(es) =>
      var r := MergeEntries(es);
      forall x | x in r
        ensures x != [] && IsStripped(x)
      {
        MergeMembers(es, x);
      }
      r
  }

  /** A domain is loaded from a directory exactly when the path is a directory
      and one of its readable `.txt` files holds it. */
  lemma DirectoryMembers(d: Directory, x: string)
    ensures x in LoadDomainsFromDirectory(d) <==>
            && d.Listing?
            && exists i :: 0 <= i < |d.entries| && Loaded(d.entries[i]) && x in LoadLines(d.entries[i].content.value)
  {
    if d.Listing? {
      MergeMembers(d.entries, x);
    }
  }

  /** The order in which `os.listdir` lists the files does not change which
      domains are loaded, how often each one is, or how many there are. */
  lemma ListingOrderIrrelevant(es: seq<Entry>, fs: seq<Entry>)
    requires multiset(es) == multiset(fs)
    ensures multiset(LoadDomainsFromDirectory(Listing(es))) == multiset(LoadDomainsFromDirectory(Listing(fs)))
    ensures |LoadDomainsFromDirectory(Listing(es))| == |LoadDomainsFromDirectory(Listing(fs))|
  {
    MapPermutation(EntryDomains, es, fs);
    FlattenPermutation(Map(EntryDomains, es), Map(EntryDomains, fs));
    var a := MergeEntries(es);
    var b := MergeEntries(fs);
    assert |multiset(a)| == |a|;
    assert |multiset(b)| == |b|;
  }

  lemma MergeCons(e: Entry, rest: seq<Entry>)
    ensures MergeEntries([e] + rest) == EntryDomains(e) + MergeEntries(rest)
  {
    MapConcat(EntryDomains, [e], rest);
    FlattenConcat([EntryDomains(e)], Map(EntryDomains, rest));
    assert Flatten([EntryDomains(e)]) == EntryDomains(e) + Flatten([EntryDomains(e)][1..]);
    assert [EntryDomains(e)][1..] == [];
  }

  /** The number of domains each entry contributes, summed over the listing. */
  function SumOfCounts(es: seq<Entry>): nat
  {
    if es == [] then 0 else |EntryDomains(es[0])| + SumOfCounts(es[1..])
  }

  /** A directory yields as many domains as its readable `.txt` files hold
      together, counted with repetitions. */
  lemma {:induction false} DirectoryCountIsSum(es: seq<Entry>)
    ensures |LoadDomainsFromDirectory(Listing(es))| == SumOfCounts(es)
    decreases |es|
  {
    if es != [] {
      assert es == [es[0]] + es[1..];
      MergeCons(es[0], es[1..]);
      DirectoryCountIsSum(es[1..]);
    }
  }

  /** Only readable entries whose name ends in ".txt" matter: dropping every
      other entry from the listing changes nothing. */
  lemma {:induction false} OnlyTxtFilesCount(es: seq<Entry>)
    ensures MergeEntries(es) == MergeEntries(Filter(es, Loaded))
    decreases |es|
  {
    if es != [] {
      OnlyTxtFilesCount(es[1..]);
      assert es == [es[0]] + es[1..];
      MergeCons(es[0], es[1..]);
      if Loaded(es[0]) {
        assert Filter(es, Loaded) == [es[0]] + Filter(es[1..], Loaded);
        MergeCons(es[0], Filter(es[1..], Loaded));
      }
    }
  }

  /** A line of ordinary characters loads as itself. */
  lemma LoadPlainLine(x: string)
    requires x != [] && forall i :: 0 <= i < |x| ==> '!' <= x[i] <= '~'
    ensures LoadLines(x) == [x]
  {
    assert NoBreak(UniversalNewlines, x);
    assert IsStripped(x);
    SaveLoadRoundTrip([x]);
  }

  /** Two `.txt` files holding "x.com" and "y.com\nz.com" merge into three
      domains, whichever of them the listing names first. */
  lemma TwoFilesMergeToThree()
    ensures LoadDomainsFromDirectory(Listing([Entry("a.txt", Some("x.com")), Entry("b.txt", Some("y.com\nz.com"))]))
            == ["x.com", "y.com", "z.com"]
    ensures |LoadDomainsFromDirectory(Listing([Entry("b.txt", Some("y.com\nz.com")), Entry("a.txt", Some("x.com"))]))| == 3
  {
    OneLineFile();
    TwoLineFile();
    MergeEitherOrder(Entry("a.txt", Some("x.com")), Entry("b.txt", Some("y.com\nz.com")), "x.com", "y.com", "z.com");
  }

  lemma MergeEitherOrder(a: Entry, b: Entry, x: string, y: string, z: string)
    requires EntryDomains(a) == [x] && EntryDomains(b) == [y, z]
    ensures LoadDomainsFromDirectory(Listing([a, b])) == [x, y, z]
    ensures |LoadDomainsFromDirectory(Listing([b, a]))| == 3
  {
    MergeTwo(a, b, x, y, z);
    assert multiset([a, b]) == multiset([b, a]);
    ListingOrderIrrelevant([a, b], [b, a]);
  }

  lemma OneLineFile()
    ensures EntryDomains(Entry("a.txt", Some("x.com"))) == ["x.com"]
  {
    assert IsTxt("a.txt");
    LoadPlainLine("x.com");
  }

  lemma TwoLineFile()
    ensures EntryDomains(Entry("b.txt", Some("y.com\nz.com"))) == ["y.com", "z.com"]
  {
    assert IsTxt("b.txt");
    var y, z := "y.com", "z.com";
    assert y + "\n" + z == "y.com\nz.com";
    LoadTwoLines(y, z);
  }

  lemma MergeTwo(a: Entry, b: Entry, x: string, y: string, z: string)
    requires EntryDomains(a) == [x] && EntryDomains(b) == [y, z]
    ensures MergeEntries([a, b]) == [x, y, z]
  {
    var parts := Map(EntryDomains, [a, b]);
    MapIndex(EntryDomains, [a, b]);
    assert |parts| == 2 && parts[0] == [x] && parts[1] == [y, z];
    var tail := parts[1..];
    FlattenUnfold(parts);
    FlattenUnfold(tail);
    assert tail[0] == [y, z] && tail[1..] == [];
  }

  lemma LoadTwoLines(x: string, y: string)
    requires x != [] && forall i :: 0 <= i < |x| ==> '!' <= x[i] <= '~'
    requires y != [] && forall i :: 0 <= i < |y| ==> '!' <= y[i] <= '~'
    ensures LoadLines(x + "\n" + y) == [x, y]
  {
    assert NoBreak(UniversalNewlines, x) && IsStripped(x);
    assert NoBreak(UniversalNewlines, y) && IsStripped(y);
    assert Join([x, y]) == x + "\n" + y;
    SaveLoadRoundTrip([x, y]);
  }
}
