/** The file-type filter: `re.search(FILE_EXTENSIONS, url, re.IGNORECASE)`
    where the pattern is a literal dot followed by one of a fixed list of
    alternatives. The search is unanchored, so a URL passes when a dot
    followed by an extension occurs anywhere in it, not only at the end of its
    path: ".sh" also accepts ".shtml", ".md" also accepts ".md5", and a host
    such as "www.docs.example.com" passes on ".doc". */
module FileType {
  import opened Base

  /** The alternatives of the pattern, in the order the pattern lists them. */
  const Extensions: seq<string> := [
    "xls", "xml", "xlsx", "json", "pdf", "sql", "doc", "docx", "pptx", "txt",
    "zip", "tar.gz", "tgz", "bak", "7z", "rar", "log", "cache", "secret", "db",
    "backup", "yml", "gz", "config", "csv", "yaml", "md", "md5", "exe", "dll",
    "bin", "ini", "bat", "sh", "tar", "deb", "rpm", "iso", "img", "apk",
    "msi", "dmg", "tmp", "crt", "pem", "key", "pub", "asc"]

  /** The representative of a character's class under `re.IGNORECASE` for a
      `str` pattern, for the classes that contain an ASCII letter: the 52 ASCII
      letters plus the four non-ASCII letters Python's `re` documents as
      matching them (U+0130 and U+0131 match "i", U+017F matches "s", U+212A
      KELVIN SIGN matches "k"). Other characters are left unfolded, although
      `re.IGNORECASE` also pairs non-ASCII letters such as U+00C9 and U+00E9;
      for this pattern that is exact, because every character of the pattern
      is an ASCII lower-case letter, a digit or ".", and apart from the
      characters folded here none is case-equivalent to one of those. */
  function Fold(c: char): char
  {
    if 'A' <= c <= 'Z' then (c as int + 32) as char
    else if c == '\U{0130}' || c == '\U{0131}' then 'i'
    else if c == '\U{017F}' then 's'
    else if c == '\U{212A}' then 'k'
    else c
  }

  /** `s` begins with `ext`, comparing characters as `re.IGNORECASE` does. */
  predicate StartsWithIgnoringCase(ext: string, s: string)
  {
    ext == [] || (s != [] && Fold(ext[0]) == Fold(s[0]) && StartsWithIgnoringCase(ext[1..], s[1..]))
  }

  /** Some alternative of `exts` matches at the start of `s`. */
  predicate AnyExtensionAt(exts: seq<string>, s: string)
  {
    exts != [] && (StartsWithIgnoringCase(exts[0], s) || AnyExtensionAt(exts[1..], s))
  }

  /** The pattern matches starting at position `i` of `s`. */
  predicate MatchesAt(s: string, i: int)
  {
    0 <= i < |s| && s[i] == '.' && AnyExtensionAt(Extensions, s[i + 1..])
  }

  /** `re.search(FILE_EXTENSIONS, s, re.IGNORECASE)` is truthy: the pattern is
      tried at every position from the left. */
  predicate Matches(s: string)
    decreases |s|
  {
    s != [] && ((s[0] == '.' && AnyExtensionAt(Extensions, s[1..])) || Matches(s[1..]))
  }

  // ---------------------------------------------------------------------------
  // Declarative reading of the pattern

  /** The first |ext| characters of `s` equal `ext` ignoring case. */
  predicate PrefixIgnoringCase(ext: string, s: string)
  {
    |ext| <= |s| && forall k :: 0 <= k < |ext| ==> Fold(ext[k]) == Fold(s[k])
  }

  lemma {:induction false} StartsWithIsPrefix(ext: string, s: string)
    ensures StartsWithIgnoringCase(ext, s) <==> PrefixIgnoringCase(ext, s)
    decreases |ext|
  {
    if ext != [] && s != [] {
      StartsWithIsPrefix(ext[1..], s[1..]);
      if PrefixIgnoringCase(ext, s) {
        forall k | 0 <= k < |ext| - 1
          ensures Fold(ext[1..][k]) == Fold(s[1..][k])
        {
          assert Fold(ext[k + 1]) == Fold(s[k + 1]);
        }
      }
      if StartsWithIgnoringCase(ext, s) {
        forall k | 0 <= k < |ext|
          ensures Fold(ext[k]) == Fold(s[k])
        {
          if k > 0 {
            assert Fold(ext[1..][k - 1]) == Fold(s[1..][k - 1]);
          }
        }
      }
    }
  }

  lemma {:induction false} AnyExtensionAtIff(exts: seq<string>, s: string)
    ensures AnyExtensionAt(exts, s) <==> exists k :: 0 <= k < |exts| && PrefixIgnoringCase(exts[k], s)
    decreases |exts|
  {
    if exts != [] {
      StartsWithIsPrefix(exts[0], s);
      AnyExtensionAtIff(exts[1..], s);
      if exists k :: 0 <= k < |exts| && PrefixIgnoringCase(exts[k], s) {
        var k :| 0 <= k < |exts| && PrefixIgnoringCase(exts[k], s);
        if k > 0 {
          assert exts[1..][k - 1] == exts[k];
        }
      }
      if AnyExtensionAt(exts[1..], s) {
        var k :| 0 <= k < |exts[1..]| && PrefixIgnoringCase(exts[1..][k], s);
        assert exts[k + 1] == exts[1..][k];
      }
    }
  }

  /** The scan finds a match exactly when some position holds one. */
  lemma {:induction false} MatchesIffSomePosition(s: string)
    ensures Matches(s) <==> exists i :: MatchesAt(s, i)
    decreases |s|
  {
    if s != [] {
      MatchesIffSomePosition(s[1..]);
      if s[0] == '.' && AnyExtensionAt(Extensions, s[1..]) {
        assert MatchesAt(s, 0);
      }
      if Matches(s[1..]) {
        var i :| MatchesAt(s[1..], i);
        assert s[1..][i + 1..] == s[i + 2..];
        assert MatchesAt(s, i + 1);
      }
      if exists i :: MatchesAt(s, i) {
        var i :| MatchesAt(s, i);
        if i > 0 {
          assert s[i + 1..] == s[1..][i..];
          assert MatchesAt(s[1..], i - 1);
        } else {
          assert s[1..] == s[i + 1..];
        }
      }
    }
  }

  /** Position `i` of `s` holds a dot and extension `k` follows it, compared
      ignoring case. */
  predicate DotThenExtension(s: string, i: int, k: int)
  {
    0 <= i < |s| && s[i] == '.' && 0 <= k < |Extensions| && PrefixIgnoringCase(Extensions[k], s[i + 1..])
  }

  /** A URL passes the filter if and only if, at some index i, it holds a dot
      followed by one of the extensions, compared ignoring case; nothing ties
      the position to the end of the string. */
  lemma MatchesIff(s: string)
    ensures Matches(s) <==> exists i, k :: DotThenExtension(s, i, k)
  {
    if Matches(s) {
      var i, k := MatchWitness(Extensions, s);
      assert DotThenExtension(s, i, k);
    }
    if exists i, k :: DotThenExtension(s, i, k) {
      var i, k :| DotThenExtension(s, i, k);
      WitnessMatches(Extensions, s, i, k);
    }
  }

  // MatchWitness, WitnessMatches and MatchesAtIff name the list of
  // alternatives as a parameter equal to Extensions: this keeps the 48-entry
  // literal out of the quantifiers, which the verifier otherwise unfolds at
  // great cost.

  lemma MatchWitness(exts: seq<string>, s: string) returns (i: nat, k: nat)
    requires exts == Extensions && Matches(s)
    ensures i < |s| && s[i] == '.' && k < |exts| && PrefixIgnoringCase(exts[k], s[i + 1..])
  {
    MatchesIffSomePosition(s);
    i :| MatchesAt(s, i);
    MatchesAtIff(exts, s, i);
    k :| 0 <= k < |exts| && PrefixIgnoringCase(exts[k], s[i + 1..]);
  }

  lemma WitnessMatches(exts: seq<string>, s: string, i: nat, k: nat)
    requires exts == Extensions
    requires i < |s| && s[i] == '.' && k < |exts| && PrefixIgnoringCase(exts[k], s[i + 1..])
    ensures Matches(s)
  {
    MatchesAtIff(exts, s, i);
    MatchesIffSomePosition(s);
  }

  lemma MatchesAtIff(exts: seq<string>, s: string, i: int)
    requires exts == Extensions && 0 <= i < |s|
    ensures MatchesAt(s, i) <==>
            s[i] == '.' && exists k :: 0 <= k < |exts| && PrefixIgnoringCase(exts[k], s[i + 1..])
  {
    AnyExtensionAtIff(exts, s[i + 1..]);
  }

  // ---------------------------------------------------------------------------
  // re.search as a scan that reports where the match starts

  /** The leftmost position where the pattern matches, as `match.start()` of
      `re.search`, or None when the search fails. */
  method Search(s: string) returns (pos: Option<nat>)
    ensures pos.Some? ==> MatchesAt(s, pos.value) && forall j :: 0 <= j < pos.value ==> !MatchesAt(s, j)
    ensures pos.None? ==> forall j :: 0 <= j < |s| ==> !MatchesAt(s, j)
    ensures pos.Some? <==> Matches(s)
  {
    MatchesIffSomePosition(s);
    var i := 0;
    while i < |s|
      invariant 0 <= i <= |s|
      invariant forall j :: 0 <= j < i ==> !MatchesAt(s, j)
    {
      if s[i] == '.' && AnyExtensionAt(Extensions, s[i + 1..]) {
        return Some(i);
      }
      i := i + 1;
    }
    return None;
  }

  // ---------------------------------------------------------------------------
  // Properties of the pattern

  /** Strings that agree character by character up to case either both pass
      or both fail. */
  lemma {:induction false} MatchesIgnoresCase(s: string, t: string)
    requires |s| == |t| && forall i :: 0 <= i < |s| ==> Fold(s[i]) == Fold(t[i])
    ensures Matches(s) <==> Matches(t)
    decreases |s|
  {
    if s != [] {
      assert Fold(s[0]) == Fold(t[0]);
      assert s[0] == '.' <==> t[0] == '.';
      forall i | 0 <= i < |s| - 1
        ensures Fold(s[1..][i]) == Fold(t[1..][i])
      {
        assert s[1..][i] == s[i + 1] && t[1..][i] == t[i + 1];
      }
      AnyExtensionIgnoresCase(Extensions, s[1..], t[1..]);
      MatchesIgnoresCase(s[1..], t[1..]);
    }
  }

  lemma {:induction false} AnyExtensionIgnoresCase(exts: seq<string>, s: string, t: string)
    requires |s| == |t| && forall i :: 0 <= i < |s| ==> Fold(s[i]) == Fold(t[i])
    ensures AnyExtensionAt(exts, s) <==> AnyExtensionAt(exts, t)
    decreases |exts|
  {
    if exts != [] {
      StartsWithIsPrefix(exts[0], s);
      StartsWithIsPrefix(exts[0], t);
      AnyExtensionIgnoresCase(exts[1..], s, t);
    }
  }

  function ToLowerAscii(c: char): char
  {
    if 'A' <= c <= 'Z' then (c as int + 32) as char else c
  }

  function ToUpperAscii(c: char): char
  {
    if 'a' <= c <= 'z' then (c as int - 32) as char else c
  }

  /** Changing the case of the ASCII letters of a URL never changes whether it
      passes. */
  lemma CaseNeverChangesMembership(s: string)
    ensures Matches(Map(ToLowerAscii, s)) <==> Matches(s)
    ensures Matches(Map(ToUpperAscii, s)) <==> Matches(s)
  {
    MapIndex(ToLowerAscii, s);
    MapIndex(ToUpperAscii, s);
    MatchesIgnoresCase(Map(ToLowerAscii, s), s);
    MatchesIgnoresCase(Map(ToUpperAscii, s), s);
  }

  /** Without a dot there is nothing for the pattern to start on; in
      particular the empty lines `splitlines` can produce never pass. */
  lemma {:induction false} NoDotNeverMatches(s: string)
    requires forall i :: 0 <= i < |s| ==> s[i] != '.'
    ensures !Matches(s)
    decreases |s|
  {
    if s != [] {
      assert forall i :: 0 <= i < |s| - 1 ==> s[1..][i] == s[i + 1];
      NoDotNeverMatches(s[1..]);
    }
  }

  /** `s` holds a dot somewhere. */
  predicate HasDot(s: string)
  {
    exists j :: 0 <= j < |s| && s[j] == '.'
  }

  /** Every accepted string holds a dot. */
  lemma {:induction false} MatchHasDot(s: string)
    requires Matches(s)
    ensures HasDot(s)
    decreases |s|
  {
    if s[0] != '.' {
      MatchHasDot(s[1..]);
      var j :| 0 <= j < |s[1..]| && s[1..][j] == '.';
      assert s[j + 1] == '.';
    }
  }

  // ---------------------------------------------------------------------------
  // filter_urls_by_filetype

  /** `[url for url in urls if re.search(FILE_EXTENSIONS, url, re.IGNORECASE)]`. */
  function FilterByFileType(urls: seq<string>): (r: seq<string>)
    ensures |r| <= |urls|
    ensures forall x :: x in r <==> x in urls && Matches(x)
    ensures IsSubsequence(r, urls)
    ensures forall i :: 0 <= i < |r| ==> HasDot(r[i])
  {
    var r := Filter(urls, Matches);
    AcceptedHaveDots(r);
    r
  }

  lemma AcceptedHaveDots(r: seq<string>)
    requires forall x :: x in r ==> Matches(x)
    ensures forall i :: 0 <= i < |r| ==> HasDot(r[i])
  {
    forall i | 0 <= i < |r|
      ensures HasDot(r[i])
    {
      assert r[i] in r;
      MatchHasDot(r[i]);
    }
  }

  /** The filter keeps every matching URL as often as it occurs. */
  lemma FilterByFileTypeCounts(urls: seq<string>)
    ensures forall x :: multiset(FilterByFileType(urls))[x] == if Matches(x) then multiset(urls)[x] else 0
  {
    FilterCounts(urls, Matches);
  }

  /** Filtering an already filtered list changes nothing. */
  lemma FilterByFileTypeIdempotent(urls: seq<string>)
    ensures FilterByFileType(FilterByFileType(urls)) == FilterByFileType(urls)
  {
    FilterIdempotent(urls, Matches);
  }

  /** Filtering commutes with concatenation, so filtering per domain and
      concatenating equals filtering the concatenation. */
  lemma FilterByFileTypeConcat(a: seq<string>, b: seq<string>)
    ensures FilterByFileType(a + b) == FilterByFileType(a) + FilterByFileType(b)
  {
    FilterConcat(a, b, Matches);
  }
}
