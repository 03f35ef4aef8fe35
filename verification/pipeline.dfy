/** The two flows that end in "valid_urls.txt". `process_domains` fetches and
    filters every domain in order, validates the concatenation once, and
    saves it. `process_file_with_urls` loads URLs from a file, filters them,
    validates them and saves them; it is a no-op when the file does not exist. */
module Pipeline {
  import opened Base
  import opened PyText
  import opened Loader
  import opened FileType
  import opened Fetch
  import opened Validate

  /** The file-type matches among one domain's archived URLs. */
  function DomainCandidates(archive: Archive, domain: string): (r: seq<string>)
    ensures forall x :: x in r <==> Matches(x) && x in FetchWaybackUrls(archive, domain)
    ensures forall x :: x in r ==> HasDot(x) && NoBreak(StrSplitlines, x)
  {
    var r := FilterByFileType(FetchWaybackUrls(archive, domain));
    forall x | x in r
      ensures NoBreak(StrSplitlines, x)
    {
      var fetched := FetchWaybackUrls(archive, domain);
      var k :| 0 <= k < |fetched| && fetched[k] == x;
    }
    r
  }

  /** `DomainCandidates` for a fixed archive, as a value. */
  function PerDomain(archive: Archive): string -> seq<string>
  {
    d => DomainCandidates(archive, d)
  }

  /** `all_urls` after the loop of `process_domains`: each domain's matches,
      concatenated in domain order, duplicates across domains kept. */
  function Candidates(archive: Archive, domains: seq<string>): seq<string>
  {
    ConcatMap(PerDomain(archive), domains)
  }

  /** A URL reaches validation exactly when it passes the file-type filter and
      the archive listed it for one of the domains; every such URL holds a dot
      and no line break. */
  lemma CandidateMembers(archive: Archive, domains: seq<string>, x: string)
    ensures x in Candidates(archive, domains) <==>
            Matches(x) && exists i :: 0 <= i < |domains| && x in FetchWaybackUrls(archive, domains[i])
    ensures x in Candidates(archive, domains) ==> HasDot(x) && NoBreak(StrSplitlines, x)
  {
    var f := PerDomain(archive);
    ConcatMapMembers(f, domains, x);
    if exists i :: 0 <= i < |domains| && x in f(domains[i]) {
      var i :| 0 <= i < |domains| && x in f(domains[i]);
      assert x in DomainCandidates(archive, domains[i]);
    }
    if Matches(x) && exists i :: 0 <= i < |domains| && x in FetchWaybackUrls(archive, domains[i]) {
      var i :| 0 <= i < |domains| && x in FetchWaybackUrls(archive, domains[i]);
      assert x in f(domains[i]);
    }
  }

  /** The domain list can be cut anywhere: the candidates of the whole list are
      those of the first part followed by those of the second. */
  lemma CandidatesConcat(archive: Archive, a: seq<string>, b: seq<string>)
    ensures Candidates(archive, a + b) == Candidates(archive, a) + Candidates(archive, b)
  {
    ConcatMapConcat(PerDomain(archive), a, b);
  }

  /** One more domain appends its matches at the end. */
  lemma CandidatesSnoc(archive: Archive, domains: seq<string>, d: string)
    ensures Candidates(archive, domains + [d]) == Candidates(archive, domains) + DomainCandidates(archive, d)
  {
    ConcatMapSnoc(PerDomain(archive), domains, d);
  }

  /** A domain whose request raised, or whose status was an HTTP error,
      contributes nothing and does not stop the domains after it. */
  lemma FailedFetchContributesNothing(archive: Archive, a: seq<string>, d: string, b: seq<string>)
    requires !Answered(archive, d)
    ensures Candidates(archive, a + [d] + b) == Candidates(archive, a) + Candidates(archive, b)
  {
    assert FetchWaybackUrls(archive, d) == [];
    assert DomainCandidates(archive, d) == [];
    CandidatesConcat(archive, a + [d], b);
    CandidatesSnoc(archive, a, d);
  }

  /** Listing the same domains twice doubles the work and the results: nothing
      removes duplicates. */
  lemma RepeatedDomainsRepeatResults(archive: Archive, probe: Probe, domains: seq<string>)
    ensures Validated(probe, Candidates(archive, domains + domains)) ==
            Validated(probe, Candidates(archive, domains)) + Validated(probe, Candidates(archive, domains))
  {
    CandidatesConcat(archive, domains, domains);
    ValidatedConcat(probe, Candidates(archive, domains), Candidates(archive, domains));
  }

  /** Validating each domain's matches on its own, concatenated in domain
      order: a reference for the single batched validation. */
  function PerDomainValidated(archive: Archive, probe: Probe, domains: seq<string>): seq<string>
  {
    if domains == [] then []
    else Validated(probe, DomainCandidates(archive, domains[0])) + PerDomainValidated(archive, probe, domains[1..])
  }

  /** Validating once over the concatenation gives the same list as validating
      each domain's matches on its own and concatenating. */
  lemma {:induction false} BatchEqualsPerDomain(archive: Archive, probe: Probe, domains: seq<string>)
    ensures Validated(probe, Candidates(archive, domains)) == PerDomainValidated(archive, probe, domains)
  {
    if domains != [] {
      BatchEqualsPerDomain(archive, probe, domains[1..]);
      ValidatedConcat(probe, DomainCandidates(archive, domains[0]), Candidates(archive, domains[1..]));
    }
  }

  /** Splitting on the larger set of breaks leaves no universal newline. */
  lemma NoSplitlinesBreakMeansNoNewline(s: string)
    requires NoBreak(StrSplitlines, s)
    ensures NoBreak(UniversalNewlines, s)
  {
    forall i | 0 <= i < |s|
      ensures !IsBreak(UniversalNewlines, s[i])
    {
      assert !IsBreak(StrSplitlines, s[i]);
    }
  }

  /** `process_domains(domains)`. `probed` is the list the single call to
      `validate_urls` receives and `saved` is what is written to
      "valid_urls.txt". */
  method ProcessDomains(domains: seq<string>, archive: Archive, probe: Probe)
    returns (valid: seq<string>, probed: seq<string>, saved: string)
    ensures probed == Candidates(archive, domains)
    ensures valid == Validated(probe, probed)
    ensures forall u :: u in valid <==>
              probe(u) == Some(200) && Matches(u) &&
              exists i :: 0 <= i < |domains| && u in FetchWaybackUrls(archive, domains[i])
    ensures saved == Join(valid)
    ensures LoadLines(saved) == StripNonBlank(valid)
  {
    var allUrls := CollectCandidates(domains, archive);
    valid, probed := ValidateUrls(allUrls, probe);
    saved := SaveToFile(valid);
    ValidDomainUrls(archive, probe, domains);
  }

  /** The loop of `process_domains`: fetch and filter each domain in turn and
      append its matches to `all_urls`. */
  method CollectCandidates(domains: seq<string>, archive: Archive) returns (allUrls: seq<string>)
    ensures allUrls == Candidates(archive, domains)
  {
    allUrls := [];
    var i := 0;
    while i < |domains|
      invariant 0 <= i <= |domains|
      invariant allUrls == Candidates(archive, domains[..i])
    {
      var urls := FetchWaybackUrls(archive, domains[i]);
      var filtered := FilterByFileType(urls);
      CandidatesStep(archive, domains, i);
      allUrls := allUrls + filtered;
      i := i + 1;
    }
    assert domains[..i] == domains;
  }

  lemma CandidatesStep(archive: Archive, domains: seq<string>, i: nat)
    requires i < |domains|
    ensures Candidates(archive, domains[..i + 1]) ==
            Candidates(archive, domains[..i]) + FilterByFileType(FetchWaybackUrls(archive, domains[i]))
  {
    var prefix, d := domains[..i], domains[i];
    calc {
      Candidates(archive, domains[..i + 1]);
      { assert domains[..i + 1] == prefix + [d]; }
      Candidates(archive, prefix + [d]);
      { CandidatesSnoc(archive, prefix, d); }
      Candidates(archive, prefix) + DomainCandidates(archive, d);
    }
  }

  /** What the validated candidates are, and that the saved file reads back as
      those URLs, each stripped: none of them holds a line break. */
  lemma ValidDomainUrls(archive: Archive, probe: Probe, domains: seq<string>)
    ensures forall u :: u in Validated(probe, Candidates(archive, domains)) <==>
              probe(u) == Some(200) && Matches(u) &&
              exists i :: 0 <= i < |domains| && u in FetchWaybackUrls(archive, domains[i])
    ensures LoadLines(Join(Validated(probe, Candidates(archive, domains)))) ==
            StripNonBlank(Validated(probe, Candidates(archive, domains)))
  {
    var valid := Validated(probe, Candidates(archive, domains));
    forall u
      ensures u in valid <==>
              probe(u) == Some(200) && Matches(u) &&
              exists i :: 0 <= i < |domains| && u in FetchWaybackUrls(archive, domains[i])
      ensures u in valid ==> NoBreak(UniversalNewlines, u)
    {
      CandidateMembers(archive, domains, u);
      if u in valid {
        NoSplitlinesBreakMeansNoNewline(u);
      }
    }
    forall k | 0 <= k < |valid|
      ensures NoBreak(UniversalNewlines, valid[k])
    {
      assert valid[k] in valid;
    }
    SavedTextReadsBack(valid);
  }

  /** `save_to_file(data, filename)`: the text written to the file. */
  function SaveToFile(data: seq<string>): (text: string)
    ensures (forall i :: 0 <= i < |data| ==> NoBreak(UniversalNewlines, data[i])) ==>
              LoadLines(text) == StripNonBlank(data)
  {
    SavedTextReadsBack(data);
    Join(data)
  }

  lemma SavedTextReadsBack(data: seq<string>)
    ensures (forall i :: 0 <= i < |data| ==> NoBreak(UniversalNewlines, data[i])) ==>
              LoadLines(Join(data)) == StripNonBlank(data)
  {
    if forall i :: 0 <= i < |data| ==> NoBreak(UniversalNewlines, data[i]) {
      SaveThenLoad(data);
    }
  }

  /** The saved file does not always read back as the list that was saved: an
      archived line with a leading space is validated and written as it is, and
      the loader strips it. */
  lemma SavedUrlReadsBackStripped()
    ensures SaveToFile([" https://example.com/a.pdf"]) == " https://example.com/a.pdf"
    ensures LoadLines(SaveToFile([" https://example.com/a.pdf"])) == ["https://example.com/a.pdf"]
  {
    var x := "https://example.com/a.pdf";
    assert [' '] + x == " https://example.com/a.pdf";
    SpacedLineReadsBack(x);
  }

  /** A saved line with one leading space reads back without it. */
  lemma SpacedLineReadsBack(x: string)
    requires x != [] && !IsSpace(x[0]) && !IsSpace(x[|x| - 1]) && NoBreak(UniversalNewlines, x)
    ensures LoadLines(SaveToFile([[' '] + x])) == [x]
  {
    var u := [' '] + x;
    StripOneLeadingSpace(x);
    assert NoBreak(UniversalNewlines, u) by {
      forall i | 0 <= i < |u|
        ensures !IsBreak(UniversalNewlines, u[i])
      {
        if i > 0 {
          assert u[i] == x[i - 1];
        }
      }
    }
    SavedTextReadsBack([u]);
    assert [u][1..] == [];
  }

  lemma StripOneLeadingSpace(x: string)
    requires x != [] && !IsSpace(x[0]) && !IsSpace(x[|x| - 1])
    ensures Strip([' '] + x) == x
  {
    assert ([' '] + x)[1..] == x;
    assert TrimStart([' '] + x) == TrimStart(x) == x;
    assert TrimEnd(x) == x;
  }

  /** The outcome of `process_file_with_urls`: nothing happens when the file is
      missing; otherwise the URLs it loaded, the valid ones and the text saved. */
  datatype UrlFileRun =
    | NotFound
    | Processed(loaded: seq<string>, valid: seq<string>, saved: string)

  /** `process_file_with_urls(file_path)`, with the file given as its content,
      or None when opening it raises `FileNotFoundError`. */
  method ProcessFileWithUrls(file: Option<string>, probe: Probe) returns (run: UrlFileRun)
    ensures file.None? <==> run.NotFound?
    ensures file.Some? ==> run.loaded == LoadLines(file.value)
    ensures file.Some? ==> run.valid == Validated(probe, FilterByFileType(run.loaded))
    ensures file.Some? ==> forall u :: u in run.valid <==>
              probe(u) == Some(200) && Matches(u) && u in LoadLines(file.value)
    ensures file.Some? ==> run.saved == Join(run.valid)
    ensures file.Some? ==> LoadLines(run.saved) == run.valid
  {
    match file
    case None =>
      run := NotFound;
    case Some(content) =>
      var urls := LoadLines(content);
      var filtered := FilterByFileType(urls);
      var valid, _ := ValidateUrls(filtered, probe);
      forall k | 0 <= k < |valid|
        ensures valid[k] != [] && IsStripped(valid[k]) && NoBreak(UniversalNewlines, valid[k])
      {
        assert valid[k] in valid;
        var j :| 0 <= j < |urls| && urls[j] == valid[k];
      }
      var saved := SaveToFile(valid);
      SaveLoadRoundTrip(valid);
      run := Processed(urls, valid, saved);
  }
}
