/** `validate_urls`: one HEAD request per URL, in order; a URL is kept when the
    request returns status 200 and dropped on any other status or when the
    request raises. The request is an oracle from URL to optional status. */
module Validate {
  import opened Base

  /** The HEAD request: None when it raised a `RequestException`. */
  type Probe = string -> Option<int>

  /** The only status that keeps a URL. */
  const Ok: int := 200

  /** Whether the probe keeps `url`. */
  predicate Alive(probe: Probe, url: string)
  {
    probe(url) == Some(Ok)
  }

  /** `Alive` as a value that `Filter` can take. */
  function Keep(probe: Probe): string -> bool
  {
    u => Alive(probe, u)
  }

  /** The result of validating `urls`, as a reference definition. */
  function Validated(probe: Probe, urls: seq<string>): (r: seq<string>)
    ensures forall u :: u in r <==> u in urls && probe(u) == Some(200)
    ensures IsSubsequence(r, urls)
  {
    Filter(urls, Keep(probe))
  }

  /** The loop of `validate_urls`. `probed` lists the URLs in the order their
      HEAD requests are sent. */
  method ValidateUrls(urls: seq<string>, probe: Probe) returns (valid: seq<string>, probed: seq<string>)
    ensures probed == urls
    ensures valid == Validated(probe, urls)
    ensures forall u :: u in valid <==> u in urls && probe(u) == Some(200)
  {
    valid := [];
    probed := [];
    var i := 0;
    while i < |urls|
      invariant 0 <= i <= |urls|
      invariant probed == urls[..i]
      invariant valid == Validated(probe, urls[..i])
    {
      var url := urls[i];
      var status := probe(url);
      probed := probed + [url];
      FilterSnoc(urls[..i], url, Keep(probe));
      assert urls[..i + 1] == urls[..i] + [url];
      if status == Some(Ok) {
        valid := valid + [url];
      }
      i := i + 1;
    }
    assert urls[..i] == urls;
  }

  /** Duplicates are kept: a live URL is kept as often as it was listed. */
  lemma ValidatedCounts(probe: Probe, urls: seq<string>)
    ensures forall u :: multiset(Validated(probe, urls))[u] == if probe(u) == Some(200) then multiset(urls)[u] else 0
  {
    FilterCounts(urls, Keep(probe));
  }

  /** Validating a concatenation is validating each part: batching the URLs of
      several domains into one call keeps the same URLs in the same order. */
  lemma ValidatedConcat(probe: Probe, a: seq<string>, b: seq<string>)
    ensures Validated(probe, a + b) == Validated(probe, a) + Validated(probe, b)
  {
    FilterConcat(a, b, Keep(probe));
  }

  /** A second validation with the same answers drops nothing more. */
  lemma ValidatedIdempotent(probe: Probe, urls: seq<string>)
    ensures Validated(probe, Validated(probe, urls)) == Validated(probe, urls)
  {
    FilterIdempotent(urls, Keep(probe));
  }

  /** When every URL answers 200, every URL is kept, duplicates included. */
  lemma AllAliveKeepsAll(probe: Probe, urls: seq<string>)
    requires forall i :: 0 <= i < |urls| ==> probe(urls[i]) == Some(200)
    ensures Validated(probe, urls) == urls
  {
    FilterKeepsAll(urls, Keep(probe));
  }
}
