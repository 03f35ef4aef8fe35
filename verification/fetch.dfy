/** `fetch_wayback_urls`: one query to the Wayback Machine CDX endpoint per
    domain, whose text body is split with `str.splitlines`. The HTTP session,
    with its retry policy and timeout, is an oracle: given the query it either
    raises a `RequestException` (None) or yields the final response. */
module Fetch {
  import opened Base
  import opened PyText

  /** The CDX search endpoint every query goes to. */
  const WaybackUrl: string := "https://web.archive.org/cdx/search/cdx"

  /** The query parameters sent with the GET request. */
  datatype Query = Query(url: string, collapse: string, output: string, fl: string)

  /** The part of a response the fetcher looks at. */
  datatype Response = Response(status: int, text: string)

  /** The whole HTTP exchange, retries included: None when the session raised. */
  type Archive = Query -> Option<Response>

  /** The parameters for every capture under any subdomain of `domain`, one
      line per distinct URL key, reporting only the original URL. */
  function ArchiveQuery(domain: string): (q: Query)
    ensures |q.url| == |domain| + 4
    ensures q.url[..2] == "*." && q.url[|q.url| - 2..] == "/*"
    ensures q.url[2..|q.url| - 2] == domain
    ensures q.collapse == "urlkey" && q.output == "text" && q.fl == "original"
  {
    Query("*." + domain + "/*", "urlkey", "text", "original")
  }

  /** Different domains never share a query, so every domain gets its own
      answer from the archive. */
  lemma ArchiveQueryInjective(a: string, b: string)
    requires ArchiveQuery(a) == ArchiveQuery(b)
    ensures a == b
  {
    var q := ArchiveQuery(a);
    assert a == q.url[2..|q.url| - 2];
  }

  /** `raise_for_status` raises for client (4xx) and server (5xx) errors only;
      a 1xx, 2xx or 3xx status, or anything outside 100-599, passes. */
  predicate IsHttpError(status: int)
  {
    400 <= status < 600
  }

  /** The exchange completed and `raise_for_status` let its status through. */
  predicate Answered(archive: Archive, domain: string)
  {
    var reply := archive(ArchiveQuery(domain));
    reply.Some? && !IsHttpError(reply.value.status)
  }

  /** `fetch_wayback_urls(domain)`: the lines of the body, or [] when the request
      raised or the status is an HTTP error. Lines are not stripped and blank
      lines are kept. */
  function FetchWaybackUrls(archive: Archive, domain: string): (r: seq<string>)
    ensures !Answered(archive, domain) ==> r == []
    ensures Answered(archive, domain) ==>
              (r == [] <==> archive(ArchiveQuery(domain)).value.text == []) &&
              Flatten(r) == DropBreaks(StrSplitlines, archive(ArchiveQuery(domain)).value.text)
    ensures forall i :: 0 <= i < |r| ==> NoBreak(StrSplitlines, r[i])
  {
    match archive(ArchiveQuery(domain))
    case None => []
    case Some(response) =>
      if IsHttpError(response.status) then [] else Split(StrSplitlines, response.text)
  }

  /** A body with every line terminated by "\n" comes back line by line, empty
      lines included. */
  lemma FetchTerminatedBody(archive: Archive, domain: string, status: int, lines: seq<string>)
    requires archive(ArchiveQuery(domain)) == Some(Response(status, Terminated(lines)))
    requires !IsHttpError(status)
    requires forall i :: 0 <= i < |lines| ==> NoBreak(StrSplitlines, lines[i])
    ensures FetchWaybackUrls(archive, domain) == lines
  {
    SplitTerminated(StrSplitlines, lines);
  }

  /** The body "a\nb\n\n" yields three lines, the last one empty. */
  lemma FetchKeepsBlankLine(archive: Archive, domain: string)
    requires archive(ArchiveQuery(domain)) == Some(Response(200, "a\nb\n\n"))
    ensures FetchWaybackUrls(archive, domain) == ["a", "b", ""]
  {
    var lines := ["a", "b", ""];
    assert Terminated(lines) == "a\nb\n\n" by {
      assert Terminated(lines[2..]) == "\n";
      assert lines[1..][1..] == lines[2..];
    }
    assert NoBreak(StrSplitlines, lines[0]) && NoBreak(StrSplitlines, lines[1]);
    FetchTerminatedBody(archive, domain, 200, lines);
  }
}
