/** The export run of `main`: every discovered page is fetched as Markdown,
    retried once after a pause when the answer is not 200, and appended to
    the output buffer with a heading; a summary follows. The network is an
    input: for each page, the answer to the first request and the answer the
    repeated request would get. */
module Export {
  import opened Navigation
  import opened Progress

  datatype Option<T> = None | Some(value: T)

  /** The site root. */
  const Site: string := "https://docs.agno.com/"

  const StatusOk: int := 200

  /** One HTTP answer: its status code and its body text. */
  datatype Response = Response(status: int, text: string)

  /** The answers for one page: to the first request, and to the request
      repeated after the 30-second pause (read only when the first answer is
      not 200). */
  datatype Exchange = Exchange(first: Response, retry: Response)

  /** A request the loop issues: the page's position in the page list and
      the URL. */
  datatype Request = Request(index: nat, url: string)

  // ---------------------------------------------------------------------
  // URLs
  // ---------------------------------------------------------------------

  /** The URL as the script builds it, `f"{SITE}/{page}.md"`: SITE already
      ends in a slash, so the path starts with an empty segment. */
  function PageUrlAsWritten(page: string): string
  {
    Site + "/" + page + ".md"
  }

  /** The document URL `<site root>/<page path>.md`, with one slash between
      the host and the page path. */
  function PageUrl(page: string): string
  {
    Site + page + ".md"
  }

  /** The URL the script requests has a doubled slash after the host. */
  lemma DoubledSlashAsWritten(page: string)
    ensures PageUrlAsWritten(page) == "https://docs.agno.com//" + page + ".md"
    ensures PageUrlAsWritten(page) != PageUrl(page)
  {
    assert |PageUrlAsWritten(page)| == |PageUrl(page)| + 1;
  }

  /** The intended URL is the site root, the page path and the suffix, with
      exactly one slash between host and path for a relative page path. */
  lemma PageUrlSingleSlash(page: string)
    requires |page| > 0 && page[0] != '/'
    ensures PageUrl(page) == "https://docs.agno.com/" + page + ".md"
    ensures PageUrl(page)[|Site| - 1] == '/' && PageUrl(page)[|Site|] == page[0]
  {
  }

  // ---------------------------------------------------------------------
  // One page: first attempt, then at most one retry
  // ---------------------------------------------------------------------

  /** The body a page contributes: the first answer's when it is 200, else
      the repeated request's when that is 200, else nothing. */
  function Fetched(x: Exchange): Option<string>
  {
    if x.first.status == StatusOk then Some(x.first.text)
    else if x.retry.status == StatusOk then Some(x.retry.text)
    else None
  }

  /** The requests issued for the page at position `i`: one, and a second
      one only when the first answer is not 200. */
  function PageRequests(i: nat, page: string, x: Exchange): seq<Request>
  {
    var r := Request(i, PageUrlAsWritten(page));
    if x.first.status == StatusOk then [r] else [r, r]
  }

  /** Heading, body and separator of one fetched page. */
  function Block(page: string, text: string): seq<string>
  {
    ["# " + page + "\n\n", text, "\n\n"]
  }

  function PageOutput(page: string, x: Exchange): seq<string>
  {
    match Fetched(x)
    case Some(text) => Block(page, text)
    case None => []
  }

  // ---------------------------------------------------------------------
  // The whole loop, as functions of the pages and the network
  // ---------------------------------------------------------------------

  /** The output buffer after the given pages: the blocks of the fetched
      pages in page order. */
  function Output(pages: seq<string>, net: seq<Exchange>): seq<string>
    requires |net| == |pages|
  {
    if pages == [] then []
    else Output(pages[..|pages| - 1], net[..|net| - 1]) + PageOutput(pages[|pages| - 1], net[|net| - 1])
  }

  /** The number of pages whose first or repeated request was answered 200. */
  function SuccessCount(net: seq<Exchange>): nat
  {
    if net == [] then 0
    else SuccessCount(net[..|net| - 1]) + (if Fetched(net[|net| - 1]).Some? then 1 else 0)
  }

  /** Every request issued, in order. */
  function Requests(pages: seq<string>, net: seq<Exchange>): seq<Request>
    requires |net| == |pages|
  {
    if pages == [] then []
    else Requests(pages[..|pages| - 1], net[..|net| - 1]) + PageRequests(|pages| - 1, pages[|pages| - 1], net[|net| - 1])
  }

  /** The positions a bar is drawn for: 1 to `total`, one after each page. */
  function ProgressShown(total: nat): seq<nat>
  {
    seq(total, i requires 0 <= i < total => i + 1)
  }

  /** What handling the page at position `idx` adds to each result. */
  lemma LoopStep(pages: seq<string>, net: seq<Exchange>, idx: nat)
    requires |net| == |pages| && idx < |pages|
    ensures Output(pages[..idx + 1], net[..idx + 1]) == Output(pages[..idx], net[..idx]) + PageOutput(pages[idx], net[idx])
    ensures SuccessCount(net[..idx + 1]) == SuccessCount(net[..idx]) + (if Fetched(net[idx]).Some? then 1 else 0)
    ensures Requests(pages[..idx + 1], net[..idx + 1]) == Requests(pages[..idx], net[..idx]) + PageRequests(idx, pages[idx], net[idx])
    ensures ProgressShown(|pages|)[..idx + 1] == ProgressShown(|pages|)[..idx] + [idx + 1]
  {
    assert pages[..idx + 1][..idx] == pages[..idx] && net[..idx + 1][..idx] == net[..idx];
  }

  /** The loop of `main` over the discovered pages. `total` is fixed before
      the loop; each page is requested, requested once more when the answer
      is not 200 (after the throttling pause), skipped when that answer is
      not 200 either, and otherwise counted and appended to the buffer as
      heading, body and separator. After every page a bar is drawn for its
      1-based position. */
  method ExportPages(pages: seq<string>, network: seq<Exchange>)
    returns (successCount: nat, outputLines: seq<string>, requests: seq<Request>, shown: seq<nat>)
    requires |network| == |pages|
    ensures successCount == SuccessCount(network)
    ensures outputLines == Output(pages, network)
    ensures requests == Requests(pages, network)
    ensures shown == ProgressShown(|pages|)
  {
    var total := |pages|;
    successCount, outputLines, requests, shown := 0, [], [], [];
    var idx := 0;
    while idx < total
      invariant 0 <= idx <= total
      invariant successCount == SuccessCount(network[..idx])
      invariant outputLines == Output(pages[..idx], network[..idx])
      invariant requests == Requests(pages[..idx], network[..idx])
      invariant shown == ProgressShown(total)[..idx]
    {
      LoopStep(pages, network, idx);
      ghost var linesBefore, requestsBefore := outputLines, requests;
      var page := pages[idx];
      var url := PageUrlAsWritten(page);
      var r := network[idx].first;
      requests := requests + [Request(idx, url)];
      if r.status != StatusOk {
        // throttling pause, then the same request once more
        r := network[idx].retry;
        requests := requests + [Request(idx, url)];
        assert requests == requestsBefore + PageRequests(idx, page, network[idx]);
        if r.status != StatusOk {
          assert PageOutput(page, network[idx]) == [];
          shown := shown + [idx + 1];  // show_progress(idx + 1, total)
          idx := idx + 1;
          continue;
        }
      }
      assert requests == requestsBefore + PageRequests(idx, page, network[idx]);
      assert Fetched(network[idx]) == Some(r.text);
      successCount := successCount + 1;
      outputLines := outputLines + ["# " + page + "\n\n"];
      outputLines := outputLines + [r.text];
      outputLines := outputLines + ["\n\n"];
      assert outputLines == linesBefore + Block(page, r.text);
      shown := shown + [idx + 1];  // show_progress(idx + 1, total)
      idx := idx + 1;
    }
    assert pages[..total] == pages && network[..total] == network;
  }

  // ---------------------------------------------------------------------
  // Summary and the whole run
  // ---------------------------------------------------------------------

  /** `success_pct = (success_count / total) * 100`, on exact rationals;
      `None` is the ZeroDivisionError raised when no page was found. */
  function SuccessPercent(successCount: nat, total: nat): Option<real>
  {
    if total == 0 then None else Some((successCount as real / total as real) * 100.0)
  }

  /** How a run ends. */
  datatype RunOutcome =
    | ExtractionFailed                     // a TypeError escaped extract_pages: nothing fetched, no file
    | SummaryFailed(written: seq<string>)  // the file was written, then the summary divided by zero
    | Completed(written: seq<string>, successCount: nat, total: nat, percent: real)

  /** `main` from the decoded navigation object on: extract the page paths,
      run the loop, write the buffer to the output file, compute the summary.
      `network` holds the answers for the extracted pages, in order. */
  method Run(navigation: Node, network: seq<Exchange>) returns (outcome: RunOutcome)
    requires ExtractPages(navigation).Paths? ==> |network| == |ExtractPages(navigation).paths|
    ensures outcome.ExtractionFailed? <==> ExtractPages(navigation).NotIterable?
    ensures outcome.SummaryFailed? <==> ExtractPages(navigation) == Paths([])
    ensures outcome.SummaryFailed? ==> outcome.written == []
    ensures outcome.Completed? ==>
              var pages := ExtractPages(navigation).paths;
              && outcome.written == Output(pages, network)
              && outcome.successCount == SuccessCount(network)
              && outcome.total == |pages|
              && SuccessPercent(outcome.successCount, outcome.total) == Some(outcome.percent)
  {
    var walk := ExtractPages(navigation);
    if walk.NotIterable? {
      return ExtractionFailed;
    }
    var pages := walk.paths;
    var total := |pages|;
    var successCount, outputLines, requests, shown := ExportPages(pages, network);
    // the output file receives outputLines here
    var percent := SuccessPercent(successCount, total);
    if percent.None? {
      return SummaryFailed(outputLines);
    }
    return Completed(outputLines, successCount, total, percent.value);
  }

  // ---------------------------------------------------------------------
  // Properties of the loop
  // ---------------------------------------------------------------------

  /** The buffer holds exactly three fragments per fetched page. */
  lemma {:induction false} OutputThreePerSuccess(pages: seq<string>, net: seq<Exchange>)
    requires |net| == |pages|
    ensures |Output(pages, net)| == 3 * SuccessCount(net)
    decreases |pages|
  {
    if pages != [] {
      OutputThreePerSuccess(pages[..|pages| - 1], net[..|net| - 1]);
    }
  }

  /** `0 <= success_count <= total`. */
  lemma {:induction false} SuccessCountBounded(net: seq<Exchange>)
    ensures SuccessCount(net) <= |net|
    decreases |net|
  {
    if net != [] {
      SuccessCountBounded(net[..|net| - 1]);
    }
  }

  /** Every page is fetched exactly when every page gets a 200 within two
      attempts; none is when every page fails both. */
  lemma {:induction false} SuccessCountExtremes(net: seq<Exchange>)
    ensures SuccessCount(net) == |net| <==> forall i | 0 <= i < |net| :: Fetched(net[i]).Some?
    ensures SuccessCount(net) == 0 <==> forall i | 0 <= i < |net| :: Fetched(net[i]).None?
    decreases |net|
  {
    if net != [] {
      var pre := net[..|net| - 1];
      SuccessCountExtremes(pre);
      SuccessCountBounded(pre);
      assert forall i | 0 <= i < |pre| :: pre[i] == net[i];
    }
  }

  /** The buffer of consecutive runs of pages is the concatenation of their
      buffers. */
  lemma {:induction false} OutputAppend(p1: seq<string>, n1: seq<Exchange>, p2: seq<string>, n2: seq<Exchange>)
    requires |n1| == |p1| && |n2| == |p2|
    ensures Output(p1 + p2, n1 + n2) == Output(p1, n1) + Output(p2, n2)
    decreases |p2|
  {
    if p2 == [] {
      assert p1 + p2 == p1 && n1 + n2 == n1;
    } else {
      var m := |p2| - 1;
      assert (p1 + p2)[..|p1 + p2| - 1] == p1 + p2[..m];
      assert (n1 + n2)[..|n1 + n2| - 1] == n1 + n2[..m];
      OutputAppend(p1, n1, p2[..m], n2[..m]);
    }
  }

  /** A page that fails both attempts contributes nothing, and the pages
      after it are still exported. */
  lemma FailedPageSkipped(p1: seq<string>, n1: seq<Exchange>, page: string, x: Exchange, p2: seq<string>, n2: seq<Exchange>)
    requires |n1| == |p1| && |n2| == |p2|
    requires x.first.status != StatusOk && x.retry.status != StatusOk
    ensures Output(p1 + [page] + p2, n1 + [x] + n2) == Output(p1, n1) + Output(p2, n2)
  {
    var pp, nn := p1 + [page], n1 + [x];
    OutputAppend(pp, nn, p2, n2);
    OutputAppend(p1, n1, [page], [x]);
    assert [page][..0] == [] && [x][..0] == [];
    assert PageOutput(page, x) == [];
    assert Output([page], [x]) == [];
    assert Output(pp, nn) == Output(p1, n1);
  }

  /** The block of a fetched page sits right after the blocks of the pages
      fetched before it: heading, the text that was answered 200, separator. */
  lemma BlockPosition(pages: seq<string>, net: seq<Exchange>, i: nat)
    requires |net| == |pages| && i < |pages| && Fetched(net[i]).Some?
    ensures var at := 3 * SuccessCount(net[..i]);
            at + 3 <= |Output(pages, net)|
            && Output(pages, net)[at..at + 3] == Block(pages[i], Fetched(net[i]).value)
  {
    var at := 3 * SuccessCount(net[..i]);
    assert pages == pages[..i] + [pages[i]] + pages[i + 1..];
    assert net == net[..i] + [net[i]] + net[i + 1..];
    OutputAppend(pages[..i] + [pages[i]], net[..i] + [net[i]], pages[i + 1..], net[i + 1..]);
    OutputAppend(pages[..i], net[..i], [pages[i]], [net[i]]);
    OutputThreePerSuccess(pages[..i], net[..i]);
    assert Output([pages[i]], [net[i]]) == Block(pages[i], Fetched(net[i]).value);
  }

  /** How many requests in `log` are for the page at position `i`. */
  function TimesRequested(log: seq<Request>, i: nat): nat
  {
    if log == [] then 0
    else TimesRequested(log[..|log| - 1], i) + (if log[|log| - 1].index == i then 1 else 0)
  }

  lemma {:induction false} TimesRequestedAppend(a: seq<Request>, b: seq<Request>, i: nat)
    ensures TimesRequested(a + b, i) == TimesRequested(a, i) + TimesRequested(b, i)
    decreases |b|
  {
    if b == [] {
      assert a + b == a;
    } else {
      assert (a + b)[..|a + b| - 1] == a + b[..|b| - 1];
      TimesRequestedAppend(a, b[..|b| - 1], i);
    }
  }

  lemma TimesRequestedPage(m: nat, page: string, x: Exchange, i: nat)
    ensures TimesRequested(PageRequests(m, page, x), i)
            == if i != m then 0 else if x.first.status == StatusOk then 1 else 2
  {
    var r := Request(m, PageUrlAsWritten(page));
    assert [r][..0] == [] && [r, r][..1] == [r];
    assert TimesRequested([r], i) == if i == m then 1 else 0;
    assert TimesRequested([r, r], i) == TimesRequested([r], i) + (if i == m then 1 else 0);
  }

  /** Every page is requested once when the first answer is 200 and exactly
      twice otherwise: never more than twice, and a second time only after a
      first answer other than 200. */
  lemma {:induction false} RequestsPerPage(pages: seq<string>, net: seq<Exchange>)
    requires |net| == |pages|
    ensures forall i: nat :: TimesRequested(Requests(pages, net), i)
                             == if i >= |pages| then 0 else if net[i].first.status == StatusOk then 1 else 2
    decreases |pages|
  {
    if pages != [] {
      var m := |pages| - 1;
      var pre, npre := pages[..m], net[..m];
      RequestsPerPage(pre, npre);
      var last := PageRequests(m, pages[m], net[m]);
      forall i: nat
        ensures TimesRequested(Requests(pages, net), i)
                == if i >= |pages| then 0 else if net[i].first.status == StatusOk then 1 else 2
      {
        TimesRequestedAppend(Requests(pre, npre), last, i);
        TimesRequestedPage(m, pages[m], net[m], i);
        if i < m {
          assert npre[i] == net[i];
        }
      }
    }
  }

  /** Requests go out page by page, never returning to an earlier page, and
      each is for the URL of the page at its position. */
  lemma {:induction false} RequestsInOrder(pages: seq<string>, net: seq<Exchange>)
    requires |net| == |pages|
    ensures forall k | 0 <= k < |Requests(pages, net)| ::
              Requests(pages, net)[k].index < |pages|
              && Requests(pages, net)[k].url == PageUrlAsWritten(pages[Requests(pages, net)[k].index])
    ensures forall k, l | 0 <= k <= l < |Requests(pages, net)| ::
              Requests(pages, net)[k].index <= Requests(pages, net)[l].index
    decreases |pages|
  {
    if pages != [] {
      var m := |pages| - 1;
      var pre, npre := pages[..m], net[..m];
      RequestsInOrder(pre, npre);
      var a, b := Requests(pre, npre), PageRequests(m, pages[m], net[m]);
      assert Requests(pages, net) == a + b;
      forall k | 0 <= k < |a| ensures a[k].url == PageUrlAsWritten(pages[a[k].index]) {
        assert pre[a[k].index] == pages[a[k].index];
      }
    }
  }

  /** Every bar the loop draws is exactly the default width, the bars never
      move backward, and the last one is full. */
  lemma ProgressBarsWellFormed(total: nat)
    requires total > 0
    ensures forall k | 0 <= k < total :: |Bar(ProgressShown(total)[k], total, DefaultWidth)| == DefaultWidth
    ensures forall k, l | 0 <= k <= l < total ::
              Filled(ProgressShown(total)[k], total, DefaultWidth) <= Filled(ProgressShown(total)[l], total, DefaultWidth)
    ensures Filled(ProgressShown(total)[total - 1], total, DefaultWidth) == DefaultWidth
  {
    var shown := ProgressShown(total);
    forall k | 0 <= k < total ensures |Bar(shown[k], total, DefaultWidth)| == DefaultWidth {
      BarShape(shown[k], total, DefaultWidth);
    }
    forall k, l | 0 <= k <= l < total
      ensures Filled(shown[k], total, DefaultWidth) <= Filled(shown[l], total, DefaultWidth)
    {
      FilledMonotone(shown[k], shown[l], total, DefaultWidth);
    }
    FullAtEnd(total, DefaultWidth);
  }

  /** A success share is a percentage. */
  lemma PercentWithinRange(successCount: nat, total: nat)
    requires successCount <= total && total > 0
    ensures SuccessPercent(successCount, total).Some?
    ensures 0.0 <= SuccessPercent(successCount, total).value <= 100.0
  {
    var ratio := successCount as real / total as real;
    assert ratio * total as real == successCount as real;
    assert ratio <= 1.0;
  }

  /** Five pages of which the second and fourth fail both attempts: the
      buffer holds the blocks of pages 1, 3 and 5 in that order, and the
      summary reports 3 of 5, 60 per cent. */
  lemma TwoOfFiveFail(pages: seq<string>, net: seq<Exchange>)
    requires |pages| == 5 && |net| == 5
    requires Fetched(net[1]).None? && Fetched(net[3]).None?
    requires Fetched(net[0]).Some? && Fetched(net[2]).Some? && Fetched(net[4]).Some?
    ensures Output(pages, net) == Block(pages[0], Fetched(net[0]).value)
                                + Block(pages[2], Fetched(net[2]).value)
                                + Block(pages[4], Fetched(net[4]).value)
    ensures SuccessCount(net) == 3
    ensures SuccessPercent(SuccessCount(net), |pages|) == Some(60.0)
  {
    assert pages == [pages[0]] + [pages[1]] + [pages[2]] + [pages[3]] + [pages[4]];
    assert net == [net[0]] + [net[1]] + [net[2]] + [net[3]] + [net[4]];
    OutputAppend([pages[0]] + [pages[1]] + [pages[2]] + [pages[3]], [net[0]] + [net[1]] + [net[2]] + [net[3]], [pages[4]], [net[4]]);
    OutputAppend([pages[0]] + [pages[1]] + [pages[2]], [net[0]] + [net[1]] + [net[2]], [pages[3]], [net[3]]);
    OutputAppend([pages[0]] + [pages[1]], [net[0]] + [net[1]], [pages[2]], [net[2]]);
    OutputAppend([pages[0]], [net[0]], [pages[1]], [net[1]]);
    assert net[..4][..3] == net[..3] && net[..3][..2] == net[..2];
    assert net[..2][..1] == net[..1] && net[..1][..0] == [];
    assert SuccessCount(net[..1]) == 1;
    assert SuccessCount(net[..2]) == 1;
    assert SuccessCount(net[..3]) == 2;
    assert SuccessCount(net[..4]) == 2;
  }

  /** A page answered non-200 and then 200 is requested twice (one
      throttling pause) and its text appears in the buffer once. */
  lemma RetryRecovers(page: string, x: Exchange)
    requires x.first.status != StatusOk && x.retry.status == StatusOk
    ensures Requests([page], [x]) == [Request(0, PageUrlAsWritten(page)), Request(0, PageUrlAsWritten(page))]
    ensures Requests([page], [x])[0].url == "https://docs.agno.com//" + page + ".md"
    ensures Output([page], [x]) == ["# " + page + "\n\n", x.retry.text, "\n\n"]
    ensures SuccessCount([x]) == 1
  {
  }
}
