/**
 * Paginated extraction (`extract_data`). The HTTP side is a scripted sequence
 * of responses: the k-th request the loop makes receives the k-th response,
 * whatever its URL, and the URLs the loop asks for are recorded so that the
 * cursor it follows can be stated.
 */
module Extraction {
  import opened Wrappers
  import PyStr

  const BASE_URL := "https://api.fda.gov/drug/event.json"
  const SEARCH_QUERY := "receivedate:[20200101 TO 20231231] AND occurcountry:\"US\" AND _missing_:companynumb"
  const START_URL := BASE_URL + "?search=" + SEARCH_QUERY + "&limit=1000"
  /** The record target the script uses; the model takes the target as a parameter. */
  const TOTAL_RECORDS := 79250

  /** The marker a `Link` header segment must contain to name the next page. */
  const REL_NEXT := "rel=\"next\""

  /**
   * One HTTP response: whether its status passed `raise_for_status`, the
   * body's `results` array if that key is present, and the `Link` header if
   * present.
   */
  datatype Response<T> = Response(ok: bool, results: Option<seq<T>>, link: Option<string>)

  datatype Outcome<T> =
    | Extracted(records: seq<T>, requested: seq<string>)
      /** `raise_for_status` raised on the response to this URL. */
    | HttpFailure(url: string)
      /** The scripted responses ran out while the loop still wanted another page. */
    | OutOfResponses(records: seq<T>, requested: seq<string>)

  // ---------------------------------------------------------------------------
  // The `Link` header parse

  /** Index of the first segment containing `rel="next"`, if any. */
  function FirstNextIndex(segments: seq<string>): (i: Option<nat>)
    ensures i.Some? ==> i.value < |segments| && PyStr.Contains(segments[i.value], REL_NEXT)
    ensures i.Some? ==> forall j :: 0 <= j < i.value ==> !PyStr.Contains(segments[j], REL_NEXT)
    ensures i.None? ==> forall j :: 0 <= j < |segments| ==> !PyStr.Contains(segments[j], REL_NEXT)
  {
    if segments == [] then None
    else if PyStr.Contains(segments[0], REL_NEXT) then Some(0)
    else
      match FirstNextIndex(segments[1..])
      case None => None
      case Some(k) => Some(k + 1)
  }

  /** `link.split(';')[0].strip('<>')`: the text before the first `;`, without `<` or `>` at either end. */
  function LinkTarget(segment: string): string
  {
    PyStr.StripChars(PyStr.Split(segment, ';')[0], {'<', '>'})
  }

  /**
   * The next-page URL the loop takes from a `Link` header: the target of the
   * first comma-separated segment that contains `rel="next"`, or nothing when
   * no segment does. Quoting is ignored.
   */
  function NextLink(header: string): Option<string>
  {
    var segments := PyStr.Split(header, ',');
    match FirstNextIndex(segments)
    case None => None
    case Some(i) => Some(LinkTarget(segments[i]))
  }

  /** `if next_url:` in Python: a link is followed only when found and non-empty. */
  predicate Usable(next: Option<string>)
  {
    next.Some? && next.value != ""
  }

  /** `NextLink` finds nothing exactly when no segment of the header contains `rel="next"`. */
  lemma NextLinkNone(header: string)
    ensures NextLink(header).None? <==> NoNextSegment(PyStr.Split(header, ','))
  {
    var segments := PyStr.Split(header, ',');
    var f := FirstNextIndex(segments);
    assert NextLink(header).None? <==> f.None?;
    if f.Some? {
      assert PyStr.Contains(segments[f.value], REL_NEXT);
    }
  }

  predicate NoNextSegment(segments: seq<string>)
  {
    forall i :: 0 <= i < |segments| ==> !PyStr.Contains(segments[i], REL_NEXT)
  }

  /** When segment `i` is the first to contain `rel="next"`, `NextLink` takes its target. */
  lemma NextLinkIsFirstMatch(header: string, i: nat)
    requires i < |PyStr.Split(header, ',')|
    requires PyStr.Contains(PyStr.Split(header, ',')[i], REL_NEXT)
    requires forall j :: 0 <= j < i ==> !PyStr.Contains(PyStr.Split(header, ',')[j], REL_NEXT)
    ensures NextLink(header) == Some(LinkTarget(PyStr.Split(header, ',')[i]))
  {
    var segments := PyStr.Split(header, ',');
    var f := FirstNextIndex(segments);
    assert f.Some?;
    assert !(f.value < i) && !(i < f.value);
  }

  /** `<u>`: a URL reference as a `Link` header writes it. */
  function Bracketed(u: string): string
  {
    "<" + u + ">"
  }

  /** A URL that a `Link` header can carry in angle brackets and that `split(',')` and `split(';')` leave whole. */
  predicate PlainUrl(u: string)
  {
    ',' !in u && ';' !in u && (u == [] || (u[0] !in {'<', '>'} && u[|u| - 1] !in {'<', '>'}))
  }

  lemma StripBracketed(u: string)
    requires PlainUrl(u)
    ensures PyStr.StripChars(Bracketed(u), {'<', '>'}) == u
  {
    PyStr.StripCharsExact("<", u, ">", {'<', '>'});
  }

  /** The target of a segment is decided by the text before its first `;`. */
  lemma LinkTargetBeforeParams(p: string, params: string)
    requires ';' !in p
    ensures LinkTarget(p + ";" + params) == PyStr.StripChars(p, {'<', '>'})
  {
    PyStr.SplitAfterPart(p, ';', params);
  }

  /** The `Link` header the API sends when there is a next page: one link, `<u>; rel="next"`. */
  function SingleNextHeader(u: string): string
  {
    Bracketed(u) + ";" + " " + REL_NEXT
  }

  lemma SingleNextHeaderParts(u: string)
    requires ',' !in u
    ensures ',' !in SingleNextHeader(u)
    ensures PyStr.Contains(SingleNextHeader(u), REL_NEXT)
  {
    var header := SingleNextHeader(u);
    assert forall i :: 0 <= i < |header| ==> header[i] == ',' ==> i > 0 && i <= |u|;
    var n := |header| - |REL_NEXT|;
    assert header[n..n + |REL_NEXT|] == REL_NEXT;
    PyStr.ContainsAt(header, REL_NEXT, n);
  }

  /** A header holding a single `<u>; rel="next"` link yields `u`. */
  lemma NextLinkOfSingleLink(u: string)
    requires PlainUrl(u)
    ensures NextLink(SingleNextHeader(u)) == Some(u)
  {
    var header := SingleNextHeader(u);
    SingleNextHeaderParts(u);
    assert ';' !in Bracketed(u);
    LinkTargetBeforeParams(Bracketed(u), " " + REL_NEXT);
    assert Bracketed(u) + ";" + (" " + REL_NEXT) == header;
    StripBracketed(u);
    PyStr.SplitNoSep(header, ',');
    assert FirstNextIndex([header]) == Some(0);
  }

  // ---------------------------------------------------------------------------
  // The specification of the loop

  function ResultsOf<T>(p: Response<T>): seq<T>
  {
    if p.results.Some? then p.results.value else []
  }

  /**
   * Whether the loop goes on after a response, given how many records it had
   * before it: the status is good, `results` is present, a `Link` header with a
   * usable next link is present, and the target has not been reached.
   */
  predicate Continues<T>(p: Response<T>, before: nat, total: int)
  {
    p.ok && p.results.Some? && p.link.Some? && Usable(NextLink(p.link.value))
    && before + |p.results.value| < total
  }

  /** The `results` arrays of the first `k` responses, concatenated in arrival order. */
  function Accumulated<T>(pages: seq<Response<T>>, k: nat): seq<T>
    requires k <= |pages|
  {
    if k == 0 then [] else Accumulated(pages, k - 1) + ResultsOf(pages[k - 1])
  }

  predicate ContinuesAt<T>(pages: seq<Response<T>>, k: nat, total: int)
    requires k < |pages|
  {
    Continues(pages[k], |Accumulated(pages, k)|, total)
  }

  /** The first response, from `from` on, after which the loop does not go on (`|pages|` if there is none). */
  function FirstStop<T>(pages: seq<Response<T>>, total: int, from: nat): (n: nat)
    requires from <= |pages|
    ensures from <= n <= |pages|
    ensures forall k :: from <= k < n ==> ContinuesAt(pages, k, total)
    ensures n < |pages| ==> !ContinuesAt(pages, n, total)
    decreases |pages| - from
  {
    if from == |pages| || !ContinuesAt(pages, from, total) then from
    else FirstStop(pages, total, from + 1)
  }

  /** The URL of the k-th request: the start URL, then each response's next link. */
  function RequestUrl<T>(pages: seq<Response<T>>, start: string, k: nat): string
    requires k <= |pages|
  {
    if k == 0 then start
    else
      var p := pages[k - 1];
      if p.link.Some? && NextLink(p.link.value).Some? then NextLink(p.link.value).value else ""
  }

  function Requested<T>(pages: seq<Response<T>>, start: string, k: nat): seq<string>
    requires k <= |pages|
  {
    if k == 0 then [] else Requested(pages, start, k - 1) + [RequestUrl(pages, start, k - 1)]
  }

  /** What `extract_data` yields for a target and a scripted sequence of responses. */
  function Extract<T>(pages: seq<Response<T>>, total: int, start: string): Outcome<T>
  {
    if total <= 0 then Extracted([], [])
    else
      var n := FirstStop(pages, total, 0);
      if n == |pages| then OutOfResponses(Accumulated(pages, n), Requested(pages, start, n))
      else if !pages[n].ok then HttpFailure(RequestUrl(pages, start, n))
      else Extracted(Accumulated(pages, n + 1), Requested(pages, start, n + 1))
  }

  /** A response the loop does not go on from, reached with every earlier one going on, is the first stop. */
  lemma StopHere<T>(pages: seq<Response<T>>, total: int, i: nat)
    requires i <= FirstStop(pages, total, 0)
    requires i == |pages| || !ContinuesAt(pages, i, total)
    ensures FirstStop(pages, total, 0) == i
  {
  }

  lemma GoOn<T>(pages: seq<Response<T>>, total: int, i: nat)
    requires i < |pages| && i <= FirstStop(pages, total, 0)
    requires ContinuesAt(pages, i, total)
    ensures i + 1 <= FirstStop(pages, total, 0)
  {
  }

  // ---------------------------------------------------------------------------
  // The loop

  /**
   * The scan `extract_data` makes of a `Link` header: walk the comma-separated segments and take the
   * target of the first one that contains `rel="next"`.
   */
  method ScanLinkHeader(header: string) returns (nextUrl: Option<string>)
    ensures nextUrl == NextLink(header)
  {
    nextUrl := None;
    var segments := PyStr.Split(header, ',');
    for k := 0 to |segments|
      invariant forall j :: 0 <= j < k ==> !PyStr.Contains(segments[j], REL_NEXT)
      invariant nextUrl == None
    {
      if PyStr.Contains(segments[k], REL_NEXT) {
        nextUrl := Some(LinkTarget(segments[k]));
        assert FirstNextIndex(segments) == Some(k) by {
          var f := FirstNextIndex(segments);
          assert f.Some?;
          assert !(f.value < k) && !(k < f.value);
        }
        return;
      }
    }
  }

  /** Python's `s[:n]`. */
  function SlicePrefix<T>(s: seq<T>, n: int): seq<T>
  {
    if n >= |s| then s else if n >= 0 then s[..n] else if |s| + n >= 0 then s[..|s| + n] else []
  }

  /**
   * `extract_data` with the HTTP side replaced by `pages`: fetch, append the
   * `results`, follow the next link, stop on a missing `results` key, a
   * missing `Link` header, no usable next link, or the target reached.
   */
  method ExtractData<T>(pages: seq<Response<T>>, total: int, start: string) returns (out: Outcome<T>)
    ensures out == Extract(pages, total, start)
  {
    var allResults: seq<T> := [];
    var url := start;
    var requested: seq<string> := [];
    var i: nat := 0;
    while |allResults| < total
      invariant i <= FirstStop(pages, total, 0)
      invariant allResults == Accumulated(pages, i)
      invariant requested == Requested(pages, start, i)
      invariant url == RequestUrl(pages, start, i)
      invariant i > 0 ==> |allResults| < total
      decreases |pages| - i
    {
      if i == |pages| {
        StopHere(pages, total, i);
        return OutOfResponses(allResults, requested);
      }
      var response := pages[i];
      ghost var before := allResults;
      requested := requested + [url];
      if !response.ok {
        StopHere(pages, total, i);
        return HttpFailure(url);
      }
      if response.results.Some? {
        allResults := allResults + response.results.value;
      } else {
        StopHere(pages, total, i);
        break;
      }
      assert allResults == Accumulated(pages, i + 1);
      if response.link.Some? {
        var nextUrl := ScanLinkHeader(response.link.value);
        if nextUrl.Some? && nextUrl.value != "" {
          url := nextUrl.value;
        } else {
          StopHere(pages, total, i);
            break;
        }
      } else {
        StopHere(pages, total, i);
        break;
      }
      if |allResults| >= total {
        StopHere(pages, total, i);
        break;
      }
      GoOn(pages, total, i);
      // The trim the script performs here never shortens: the loop only gets here below the target.
      allResults := SlicePrefix(allResults, total);
      i := i + 1;
    }
    out := Extracted(allResults, requested);
  }

  /** `extract_data()` as the script runs it: the fixed search URL and the fixed record target. */
  method ExtractScripted<T>(pages: seq<Response<T>>) returns (out: Outcome<T>)
    ensures out == Extract(pages, TOTAL_RECORDS, START_URL)
  {
    out := ExtractData(pages, TOTAL_RECORDS, START_URL);
  }

  // ---------------------------------------------------------------------------
  // What the loop's result is

  lemma {:induction false} RequestedAt<T>(pages: seq<Response<T>>, start: string, k: nat)
    requires k <= |pages|
    ensures |Requested(pages, start, k)| == k
    ensures forall j :: 0 <= j < k ==> Requested(pages, start, k)[j] == RequestUrl(pages, start, j)
  {
    if k > 0 {
      RequestedAt(pages, start, k - 1);
    }
  }

  /**
   * Each response's `results` occupy their own block of the accumulated
   * records, in arrival order: the k-th block is exactly the k-th response's
   * array, and nothing else is in the output.
   */
  lemma {:induction false} AccumulatedBlocks<T>(pages: seq<Response<T>>, n: nat, k: nat)
    requires k < n <= |pages|
    ensures |Accumulated(pages, k)| <= |Accumulated(pages, k + 1)| <= |Accumulated(pages, n)|
    ensures Accumulated(pages, n)[|Accumulated(pages, k)|..|Accumulated(pages, k + 1)|] == ResultsOf(pages[k])
    ensures Accumulated(pages, n)[..|Accumulated(pages, k + 1)|] == Accumulated(pages, k + 1)
    decreases n
  {
    var ak := Accumulated(pages, k);
    var ak1 := Accumulated(pages, k + 1);
    assert ak1 == ak + ResultsOf(pages[k]);
    if n == k + 1 {
      assert ak1[|ak|..|ak1|] == ResultsOf(pages[k]);
      assert ak1[..|ak1|] == ak1;
    } else {
      AccumulatedBlocks(pages, n - 1, k);
      var prev := Accumulated(pages, n - 1);
      var an := Accumulated(pages, n);
      assert an == prev + ResultsOf(pages[n - 1]);
      assert an[|ak|..|ak1|] == prev[|ak|..|ak1|];
      assert an[..|ak1|] == prev[..|ak1|];
    }
  }

  /** A target of zero or less fetches nothing. */
  lemma ExtractNothingWithoutTarget<T>(pages: seq<Response<T>>, total: int, start: string)
    requires total <= 0
    ensures Extract(pages, total, start) == Extracted([], [])
  {
  }

  /**
   * Why an extraction ended: every response before the last one went on,
   * and the last one had no `results` key, no `Link` header, no usable next
   * link, or brought the count to the target. The records are the `results`
   * of the responses fetched, in arrival order.
   */
  lemma ExtractStops<T>(pages: seq<Response<T>>, total: int, start: string)
    requires total > 0 && Extract(pages, total, start).Extracted?
    ensures var out := Extract(pages, total, start);
      var n := |out.requested|;
      1 <= n <= |pages| && out.records == Accumulated(pages, n)
      && (forall k :: 0 <= k < n - 1 ==> ContinuesAt(pages, k, total))
      && pages[n - 1].ok
      && (pages[n - 1].results.None? || pages[n - 1].link.None?
          || !Usable(NextLink(pages[n - 1].link.value)) || |out.records| >= total)
  {
    var n := FirstStop(pages, total, 0);
    RequestedAt(pages, start, n + 1);
  }

  /**
   * The cursor: the first request goes to the start URL and each later one
   * to the non-empty next link of the response before it.
   */
  lemma ExtractFollowsLinks<T>(pages: seq<Response<T>>, total: int, start: string)
    requires Extract(pages, total, start).Extracted? || Extract(pages, total, start).OutOfResponses?
    ensures var urls := Extract(pages, total, start).requested;
      (|urls| > 0 ==> urls[0] == start)
      && forall k :: 0 <= k < |urls| - 1 ==>
           k < |pages| && pages[k].link.Some? && NextLink(pages[k].link.value) == Some(urls[k + 1]) && urls[k + 1] != ""
  {
    if total > 0 {
      var n := FirstStop(pages, total, 0);
      var m := if n == |pages| then n else n + 1;
      var urls := Requested(pages, start, m);
      assert Extract(pages, total, start).requested == urls;
      RequestedAt(pages, start, m);
      assert m > 0 ==> urls[0] == RequestUrl(pages, start, 0) == start;
      forall k | 0 <= k < m - 1
        ensures k < |pages| && pages[k].link.Some? && NextLink(pages[k].link.value) == Some(urls[k + 1]) && urls[k + 1] != ""
      {
        assert ContinuesAt(pages, k, total);
        assert urls[k + 1] == RequestUrl(pages, start, k + 1);
      }
    }
  }

  /**
   * The bound the loop actually keeps: before its last response the count was
   * below the target, so the output is shorter than the target plus the
   * last page. It is not bounded by the target itself (see `ExtractOvershoots`).
   */
  lemma ExtractLengthBound<T>(pages: seq<Response<T>>, total: int, start: string)
    requires Extract(pages, total, start).Extracted?
    requires |Extract(pages, total, start).requested| > 0
    ensures var out := Extract(pages, total, start);
      var n := |out.requested|;
      n <= |pages| && |out.records| < total + |ResultsOf(pages[n - 1])|
  {
    var n := FirstStop(pages, total, 0);
    RequestedAt(pages, start, n + 1);
    if n > 0 {
      assert ContinuesAt(pages, n - 1, total);
    }
  }

  /**
   * The trim inside the loop never runs on a list longer than the target, so
   * the output can pass it: three records come back for a target of two even
   * though the page offered a next link.
   */
  lemma ExtractOvershoots(start: string)
    ensures var pages := [Response(true, Some([1, 2, 3]), Some(SingleNextHeader("p2")))];
      Extract(pages, 2, start) == Extracted([1, 2, 3], [start])
  {
    var pages := [Response(true, Some([1, 2, 3]), Some(SingleNextHeader("p2")))];
    NextLinkOfSingleLink("p2");
    assert Accumulated(pages, 0) == [];
    assert !ContinuesAt(pages, 0, 2);
    assert FirstStop(pages, 2, 0) == 0;
    assert Accumulated(pages, 1) == [1, 2, 3];
    assert Requested(pages, start, 1) == [start];
  }

  /** The evidently intended result: `all_results[:total_records]` applied once the loop is over. */
  function Trimmed<T>(out: Outcome<T>, total: int): Outcome<T>
  {
    match out
    case Extracted(records, requested) => Extracted(SlicePrefix(records, total), requested)
    case _ => out
  }

  /** `extract_data` with the trim moved after the loop. */
  method ExtractDataTrimmed<T>(pages: seq<Response<T>>, total: int, start: string) returns (out: Outcome<T>)
    ensures out == Trimmed(Extract(pages, total, start), total)
  {
    out := ExtractData(pages, total, start);
    if out.Extracted? {
      out := Extracted(SlicePrefix(out.records, total), out.requested);
    }
  }

  /** With the trim after the loop the output is exactly the first `min(total, fetched)` records. */
  lemma TrimmedIsExact<T>(pages: seq<Response<T>>, total: int, start: string)
    requires Extract(pages, total, start).Extracted?
    ensures var fetched := Extract(pages, total, start).records;
      var out := Trimmed(Extract(pages, total, start), total);
      out.Extracted?
      && |out.records| == (if total <= 0 then 0 else if |fetched| < total then |fetched| else total)
      && out.records == fetched[..|out.records|]
  {
  }

  // ---------------------------------------------------------------------------
  // A `rel="next"` link that is not the first in the header

  /** `<a>; rel="prev"`: the segment of a link to the previous page. */
  function PrevSegment(a: string): string
  {
    Bracketed(a) + "; rel=\"prev\""
  }

  /** `<a>; rel="prev", <b>; rel="next"`: a header with two links, as section 3 of RFC 8288 writes a list. */
  function PrevNextHeader(a: string, b: string): string
  {
    PrevSegment(a) + "," + (" " + SingleNextHeader(b))
  }

  /** No ten-character window of `<a>; rel="prev"` spells `rel="next"` when `a` holds none. */
  lemma PrevSegmentWindow(a: string, i: nat)
    requires !PyStr.Contains(a, REL_NEXT)
    requires i + |REL_NEXT| <= |PrevSegment(a)|
    ensures PrevSegment(a)[i..i + |REL_NEXT|] != REL_NEXT
  {
    var s0 := PrevSegment(a);
    var w := s0[i..i + |REL_NEXT|];
    if i == 0 {
      assert w[0] == '<';
    } else if i + |REL_NEXT| <= |a| + 1 {
      assert w == a[i - 1..i - 1 + |REL_NEXT|];
      PyStr.ContainsAt(a, REL_NEXT, i - 1);
    } else if i <= |a| + 1 {
      assert w[|a| + 1 - i] == '>';
      assert forall k :: 0 <= k < |REL_NEXT| ==> REL_NEXT[k] != '>';
    } else if i == |a| + 2 {
      assert w[0] == ';';
    } else if i == |a| + 3 {
      assert w[0] == ' ';
    } else {
      assert w[5] == 'p';
    }
  }

  /** The previous-page segment holds no comma and no `rel="next"`. */
  lemma PrevSegmentParts(a: string)
    requires PlainUrl(a) && !PyStr.Contains(a, REL_NEXT)
    ensures ',' !in PrevSegment(a)
    ensures !PyStr.Contains(PrevSegment(a), REL_NEXT)
  {
    var s0 := PrevSegment(a);
    assert forall i :: 0 <= i < |s0| ==> s0[i] == ',' ==> 0 < i <= |a|;
    forall i: nat
      ensures !PyStr.OccursAt(s0, REL_NEXT, i)
    {
      if i + |REL_NEXT| <= |s0| {
        PrevSegmentWindow(a, i);
      }
    }
    PyStr.NoWindowNoContains(s0, REL_NEXT);
  }

  /** The next-page segment after the comma keeps its leading space and still holds `rel="next"`. */
  lemma NextSegmentParts(b: string)
    requires PlainUrl(b)
    ensures ',' !in " " + SingleNextHeader(b)
    ensures PyStr.Contains(" " + SingleNextHeader(b), REL_NEXT)
  {
    var h := SingleNextHeader(b);
    SingleNextHeaderParts(b);
    var i := PyStr.ContainsWitness(h, REL_NEXT);
    var s1 := " " + h;
    assert s1[i + 1..i + 1 + |REL_NEXT|] == h[i..i + |REL_NEXT|];
    PyStr.ContainsAt(s1, REL_NEXT, i + 1);
  }

  /** The split of `PrevNextHeader` into its two segments, the second one containing `rel="next"`. */
  lemma PrevNextSegments(a: string, b: string)
    requires PlainUrl(a) && PlainUrl(b) && !PyStr.Contains(a, REL_NEXT)
    ensures PyStr.Split(PrevNextHeader(a, b), ',') == [PrevSegment(a), " " + SingleNextHeader(b)]
    ensures FirstNextIndex(PyStr.Split(PrevNextHeader(a, b), ',')) == Some(1)
  {
    var s0 := PrevSegment(a);
    var s1 := " " + SingleNextHeader(b);
    PrevSegmentParts(a);
    NextSegmentParts(b);
    PyStr.SplitJoin([s0, s1], ',');
    assert PyStr.Join([s0, s1], ',') == PrevNextHeader(a, b);
    assert FirstNextIndex([s0, s1][1..]) == Some(0);
  }

  /**
   * As written, `strip('<>')` leaves the space after the comma, so the link
   * taken from the second segment of `<a>; rel="prev", <b>; rel="next"` is
   * ` <b`, not `b`.
   */
  lemma NextLinkKeepsLeadingSpace(a: string, b: string)
    requires PlainUrl(a) && PlainUrl(b) && !PyStr.Contains(a, REL_NEXT) && b != []
    ensures NextLink(PrevNextHeader(a, b)) == Some(" <" + b)
  {
    PrevNextSegments(a, b);
    var s1 := " " + SingleNextHeader(b);
    assert ';' !in " " + Bracketed(b);
    LinkTargetBeforeParams(" " + Bracketed(b), " " + REL_NEXT);
    assert (" " + Bracketed(b)) + ";" + (" " + REL_NEXT) == s1;
    PyStr.StripCharsExact([], " <" + b, ">", {'<', '>'});
    assert [] + (" <" + b) + ">" == " " + Bracketed(b);
  }

  /** The evidently intended target: whitespace stripped before the angle brackets. */
  function LinkTargetCorrected(segment: string): string
  {
    PyStr.StripChars(PyStr.Strip(PyStr.Split(segment, ';')[0]), {'<', '>'})
  }

  function NextLinkCorrected(header: string): Option<string>
  {
    var segments := PyStr.Split(header, ',');
    match FirstNextIndex(segments)
    case None => None
    case Some(i) => Some(LinkTargetCorrected(segments[i]))
  }

  /** The corrected target of `  <u>  ; params` is `u`, whatever whitespace surrounds the brackets. */
  lemma LinkTargetCorrectedOf(ws1: string, u: string, ws2: string, params: string)
    requires PlainUrl(u)
    requires forall i :: 0 <= i < |ws1| ==> ws1[i] in PyStr.WHITESPACE
    requires forall i :: 0 <= i < |ws2| ==> ws2[i] in PyStr.WHITESPACE
    ensures LinkTargetCorrected(ws1 + Bracketed(u) + ws2 + ";" + params) == u
  {
    var p := ws1 + Bracketed(u) + ws2;
    assert ';' !in PyStr.WHITESPACE;
    assert ';' !in p by {
      assert forall i :: 0 <= i < |p| ==> p[i] == ';' ==>
        (i < |ws1| && p[i] == ws1[i]) || (|ws1| < i < |ws1| + |u| + 1 && p[i] == u[i - |ws1| - 1])
        || (i >= |ws1| + |u| + 2 && p[i] == ws2[i - |ws1| - |u| - 2]);
    }
    PyStr.SplitAfterPart(p, ';', params);
    assert p + [';'] + params == ws1 + Bracketed(u) + ws2 + ";" + params;
    assert '<' !in PyStr.WHITESPACE && '>' !in PyStr.WHITESPACE;
    PyStr.StripCharsExact(ws1, Bracketed(u), ws2, PyStr.WHITESPACE);
    StripBracketed(u);
  }

  /** Corrected, the second link of `<a>; rel="prev", <b>; rel="next"` is `b`. */
  lemma NextLinkCorrectedFindsLaterLink(a: string, b: string)
    requires PlainUrl(a) && PlainUrl(b) && !PyStr.Contains(a, REL_NEXT)
    ensures NextLinkCorrected(PrevNextHeader(a, b)) == Some(b)
  {
    PrevNextSegments(a, b);
    var s1 := " " + SingleNextHeader(b);
    assert ' ' in PyStr.WHITESPACE;
    LinkTargetCorrectedOf(" ", b, [], " " + REL_NEXT);
    assert " " + Bracketed(b) + [] + ";" + (" " + REL_NEXT) == s1;
    assert LinkTargetCorrected(s1) == b;
  }
}
