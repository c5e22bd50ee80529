/** The page loops of the scripts over an abstract page source, and the retry
    loop of the search script. A page source answers a request for page `p`
    of size `s` with a batch of records; the HTTP transport, the JSON decoding
    and the waiting between attempts are not part of this model. */
module Paging {
  import opened Common
  import opened Calendar
  import opened Windows
  import opened Records
  import opened Frames

  /** `PAGE_SIZE` of both digest scripts, and the largest page the export script asks for. */
  const PageSize := 500
  /** `MAX_RESULTS` of `digest_monthly.py`. */
  const MaxResults := 5000

  /** The export endpoint as a page loop sees it: the batch for (page index, page size). */
  type PageSource<R> = (nat, nat) -> seq<R>

  function Min(a: int, b: int): int {
    if a < b then a else b
  }

  /** A server that pages one fixed result list: page `p` of size `s` holds
      positions `p * s` up to (not including) `p * s + s`. */
  function Sliced<R>(results: seq<R>): PageSource<R> {
    (p: nat, s: nat) => results[Min(p * s, |results|)..Min(p * s + s, |results|)]
  }

  /** Consecutive pages of `PageSize` start `PageSize` apart. */
  lemma MulStep(p: nat)
    ensures (p + 1) * PageSize == p * PageSize + PageSize
  {
  }

  /** A page before page `k` ends no later than page `k` starts. */
  lemma MulMono(p: nat, k: nat)
    requires p < k
    ensures p * PageSize + PageSize <= k * PageSize
  {
    MulStep(p);
    assert (p + 1) * PageSize <= k * PageSize;
  }

  /** Page `n / PageSize` is the page that holds position `n`. */
  lemma DivPage(n: nat)
    ensures (n / PageSize) * PageSize <= n < (n / PageSize) * PageSize + PageSize
  {
  }

  /** Page `p` of size `s` of a sliced server, spelled out. */
  lemma SlicedPage<R>(results: seq<R>, p: nat, s: nat)
    ensures var lo, hi := Min(p * s, |results|), Min(p * s + s, |results|);
      Sliced(results)(p, s) == results[lo..hi] && |Sliced(results)(p, s)| == hi - lo
  {
  }

  /** `src` answers every full-size request as a sliced server of `results` does. */
  ghost predicate Serves<R>(src: PageSource<R>, results: seq<R>) {
    forall p: nat :: PageAt(src, results, p)
  }

  /** `src` answers the full-size request for page `p` as a sliced server does. */
  ghost predicate PageAt<R>(src: PageSource<R>, results: seq<R>, p: nat) {
    src(p, PageSize) == results[Min(p * PageSize, |results|)..Min(p * PageSize + PageSize, |results|)]
  }

  lemma SlicedServes<R>(results: seq<R>)
    ensures Serves(Sliced(results), results)
  {
    forall p: nat
      ensures PageAt(Sliced(results), results, p)
    {
      SlicedPage(results, p, PageSize);
    }
  }

  // ---------------------------------------------------------------------------
  // fetch_range (diavgeia_monthly_digest.py): no cap

  /** Pages 0 .. n-1 of full size, concatenated in order. */
  function Pages<R>(src: PageSource<R>, n: nat): seq<R> {
    if n == 0 then [] else Pages(src, n - 1) + src(n - 1, PageSize)
  }

  predicate FullPage<R>(src: PageSource<R>, p: nat) {
    |src(p, PageSize)| >= PageSize
  }

  /** Page `k` is the first page that is empty or shorter than `PageSize`. */
  predicate StopsAt<R>(src: PageSource<R>, k: nat) {
    !FullPage(src, k) && forall p: nat :: p < k ==> FullPage(src, p)
  }

  /** Some page is short, so the uncapped loop ends. */
  ghost predicate EventuallyShort<R>(src: PageSource<R>) {
    exists p: nat :: !FullPage(src, p)
  }

  /** At most one page is the first short one. */
  lemma StopsAtUnique<R>(src: PageSource<R>, k1: nat, k2: nat)
    requires StopsAt(src, k1) && StopsAt(src, k2)
    ensures k1 == k2
  {
  }

  /** `fetch_range`'s loop: request pages 0, 1, 2, ... of `PageSize`, append
      each batch, and stop after the first empty or short page. It issues
      `requests` requests and returns every page it received, in order. */
  method FetchRange<R>(src: PageSource<R>) returns (rows: seq<R>, requests: nat)
    requires EventuallyShort(src)
    ensures requests >= 1 && StopsAt(src, requests - 1)
    ensures rows == Pages(src, requests)
  {
    ghost var bound: nat :| !FullPage(src, bound);
    rows := [];
    var page: nat := 0;
    while true
      invariant page <= bound
      invariant forall p: nat :: p < page ==> FullPage(src, p)
      invariant rows == Pages(src, page)
      decreases bound - page
    {
      var batch := src(page, PageSize);
      if batch == [] {
        assert rows + batch == rows;
        requests := page + 1;
        return;
      }
      rows := rows + batch;
      if |batch| < PageSize {
        requests := page + 1;
        return;
      }
      page := page + 1;
    }
  }

  /** Against a server that pages one result list, the loop returns that list
      exactly, after `|results| / PageSize + 1` requests. */
  lemma FetchRangeSliced<R>(results: seq<R>)
    ensures EventuallyShort(Sliced(results))
    ensures StopsAt(Sliced(results), |results| / PageSize)
    ensures Pages(Sliced(results), |results| / PageSize + 1) == results
  {
    var k := |results| / PageSize;
    SlicedLastPageShort(results);
    assert !FullPage(Sliced(results), k);
    forall p: nat | p < k
      ensures FullPage(Sliced(results), p)
    {
      SlicedFullBefore(results, p);
    }
    SlicedPrefix(results, k + 1);
  }

  /** The page holding the end of the list is short. */
  lemma SlicedLastPageShort<R>(results: seq<R>)
    ensures var k := |results| / PageSize;
      !FullPage(Sliced(results), k) && Min((k + 1) * PageSize, |results|) == |results|
  {
    var k := |results| / PageSize;
    DivPage(|results|);
    MulStep(k);
    SlicedPage(results, k, PageSize);
  }

  /** Every page before the one holding the end of the list is full. */
  lemma SlicedFullBefore<R>(results: seq<R>, p: nat)
    requires p < |results| / PageSize
    ensures FullPage(Sliced(results), p)
  {
    DivPage(|results|);
    SlicedPage(results, p, PageSize);
    MulMono(p, |results| / PageSize);
  }


  /** The first `n` full-size pages of a sliced server are a prefix of its list. */
  lemma {:induction false} SlicedPrefix<R>(results: seq<R>, n: nat)
    ensures Pages(Sliced(results), n) == results[..Min(n * PageSize, |results|)]
  {
    if n > 0 {
      SlicedPrefix(results, n - 1);
      var a := Min((n - 1) * PageSize, |results|);
      var b := Min(n * PageSize, |results|);
      SlicedPage(results, n - 1, PageSize);
      MulStep(n - 1);
      assert results[..a] + results[a..b] == results[..b];
    }
  }

  // ---------------------------------------------------------------------------
  // fetch_decisions (diavgeia_monthly_digest.py)

  /** The ranges `fetch_decisions` fetches: one per day with `--chunk-by-day`,
      otherwise the whole range. */
  function Ranges(start: Date, end: Date, chunkByDay: bool): (r: seq<Span>)
    requires ValidDate(start) && ValidDate(end)
    ensures !chunkByDay ==> r == [Span(start, end)]
  {
    if chunkByDay then DayChunks(start, end) else [Span(start, end)]
  }

  /** The rows of the non-empty frames, in order (`pd.concat` of `frames`). */
  function KeepNonEmpty(frames: seq<seq<Record>>): seq<Record> {
    if frames == [] then []
    else if FrameEmpty(frames[0]) then KeepNonEmpty(frames[1..])
    else frames[0] + KeepNonEmpty(frames[1..])
  }

  /** `rows` is what `fetch_range` returns for this source. */
  ghost predicate RangeResult(src: PageSource<Record>, rows: seq<Record>) {
    exists k: nat :: StopsAt(src, k) && rows == Pages(src, k + 1)
  }

  /** `fetch_decisions`: fetch every range (its page source given by `srcOf`),
      keep the non-empty frames and concatenate them. */
  method FetchDecisions(start: Date, end: Date, chunkByDay: bool, srcOf: Span -> PageSource<Record>)
    returns (rows: seq<Record>, ghost perRange: seq<seq<Record>>)
    requires ValidDate(start) && ValidDate(end)
    requires forall i :: 0 <= i < |Ranges(start, end, chunkByDay)| ==>
      EventuallyShort(srcOf(Ranges(start, end, chunkByDay)[i]))
    ensures |perRange| == |Ranges(start, end, chunkByDay)|
    ensures forall i :: 0 <= i < |perRange| ==> RangeResult(srcOf(Ranges(start, end, chunkByDay)[i]), perRange[i])
    ensures rows == KeepNonEmpty(perRange)
  {
    var ranges := Ranges(start, end, chunkByDay);
    var frames: seq<seq<Record>> := [];
    perRange := [];
    var i := 0;
    while i < |ranges|
      invariant 0 <= i <= |ranges| && |perRange| == i
      invariant forall j :: 0 <= j < i ==> RangeResult(srcOf(ranges[j]), perRange[j])
      invariant Concat(frames) == KeepNonEmpty(perRange)
    {
      var df, requests := FetchRange(srcOf(ranges[i]));
      assert StopsAt(srcOf(ranges[i]), requests - 1);
      KeepNonEmptySnoc(perRange, df);
      if !FrameEmpty(df) {
        ConcatSnoc(frames, df);
        frames := frames + [df];
      }
      perRange := perRange + [df];
      i := i + 1;
    }
    if frames == [] {
      rows := [];
    } else {
      rows := Concat(frames);
    }
  }

  lemma {:induction false} ConcatSnoc(frames: seq<seq<Record>>, f: seq<Record>)
    ensures Concat(frames + [f]) == Concat(frames) + f
  {
    if frames != [] {
      assert (frames + [f])[1..] == frames[1..] + [f];
      ConcatSnoc(frames[1..], f);
    } else {
      assert [f][1..] == [];
    }
  }

  lemma {:induction false} KeepNonEmptySnoc(frames: seq<seq<Record>>, f: seq<Record>)
    ensures KeepNonEmpty(frames + [f]) == KeepNonEmpty(frames) + (if FrameEmpty(f) then [] else f)
  {
    if frames != [] {
      assert (frames + [f])[1..] == frames[1..] + [f];
      KeepNonEmptySnoc(frames[1..], f);
    } else {
      assert [f][1..] == [];
    }
  }

  /** The records other than `{}`, in order. */
  function NonBlank(rows: seq<Record>): seq<Record> {
    if rows == [] then [] else (if rows[0] == map[] then [] else [rows[0]]) + NonBlank(rows[1..])
  }

  /** All frames concatenated. */
  function Concat(frames: seq<seq<Record>>): seq<Record> {
    if frames == [] then [] else frames[0] + Concat(frames[1..])
  }

  lemma {:induction false} NonBlankAppend(a: seq<Record>, b: seq<Record>)
    ensures NonBlank(a + b) == NonBlank(a) + NonBlank(b)
  {
    if a != [] {
      assert (a + b)[0] == a[0];
      assert (a + b)[1..] == a[1..] + b;
      NonBlankAppend(a[1..], b);
    } else {
      assert a + b == b;
    }
  }

  lemma {:induction false} NonBlankOfEmptyFrame(f: seq<Record>)
    requires FrameEmpty(f)
    ensures NonBlank(f) == []
  {
    if f != [] {
      NonBlankOfEmptyFrame(f[1..]);
    }
  }

  /** Skipping the empty frames loses only records without any column: the
      non-blank records of the result are those of all frames together. */
  lemma {:induction false} KeepNonEmptyLosesOnlyBlank(frames: seq<seq<Record>>)
    ensures NonBlank(KeepNonEmpty(frames)) == NonBlank(Concat(frames))
  {
    if frames != [] {
      KeepNonEmptyLosesOnlyBlank(frames[1..]);
      NonBlankAppend(frames[0], Concat(frames[1..]));
      NonBlankAppend(frames[0], KeepNonEmpty(frames[1..]));
      if FrameEmpty(frames[0]) {
        NonBlankOfEmptyFrame(frames[0]);
      }
    }
  }

  // ---------------------------------------------------------------------------
  // fetch_export (digest_monthly.py): capped at MaxResults

  /** What the capped loop collects from page `page` on with `remaining` rows
      still allowed: ask for `min(PageSize, remaining)`, stop on an empty
      batch, keep the batch, and stop after a batch shorter than `PageSize`. */
  function Capped<R>(src: PageSource<R>, page: nat, remaining: int): seq<R>
    decreases if remaining < 0 then 0 else remaining
  {
    if remaining <= 0 then []
    else
      var batch := src(page, Min(PageSize, remaining));
      if batch == [] then []
      else if |batch| < PageSize then batch
      else batch + Capped(src, page + 1, remaining - |batch|)
  }

  /** `fetch_export`'s loop over `remaining`, `page` and `rows`. */
  method FetchExport<R>(src: PageSource<R>) returns (rows: seq<R>)
    ensures rows == Capped(src, 0, MaxResults)
  {
    var remaining := MaxResults;
    var page: nat := 0;
    rows := [];
    while remaining > 0
      invariant rows + Capped(src, page, remaining) == Capped(src, 0, MaxResults)
      decreases remaining
    {
      var batch := src(page, Min(PageSize, remaining));
      if batch == [] {
        assert rows + [] == rows;
        return;
      }
      rows := rows + batch;
      remaining := remaining - |batch|;
      page := page + 1;
      if |batch| < PageSize {
        assert rows + [] == rows;
        return;
      }
    }
    assert rows + [] == rows;
  }

  /** A server that never returns more than it was asked for. */
  ghost predicate Honest<R>(src: PageSource<R>) {
    forall p: nat, s: nat :: |src(p, s)| <= s
  }

  /** Against an honest server the capped loop never collects more than
      `remaining` rows, so `fetch_export` returns at most `MaxResults`. */
  lemma {:induction false} CappedBound<R>(src: PageSource<R>, page: nat, remaining: int)
    requires Honest(src)
    ensures |Capped(src, page, remaining)| <= if remaining < 0 then 0 else remaining
    decreases if remaining < 0 then 0 else remaining
  {
    if remaining > 0 {
      var batch := src(page, Min(PageSize, remaining));
      if batch != [] && |batch| >= PageSize {
        CappedBound(src, page + 1, remaining - |batch|);
      }
    }
  }

  /** Against a server that pages one result list, `fetch_export` returns its
      first `MaxResults` entries (all of them when there are fewer). */
  lemma CappedSliced<R>(results: seq<R>)
    ensures Capped(Sliced(results), 0, MaxResults) == results[..Min(|results|, MaxResults)]
  {
    SlicedServes(results);
    CappedSlicedFrom(Sliced(results), results, 0);
  }

  /** One step of the capped loop against a sliced server, while a full page
      is still allowed: the page's records, then the rest unless it was short. */
  lemma CappedSlicedStep<R>(src: PageSource<R>, results: seq<R>, p: nat, remaining: int)
    requires Serves(src, results)
    requires remaining >= PageSize && p * PageSize < |results|
    ensures var lo := p * PageSize;
      var hi := Min(lo + PageSize, |results|);
      Capped(src, p, remaining)
        == results[lo..hi] + (if hi - lo < PageSize then [] else Capped(src, p + 1, remaining - PageSize))
  {
    assert Min(PageSize, remaining) == PageSize;
    assert PageAt(src, results, p);
  }

  /** `MaxResults` is exactly ten full pages, so the capped loop's allowance is
      always a whole number of pages. */
  lemma CappedAllowance(p: nat)
    requires p <= MaxResults / PageSize
    ensures MaxResults / PageSize == 10 && MaxResults == 10 * PageSize
    ensures p < 10 ==> MaxResults - p * PageSize >= PageSize
    ensures p == 10 ==> MaxResults - p * PageSize == 0
  {
    if p < 10 {
      MulMono(p, 10);
    }
  }

  lemma {:induction false} CappedSlicedFrom<R>(src: PageSource<R>, results: seq<R>, p: nat)
    requires Serves(src, results) && p <= MaxResults / PageSize
    ensures Capped(src, p, MaxResults - p * PageSize)
      == results[Min(p * PageSize, |results|)..Min(MaxResults, |results|)]
    decreases MaxResults / PageSize - p
  {
    CappedAllowance(p);
    var n := |results|;
    var lo := p * PageSize;
    var remaining := MaxResults - lo;
    var hi := Min(MaxResults, n);
    if p == 10 {
      assert remaining == 0 && Min(lo, n) == hi;
      assert Capped(src, p, remaining) == [];
    } else if lo >= n {
      PastEnd(src, results, p, remaining);
      assert Min(lo, n) == n == hi;
    } else {
      CappedSlicedStep(src, results, p, remaining);
      var mid := Min(lo + PageSize, n);
      if mid - lo < PageSize {
        assert mid == n == hi;
        assert results[lo..mid] + [] == results[lo..hi];
      } else {
        CappedSlicedFrom(src, results, p + 1);
        MulStep(p);
        assert MaxResults - (p + 1) * PageSize == remaining - PageSize;
        assert Min((p + 1) * PageSize, n) == mid;
        SliceJoin(results, lo, mid, mid, hi, hi);
      }
    }
  }

  /** A page that starts at or past the end of the list is empty, and the
      capped loop (asking for full pages) and the intended loop stop there. */
  lemma PastEnd<R>(src: PageSource<R>, results: seq<R>, p: nat, remaining: int)
    requires Serves(src, results) && p * PageSize >= |results|
    ensures remaining >= PageSize ==> Capped(src, p, remaining) == []
    ensures LimitedFixed(src, p, remaining) == []
  {
    assert PageAt(src, results, p);
    if remaining >= PageSize {
      assert Min(PageSize, remaining) == PageSize;
    }
  }

  // ---------------------------------------------------------------------------
  // The --limit loop (fetch_diavgeia_export.py main)

  /** What the limit loop collects from page `page` on with `remaining` rows
      still wanted: ask for `min(remaining, PageSize)`, stop on an empty batch,
      take hits until `remaining` reaches 0, and go on with the next page
      whatever the batch's length. */
  function Limited<R>(src: PageSource<R>, page: nat, remaining: int): seq<R>
    decreases if remaining < 0 then 0 else remaining
  {
    if remaining <= 0 then []
    else
      var batch := src(page, Min(remaining, PageSize));
      if batch == [] then []
      else
        var take := Min(|batch|, remaining);
        batch[..take] + Limited(src, page + 1, remaining - take)
  }

  /** The (page, size) requests the limit loop issues, in order. */
  function LimitedRequests<R>(src: PageSource<R>, page: nat, remaining: int): seq<(nat, nat)>
    decreases if remaining < 0 then 0 else remaining
  {
    if remaining <= 0 then []
    else
      var size := Min(remaining, PageSize);
      var batch := src(page, size);
      if batch == [] then [(page, size)]
      else [(page, size)] + LimitedRequests(src, page + 1, remaining - Min(|batch|, remaining))
  }

  /** `[f(x) for x in xs]`. */
  function MapSeq<A, B>(f: A -> B, xs: seq<A>): (r: seq<B>)
    ensures |r| == |xs| && forall i :: 0 <= i < |xs| ==> r[i] == f(xs[i])
  {
    seq(|xs|, i requires 0 <= i < |xs| => f(xs[i]))
  }

  /** One step of the limit loop: a non-empty batch contributes its first
      `min(|batch|, remaining)` hits and one request. */
  lemma LimitedStep<R>(src: PageSource<R>, page: nat, remaining: int)
    requires remaining > 0
    ensures var size := Min(remaining, PageSize);
      var batch := src(page, size);
      var take := Min(|batch|, remaining);
      && (batch == [] ==> Limited(src, page, remaining) == [] && LimitedRequests(src, page, remaining) == [(page, size)])
      && (batch != [] ==>
            Limited(src, page, remaining) == batch[..take] + Limited(src, page + 1, remaining - take)
            && LimitedRequests(src, page, remaining) == [(page, size)] + LimitedRequests(src, page + 1, remaining - take))
  {
  }

  /** The inner `for h in batch` loop: normalise and count hits until
      `remaining` reaches 0 or the batch is used up. */
  method TakeHits<A, B>(batch: seq<A>, remaining: int, f: A -> B) returns (rows: seq<B>, left: int)
    requires remaining > 0
    ensures rows == MapSeq(f, batch[..Min(|batch|, remaining)])
    ensures left == remaining - Min(|batch|, remaining)
  {
    rows := [];
    left := remaining;
    var j := 0;
    while j < |batch|
      invariant 0 <= j <= Min(|batch|, remaining) && left == remaining - j
      invariant rows == MapSeq(f, batch[..j])
      invariant j < Min(|batch|, remaining) ==> left > 0
      decreases |batch| - j
    {
      rows := rows + [f(batch[j])];
      assert batch[..j + 1] == batch[..j] + [batch[j]];
      j := j + 1;
      left := left - 1;
      if left <= 0 {
        break;
      }
    }
  }

  lemma MapSeqAppend<A, B>(f: A -> B, a: seq<A>, b: seq<A>)
    ensures MapSeq(f, a + b) == MapSeq(f, a) + MapSeq(f, b)
  {
  }

  lemma AppendAssoc<T>(a: seq<T>, b: seq<T>, c: seq<T>)
    ensures (a + b) + c == a + (b + c)
  {
  }

  /** The export script's `main` loop: `remaining` starts at `limit`, each
      request asks for `min(remaining, 500)`, every hit taken is normalised
      and counted, and `page` advances after each non-empty batch. */
  method FetchWithLimit(src: PageSource<Record>, limit: int) returns (rows: seq<Record>, requests: seq<(nat, nat)>)
    ensures rows == MapSeq(Normalize, Limited(src, 0, limit))
    ensures requests == LimitedRequests(src, 0, limit)
  {
    var remaining := limit;
    var page: nat := 0;
    rows := [];
    requests := [];
    ghost var taken: seq<Record> := [];
    while remaining > 0
      invariant rows == MapSeq(Normalize, taken)
      invariant taken + Limited(src, page, remaining) == Limited(src, 0, limit)
      invariant requests + LimitedRequests(src, page, remaining) == LimitedRequests(src, 0, limit)
      decreases if remaining < 0 then 0 else remaining
    {
      LimitedStep(src, page, remaining);
      var size := Min(remaining, PageSize);
      var batch := src(page, size);
      AppendAssoc(requests, [(page, size)], LimitedRequests(src, page + 1, remaining - Min(|batch|, remaining)));
      requests := requests + [(page, size)];
      if batch == [] {
        assert taken + [] == taken;
        assert requests == LimitedRequests(src, 0, limit);
        return;
      }
      var flat, left := TakeHits(batch, remaining, Normalize);
      ghost var chunk := batch[..Min(|batch|, remaining)];
      MapSeqAppend(Normalize, taken, chunk);
      AppendAssoc(taken, chunk, Limited(src, page + 1, left));
      rows := rows + flat;
      taken := taken + chunk;
      remaining := left;
      page := page + 1;
    }
    assert taken + [] == taken;
    assert requests + [] == requests;
  }

  /** Whatever the server returns, the limit loop collects at most `limit` rows. */
  lemma {:induction false} LimitedBound<R>(src: PageSource<R>, page: nat, remaining: int)
    ensures |Limited(src, page, remaining)| <= if remaining < 0 then 0 else remaining
    decreases if remaining < 0 then 0 else remaining
  {
    if remaining > 0 {
      var batch := src(page, Min(remaining, PageSize));
      if batch != [] {
        LimitedBound(src, page + 1, remaining - Min(|batch|, remaining));
      }
    }
  }

  /** The requests go to pages 0, 1, 2, ... in order, each for between 1 and
      500 records, and none is issued when `limit <= 0`. */
  lemma {:induction false} LimitedRequestsPages<R>(src: PageSource<R>, page: nat, remaining: int)
    ensures var log := LimitedRequests(src, page, remaining);
      && (remaining <= 0 <==> log == [])
      && (forall i :: 0 <= i < |log| ==> log[i].0 == page + i && 1 <= log[i].1 <= PageSize)
    decreases if remaining < 0 then 0 else remaining
  {
    if remaining > 0 {
      var size := Min(remaining, PageSize);
      var batch := src(page, size);
      if batch != [] {
        var take := Min(|batch|, remaining);
        LimitedRequestsPages(src, page + 1, remaining - take);
        var rest := LimitedRequests(src, page + 1, remaining - take);
        var log := [(page, size)] + rest;
        forall i | 0 <= i < |log|
          ensures log[i].0 == page + i && 1 <= log[i].1 <= PageSize
        {
          if i > 0 {
            assert log[i] == rest[i - 1];
          }
        }
      }
    }
  }

  /** When fewer than `limit` rows come back, the last request returned an
      empty batch: a short batch never stops the loop. */
  lemma {:induction false} LimitedShortEndsEmpty<R>(src: PageSource<R>, page: nat, remaining: int)
    requires |Limited(src, page, remaining)| < remaining
    ensures var log := LimitedRequests(src, page, remaining);
      log != [] && src(log[|log| - 1].0, log[|log| - 1].1) == []
    decreases if remaining < 0 then 0 else remaining
  {
    var size := Min(remaining, PageSize);
    var batch := src(page, size);
    if batch != [] {
      var take := Min(|batch|, remaining);
      LimitedShortEndsEmpty(src, page + 1, remaining - take);
      var rest := LimitedRequests(src, page + 1, remaining - take);
      assert LimitedRequests(src, page, remaining) == [(page, size)] + rest;
    }
  }

  /** The records 0, 1, 2, ... of a result list of length `n`. */
  function Iota(n: nat): (r: seq<int>)
    ensures |r| == n && forall i :: 0 <= i < n ==> r[i] == i
  {
    seq(n, i => i)
  }

  /** With `--limit 700` against a server that pages 1000 records, the second
      request asks for page 1 of size 200, which is records 200 to 399: the
      loop returns records 0..499 and then 200..399 again, not the first 700. */
  lemma LimitRefetchesRecords()
    ensures Limited(Sliced(Iota(1000)), 0, 700) == Iota(1000)[..500] + Iota(1000)[200..400]
    ensures Limited(Sliced(Iota(1000)), 0, 700)[500] == 200 != Iota(1000)[..700][500]
  {
    var results := Iota(1000);
    var src := Sliced(results);
    assert src(0, 500) == results[0..500];
    assert src(1, 200) == results[200..400];
    assert Limited(src, 2, 0) == [];
    assert Limited(src, 1, 200) == results[200..400][..200] + Limited(src, 2, 0);
    assert Limited(src, 0, 700) == results[0..500][..500] + Limited(src, 1, 200);
  }

  /** The evidently intended loop: always ask for full pages of `PageSize`, so
      that page `p` starts at record `p * PageSize`, and take hits until
      `remaining` reaches 0. */
  function LimitedFixed<R>(src: PageSource<R>, page: nat, remaining: int): seq<R>
    decreases if remaining < 0 then 0 else remaining
  {
    if remaining <= 0 then []
    else
      var batch := src(page, PageSize);
      if batch == [] then []
      else
        var take := Min(|batch|, remaining);
        batch[..take] + LimitedFixed(src, page + 1, remaining - take)
  }

  /** Against a server that pages one result list, the intended loop returns
      its first `limit` records (all of them when there are fewer). */
  lemma LimitedFixedSliced<R>(results: seq<R>, limit: int)
    ensures LimitedFixed(Sliced(results), 0, limit) == results[..Min(if limit < 0 then 0 else limit, |results|)]
  {
    if limit > 0 {
      SlicedServes(results);
      LimitedFixedSlicedFrom(Sliced(results), results, 0, 0, limit);
    }
  }

  /** One step of the intended loop against a sliced server: page `p`,
      starting at `lo` inside the list, contributes up to `remaining` of its
      records. */
  lemma LimitedFixedSlicedStep<R>(src: PageSource<R>, results: seq<R>, p: nat, lo: nat, remaining: int)
    requires Serves(src, results) && lo == p * PageSize
    requires remaining > 0 && lo < |results|
    ensures var take := Min(Min(lo + PageSize, |results|) - lo, remaining);
      LimitedFixed(src, p, remaining)
        == results[lo..lo + take] + LimitedFixed(src, p + 1, remaining - take)
  {
    assert PageAt(src, results, p);
    var batch := src(p, PageSize);
    assert batch == results[lo..Min(lo + PageSize, |results|)] && batch != [];
    var take := Min(|batch|, remaining);
    assert batch[..take] == results[lo..lo + take];
  }

  /** From page `p` on, starting at `lo`, the intended loop returns the next
      `remaining` records of the list (fewer at its end). */
  lemma {:induction false} LimitedFixedSlicedFrom<R>(src: PageSource<R>, results: seq<R>, p: nat, lo: nat, remaining: int)
    requires Serves(src, results) && lo == p * PageSize && remaining >= 0
    ensures LimitedFixed(src, p, remaining) == results[Min(lo, |results|)..Min(lo + remaining, |results|)]
    decreases remaining
  {
    var n := |results|;
    if remaining > 0 && lo < n {
      var take := Min(Min(lo + PageSize, n) - lo, remaining);
      MulStep(p);
      LimitedFixedSlicedFrom(src, results, p + 1, lo + PageSize, remaining - take);
      LimitedFixedInside(src, results, p, lo, remaining);
    } else if remaining > 0 {
      PastEnd(src, results, p, remaining);
      assert Min(lo, n) == n && Min(lo + remaining, n) == n;
    } else {
      assert LimitedFixed(src, p, remaining) == [];
    }
  }

  /** The inductive step: a page inside the list, then the rest as the
      induction hypothesis gives it. */
  lemma LimitedFixedInside<R>(src: PageSource<R>, results: seq<R>, p: nat, lo: nat, remaining: int)
    requires Serves(src, results) && lo == p * PageSize && remaining > 0 && lo < |results|
    requires var take := Min(Min(lo + PageSize, |results|) - lo, remaining);
      LimitedFixed(src, p + 1, remaining - take)
        == results[Min(lo + PageSize, |results|)..Min(lo + PageSize + (remaining - take), |results|)]
    ensures LimitedFixed(src, p, remaining) == results[Min(lo, |results|)..Min(lo + remaining, |results|)]
  {
    LimitedFixedSlicedStep(src, results, p, lo, remaining);
    var take := Min(Min(lo + PageSize, |results|) - lo, remaining);
    LimitedCombine(results, lo, remaining, take, LimitedFixed(src, p, remaining), LimitedFixed(src, p + 1, remaining - take));
  }

  /** A step's records followed by the rest's records make the step's window. */
  lemma LimitedCombine<R>(results: seq<R>, lo: nat, remaining: int, take: int, whole: seq<R>, rest: seq<R>)
    requires lo < |results| && remaining > 0 && take == Min(Min(lo + PageSize, |results|) - lo, remaining)
    requires lo + take <= |results|
    requires whole == results[lo..lo + take] + rest
    requires rest == results[Min(lo + PageSize, |results|)..Min(lo + PageSize + (remaining - take), |results|)]
    ensures whole == results[Min(lo, |results|)..Min(lo + remaining, |results|)]
  {
    var n := |results|;
    LimitedJoin(lo, n, remaining, take);
    SliceJoin(results, lo, lo + take, Min(lo + PageSize, n), Min(lo + PageSize + (remaining - take), n), Min(lo + remaining, n));
  }

  /** The bounds of one step of the intended loop meet the bounds of the
      rest: either the next page starts where this step's records end, or
      nothing is left to take. */
  lemma LimitedJoin(lo: int, n: int, remaining: int, take: int)
    requires 0 <= lo < n && remaining > 0 && take == Min(Min(lo + PageSize, n) - lo, remaining)
    ensures var lo2, hi2, hi := Min(lo + PageSize, n), Min(lo + PageSize + (remaining - take), n), Min(lo + remaining, n);
      0 <= lo + take <= n && lo2 <= hi2
      && ((lo2 == lo + take && hi2 == hi) || (lo2 == hi2 && lo + take == hi))
  {
  }

  /** Two adjacent slices, or a slice and an empty one, make one slice. */
  lemma SliceJoin<R>(s: seq<R>, lo: int, mid: int, lo2: int, hi2: int, hi: int)
    requires 0 <= lo <= mid <= |s| && 0 <= lo2 <= hi2 <= |s|
    requires (lo2 == mid && hi2 == hi) || (lo2 == hi2 && mid == hi)
    ensures s[lo..mid] + s[lo2..hi2] == s[lo..hi]
  {
  }

  // ---------------------------------------------------------------------------
  // _get (fetch_diavgeia.py): the retry loop

  /** The outcome of one `requests.get` plus `raise_for_status`. */
  datatype Attempt<T> = Response(value: T) | RequestException | OtherException

  /** What `_get` does: return a response, return None (no attempt at all),
      or raise (re-raising a `RequestException`, or passing on another error). */
  datatype Fetched<T> = Returned(value: T) | NoAttempt | Raised(requestError: bool)

  /** `_get` from attempt `attempt` on, attempt `k` answered by `outcome(k)`. */
  function Retry<T>(outcome: nat -> Attempt<T>, attempt: nat, retries: int): Fetched<T>
    requires attempt >= 1
    decreases retries - attempt
  {
    if attempt > retries then NoAttempt
    else match outcome(attempt)
      case Response(v) => Returned(v)
      case OtherException => Raised(false)
      case RequestException =>
        if attempt == retries then Raised(true) else Retry(outcome, attempt + 1, retries)
  }

  /** Attempts `from` .. `to - 1` all raised a `RequestException`. */
  predicate FailedBetween<T>(outcome: nat -> Attempt<T>, from: nat, to: nat) {
    forall j: nat :: from <= j < to ==> outcome(j).RequestException?
  }

  /** `_get(url, retries=retries)`: tries attempts 1 .. retries, sleeping
      `0.7 * attempt` seconds after each failed attempt but the last. */
  method Get<T>(outcome: nat -> Attempt<T>, retries: int) returns (r: Fetched<T>, attempts: nat, sleeps: seq<real>)
    ensures r == Retry(outcome, 1, retries)
    ensures attempts <= (if retries < 0 then 0 else retries)
    ensures retries >= 1 ==> attempts >= 1
    ensures |sleeps| == (if attempts == 0 then 0 else attempts - 1)
    ensures forall i :: 0 <= i < |sleeps| ==> sleeps[i] == 0.7 * (i + 1) as real
  {
    sleeps := [];
    attempts := 0;
    var attempt := 1;
    while attempt <= retries
      invariant 1 <= attempt && attempts == attempt - 1
      invariant attempt <= (if retries < 1 then 1 else retries)
      invariant Retry(outcome, attempt, retries) == Retry(outcome, 1, retries)
      invariant |sleeps| == attempts
      invariant forall i :: 0 <= i < |sleeps| ==> sleeps[i] == 0.7 * (i + 1) as real
      decreases retries - attempt
    {
      attempts := attempts + 1;
      match outcome(attempt)
      case Response(v) =>
        return Returned(v), attempts, sleeps;
      case OtherException =>
        return Raised(false), attempts, sleeps;
      case RequestException =>
        if attempt == retries {
          return Raised(true), attempts, sleeps;
        }
        sleeps := sleeps + [0.7 * attempt as real];
        attempt := attempt + 1;
    }
    r := NoAttempt;
  }

  /** `_get` returns None exactly when `retries < 1`; otherwise it returns the
      first response, provided every earlier attempt raised a
      `RequestException`; it passes on the first other error; and it re-raises
      only when all `retries` attempts raised a `RequestException`. */
  lemma {:induction false} RetryOutcome<T>(outcome: nat -> Attempt<T>, attempt: nat, retries: int)
    requires attempt >= 1
    ensures Retry(outcome, attempt, retries).NoAttempt? <==> attempt > retries
    ensures attempt <= retries ==>
      (Retry(outcome, attempt, retries) == Raised(true) <==> FailedBetween(outcome, attempt, retries + 1))
    ensures forall v :: Retry(outcome, attempt, retries) == Returned(v) <==>
      exists k: nat :: attempt <= k <= retries && FailedBetween(outcome, attempt, k) && outcome(k) == Response(v)
    ensures Retry(outcome, attempt, retries) == Raised(false) <==>
      exists k: nat :: attempt <= k <= retries && FailedBetween(outcome, attempt, k) && outcome(k).OtherException?
    decreases retries - attempt
  {
    if attempt <= retries {
      if outcome(attempt).RequestException? && attempt < retries {
        RetryOutcome(outcome, attempt + 1, retries);
        assert forall k: nat :: FailedBetween(outcome, attempt, k) && k > attempt ==> FailedBetween(outcome, attempt + 1, k);
        assert forall k: nat :: FailedBetween(outcome, attempt + 1, k) ==> FailedBetween(outcome, attempt, k);
      } else {
        assert FailedBetween(outcome, attempt, attempt);
        if outcome(attempt).RequestException? {
          assert FailedBetween(outcome, attempt, retries + 1);
        }
      }
    }
  }
}
