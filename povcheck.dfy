/**
 * Part-out-Value checking: classifying a fetched page as rate limited,
 * parsing the page's `<font>` texts into one record, and the per-item driver
 * that feeds each outcome back to the rate limiter.
 */
module PovCheck {
  import opened Wrappers
  import opened Text
  import opened RateLimit

  // ------------------------------------------------------------ detect_rate_limit

  const RateLimitStatusCodes: seq<nat> := [429, 503, 502, 504]

  const RateLimitKeywords: seq<string> := [
    "rate limit",
    "too many requests",
    "temporarily unavailable",
    "service unavailable",
    "access denied",
    "blocked",
    "captcha",
    "please try again later"
  ]

  /** Why a response was judged rate limited. */
  datatype Detection =
    | NotLimited
    | LimitStatus(status: nat)      // one of the rate-limit status codes
    | ErrorStatus(status: nat)      // any other status of 400 or above
    | LimitKeyword(keyword: string) // the lower-cased page mentions a keyword

  /** The first keyword, in list order, that occurs in `text`. */
  function FirstKeyword(text: string, keywords: seq<string>): (k: Option<string>)
    ensures k.Some? ==> k.value in keywords && Contains(text, k.value)
    ensures k.None? <==> forall i :: 0 <= i < |keywords| ==> !Contains(text, keywords[i])
    ensures k.Some? ==> exists i :: 0 <= i < |keywords| && keywords[i] == k.value &&
                          forall j :: 0 <= j < i ==> !Contains(text, keywords[j])
  {
    if keywords == [] then None
    else if Contains(text, keywords[0]) then Some(keywords[0])
    else
      var k := FirstKeyword(text, keywords[1..]);
      assert k.Some? ==> keywords[1..] == keywords[1..];
      k
  }

  /** The classification behind `detect_rate_limit`; `response` is the status of a present response. */
  function Classify(response: Option<nat>, content: string): Detection {
    if response.Some? && response.value in RateLimitStatusCodes then LimitStatus(response.value)
    else if response.Some? && response.value >= 400 then ErrorStatus(response.value)
    else
      match FirstKeyword(Lower(content), RateLimitKeywords)
      case Some(k) => LimitKeyword(k)
      case None => NotLimited
  }

  /** The reason text returned beside the flag. */
  function Reason(d: Detection): string {
    match d
    case NotLimited => ""
    case LimitStatus(s) => "HTTP " + Decimal(s) + " status code indicates rate limiting"
    case ErrorStatus(s) => "HTTP " + Decimal(s) + " error status code"
    case LimitKeyword(k) => "Content contains rate limit indicator: '" + k + "'"
  }

  /** `detect_rate_limit(response, content)`: the flag and its reason. */
  function DetectRateLimit(response: Option<nat>, content: string): (bool, string) {
    var d := Classify(response, content);
    (!d.NotLimited?, Reason(d))
  }

  /**
   * A response is flagged exactly when it has an error status (400 or above,
   * which covers every rate-limit code) or its lower-cased text contains one
   * of the keywords; an unflagged result is exactly `(False, "")` and a
   * flagged one always carries a reason.
   */
  lemma DetectRateLimitSpec(response: Option<nat>, content: string)
    ensures DetectRateLimit(response, content).0 <==>
      (response.Some? && response.value >= 400) ||
      exists i :: 0 <= i < |RateLimitKeywords| && Contains(Lower(content), RateLimitKeywords[i])
    ensures !DetectRateLimit(response, content).0 <==> DetectRateLimit(response, content) == (false, "")
  {
  }

  /** A response with a rate-limit status is reported as such, whatever the page says. */
  lemma StatusBeforeContent(status: nat, content: string)
    requires status in RateLimitStatusCodes
    ensures Classify(Some(status), content) == LimitStatus(status)
    ensures DetectRateLimit(Some(status), content).0
  {
  }

  // ------------------------------------------------------------ parse_results_to_table

  datatype PovRecord = PovRecord(
    itemNumber: string,
    povPastSixMonths: Option<string>,
    povPastSixMonthsVolume: Option<string>,
    povCurrentListings: Option<string>,
    povCurrentListingsVolume: Option<string>)

  predicate IsPriceLine(line: string) {
    '$' in line
  }

  /** `"parts[1]|parts[4]"` of a line that mentions `Including` and splits on single spaces into at least five parts. */
  function VolumeOf(line: string): Option<string> {
    var parts := Split(line, ' ');
    if Contains(line, "Including") && |parts| >= 5 then Some(parts[1] + "|" + parts[4]) else None
  }

  /** The lines that hold a price, in order. */
  function PriceLines(lines: seq<string>): seq<string> {
    if lines == [] then []
    else
      var last := lines[|lines| - 1];
      PriceLines(lines[..|lines| - 1]) + (if IsPriceLine(last) then [last] else [])
  }

  /** The volume entries of the lines, in order. */
  function VolumeEntries(lines: seq<string>): seq<string> {
    if lines == [] then []
    else
      var v := VolumeOf(lines[|lines| - 1]);
      VolumeEntries(lines[..|lines| - 1]) + (if v.Some? then [v.value] else [])
  }

  function FirstOf(s: seq<string>): Option<string> {
    if s == [] then None else Some(s[0])
  }

  /** The last entry, provided there is an earlier one. */
  function LaterLast(s: seq<string>): Option<string> {
    if |s| < 2 then None else Some(s[|s| - 1])
  }

  /** The record `parse_results_to_table` builds from a non-empty list of texts. */
  function PovRecordOf(lines: seq<string>, itemNumber: string): PovRecord {
    var prices, volumes := PriceLines(lines), VolumeEntries(lines);
    PovRecord(itemNumber, FirstOf(prices), FirstOf(volumes), LaterLast(prices), LaterLast(volumes))
  }

  lemma PriceLinesSnoc(lines: seq<string>, line: string)
    ensures PriceLines(lines + [line]) == PriceLines(lines) + (if IsPriceLine(line) then [line] else [])
  {
    assert (lines + [line])[..|lines|] == lines;
  }

  /** One more entry: it becomes the first when there was none, the later-last otherwise. */
  lemma FirstLaterSnoc(s: seq<string>, x: string)
    ensures FirstOf(s + [x]) == if s == [] then Some(x) else FirstOf(s)
    ensures LaterLast(s + [x]) == if s == [] then None else Some(x)
  {
    if s != [] {
      assert (s + [x])[0] == s[0];
    }
  }

  lemma VolumeEntriesSnoc(lines: seq<string>, line: string)
    ensures VolumeEntries(lines + [line]) ==
      VolumeEntries(lines) + (if VolumeOf(line).Some? then [VolumeOf(line).value] else [])
  {
    assert (lines + [line])[..|lines|] == lines;
  }

  /** `parse_results_to_table(results, item_number)`: one pass over the texts. */
  method ParseResultsToTable(results: seq<string>, itemNumber: string) returns (table: Option<PovRecord>)
    ensures results == [] <==> table.None?
    ensures table.Some? ==> table.value == PovRecordOf(results, itemNumber)
  {
    if results == [] {
      return None;
    }
    var pastSixMonths: Option<string> := None;
    var pastSixMonthsVolume: Option<string> := None;
    var currentListings: Option<string> := None;
    var currentListingsVolume: Option<string> := None;
    var i := 0;
    while i < |results|
      invariant 0 <= i <= |results|
      invariant pastSixMonths == FirstOf(PriceLines(results[..i]))
      invariant currentListings == LaterLast(PriceLines(results[..i]))
      invariant pastSixMonthsVolume == FirstOf(VolumeEntries(results[..i]))
      invariant currentListingsVolume == LaterLast(VolumeEntries(results[..i]))
    {
      var lineText := results[i];
      assert results[..i + 1] == results[..i] + [lineText];
      PriceLinesSnoc(results[..i], lineText);
      VolumeEntriesSnoc(results[..i], lineText);
      if '$' in lineText {
        FirstLaterSnoc(PriceLines(results[..i]), lineText);
        if pastSixMonths.None? {
          pastSixMonths := Some(lineText);
        } else {
          currentListings := Some(lineText);
        }
      }
      if Contains(lineText, "Including") {
        var parts := Split(lineText, ' ');
        if |parts| >= 5 {
          FirstLaterSnoc(VolumeEntries(results[..i]), parts[1] + "|" + parts[4]);
          if pastSixMonthsVolume.None? {
            pastSixMonthsVolume := Some(parts[1] + "|" + parts[4]);
          } else {
            currentListingsVolume := Some(parts[1] + "|" + parts[4]);
          }
        }
      }
      i := i + 1;
    }
    assert results[..i] == results;
    return Some(PovRecord(itemNumber, pastSixMonths, pastSixMonthsVolume, currentListings, currentListingsVolume));
  }

  /** The price lines are the lines that mention `$`, in order and with their multiplicity. */
  lemma PriceLinesSpec(lines: seq<string>)
    ensures forall k :: 0 <= k < |PriceLines(lines)| ==> IsPriceLine(PriceLines(lines)[k])
    ensures forall k :: 0 <= k < |lines| && IsPriceLine(lines[k]) ==> lines[k] in PriceLines(lines)
    ensures PriceLines(lines) == [] <==> forall k :: 0 <= k < |lines| ==> !IsPriceLine(lines[k])
  {
    PriceLinesComplete(lines);
    forall k | 0 <= k < |PriceLines(lines)|
      ensures IsPriceLine(PriceLines(lines)[k])
    {
      PriceLineMember(lines, PriceLines(lines)[k]);
    }
    if PriceLines(lines) != [] {
      PriceLineMember(lines, PriceLines(lines)[0]);
    }
  }

  /** Every line that mentions `$` is among the price lines. */
  lemma {:induction false} PriceLinesComplete(lines: seq<string>)
    ensures forall k :: 0 <= k < |lines| && IsPriceLine(lines[k]) ==> lines[k] in PriceLines(lines)
  {
    if lines != [] {
      var init := lines[..|lines| - 1];
      PriceLinesComplete(init);
      forall k | 0 <= k < |lines| && IsPriceLine(lines[k])
        ensures lines[k] in PriceLines(lines)
      {
        if k < |init| {
          assert lines[k] == init[k];
        }
      }
    }
  }

  /**
   * The past-six-months value is the first line that mentions `$`: no earlier
   * line mentions one.
   */
  lemma PastSixMonthsIsFirstPriceLine(lines: seq<string>, itemNumber: string)
    ensures var past := PovRecordOf(lines, itemNumber).povPastSixMonths;
      past.Some? <==> exists k :: 0 <= k < |lines| && IsPriceLine(lines[k])
    ensures var past := PovRecordOf(lines, itemNumber).povPastSixMonths;
      past.Some? ==> exists k :: 0 <= k < |lines| && lines[k] == past.value && IsPriceLine(lines[k]) &&
                       forall j :: 0 <= j < k ==> !IsPriceLine(lines[j])
  {
    PriceLinesSpec(lines);
    if PriceLines(lines) != [] {
      FirstPriceLine(lines);
    }
  }

  lemma {:induction false} FirstPriceLine(lines: seq<string>)
    requires PriceLines(lines) != []
    ensures exists k :: 0 <= k < |lines| && lines[k] == PriceLines(lines)[0] && IsPriceLine(lines[k]) &&
                        forall j :: 0 <= j < k ==> !IsPriceLine(lines[j])
  {
    var init, last := lines[..|lines| - 1], lines[|lines| - 1];
    if PriceLines(init) != [] {
      FirstPriceLine(init);
      var k :| 0 <= k < |init| && init[k] == PriceLines(init)[0] && IsPriceLine(init[k]) &&
               forall j :: 0 <= j < k ==> !IsPriceLine(init[j]);
      assert lines[k] == init[k];
      assert forall j :: 0 <= j < k ==> lines[j] == init[j];
    } else {
      PriceLinesSpec(init);
      assert PriceLines(lines) == [last];
      assert forall j :: 0 <= j < |init| ==> lines[j] == init[j];
    }
  }

  /**
   * The current-listings value is the last line that mentions `$`, and only
   * when some earlier line mentions one too; no later line mentions one.
   */
  lemma {:induction false} CurrentListingsIsLastPriceLine(lines: seq<string>, itemNumber: string)
    ensures var current := PovRecordOf(lines, itemNumber).povCurrentListings;
      current.Some? ==> exists k :: LastPriceLineAt(lines, k) && lines[k] == current.value
  {
    if lines != [] {
      var init, last := lines[..|lines| - 1], lines[|lines| - 1];
      var current := PovRecordOf(lines, itemNumber).povCurrentListings;
      if current.Some? {
        if IsPriceLine(last) {
          assert PriceLines(lines) == PriceLines(init) + [last];
          LastLineIsLastPriceLine(lines);
        } else {
          assert PriceLines(lines) == PriceLines(init);
          CurrentListingsIsLastPriceLine(init, itemNumber);
          var k :| LastPriceLineAt(init, k) && init[k] == current.value;
          LastPriceLineExtends(lines, k);
        }
      }
    }
  }

  /** The current-listings value is set exactly when two lines mention `$`. */
  lemma CurrentListingsSet(lines: seq<string>, itemNumber: string)
    ensures PovRecordOf(lines, itemNumber).povCurrentListings.Some? <==>
      exists j, k :: 0 <= j < k < |lines| && IsPriceLine(lines[j]) && IsPriceLine(lines[k])
  {
    if exists j, k :: 0 <= j < k < |lines| && IsPriceLine(lines[j]) && IsPriceLine(lines[k]) {
      var j, k :| 0 <= j < k < |lines| && IsPriceLine(lines[j]) && IsPriceLine(lines[k]);
      TwoPriceLines(lines, j, k);
    }
    var current := PovRecordOf(lines, itemNumber).povCurrentListings;
    if current.Some? {
      CurrentListingsIsLastPriceLine(lines, itemNumber);
      var k :| LastPriceLineAt(lines, k) && lines[k] == current.value;
      var j :| 0 <= j < k && IsPriceLine(lines[j]);
    }
  }

  /** Two lines that mention `$` give two price lines. */
  lemma {:induction false} TwoPriceLines(lines: seq<string>, j: int, k: int)
    requires 0 <= j < k < |lines| && IsPriceLine(lines[j]) && IsPriceLine(lines[k])
    ensures |PriceLines(lines)| >= 2
  {
    var n := |lines| - 1;
    var init := lines[..n];
    assert init[j] == lines[j];
    if k == n {
      PriceLinesComplete(init);
      assert PriceLines(lines) == PriceLines(init) + [lines[n]];
    } else {
      assert init[k] == lines[k];
      TwoPriceLines(init, j, k);
    }
  }

  /** Line `k` mentions `$`, no later line does, and some earlier line does. */
  ghost predicate LastPriceLineAt(lines: seq<string>, k: int) {
    && 0 <= k < |lines| && IsPriceLine(lines[k])
    && (forall j :: k < j < |lines| ==> !IsPriceLine(lines[j]))
    && (exists j :: 0 <= j < k && IsPriceLine(lines[j]))
  }

  lemma LastLineIsLastPriceLine(lines: seq<string>)
    requires lines != [] && IsPriceLine(lines[|lines| - 1])
    requires PriceLines(lines[..|lines| - 1]) != []
    ensures LastPriceLineAt(lines, |lines| - 1)
  {
    var init := lines[..|lines| - 1];
    PriceLineMember(init, PriceLines(init)[0]);
    var j :| 0 <= j < |init| && init[j] == PriceLines(init)[0] && IsPriceLine(init[j]);
    assert lines[j] == init[j];
  }

  lemma LastPriceLineExtends(lines: seq<string>, k: int)
    requires lines != [] && !IsPriceLine(lines[|lines| - 1])
    requires LastPriceLineAt(lines[..|lines| - 1], k)
    ensures LastPriceLineAt(lines, k)
  {
    var init := lines[..|lines| - 1];
    assert lines[k] == init[k];
    forall j | k < j < |lines|
      ensures !IsPriceLine(lines[j])
    {
      if j < |init| {
        assert lines[j] == init[j];
      }
    }
    var j :| 0 <= j < k && IsPriceLine(init[j]);
    assert lines[j] == init[j];
  }

  /** Every price line is one of the lines. */
  lemma {:induction false} PriceLineMember(lines: seq<string>, x: string)
    requires x in PriceLines(lines)
    ensures exists k :: 0 <= k < |lines| && lines[k] == x && IsPriceLine(x)
  {
    var init, last := lines[..|lines| - 1], lines[|lines| - 1];
    if x in PriceLines(init) {
      PriceLineMember(init, x);
      var k :| 0 <= k < |init| && init[k] == x && IsPriceLine(x);
      assert lines[k] == x;
    } else {
      assert x == last && IsPriceLine(last);
      assert lines[|lines| - 1] == x;
    }
  }

  /** A volume entry is two single-space-free words joined by `|`. */
  lemma VolumeShape(line: string)
    requires VolumeOf(line).Some?
    ensures exists a, b :: VolumeOf(line).value == a + "|" + b && ' ' !in a && ' ' !in b
    ensures Contains(line, "Including")
  {
    var parts := Split(line, ' ');
    assert ' ' !in parts[1] && ' ' !in parts[4];
  }

  // ------------------------------------------------------------ check_pov_custom

  /** What happened when one item's page was requested. */
  datatype PageResult =
    | Fetched(response: Option<nat>, content: string, fonts: seq<string>)
        // the page loaded; `fonts` are the texts of its `<font>` elements
    | FetchFailed   // `fetch_pov_page` caught an exception: no page, no response
    | Raised        // an exception escaped into the driver's own handler

  /** One item's attempt: its page result and the environment it met. */
  datatype Attempt = Attempt(
    result: PageResult,
    jitterSample: real, // the draw behind `random.uniform`, scaled to [-1, 1]
    overrun: real,        // extra seconds the throttling sleep lasted
    busy: real)           // seconds spent fetching and parsing

  predicate WellTimed(a: Attempt) {
    -1.0 <= a.jitterSample <= 1.0 && a.overrun >= 0.0 && a.busy >= 0.0
  }

  /** The attempts that end in `record_success`: a page that is not rate limited and has `<font>` texts. */
  predicate Succeeds(r: PageResult) {
    r.Fetched? && !DetectRateLimit(r.response, r.content).0 && r.fonts != []
  }

  /** The records the driver collects: one per succeeding attempt, in order. */
  function Harvest(items: seq<string>, attempts: seq<Attempt>): seq<PovRecord>
    requires |items| == |attempts|
  {
    if items == [] then []
    else
      var n := |items| - 1;
      var r := attempts[n].result;
      Harvest(items[..n], attempts[..n]) + (if Succeeds(r) then [PovRecordOf(r.fonts, items[n])] else [])
  }

  /** Whether each attempt ends in `record_success`. */
  function Flags(attempts: seq<Attempt>): (flags: seq<bool>)
    ensures |flags| == |attempts|
    ensures forall i :: 0 <= i < |attempts| ==> (flags[i] <==> Succeeds(attempts[i].result))
  {
    seq(|attempts|, i requires 0 <= i < |attempts| => Succeeds(attempts[i].result))
  }

  lemma FlagsStep(attempts: seq<Attempt>, idx: nat)
    requires idx < |attempts|
    ensures Flags(attempts[..idx + 1]) == Flags(attempts[..idx]) + [Succeeds(attempts[idx].result)]
  {
  }

  /** One record per success: the records number the successful attempts. */
  lemma {:induction false} HarvestCount(items: seq<string>, attempts: seq<Attempt>)
    requires |items| == |attempts|
    ensures |Harvest(items, attempts)| == CountTrue(Flags(attempts))
  {
    if items != [] {
      var n := |items| - 1;
      HarvestCount(items[..n], attempts[..n]);
      assert Flags(attempts)[..n] == Flags(attempts[..n]);
    }
  }

  function CountTrue(s: seq<bool>): nat {
    if s == [] then 0 else CountTrue(s[..|s| - 1]) + (if s[|s| - 1] then 1 else 0)
  }

  /**
   * `check_pov_custom` over the items, with each item's page result, jitter
   * and timing given. Every item leads to exactly one `record_success` or
   * `record_failure` (`calls`), a record is kept exactly when the call is a
   * success, and the records follow the order of the items.
   */
  method CheckPovCustom(items: seq<string>, attempts: seq<Attempt>, start: real)
    returns (itemInfo: seq<PovRecord>, ghost calls: seq<bool>)
    requires |attempts| == |items|
    requires forall i :: 0 <= i < |attempts| ==> WellTimed(attempts[i])
    ensures |calls| == |items|
    ensures forall i :: 0 <= i < |items| ==> (calls[i] <==> Succeeds(attempts[i].result))
    ensures itemInfo == Harvest(items, attempts)
    ensures |itemInfo| == CountTrue(calls) <= |items|
  {
    if items == [] {
      return [], [];
    }
    var rateLimiter := new RateLimiter();
    itemInfo := [];
    var clock := start;
    var idx := 0;
    while idx < |items|
      invariant 0 <= idx <= |items|
      invariant fresh(rateLimiter) && rateLimiter.Valid()
      invariant rateLimiter.consecutiveFailures <= MaxConsecutiveFailures
      invariant rateLimiter.requestLog != [] ==> clock >= rateLimiter.requestLog[|rateLimiter.requestLog| - 1]
      invariant rateLimiter.outcomes == Flags(attempts[..idx])
      invariant itemInfo == Harvest(items[..idx], attempts[..idx])
    {
      var record;
      ghost var stamp;
      record, clock, stamp := CheckItem(rateLimiter, items[idx], attempts[idx], clock);
      if record.Some? {
        itemInfo := itemInfo + [record.value];
      }
      HarvestStep(items, attempts, idx);
      FlagsStep(attempts, idx);
      idx := idx + 1;
    }
    assert items[..idx] == items && attempts[..idx] == attempts;
    calls := rateLimiter.outcomes;
    HarvestCount(items, attempts);
    CountTrueBound(calls);
  }

  /**
   * One pass of the driver's loop for one item: wait, pause when too many
   * failures came in a row, then record a failure for a rate-limited,
   * missing or empty page and a success, with the parsed record, otherwise.
   */
  method CheckItem(rateLimiter: RateLimiter, itemNumber: string, attempt: Attempt, clock: real)
    returns (record: Option<PovRecord>, clockAfter: real, ghost stamp: real)
    requires rateLimiter.Valid() && WellTimed(attempt)
    requires rateLimiter.consecutiveFailures <= MaxConsecutiveFailures
    requires rateLimiter.requestLog != [] ==> clock >= rateLimiter.requestLog[|rateLimiter.requestLog| - 1]
    modifies rateLimiter
    ensures rateLimiter.Valid()
    ensures rateLimiter.consecutiveFailures <= MaxConsecutiveFailures
    ensures rateLimiter.requestLog != [] && clockAfter >= rateLimiter.requestLog[|rateLimiter.requestLog| - 1]
    ensures stamp == clock + ThrottleWait(Prune(old(rateLimiter.requestTimestamps), clock - WindowSeconds), clock) + attempt.overrun
    ensures rateLimiter.requestLog == old(rateLimiter.requestLog) + [stamp]
    ensures rateLimiter.requestTimestamps == Prune(old(rateLimiter.requestTimestamps), clock - WindowSeconds) + [stamp]
    ensures var paused := old(rateLimiter.consecutiveFailures) >= MaxConsecutiveFailures;
      var failures := if paused then 0 else old(rateLimiter.consecutiveFailures);
      var delay := if paused then BaseWaitTimeMs else old(rateLimiter.currentDelayMs);
      && rateLimiter.consecutiveFailures == (if Succeeds(attempt.result) then 0 else failures + 1)
      && rateLimiter.currentDelayMs == (if Succeeds(attempt.result) then ReducedDelay(delay) else BackedOffDelay(delay))
    ensures clockAfter == ClockAfter(stamp,
      old(rateLimiter.DelayWithJitter(Uniform(rateLimiter.JitterRange(), attempt.jitterSample))),
      old(rateLimiter.consecutiveFailures) >= MaxConsecutiveFailures, attempt.busy)
    ensures rateLimiter.outcomes == old(rateLimiter.outcomes) + [Succeeds(attempt.result)]
    ensures Succeeds(attempt.result) ==> record == Some(PovRecordOf(attempt.result.fonts, itemNumber))
    ensures !Succeeds(attempt.result) ==> record == None
  {
    clockAfter, stamp := WaitAndPause(rateLimiter, attempt, clock);
    record := RecordOutcome(rateLimiter, itemNumber, attempt.result);
  }

  /**
   * The part of one pass before the fetch: `wait`, then the extended pause
   * with its reset when too many failures came in a row.
   */
  method WaitAndPause(rateLimiter: RateLimiter, attempt: Attempt, clock: real)
    returns (clockAfter: real, ghost stamp: real)
    requires rateLimiter.Valid() && WellTimed(attempt)
    requires rateLimiter.consecutiveFailures <= MaxConsecutiveFailures
    requires rateLimiter.requestLog != [] ==> clock >= rateLimiter.requestLog[|rateLimiter.requestLog| - 1]
    modifies rateLimiter
    ensures rateLimiter.Valid()
    ensures rateLimiter.consecutiveFailures < MaxConsecutiveFailures
    ensures stamp == clock + ThrottleWait(Prune(old(rateLimiter.requestTimestamps), clock - WindowSeconds), clock) + attempt.overrun
    ensures rateLimiter.requestLog == old(rateLimiter.requestLog) + [stamp]
    ensures rateLimiter.requestTimestamps == Prune(old(rateLimiter.requestTimestamps), clock - WindowSeconds) + [stamp]
    ensures var paused := old(rateLimiter.consecutiveFailures) >= MaxConsecutiveFailures;
      && rateLimiter.consecutiveFailures == (if paused then 0 else old(rateLimiter.consecutiveFailures))
      && rateLimiter.currentDelayMs == (if paused then BaseWaitTimeMs else old(rateLimiter.currentDelayMs))
    ensures clockAfter == ClockAfter(stamp,
      old(rateLimiter.DelayWithJitter(Uniform(rateLimiter.JitterRange(), attempt.jitterSample))),
      old(rateLimiter.consecutiveFailures) >= MaxConsecutiveFailures, attempt.busy)
    ensures clockAfter >= stamp
    ensures rateLimiter.outcomes == old(rateLimiter.outcomes)
  {
    var throttled, delayMs := rateLimiter.Wait(clock, attempt.jitterSample, attempt.overrun);
    stamp := clock + throttled + attempt.overrun;
    var paused := PauseIfNeeded(rateLimiter);
    clockAfter := ClockAfter(clock + throttled + attempt.overrun, delayMs, paused, attempt.busy);
  }

  /**
   * The clock after one item: the request stamp, then the jittered delay,
   * the extended pause when it is taken, and the fetch.
   */
  function ClockAfter(stamp: real, delayMs: real, paused: bool, busy: real): (after: real)
    ensures delayMs >= 0.0 && busy >= 0.0 ==> after >= stamp
    ensures paused && delayMs >= 0.0 && busy >= 0.0 ==> after >= stamp + ExtendedPauseSeconds
  {
    stamp + delayMs / 1000.0 + (if paused then ExtendedPauseSeconds else 0.0) + busy
  }

  /**
   * The extended pause of the driver's loop: taken, with the failure count
   * and the delay reset, exactly when too many failures came in a row.
   */
  method PauseIfNeeded(rateLimiter: RateLimiter) returns (paused: bool)
    requires rateLimiter.Valid() && rateLimiter.consecutiveFailures <= MaxConsecutiveFailures
    modifies rateLimiter
    ensures rateLimiter.Valid() && rateLimiter.consecutiveFailures < MaxConsecutiveFailures
    ensures paused <==> old(rateLimiter.consecutiveFailures) >= MaxConsecutiveFailures
    ensures rateLimiter.consecutiveFailures == if paused then 0 else old(rateLimiter.consecutiveFailures)
    ensures rateLimiter.currentDelayMs == if paused then BaseWaitTimeMs else old(rateLimiter.currentDelayMs)
    ensures rateLimiter.requestTimestamps == old(rateLimiter.requestTimestamps)
    ensures rateLimiter.requestLog == old(rateLimiter.requestLog)
    ensures rateLimiter.outcomes == old(rateLimiter.outcomes)
  {
    paused := rateLimiter.ShouldPauseExtended();
    if paused {
      rateLimiter.ResetAfterPause();
    }
  }

  /**
   * The verdict on one fetched page: a failure for a rate-limited, missing or
   * empty page, a success with the parsed record otherwise.
   */
  method RecordOutcome(rateLimiter: RateLimiter, itemNumber: string, result: PageResult)
    returns (record: Option<PovRecord>)
    requires rateLimiter.Valid()
    requires rateLimiter.consecutiveFailures < MaxConsecutiveFailures
    modifies rateLimiter
    ensures rateLimiter.Valid()
    ensures rateLimiter.consecutiveFailures <= MaxConsecutiveFailures
    ensures rateLimiter.requestLog == old(rateLimiter.requestLog)
    ensures rateLimiter.requestTimestamps == old(rateLimiter.requestTimestamps)
    ensures rateLimiter.currentDelayMs ==
      if Succeeds(result) then ReducedDelay(old(rateLimiter.currentDelayMs)) else BackedOffDelay(old(rateLimiter.currentDelayMs))
    ensures rateLimiter.consecutiveFailures == if Succeeds(result) then 0 else old(rateLimiter.consecutiveFailures) + 1
    ensures rateLimiter.outcomes == old(rateLimiter.outcomes) + [Succeeds(result)]
    ensures Succeeds(result) ==> record == Some(PovRecordOf(result.fonts, itemNumber))
    ensures !Succeeds(result) ==> record == None
  {
    record := None;
    match result {
      case Fetched(response, content, fonts) =>
        var (isRateLimited, _) := DetectRateLimit(response, content);
        if isRateLimited || fonts == [] {
          rateLimiter.RecordFailure();
        } else {
          record := ParseResultsToTable(fonts, itemNumber);
          if record.Some? {
            rateLimiter.RecordSuccess();
          } else {
            assert false;
          }
        }
      case FetchFailed =>
        rateLimiter.RecordFailure();
      case Raised =>
        rateLimiter.RecordFailure();
    }
  }

  /** The records of one more item: the earlier ones, then this item's record if it succeeds. */
  lemma HarvestStep(items: seq<string>, attempts: seq<Attempt>, idx: nat)
    requires |items| == |attempts| && idx < |items|
    ensures Harvest(items[..idx + 1], attempts[..idx + 1]) ==
      Harvest(items[..idx], attempts[..idx])
      + (if Succeeds(attempts[idx].result) then [PovRecordOf(attempts[idx].result.fonts, items[idx])] else [])
  {
    assert items[..idx + 1][..idx] == items[..idx];
    assert attempts[..idx + 1][..idx] == attempts[..idx];
  }

  lemma {:induction false} CountTrueBound(s: seq<bool>)
    ensures CountTrue(s) <= |s|
  {
    if s != [] {
      CountTrueBound(s[..|s| - 1]);
    }
  }
}
