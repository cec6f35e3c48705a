# LEGO catalogue scrapers: a Dafny model

The repository's scrapers collect the LEGO store catalogue in three stages:

- `find_all_themes` reads the theme links off the themes page.
- `scrape_lego` walks every theme's product-listing pages and reads one record per product tile.
- `check_pov_custom` looks up the part-out value of every set. It paces its requests with an adaptive rate limiter.

Between the stages, `run_all_scrapers.py` cleans the table of sets, and `supabase_client.py` normalises records before writing them.

This project models the logic that sits between the browser and the database, with the page contents, the clock and the random draws given as inputs. The modules are:

- `Text`: the Python string operations the scrapers use. These are `in` on substrings, `split`, `rstrip`, `replace`, ASCII `lower` and `isdigit`, and decimal rendering.
- `Seqs`: order-keeping selection, meaning a subsequence.
- `RateLimit`: the `RateLimiter` class of `check_pov.py`. Its fields are updated in place by its methods.
  - A ghost log of every recorded request lets the class keep an invariant: no 60-second window ever holds more than 10 recorded request timestamps.
  - A ghost list of outcomes records every `record_success` and `record_failure` call.
- `PovCheck`:
  - `detect_rate_limit`;
  - the single-pass parser `parse_results_to_table`;
  - the per-item loop of `check_pov_custom`, driven by one given outcome per item.
- `Overview`:
  - `build_page_url`;
  - the regular-expression price patterns, written as hand parsers;
  - the extraction of one product tile;
  - the pagination loop of one theme, and the loop over themes.
- `Themes`: the selector fallback and the theme-slug extraction of `find_all_themes`.
- `Upsert`: the cleaning loop of `upsert_lego_sets`, and the True/False result of the three upsert helpers.
- `Pipeline`:
  - the theme-name hand-over of `run_all_scrapers.py`;
  - its table filters: duplicate removal, the null item-number filter, the piece-count sentinel filter, `to_numeric` coercion and the `>= 10` threshold.

Operations that loop or update state in the source are methods. Each one states its result, or the object's new state, in terms of specification functions of its inputs and old state, and the properties are then proved about those functions. Examples are `ParseResultsToTable`, `CheckPovCustom`, `ScrapeTheme`, `ExtractThemes` and `CleanSets`.

## Model

| member | source | states |
|---|---|---|
| RateLimit.RateLimiter.constructor | scrapers/check_pov.py:110-119 | The limiter starts at the base delay of 5000 ms with no failures and no timestamps, and its invariant holds. |
| RateLimit.RateLimiter.JitterRange | scrapers/check_pov.py:128-129 | The jitter range is positive and smaller than the current delay. |
| RateLimit.Uniform | scrapers/check_pov.py:130 | The jitter drawn by `random.uniform(-range, range)` lies within ±range, with the sign of the given draw. |
| RateLimit.RateLimiter.DelayWithJitter | scrapers/check_pov.py:121-136 | The delay is clamped to [3000, 60000] ms. It lies within 20% of the current delay, and equals delay plus jitter when that sum is already inside the bounds. |
| RateLimit.ReducedDelay | scrapers/check_pov.py:145-149 | The decayed delay never rises and never falls below 3000 ms. It strictly falls exactly when the delay was above 3000 ms. |
| RateLimit.RateLimiter.RecordSuccess | scrapers/check_pov.py:138-152 | The delay becomes the decayed delay and the failure count 0. The timestamps are unchanged, one success is logged, and the delay bounds still hold. |
| RateLimit.BackedOffDelay | scrapers/check_pov.py:161-165 | The backed-off delay never falls and never exceeds 60000 ms. It strictly rises exactly when the delay was below 60000 ms. |
| RateLimit.RateLimiter.RecordFailure | scrapers/check_pov.py:154-168 | The delay becomes the backed-off delay and the failure count rises by exactly 1. The timestamps are unchanged, one failure is logged, and the bounds still hold. |
| RateLimit.RateLimiter.ResetAfterPause | scrapers/check_pov.py:371-377 | It applies only when `should_pause_extended` holds (at least 3 failures). Afterwards the count is 0, the delay is 5000 ms and the timestamps are unchanged. |
| RateLimit.PruneSpec | scrapers/check_pov.py:188-191 | Pruning keeps exactly the timestamps later than the cutoff, in their order. |
| RateLimit.PruneTwice | scrapers/check_pov.py:188-191 | Pruning at an earlier cutoff and then a later one is pruning at the later one. |
| RateLimit.PruneMonotone | scrapers/check_pov.py:188-191 | A later cutoff keeps no more timestamps. |
| RateLimit.PruneDrops | scrapers/check_pov.py:188-191 | A timestamp at or before the cutoff is removed, so the list gets shorter. |
| RateLimit.Oldest | scrapers/check_pov.py:195 | `min` of the kept timestamps is one of them and no larger than any of them. |
| RateLimit.ThrottleWaitSpec | scrapers/check_pov.py:193-197 | With every kept timestamp inside the last minute, the wait is never negative. It is positive exactly when at least 10 timestamps remain, and then lasts until the oldest of them has left the window. |
| RateLimit.Throttle | scrapers/check_pov.py:187-202 | The kept list is the timestamps of the last minute, and the wait is the throttling wait for them. |
| RateLimit.RateLimiter.WaitForThrottle | scrapers/check_pov.py:179-205 | The timestamps become the pruned list plus exactly one new stamp, taken after the wait. The wait is the throttling wait, the delay and count are unchanged, and the invariant is kept. |
| RateLimit.KeepsWindowBound | scrapers/check_pov.py:179-205 | Appending a stamp taken after the throttling wait keeps the log sorted and the pruned list in step with it. Every 60-second window still holds at most 10 recorded request timestamps. |
| RateLimit.WindowIsPrune | scrapers/check_pov.py:188-194 | For a sorted log with nothing after `t`, the requests in the minute ending at `t` are the ones pruning at `t − 60` keeps. |
| RateLimit.WindowSnoc | scrapers/check_pov.py:204-205 | An appended request counts in a window exactly when its stamp lies inside it. |
| RateLimit.WindowBeforeStamp | scrapers/check_pov.py:193-205 | Before the new stamp, any window reaching the stamp holds fewer than 10 requests. |
| RateLimit.FullWindowDrops | scrapers/check_pov.py:193-202 | When the window was full, a window ending after the wait has lost at least one request. |
| RateLimit.RateLimiter.Wait | scrapers/check_pov.py:207-226 | Throttling comes first, with the effects above. The returned delay is the jittered delay and lies in [3000, 60000] ms. |
| PovCheck.FirstKeyword | scrapers/check_pov.py:271-273 | The keyword reported is the first one in list order that occurs in the text. None is returned exactly when no keyword occurs. |
| PovCheck.DetectRateLimitSpec | scrapers/check_pov.py:229-275 | A page is flagged exactly when it has a status of 400 or above, or its lower-cased text contains one of the eight keywords. An unflagged result is exactly `(False, "")`. |
| PovCheck.StatusBeforeContent | scrapers/check_pov.py:245-250 | A status of 429, 503, 502 or 504 is reported as rate limiting, whatever the page text says. |
| PovCheck.ParseResultsToTable | scrapers/check_pov.py:431-481 | None is returned exactly for an empty list. Otherwise the record is built from the price lines and volume entries, with the item number echoed. |
| PovCheck.PriceLinesSpec | scrapers/check_pov.py:456-460 | Every price line holds `$`, and every line holding `$` is among the price lines. There are none exactly when no line holds `$`. |
| PovCheck.PastSixMonthsIsFirstPriceLine | scrapers/check_pov.py:456-458 | `pov_past_6_months` is None exactly when no line holds `$`. Otherwise it is a line holding `$` with no such line before it. |
| PovCheck.CurrentListingsIsLastPriceLine | scrapers/check_pov.py:456-460 | When `pov_current_listings` is set, it is a line holding `$` with no such line after it and at least one before it. |
| PovCheck.CurrentListingsSet | scrapers/check_pov.py:456-460 | `pov_current_listings` is set exactly when two lines hold `$`. |
| PovCheck.VolumeShape | scrapers/check_pov.py:462-468 | A volume entry comes from a line mentioning `Including`. It is two space-free words joined by `|`. |
| PovCheck.FirstLaterSnoc | scrapers/check_pov.py:457-468 | A new entry becomes the first value when there was none, and otherwise overwrites the later value. |
| PovCheck.HarvestCount | scrapers/check_pov.py:406-412 | The records collected are exactly as many as the successes. |
| PovCheck.RecordOutcome | scrapers/check_pov.py:380-423 | Each outcome leads to exactly one `record_failure` or `record_success`, and a record only with a success. A success leaves the reduced delay and no failures; a failure leaves the backed-off delay and one more failure. The timestamps are unchanged. The parse-failure branch is shown unreachable, and the limiter invariant is kept. |
| PovCheck.CheckItem | scrapers/check_pov.py:366-423 | One item is handled as wait, optional extended pause and reset, then the outcome. Exactly one request stamp is logged, taken after the throttling wait, and the timestamps become the pruned list plus that stamp. The failure count and delay are those of the outcome, applied to the values after the optional reset. The clock after the item is the stamp plus the jittered delay, the pause when taken, and the fetch time. A record comes only with a success. |
| PovCheck.WaitAndPause | scrapers/check_pov.py:366-376 | `wait`, then the extended pause: one stamp logged after the throttling wait; the failure count and delay reset exactly when the count had reached the limit; the clock advanced by the jittered delay and, when paused, 300 seconds. |
| PovCheck.PauseIfNeeded | scrapers/check_pov.py:371-376 | The pause is taken exactly when the failure count has reached the limit, and then resets the count to 0 and the delay to the base delay. Nothing else changes. |
| PovCheck.ClockAfter | scrapers/check_pov.py:220-226 | The clock after an item is never before its request stamp, and at least 300 seconds after it when the extended pause is taken. |
| PovCheck.CheckPovCustom | scrapers/check_pov.py:363-429 | There is one outcome call per item, a success exactly when the page succeeds. The records follow item order, one per success, so there are no more records than items. |
| Overview.BuildPageUrlShape | scrapers/scrape_lego_overview.py:117-124 | The URL is the base, then `&page=` when the base has a `?` and `?page=` otherwise, then the number. It always has a `?`. |
| Overview.BuildPageUrlExtends | scrapers/scrape_lego_overview.py:117-124 | The page URL starts with the base. |
| Overview.PageNumberRecoverable | scrapers/scrape_lego_overview.py:121-124 | The text after the URL's last `=` is the page number in decimal, and reads back as it. |
| Overview.BuildPageUrlInjective | scrapers/scrape_lego_overview.py:117-124 | Different page numbers give different URLs. |
| Overview.PageUrlSpec | scrapers/scrape_lego_overview.py:167-174 | Every URL the loop requests extends the theme URL. Distinct pages beyond the first get distinct URLs. |
| Overview.PriceTokenExact | scrapers/scrape_lego_overview.py:300 | The price token found at the start of a text is exactly the prefix that matches `\$\d+\.\d{2}`. |
| Overview.TwoPricesExact | scrapers/scrape_lego_overview.py:316-317 | The two-price pattern returns `(a, b)` exactly when the text starts with `a + b` and both are prices. |
| Overview.TwoPricesFound | scrapers/scrape_lego_overview.py:316-320 | A text that starts with two prices is matched, and the groups are those two prices. |
| Overview.TwoPricesSound | scrapers/scrape_lego_overview.py:316-320 | A match's groups are prices, and the text starts with them. |
| Overview.MatchSale | scrapers/scrape_lego_overview.py:300-301 | A sale match gives the same two groups as the two-price pattern, and the text after them starts with a `<digits>% OFF` discount. When the two prices match but no discount follows, there is no sale match. |
| Overview.SaleMatches | scrapers/scrape_lego_overview.py:300-306 | Two prices followed by `<digits>% OFF` are matched, whatever follows, and give msrp and sale price. |
| Overview.ItemNumber | scrapers/scrape_lego_overview.py:276-277 | The item number is a tail of the product URL with no `-` in it. |
| Overview.ItemNumberOfSlug | scrapers/scrape_lego_overview.py:276-277 | A URL ending in `-<digits>` gives those digits. |
| Overview.PriceRow | scrapers/scrape_lego_overview.py:296-328 | Both prices are set or neither. A `%` or `Insiders` row gives the two prices it starts with. Any other row gives the whole text as both prices. |
| Overview.PriceRowCases | scrapers/scrape_lego_overview.py:296-328 | A `%` row is read by the sale pattern and an `Insiders` row by the two-price pattern. A row either pattern rejects gives no prices. |
| Overview.PieceCountOf | scrapers/scrape_lego_overview.py:330-335 | A name containing `Key Chain` gives 1 piece. Otherwise the label text is used, or `Piece count not found` when there is no label. |
| Overview.ExtractProduct | scrapers/scrape_lego_overview.py:257-345 | A tile yields a record exactly when it has a link whose href contains `product` and not `?icmp=`, and it has a price row. |
| Overview.ExtractProductSpec | scrapers/scrape_lego_overview.py:257-345 | The record's URL is the site origin plus the href, and its item number is the `-`-free tail. The name and availability are the tile's texts and default to `Unknown`. The prices and piece count follow the rules above. |
| Overview.ExtractPage | scrapers/scrape_lego_overview.py:257-355 | A page gives at most one record per tile. |
| Overview.ExtractPageRecords | scrapers/scrape_lego_overview.py:276-277 | Every record of a page has a `-`-free item number and a URL on the LEGO site. |
| Overview.NoProductsNoRecords | scrapers/scrape_lego_overview.py:264-274 | Tiles that are all non-product links or advertisements yield no record. |
| Overview.PriceRowAsWritten | scrapers/scrape_lego_overview.py:313-324 | In the code as written, an unmatched `Insiders` row clears the msrp and leaves `sale_price` bound as it was. |
| Overview.ExtractProductAsWritten | scrapers/scrape_lego_overview.py:257-345 | The code as it stands, with the `sale_price` binding it meets and leaves, produces a record only for a listed tile. |
| Overview.AsWrittenAgrees | scrapers/scrape_lego_overview.py:296-328 | Apart from unmatched `Insiders` rows, the code as written gives the corrected record. |
| Overview.UnmatchedInsidersKeepsSale | scrapers/scrape_lego_overview.py:313-324 | On an unmatched `Insiders` row, the code as written reports the previous set's sale price, where the corrected reading has no prices. |
| Overview.ExtractPageAsWritten | scrapers/scrape_lego_overview.py:257-355 | The tile loop as written, with the `sale_price` binding carried from tile to tile and returned after the page. It gives at most one record per tile. |
| Overview.PageAsWrittenAgrees | scrapers/scrape_lego_overview.py:257-355 | On a page without unmatched `Insiders` rows, the loop as written gives the corrected page's records, whatever binding it starts with. |
| Overview.PageStaleSalePrice | scrapers/scrape_lego_overview.py:313-328 | Concrete case on one page: a `$10.00` tile then an `Insiders` tile. As written, the second record has sale price `$10.00`; corrected, it has none. |
| Overview.StaleSalePrice | scrapers/scrape_lego_overview.py:313-328 | Concrete case: after a `$10.00` tile, a tile priced `Insiders` is given sale price `$10.00`. |
| Overview.PageCountOf | scrapers/scrape_lego_overview.py:215-229 | The page count read on page 1 is the number of pagination links, and exactly 1 when there are none. It is at least 1. |
| Overview.RunBounds | scrapers/scrape_lego_overview.py:159-163 | Starting from page 1 with count 200, the page number stays between 1 and the page count. |
| Overview.StepSpec | scrapers/scrape_lego_overview.py:163-367 | A pass that raises counts one error and keeps the page number. The page count is set only on page 1. A loaded page stops the loop exactly when it has no products or is the last page, and otherwise advances exactly one page. |
| Overview.StoppedStays | scrapers/scrape_lego_overview.py:246-254 | Once the loop has stopped, later passes change nothing. |
| Overview.RequestsStayInTheme | scrapers/scrape_lego_overview.py:167-174 | Every URL requested for a theme extends that theme's URL. |
| Overview.ScrapePage | scrapers/scrape_lego_overview.py:164-367 | One pass of the loop body moves the loop's variables exactly as the specified step does. |
| Overview.AppendProducts | scrapers/scrape_lego_overview.py:257-355 | The tile loop appends exactly the page's records, in tile order. |
| Overview.ScrapeTheme | scrapers/scrape_lego_overview.py:159-367 | The pagination loop over the given page visits ends in the state the specified run reaches. |
| Overview.ScrapeAllRecords | scrapers/scrape_lego_overview.py:337-345 | Every record of the whole scrape has a `-`-free item number and a URL on the LEGO site. |
| Overview.ScrapeLego | scrapers/scrape_lego_overview.py:147-375 | The records are the themes' records joined in theme order, and the error count is their sum. |
| Themes.SelectIsSubsequence | scrapers/find_all_themes.py:300-311 | A selector keeps the hrefs it picks in page order. |
| Themes.SelectEmpty | scrapers/find_all_themes.py:303-308 | A selector finds nothing exactly when it picks no link. |
| Themes.ThemeElementsSpec | scrapers/find_all_themes.py:300-311 | The data-test selector is used when it picks any link. The class selector is used only when that one found nothing. The generic selector is used only when both found nothing, and then every element lies under `/themes/` with at least four `/`. The elements keep page order. |
| Themes.ThemeName | scrapers/find_all_themes.py:323 | The theme name holds no `/`. |
| Themes.ThemeNameIsLastSegment | scrapers/find_all_themes.py:323 | The name is the tail of the href after trailing `/` are stripped, and a `/` precedes it whenever the href has one. |
| Themes.TrailingSlashSameName | scrapers/find_all_themes.py:323 | A trailing `/` does not change the name. |
| Themes.SlugIsName | scrapers/find_all_themes.py:322-323 | `…/themes/<slug>` gives the slug. |
| Themes.LinkUrl | scrapers/find_all_themes.py:338 | The theme URL is the href when it starts with `http`, and the LEGO origin plus the href otherwise. |
| Themes.ThemeOf | scrapers/find_all_themes.py:317-339 | An element yields a theme exactly when its href is non-empty and its name is non-empty, is not `themes` or `en-us`, and has no `?`, `#` or `=`. The theme is that name and URL. |
| Themes.CollectAppend | scrapers/find_all_themes.py:316-339 | Extraction works element by element: two runs of elements give their themes joined. |
| Themes.CollectValid | scrapers/find_all_themes.py:326-338 | Every emitted theme has a valid, `/`-free name and an `http` or LEGO-site URL. |
| Themes.CollectComplete | scrapers/find_all_themes.py:316-339 | Every element with a valid name is emitted. |
| Themes.SelectThemeElements | scrapers/find_all_themes.py:300-311 | The selector fallback gives the specified theme elements. |
| Themes.ExtractThemes | scrapers/find_all_themes.py:316-339 | The extraction loop gives the specified themes: the valid elements' themes, in element order. There are no more themes than elements. |
| Themes.FindAllThemes | scrapers/find_all_themes.py:300-339 | Selection followed by extraction. |
| Upsert.TruncateToInt | scrapers/supabase_client.py:95 | `int()` of a number truncates toward zero. |
| Upsert.PriceDigits | scrapers/supabase_client.py:72 | A stripped price text holds no `$` and no `,`. |
| Upsert.CleanPrice | scrapers/supabase_client.py:69-84 | A missing or falsy price becomes None, and a number becomes a float. A string has its `$` and `,` removed, and the result is the float `float()` reads from that text. Failure happens exactly when `float()` raises on it. An integer becomes the same value as a float, and a float stays as it is. |
| Upsert.CleanPieceCount | scrapers/supabase_client.py:86-97 | A missing or falsy count becomes None. An all-digit string becomes its value, and any other string None. An integer stays as it is, and a float becomes `int()` of it, truncated toward zero. |
| Upsert.CleanItemSpec | scrapers/supabase_client.py:66-99 | A cleaned copy has the original columns plus the three cleaned ones. Every other column is unchanged. The cleaned columns hold the cleaned values of the original's columns, which are None or a number of the right kind. |
| Upsert.CleanItemFails | scrapers/supabase_client.py:69-84 | Cleaning fails exactly when `float()` raises on the stripped text of a non-empty string price. |
| Upsert.CleanTwice | scrapers/supabase_client.py:66-99 | Cleaning a cleaned copy again changes nothing, as long as no cleaned column is zero. |
| Upsert.CleanAllSpec | scrapers/supabase_client.py:66-99 | The cleaned list succeeds exactly when every set cleans. It then keeps length and order, and its i-th entry is the cleaned i-th set. |
| Upsert.CleanSets | scrapers/supabase_client.py:66-99 | The cleaning loop gives the specified cleaned list, or fails where the exception aborts it. |
| Upsert.PrefixFails | scrapers/supabase_client.py:66-109 | Once one set fails to clean, the whole list fails. |
| Upsert.UpsertLegoSets | scrapers/supabase_client.py:53-109 | The rows sent are the cleaned sets, of the same length, sent only when every set cleans. The result is True exactly when cleaning and the call both complete. |
| Pipeline.ThemeNames | scrapers/run_all_scrapers.py:33-53 | The names come from the found themes, in order, when there are any. Otherwise they are the saved names. There are none, and the run stops, exactly when no themes were found and no saved file exists. |
| Pipeline.KeepSpec | scrapers/run_all_scrapers.py:88 | A row filter keeps exactly the rows that satisfy it, in order. |
| Pipeline.DropDuplicatesSpec | scrapers/run_all_scrapers.py:85 | Dropping duplicates keeps order, leaves no two equal rows, and keeps one of every distinct row. |
| Pipeline.FirstIndices | scrapers/run_all_scrapers.py:85 | One source position per kept row, each inside the table. |
| Pipeline.DropDuplicatesKeepsFirst | scrapers/run_all_scrapers.py:85 | `keep='first'`: the k-th kept row is the row at the k-th position, no earlier row equals it, the positions increase, and every first occurrence of a row is kept. |
| Pipeline.FirstIndicesPick | scrapers/run_all_scrapers.py:85 | Each kept row is the row at its position, and no earlier row equals it. |
| Pipeline.FirstIndicesIncrease | scrapers/run_all_scrapers.py:85 | The positions of the kept rows increase. |
| Pipeline.FirstIndicesComplete | scrapers/run_all_scrapers.py:85 | Every position whose row does not occur earlier is a kept position. |
| Pipeline.DropDuplicatesIdempotent | scrapers/run_all_scrapers.py:85 | Dropping duplicates twice drops nothing more. |
| Pipeline.NoDuplicatesFixed | scrapers/run_all_scrapers.py:85 | A table without duplicates is left as it is. |
| Pipeline.ToNumeric | scrapers/run_all_scrapers.py:94 | A digit string becomes its value. An empty cell and the sentinel `Piece count not found` become NaN. |
| Pipeline.LargeEnoughCount | scrapers/run_all_scrapers.py:95 | A count written in decimal passes the threshold exactly when it is at least 10. |
| Pipeline.SetsForPovSpec | scrapers/run_all_scrapers.py:84-95 | Every surviving row has an item number, comes from the table and appears once, and rows keep table order. With a piece-count column, the count is not the sentinel and reads as a number of at least 10. |
| Pipeline.SetsForPovComplete | scrapers/run_all_scrapers.py:84-95 | Every row with an item number (and, with the column, at least 10 pieces) survives. |
| Pipeline.ItemNumbers | scrapers/run_all_scrapers.py:97 | The item-number list has one entry per row, each the row's item number. |
| Pipeline.ItemNumbersInOrder | scrapers/run_all_scrapers.py:97 | The item numbers handed to the part-out-value check are a subsequence of the table's item numbers, in their order. |
| Text.LastPartIsTail | scrapers/scrape_lego_overview.py:277 | `split(sep)[-1]` is the tail of the text after its last separator, with no separator in it. |
| Text.SplitJoin | scrapers/check_pov.py:463 | Splitting on a character and joining with it gives the text back. |

## Left out

- Browser automation is left out: navigation, waits, the age-gate and cookie-consent handlers, and `fetch_pov_page`. A page visit is given as its outcome: an exception, or the page's text, pagination-link count, product tiles and `<font>` texts.
- A re-navigation after an age gate or cookie consent is not recorded in `Overview.Crawl.requested`, which holds one URL per pass.
- The result of `fetch_pov_page` is taken as given. When it succeeds, its rate-limit flag is `detect_rate_limit` of the response.
- `time.time()`, `random.uniform` and `asyncio.sleep` are modelled as parameters and clock arithmetic:
  - `now` is the clock before the throttle check;
  - `overrun` is the extra time the throttling sleep lasted;
  - `sample` is the jitter draw scaled to [-1, 1];
  - `busy` is the time spent fetching.
- Supabase client creation and the network calls are left out. A call's result is given as completed or raised.
- `float()` on price text is a parameter, because floating-point parsing is not modelled. For the same reason, the float conversion of the price columns before the CSV is written is left out (`run_all_scrapers.py` lines 67-68 and `scrape_lego_overview.py` lines 384-385).
- CSV reading and writing, HTML dumps and printing are left out.
- `scrape_lego`'s fallback of reading `themes_list.csv` when called with no themes is left out: the themes are a parameter.
- `Pipeline.ToNumeric`: only integers with an optional sign and ASCII digits are numbers. Decimal points, exponents, surrounding spaces and other number forms that `pandas.to_numeric` accepts count as NaN.
- `Text.Lower` and `Text.IsDigit` are ASCII only. Python's Unicode case folding and Unicode digits are not modelled.
- `Overview.ScrapeTheme` runs over a finite list of page outcomes. The source retries a page that raises forever, so a run that never stops is represented by the state reached when the outcomes run out.
- `PovCheck.CheckPovCustom` runs over one given outcome per item. The source makes one attempt per item and does not retry, so the list is as long as the item list.
- `RateLimit.RateLimiter.WaitForThrottle`: timestamps are exact reals; the `float` rounding of `time.time()` is not modelled.
- RateLimit delay arithmetic: the ×0.9 and ×2.0 adjustments, the jitter and the clamps to the minimum and maximum wait use exact reals. The source computes them in floating point, so its rounding is not modelled.
- KeepsWindowBound: the bound is on the recorded request timestamps. `wait_for_throttle` records a stamp before the jittered delay of `wait` and before the optional 300-second pause, so the moments at which pages are actually fetched are not bounded by it.
- Overview.ExtractPage, Overview.AppendProducts, Overview.ScrapePage, Overview.ScrapeTheme and Overview.ScrapeLego use the corrected extraction of the Findings row: no `sale_price` is carried from one tile, page or theme to the next. The loop as written is modelled for one page by `Overview.ExtractPageAsWritten`. It is not carried across pages or themes.
- `upsert_themes` and `upsert_pov_data` are modelled only by the helper `Upsert.UpsertRows`: the result is True exactly when the call completes. Nothing further is stated about them, because they only forward the rows and report the outcome.
- The generic theme selector's `count('/') >= 4` is modelled on the href text. BeautifulSoup's attribute handling is not modelled.
- `check_pov.py` applies the piece-count filter without checking that the column exists. This is the case `hasPieceCountColumn = true` of `Pipeline.SetsForPov`.

## Findings

| source | as written | input that shows it | evidently intended | confidence | as-written member | corrected member |
|---|---|---|---|---|---|---|
| scrapers/scrape_lego_overview.py:313-324 | On a price row containing `Insiders` that does not start with two prices, only `msrp` is set to None. `sale_price` keeps the value of the previous tile, which may be from another page or theme. If no tile set it yet, reading it raises and the product is dropped. | A tile priced `$10.00`, then a tile whose price row is `Insiders` | Both prices None, as on the `%` branch | not executed | Overview.StaleSalePrice | Overview.PriceRow |
