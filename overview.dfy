/**
 * The product-listing scraper `scrape_lego_overview.py`: the page URLs it
 * requests, the fields it reads off one product tile (item number, prices,
 * defaults), and the pagination loop over a theme's pages.
 *
 * The browser is abstracted away: a product tile is the text the scraper
 * would find in it, and a page visit is either an exception or the page's
 * pagination-link count together with its product tiles.
 */
module Overview {
  import opened Wrappers
  import opened Text

  const MaxPagesDefault: nat := 200
  const LegoOrigin: string := "https://www.lego.com"
  const ThemesRoot: string := "https://www.lego.com/en-us/themes/"
  const UnknownText: string := "Unknown"
  const NoPieceCount: string := "Piece count not found"

  // ------------------------------------------------------------ page URLs

  /** `build_page_url`: the page number becomes the first or a further query parameter. */
  function BuildPageUrl(base: string, pageNumber: nat): (url: string)
  {
    base + (if '?' in base then "&page=" else "?page=") + Decimal(pageNumber)
  }

  /**
   * The page URL extends the base, carries a query string in any case, and
   * opens one only when the base had none.
   */
  lemma BuildPageUrlShape(base: string, pageNumber: nat)
    ensures var url := BuildPageUrl(base, pageNumber);
      && StartsWith(url, base)
      && '?' in url
      && multiset(url)['?'] == if '?' in base then multiset(base)['?'] else 1
  {
    var url := BuildPageUrl(base, pageNumber);
    var sep := if '?' in base then "&page=" else "?page=";
    var digits := Decimal(pageNumber);
    BuildPageUrlExtends(base, pageNumber);
    assert url[|base|] in url;
    assert multiset(url) == multiset(base) + multiset(sep) + multiset(digits);
    OnlyDigits(digits, '?');
    assert multiset(digits)['?'] == 0;
    SeparatorMarks();
  }

  lemma BuildPageUrlExtends(base: string, pageNumber: nat)
    ensures StartsWith(BuildPageUrl(base, pageNumber), base)
  {
    assert BuildPageUrl(base, pageNumber)[..|base|] == base;
  }

  /** The two separators: only the one that opens a query string holds a `?`. */
  lemma SeparatorMarks()
    ensures multiset("&page=")['?'] == 0 && multiset("?page=")['?'] == 1
  {
    assert "&page=" == ['&'] + "page=" && "?page=" == ['?'] + "page=";
    assert '?' !in "page=";
    assert multiset("page=")['?'] == 0;
  }

  /** The page number is the text after the last `=` of the URL, read back as an integer. */
  lemma {:induction false} PageNumberRecoverable(base: string, pageNumber: nat)
    ensures var tail := LastPart(BuildPageUrl(base, pageNumber), '=');
      IsDigits(tail) && DigitsValue(tail) == pageNumber
  {
    var digits := Decimal(pageNumber);
    var sep := if '?' in base then "&page" else "?page";
    assert BuildPageUrl(base, pageNumber) == (base + sep) + ['='] + digits;
    OnlyDigits(digits, '=');
    LastPartAfter(base + sep, '=', digits);
    DecimalRoundTrip(pageNumber);
  }

  /** Different page numbers of one base give different URLs. */
  lemma BuildPageUrlInjective(base: string, m: nat, n: nat)
    requires BuildPageUrl(base, m) == BuildPageUrl(base, n)
    ensures m == n
  {
    PageNumberRecoverable(base, m);
    PageNumberRecoverable(base, n);
  }

  /** `assembled_url` of a theme. */
  function ThemeUrl(theme: string): string {
    ThemesRoot + theme
  }

  /** The URL the loop requests for a page: the bare theme URL for page 1. */
  function PageUrl(assembled: string, pageNumber: nat): string {
    if pageNumber == 1 then assembled else BuildPageUrl(assembled, pageNumber)
  }

  /** Every page URL extends the theme's URL, and distinct pages beyond the first get distinct URLs. */
  lemma PageUrlSpec(assembled: string, m: nat, n: nat)
    ensures StartsWith(PageUrl(assembled, m), assembled)
    ensures m != n && m > 1 && n > 1 ==> PageUrl(assembled, m) != PageUrl(assembled, n)
  {
    if m != 1 {
      BuildPageUrlExtends(assembled, m);
    }
    if m > 1 && n > 1 && PageUrl(assembled, m) == PageUrl(assembled, n) {
      BuildPageUrlInjective(assembled, m, n);
    }
  }

  // ------------------------------------------------------------ price patterns

  /** The length of the run of ASCII digits that starts `s`. */
  function DigitRun(s: string): (n: nat)
    ensures n <= |s|
    ensures forall i :: 0 <= i < n ==> IsDigit(s[i])
    ensures n < |s| ==> !IsDigit(s[n])
  {
    if s != [] && IsDigit(s[0]) then 1 + DigitRun(s[1..]) else 0
  }

  /** A price as the pattern `\$\d+\.\d{2}` reads it: `$`, digits, `.`, two digits. */
  predicate IsPrice(t: string) {
    && |t| >= 5
    && t[0] == '$'
    && t[|t| - 3] == '.'
    && (forall i :: 1 <= i < |t| - 3 ==> IsDigit(t[i]))
    && IsDigit(t[|t| - 2]) && IsDigit(t[|t| - 1])
  }

  /** The length of the price that starts `s`, if one does. */
  function PriceToken(s: string): (k: Option<nat>)
    ensures k.Some? ==> k.value <= |s| && IsPrice(s[..k.value])
  {
    if s == [] || s[0] != '$' then None
    else
      var d := DigitRun(s[1..]);
      if d >= 1 && d + 4 <= |s| && s[d + 1] == '.' && IsDigit(s[d + 2]) && IsDigit(s[d + 3])
      then Some(d + 4)
      else None
  }

  /** A prefix of `s` is a price exactly when it is the one `PriceToken` finds. */
  lemma PriceTokenExact(s: string, k: nat)
    requires k <= |s|
    ensures PriceToken(s) == Some(k) <==> IsPrice(s[..k])
  {
    if IsPrice(s[..k]) {
      var t := s[..k];
      var d := DigitRun(s[1..]);
      assert forall i :: 0 <= i < k - 4 ==> IsDigit(s[1..][i]) by {
        forall i | 0 <= i < k - 4 ensures IsDigit(s[1..][i]) {
          assert s[1..][i] == t[i + 1];
        }
      }
      assert s[1..][k - 4] == t[k - 3] == '.';
      assert d == k - 4;
    }
  }

  /** `re.match(r'(\$\d+\.\d{2})(\$\d+\.\d{2})', s)`: the two groups, if the text starts with two prices. */
  function MatchTwoPrices(s: string): Option<(string, string)> {
    match PriceToken(s)
    case None => None
    case Some(i) =>
      match PriceToken(s[i..])
      case None => None
      case Some(j) => Some((s[..i], s[i..i + j]))
  }

  /** The two-price pattern matches exactly the texts that start with two prices, and returns those. */
  lemma TwoPricesExact(s: string, msrp: string, sale: string)
    ensures MatchTwoPrices(s) == Some((msrp, sale)) <==>
      IsPrice(msrp) && IsPrice(sale) && StartsWith(s, msrp + sale)
  {
    if IsPrice(msrp) && IsPrice(sale) && StartsWith(s, msrp + sale) {
      TwoPricesFound(s, msrp, sale);
    }
    if MatchTwoPrices(s) == Some((msrp, sale)) {
      TwoPricesSound(s);
    }
  }

  lemma TwoPricesFound(s: string, msrp: string, sale: string)
    requires IsPrice(msrp) && IsPrice(sale) && StartsWith(s, msrp + sale)
    ensures MatchTwoPrices(s) == Some((msrp, sale))
  {
    var i := |msrp|;
    assert s[..i] == msrp;
    PriceTokenExact(s, i);
    var r := s[i..];
    assert s[..i + |sale|] == msrp + sale;
    assert r[..|sale|] == s[i..i + |sale|] == sale;
    PriceTokenExact(r, |sale|);
  }

  lemma TwoPricesSound(s: string)
    requires MatchTwoPrices(s).Some?
    ensures var (msrp, sale) := MatchTwoPrices(s).value;
      IsPrice(msrp) && IsPrice(sale) && StartsWith(s, msrp + sale)
  {
    var i := PriceToken(s).value;
    var j := PriceToken(s[i..]).value;
    assert s[..i + j] == s[..i] + s[i..][..j];
  }

  /** A discount as `\d+% OFF` reads it at the start of `r`. */
  predicate StartsWithDiscount(r: string) {
    var d := DigitRun(r);
    d >= 1 && StartsWith(r[d..], "% OFF")
  }

  /** The text right after the two prices `p` starts with a `<digits>% OFF` discount. */
  predicate DiscountAfter(s: string, p: (string, string)) {
    |p.0| + |p.1| <= |s| && StartsWithDiscount(s[|p.0| + |p.1|..])
  }

  /** `re.match(r'(\$\d+\.\d{2})(\$\d+\.\d{2})(\d+% OFF)', s)`: the two price groups. */
  function MatchSale(s: string): (m: Option<(string, string)>)
    ensures m.Some? ==> MatchTwoPrices(s) == m
    ensures m.Some? ==> DiscountAfter(s, m.value)
    ensures MatchTwoPrices(s).Some? && DiscountAfter(s, MatchTwoPrices(s).value) ==> m.Some?
  {
    var two := MatchTwoPrices(s);
    if two.Some? && DiscountAfter(s, two.value) then two else None
  }

  /** Two prices followed by a discount are matched, whatever follows. */
  lemma SaleMatches(msrp: string, sale: string, percent: string, rest: string)
    requires IsPrice(msrp) && IsPrice(sale) && IsDigits(percent)
    ensures MatchSale(msrp + sale + percent + "% OFF" + rest) == Some((msrp, sale))
  {
    var s := msrp + sale + percent + "% OFF" + rest;
    var r := percent + "% OFF" + rest;
    assert s == (msrp + sale) + r;
    assert s[..|msrp + sale|] == msrp + sale;
    TwoPricesFound(s, msrp, sale);
    assert s[|msrp| + |sale|..] == r;
    DiscountAhead(percent, rest);
  }

  lemma DiscountAhead(percent: string, rest: string)
    requires IsDigits(percent)
    ensures StartsWithDiscount(percent + "% OFF" + rest)
  {
    var r := percent + "% OFF" + rest;
    assert r[|percent|] == '%';
    assert DigitRun(r) == |percent|;
    assert r[|percent|..][..5] == "% OFF";
  }

  // ------------------------------------------------------------ one product tile

  /** What the scraper finds inside one `li` product tile, already stripped of surrounding whitespace. */
  datatype Tile = Tile(
    href: Option<string>,        // None: the tile has no `a` element; Some(""): a link without `href`
    name: Option<string>,        // the `h3` text
    availability: Option<string>,// the action-row text
    priceText: Option<string>,   // the price-row text
    pieceLabel: Option<string>)  // the piece-count label text

  datatype PieceCount = PieceLabel(text: string) | PieceNumber(count: nat)

  /** One scraped set, as appended to `return_data`. */
  datatype SetRecord = SetRecord(
    setName: string,
    msrp: Option<string>,
    salePrice: Option<string>,
    availability: string,
    pieceCount: PieceCount,
    url: string,
    itemNumber: string)

  /** A link to a product page that is not an advertisement. */
  predicate IsProductLink(href: string) {
    Contains(href, "product") && !Contains(href, "?icmp=")
  }

  /** The tiles that yield a record: a product link and a price row. */
  predicate IsListed(tile: Tile) {
    tile.href.Some? && IsProductLink(tile.href.value) && tile.priceText.Some?
  }

  /** The item number: the text after the last `-` of the product URL. */
  function ItemNumber(url: string): (itemNumber: string)
    ensures '-' !in itemNumber && |itemNumber| <= |url| && url[|url| - |itemNumber|..] == itemNumber
  {
    LastPartIsTail(url, '-');
    LastPart(url, '-')
  }

  /** A product URL ending in `-<digits>` gives those digits as its item number. */
  lemma ItemNumberOfSlug(prefix: string, digits: string)
    requires IsDigits(digits)
    ensures ItemNumber(prefix + "-" + digits) == digits
  {
    OnlyDigits(digits, '-');
    LastPartAfter(prefix, '-', digits);
  }

  /**
   * The msrp and sale price read from a price row. Both are set or neither;
   * text with a `%` or `Insiders` yields the two prices the text begins
   * with (none when it does not begin with them); any other text is taken
   * whole as both prices.
   */
  function PriceRow(text: string): (prices: (Option<string>, Option<string>))
    ensures prices.0.Some? <==> prices.1.Some?
    ensures (Contains(text, "%") || Contains(text, "Insiders")) && prices.0.Some? ==>
      IsPrice(prices.0.value) && IsPrice(prices.1.value) && StartsWith(text, prices.0.value + prices.1.value)
    ensures !Contains(text, "%") && !Contains(text, "Insiders") ==> prices == (Some(text), Some(text))
  {
    var matched := if Contains(text, "%") then MatchSale(text)
                   else if Contains(text, "Insiders") then MatchTwoPrices(text)
                   else Some((text, text));
    if matched.Some? && (Contains(text, "%") || Contains(text, "Insiders")) then
      TwoPricesExact(text, matched.value.0, matched.value.1);
      (Some(matched.value.0), Some(matched.value.1))
    else if matched.Some? then (Some(text), Some(text))
    else (None, None)
  }

  /** A sale row is read as its msrp and sale price; a row the patterns reject gives no prices. */
  lemma PriceRowCases(text: string)
    ensures Contains(text, "%") ==>
      PriceRow(text) == if MatchSale(text).Some?
        then (Some(MatchSale(text).value.0), Some(MatchSale(text).value.1)) else (None, None)
    ensures !Contains(text, "%") && Contains(text, "Insiders") ==>
      PriceRow(text) == if MatchTwoPrices(text).Some?
        then (Some(MatchTwoPrices(text).value.0), Some(MatchTwoPrices(text).value.1)) else (None, None)
  {
  }

  /** Piece count: the label text, its default, or 1 for any key chain. */
  function PieceCountOf(setName: string, labelText: Option<string>): (p: PieceCount)
    ensures Contains(setName, "Key Chain") ==> p == PieceNumber(1)
    ensures !Contains(setName, "Key Chain") ==> p.PieceLabel? && (labelText.Some? ==> p.text == labelText.value)
    ensures !Contains(setName, "Key Chain") && labelText.None? ==> p == PieceLabel(NoPieceCount)
  {
    if Contains(setName, "Key Chain") then PieceNumber(1)
    else PieceLabel(if labelText.Some? then labelText.value else NoPieceCount)
  }

  function OrUnknown(text: Option<string>): string {
    if text.Some? then text.value else UnknownText
  }

  /** The record the loop builds from one tile, or None when the tile is skipped. */
  function ExtractProduct(tile: Tile): (r: Option<SetRecord>)
    ensures r.Some? <==> IsListed(tile)
  {
    if tile.href.None? then None
    else
      var href := tile.href.value;
      if !Contains(href, "product") || Contains(href, "?icmp=") then None
      else if tile.priceText.None? then None
      else
        var url := LegoOrigin + href;
        var setName := OrUnknown(tile.name);
        var prices := PriceRow(tile.priceText.value);
        Some(SetRecord(setName, prices.0, prices.1, OrUnknown(tile.availability),
                       PieceCountOf(setName, tile.pieceLabel), url, ItemNumber(url)))
  }

  /**
   * A listed tile's record: the URL is the site origin followed by the
   * link, the item number is the `-`-free tail of that URL, the name and
   * availability default to "Unknown", and prices and piece count follow
   * the price row and the piece-count label.
   */
  lemma ExtractProductSpec(tile: Tile)
    requires IsListed(tile)
    ensures var r := ExtractProduct(tile).value;
      && r.url == LegoOrigin + tile.href.value
      && '-' !in r.itemNumber && StartsWith(r.url, LegoOrigin)
      && r.url[|r.url| - |r.itemNumber|..] == r.itemNumber
      && (tile.name.Some? ==> r.setName == tile.name.value)
      && (tile.name.None? ==> r.setName == UnknownText)
      && (tile.availability.Some? ==> r.availability == tile.availability.value)
      && (tile.availability.None? ==> r.availability == UnknownText)
      && (r.msrp, r.salePrice) == PriceRow(tile.priceText.value)
      && r.pieceCount == PieceCountOf(r.setName, tile.pieceLabel)
  {
    var r := ExtractProduct(tile).value;
    assert r.url[..|LegoOrigin|] == LegoOrigin;
  }

  /** The records of one page: one per listed tile, in tile order. */
  function ExtractPage(tiles: seq<Tile>): (records: seq<SetRecord>)
    ensures |records| <= |tiles|
  {
    if tiles == [] then []
    else
      var n := |tiles| - 1;
      var r := ExtractProduct(tiles[n]);
      ExtractPage(tiles[..n]) + (if r.Some? then [r.value] else [])
  }

  lemma ExtractPageStep(tiles: seq<Tile>, j: nat)
    requires j < |tiles|
    ensures var r := ExtractProduct(tiles[j]);
      ExtractPage(tiles[..j + 1]) == ExtractPage(tiles[..j]) + (if r.Some? then [r.value] else [])
  {
    assert tiles[..j + 1][..j] == tiles[..j];
  }

  /** Every record of a page has a `-`-free item number and a URL on the LEGO site. */
  lemma {:induction false} ExtractPageRecords(tiles: seq<Tile>)
    ensures forall r :: r in ExtractPage(tiles) ==> '-' !in r.itemNumber && StartsWith(r.url, LegoOrigin)
  {
    if tiles != [] {
      var n := |tiles| - 1;
      ExtractPageRecords(tiles[..n]);
      if IsListed(tiles[n]) {
        ExtractProductSpec(tiles[n]);
      }
    }
  }

  /** A page whose links are all non-products or advertisements yields no record. */
  lemma {:induction false} NoProductsNoRecords(tiles: seq<Tile>)
    requires forall i :: 0 <= i < |tiles| ==> tiles[i].href.None? || !IsProductLink(tiles[i].href.value)
    ensures ExtractPage(tiles) == []
  {
    if tiles != [] {
      NoProductsNoRecords(tiles[..|tiles| - 1]);
    }
  }

  // ------------------------------------------------------------ the price row as written

  /**
   * The binding of `sale_price` in `scrape_lego`: never assigned yet, or
   * holding the value of the last assignment, which outlives the tile,
   * page and theme that made it.
   */
  datatype SaleBinding = Unbound | Bound(price: Option<string>)

  /** The price row as the code stands: an unmatched `Insiders` row leaves `sale_price` as it was. */
  function PriceRowAsWritten(text: string, sale: SaleBinding): (r: (Option<string>, SaleBinding))
    ensures !Contains(text, "%") && Contains(text, "Insiders") && MatchTwoPrices(text).None? ==>
      r == (None, sale)
  {
    var prices := PriceRow(text);
    if !Contains(text, "%") && Contains(text, "Insiders") && MatchTwoPrices(text).None? then (None, sale)
    else (prices.0, Bound(prices.1))
  }

  /** The price rows that the code mishandles. */
  predicate IsUnmatchedInsiders(tile: Tile) {
    tile.priceText.Some? && !Contains(tile.priceText.value, "%")
    && Contains(tile.priceText.value, "Insiders") && MatchTwoPrices(tile.priceText.value).None?
  }

  /**
   * One tile as the code stands, with the binding of `sale_price` it
   * meets and leaves. Reading an unbound `sale_price` raises, and the
   * per-tile handler drops the tile.
   */
  function ExtractProductAsWritten(tile: Tile, sale: SaleBinding): (r: (Option<SetRecord>, SaleBinding))
    ensures r.0.Some? ==> IsListed(tile)
  {
    if tile.href.None? then (None, sale)
    else
      var href := tile.href.value;
      if !Contains(href, "product") || Contains(href, "?icmp=") then (None, sale)
      else if tile.priceText.None? then (None, Bound(None))
      else
        var url := LegoOrigin + href;
        var setName := OrUnknown(tile.name);
        var (msrp, after) := PriceRowAsWritten(tile.priceText.value, sale);
        if after.Unbound? then (None, after)
        else
          (Some(SetRecord(setName, msrp, after.price, OrUnknown(tile.availability),
                          PieceCountOf(setName, tile.pieceLabel), url, ItemNumber(url))), after)
  }

  /** Apart from unmatched `Insiders` rows, the code as written gives the corrected record. */
  lemma AsWrittenAgrees(tile: Tile, sale: SaleBinding)
    requires !IsUnmatchedInsiders(tile)
    ensures ExtractProductAsWritten(tile, sale).0 == ExtractProduct(tile)
  {
  }

  /**
   * An unmatched `Insiders` row keeps whatever sale price the previous
   * assignment left, next to an empty msrp, where the corrected reading
   * has neither price.
   */
  lemma UnmatchedInsidersKeepsSale(tile: Tile, previous: Option<string>)
    requires IsListed(tile) && IsUnmatchedInsiders(tile)
    ensures var r := ExtractProductAsWritten(tile, Bound(previous)).0;
      r.Some? && r.value.msrp == None && r.value.salePrice == previous
    ensures ExtractProduct(tile).value.msrp == None && ExtractProduct(tile).value.salePrice == None
  {
  }

  /** A plain price row followed by an unmatched `Insiders` row: the second set is given the first one's price. */
  lemma StaleSalePrice()
    ensures var first := Tile(Some("/product-1"), None, None, Some("$10.00"), None);
      var second := Tile(Some("/product-2"), None, None, Some("Insiders"), None);
      var after := ExtractProductAsWritten(first, Unbound).1;
      var stale := ExtractProductAsWritten(second, after).0;
      && stale.Some? && stale.value.msrp == None && stale.value.salePrice == Some("$10.00")
      && ExtractProduct(second).value.salePrice == None
  {
    var first := Tile(Some("/product-1"), None, None, Some("$10.00"), None);
    var second := Tile(Some("/product-2"), None, None, Some("Insiders"), None);
    PlainRowBinds(first);
    InsidersRowUnmatched(second);
    UnmatchedInsidersKeepsSale(second, Some("$10.00"));
  }

  lemma PlainRowBinds(first: Tile)
    requires first == Tile(Some("/product-1"), None, None, Some("$10.00"), None)
    ensures ExtractProductAsWritten(first, Unbound).1 == Bound(Some("$10.00"))
  {
    var link := "/product-1";
    assert link[1..8] == "product" && OccursAt(link, "product", 1);
    ContainsHead(link, "?icmp=");
    ContainsChar("$10.00", '%');
    ContainsHead("$10.00", "Insiders");
  }

  lemma InsidersRowUnmatched(second: Tile)
    requires second == Tile(Some("/product-2"), None, None, Some("Insiders"), None)
    ensures IsListed(second) && IsUnmatchedInsiders(second)
  {
    var link := "/product-2";
    assert link[1..8] == "product" && OccursAt(link, "product", 1);
    ContainsHead(link, "?icmp=");
    ContainsChar("Insiders", '%');
    assert OccursAt("Insiders", "Insiders", 0);
  }

  /**
   * One page's tiles as the code stands: the binding of `sale_price` runs
   * from tile to tile, and the binding left after the page is returned.
   */
  function ExtractPageAsWritten(tiles: seq<Tile>, sale: SaleBinding): (r: (seq<SetRecord>, SaleBinding))
    ensures |r.0| <= |tiles|
  {
    if tiles == [] then ([], sale)
    else
      var n := |tiles| - 1;
      var before := ExtractPageAsWritten(tiles[..n], sale);
      var last := ExtractProductAsWritten(tiles[n], before.1);
      (before.0 + (if last.0.Some? then [last.0.value] else []), last.1)
  }

  /** On a page without unmatched `Insiders` rows the code as written gives the corrected records, whatever binding it meets. */
  lemma {:induction false} PageAsWrittenAgrees(tiles: seq<Tile>, sale: SaleBinding)
    requires forall i :: 0 <= i < |tiles| ==> !IsUnmatchedInsiders(tiles[i])
    ensures ExtractPageAsWritten(tiles, sale).0 == ExtractPage(tiles)
  {
    if tiles != [] {
      var n := |tiles| - 1;
      var init := tiles[..n];
      assert forall i :: 0 <= i < n ==> init[i] == tiles[i];
      PageAsWrittenAgrees(init, sale);
      PageAsWrittenStep(tiles, sale);
      AsWrittenAgrees(tiles[n], ExtractPageAsWritten(init, sale).1);
      ExtractPageStep(tiles, n);
      assert tiles[..n + 1] == tiles;
    }
  }

  /** The loop as written, one tile further. */
  lemma PageAsWrittenStep(tiles: seq<Tile>, sale: SaleBinding)
    requires tiles != []
    ensures var n := |tiles| - 1;
      var before := ExtractPageAsWritten(tiles[..n], sale);
      var last := ExtractProductAsWritten(tiles[n], before.1);
      ExtractPageAsWritten(tiles, sale).0 == before.0 + (if last.0.Some? then [last.0.value] else [])
  {
  }

  /** On one page, a plain price row then an unmatched `Insiders` row: the page's second record carries the first one's price. */
  lemma PageStaleSalePrice()
    ensures var first := Tile(Some("/product-1"), None, None, Some("$10.00"), None);
      var second := Tile(Some("/product-2"), None, None, Some("Insiders"), None);
      var page := ExtractPageAsWritten([first, second], Unbound).0;
      && |page| == 2 && page[1].salePrice == Some("$10.00")
      && |ExtractPage([first, second])| == 2 && ExtractPage([first, second])[1].salePrice == None
  {
    var first := Tile(Some("/product-1"), None, None, Some("$10.00"), None);
    var second := Tile(Some("/product-2"), None, None, Some("Insiders"), None);
    var tiles := [first, second];
    assert tiles[..1] == [first] && [first][..0] == [];
    StaleSalePrice();
    PlainRowBinds(first);
    InsidersRowUnmatched(second);
    assert ExtractProductAsWritten(first, Unbound).0.Some?;
  }

  // ------------------------------------------------------------ pagination

  /** One pass of the `while page_number <= page_count` loop of one theme. */
  datatype PageFetch =
    | PageRaised                                      // navigation or reading the page raised
    | Loaded(paginationLinks: nat, tiles: seq<Tile>)  // the page's pagination links and product tiles

  /** The loop's variables for one theme. */
  datatype Crawl = Crawl(
    pageNumber: nat,
    pageCount: nat,
    stopped: bool,          // the loop has hit a `break`
    errors: nat,
    records: seq<SetRecord>,
    requested: seq<string>) // the URLs navigated to, in order

  function Start(): Crawl {
    Crawl(1, MaxPagesDefault, false, 0, [], [])
  }

  /** The page count read on page 1: the number of pagination links, or 1 when there are none. */
  function PageCountOf(paginationLinks: nat): (count: nat)
    ensures count >= 1
    ensures paginationLinks > 0 ==> count == paginationLinks
    ensures paginationLinks == 0 ==> count == 1
  {
    if paginationLinks == 0 then 1 else paginationLinks
  }

  /** One pass of the loop body; a stopped loop takes no more passes. */
  function Step(theme: string, c: Crawl, fetch: PageFetch): Crawl {
    if c.stopped then c
    else
      var c := c.(requested := c.requested + [PageUrl(ThemeUrl(theme), c.pageNumber)]);
      match fetch
      case PageRaised => c.(errors := c.errors + 1)
      case Loaded(links, tiles) => Visit(c, links, tiles)
  }

  /** The rest of a pass once a page has loaded: read the page count, collect, stop or move on. */
  function Visit(c: Crawl, links: nat, tiles: seq<Tile>): Crawl {
    var count := if c.pageNumber == 1 then PageCountOf(links) else c.pageCount;
    if tiles == [] then c.(pageCount := count, stopped := true)
    else
      var c := c.(pageCount := count, records := c.records + ExtractPage(tiles));
      if c.pageNumber == count then c.(stopped := true)
      else c.(pageNumber := c.pageNumber + 1)
  }

  /** The loop's state after the given passes. */
  function Run(theme: string, fetches: seq<PageFetch>): Crawl {
    if fetches == [] then Start()
    else Step(theme, Run(theme, fetches[..|fetches| - 1]), fetches[|fetches| - 1])
  }

  /** The page number stays between 1 and the page count, so the loop guard always holds. */
  lemma {:induction false} RunBounds(theme: string, fetches: seq<PageFetch>)
    ensures 1 <= Run(theme, fetches).pageNumber <= Run(theme, fetches).pageCount
  {
    if fetches != [] {
      RunBounds(theme, fetches[..|fetches| - 1]);
    }
  }

  /**
   * A pass that raises counts an error and retries the same page; a pass
   * that loads a page either stops the loop or moves to the next page,
   * adding that page's records.
   */
  lemma StepSpec(theme: string, c: Crawl, fetch: PageFetch)
    requires !c.stopped && 1 <= c.pageNumber <= c.pageCount
    ensures var d := Step(theme, c, fetch);
      && d.requested == c.requested + [PageUrl(ThemeUrl(theme), c.pageNumber)]
      && (fetch.PageRaised? ==>
            d.pageNumber == c.pageNumber && d.errors == c.errors + 1 && d.records == c.records && !d.stopped)
      && (fetch.Loaded? ==>
            d.errors == c.errors
            && (d.stopped || d.pageNumber == c.pageNumber + 1)
            && (d.stopped ==> d.pageNumber == c.pageNumber)
            && (c.pageNumber == 1 ==> d.pageCount == PageCountOf(fetch.paginationLinks))
            && (c.pageNumber != 1 ==> d.pageCount == c.pageCount)
            && d.records == c.records + ExtractPage(fetch.tiles))
      && (d.stopped <==> fetch.Loaded? && (fetch.tiles == [] || c.pageNumber == d.pageCount))
  {
  }

  /** Once the loop has stopped, further passes change nothing. */
  lemma {:induction false} StoppedStays(theme: string, fetches: seq<PageFetch>, k: nat)
    requires k <= |fetches| && Run(theme, fetches[..k]).stopped
    ensures Run(theme, fetches) == Run(theme, fetches[..k])
    decreases |fetches| - k
  {
    if k < |fetches| {
      assert fetches[..|fetches| - 1][..k] == fetches[..k];
      StoppedStays(theme, fetches[..|fetches| - 1], k);
    } else {
      assert fetches[..k] == fetches;
    }
  }

  /** Every URL the loop requests belongs to the theme. */
  lemma {:induction false} RequestsStayInTheme(theme: string, fetches: seq<PageFetch>)
    ensures forall u :: u in Run(theme, fetches).requested ==> StartsWith(u, ThemeUrl(theme))
  {
    if fetches != [] {
      var c := Run(theme, fetches[..|fetches| - 1]);
      RequestsStayInTheme(theme, fetches[..|fetches| - 1]);
      PageUrlSpec(ThemeUrl(theme), c.pageNumber, c.pageNumber);
    }
  }

  /**
   * The pagination loop of `scrape_lego` for one theme, over the outcomes
   * of its page visits. When the outcomes run out before the loop stops,
   * the state reached so far is returned.
   */
  method ScrapeTheme(theme: string, fetches: seq<PageFetch>) returns (c: Crawl)
    ensures c == Run(theme, fetches)
  {
    var pageNumber := 1;
    var pageCount := MaxPagesDefault;
    var errorCount := 0;
    var records: seq<SetRecord> := [];
    var requested: seq<string> := [];
    var stopped := false;
    var i := 0;
    while i < |fetches| && !stopped
      invariant 0 <= i <= |fetches|
      invariant Run(theme, fetches[..i]) == Crawl(pageNumber, pageCount, stopped, errorCount, records, requested)
      decreases |fetches| - i
    {
      RunBounds(theme, fetches[..i]);
      RunStep(theme, fetches, i);
      pageNumber, pageCount, stopped, errorCount, records, requested :=
        ScrapePage(theme, pageNumber, pageCount, errorCount, records, requested, fetches[i]);
      i := i + 1;
    }
    if stopped {
      StoppedStays(theme, fetches, i);
    } else {
      assert fetches[..i] == fetches;
    }
    c := Crawl(pageNumber, pageCount, stopped, errorCount, records, requested);
  }

  /** One pass of the pagination loop: request the page, then count an error or read the page. */
  method ScrapePage(theme: string, pageNumber: nat, pageCount: nat, errorCount: nat,
                    records: seq<SetRecord>, requested: seq<string>, fetch: PageFetch)
    returns (pageNumber': nat, pageCount': nat, stopped': bool, errorCount': nat,
             records': seq<SetRecord>, requested': seq<string>)
    requires 1 <= pageNumber <= pageCount
    ensures Crawl(pageNumber', pageCount', stopped', errorCount', records', requested')
      == Step(theme, Crawl(pageNumber, pageCount, false, errorCount, records, requested), fetch)
  {
    pageNumber', pageCount', stopped', errorCount', records' := pageNumber, pageCount, false, errorCount, records;
    requested' := requested + [PageUrl(ThemeUrl(theme), pageNumber)];
    match fetch {
      case PageRaised =>
        errorCount' := errorCount + 1;
      case Loaded(links, tiles) =>
        if pageNumber == 1 {
          pageCount' := links;
          if pageCount' == 0 {
            pageCount' := 1;
          }
        }
        if |tiles| == 0 {
          stopped' := true;
        } else {
          records' := AppendProducts(records, tiles);
          if pageNumber == pageCount' {
            stopped' := true;
          } else {
            pageNumber' := pageNumber + 1;
          }
        }
    }
  }

  /** The loop over a page's product tiles, appending each listed product's record. */
  method AppendProducts(records: seq<SetRecord>, tiles: seq<Tile>) returns (returnData: seq<SetRecord>)
    ensures returnData == records + ExtractPage(tiles)
  {
    returnData := records;
    var j := 0;
    while j < |tiles|
      invariant 0 <= j <= |tiles|
      invariant returnData == records + ExtractPage(tiles[..j])
    {
      ExtractPageStep(tiles, j);
      var r := ExtractProduct(tiles[j]);
      if r.Some? {
        returnData := returnData + [r.value];
      }
      j := j + 1;
    }
    assert tiles[..j] == tiles;
  }

  lemma RunStep(theme: string, fetches: seq<PageFetch>, i: nat)
    requires i < |fetches|
    ensures Run(theme, fetches[..i + 1]) == Step(theme, Run(theme, fetches[..i]), fetches[i])
  {
    assert fetches[..i + 1][..i] == fetches[..i];
  }

  // ------------------------------------------------------------ all themes

  /** The records and error count over all themes, each theme with its own page visits. */
  function ScrapeAll(themes: seq<string>, fetches: seq<seq<PageFetch>>): (r: (seq<SetRecord>, nat))
    requires |fetches| == |themes|
  {
    if themes == [] then ([], 0)
    else
      var n := |themes| - 1;
      var before := ScrapeAll(themes[..n], fetches[..n]);
      var last := Run(themes[n], fetches[n]);
      (before.0 + last.records, before.1 + last.errors)
  }

  /** Every record of the whole scrape has a `-`-free item number and a URL on the LEGO site. */
  lemma {:induction false} ScrapeAllRecords(themes: seq<string>, fetches: seq<seq<PageFetch>>)
    requires |fetches| == |themes|
    ensures forall r :: r in ScrapeAll(themes, fetches).0 ==> '-' !in r.itemNumber && StartsWith(r.url, LegoOrigin)
  {
    if themes != [] {
      var n := |themes| - 1;
      ScrapeAllRecords(themes[..n], fetches[..n]);
      RunRecords(themes[n], fetches[n]);
    }
  }

  lemma {:induction false} RunRecords(theme: string, fetches: seq<PageFetch>)
    ensures forall r :: r in Run(theme, fetches).records ==> '-' !in r.itemNumber && StartsWith(r.url, LegoOrigin)
  {
    if fetches != [] {
      RunRecords(theme, fetches[..|fetches| - 1]);
      var f := fetches[|fetches| - 1];
      if f.Loaded? {
        ExtractPageRecords(f.tiles);
      }
    }
  }

  /** `scrape_lego` over the given themes: the theme loop, with a running error count. */
  method ScrapeLego(themes: seq<string>, fetches: seq<seq<PageFetch>>)
    returns (returnData: seq<SetRecord>, errorCount: nat)
    requires |fetches| == |themes|
    ensures (returnData, errorCount) == ScrapeAll(themes, fetches)
  {
    returnData := [];
    errorCount := 0;
    var t := 0;
    while t < |themes|
      invariant 0 <= t <= |themes|
      invariant (returnData, errorCount) == ScrapeAll(themes[..t], fetches[..t])
    {
      ScrapeAllStep(themes, fetches, t);
      var crawl := ScrapeTheme(themes[t], fetches[t]);
      returnData := returnData + crawl.records;
      errorCount := errorCount + crawl.errors;
      t := t + 1;
    }
    assert themes[..t] == themes && fetches[..t] == fetches;
  }

  lemma ScrapeAllStep(themes: seq<string>, fetches: seq<seq<PageFetch>>, t: nat)
    requires |fetches| == |themes| && t < |themes|
    ensures var before := ScrapeAll(themes[..t], fetches[..t]);
      var crawl := Run(themes[t], fetches[t]);
      ScrapeAll(themes[..t + 1], fetches[..t + 1]) == (before.0 + crawl.records, before.1 + crawl.errors)
  {
    assert themes[..t + 1][..t] == themes[..t];
    assert fetches[..t + 1][..t] == fetches[..t];
  }
}
