/**
 * The database helpers of `supabase_client.py`: the cleaning pass that
 * `upsert_lego_sets` applies to every scraped set before writing it, and
 * the True/False result of the three upsert helpers.
 *
 * A record is a dictionary from column names to Python values. The
 * service call itself is an outcome given from outside, and so is
 * `float()` on a string: `parse` says which number a text denotes, or
 * None where `float()` raises.
 */
module Upsert {
  import opened Wrappers
  import opened Text

  /** The Python values the records hold. */
  datatype Value = NoneV | IntV(i: int) | FloatV(r: real) | StrV(s: string)

  type Item = map<string, Value>

  /** `float()` on a string: the number it denotes, or None when it raises. */
  type FloatParser = string -> Option<real>

  const MsrpKey: string := "msrp"
  const SalePriceKey: string := "sale_price"
  const PieceCountKey: string := "piece_count"

  /** Python truthiness. */
  predicate Truthy(v: Value) {
    match v
    case NoneV => false
    case IntV(i) => i != 0
    case FloatV(r) => r != 0.0
    case StrV(s) => s != ""
  }

  /** `int()` of a number: truncation toward zero. */
  function TruncateToInt(r: real): (i: int)
    ensures r >= 0.0 ==> i as real <= r < i as real + 1.0
    ensures r < 0.0 ==> i as real - 1.0 < r <= i as real
  {
    if r >= 0.0 then r.Floor else -((-r).Floor)
  }

  /** A price text with every `$` and `,` removed. */
  function PriceDigits(s: string): (t: string)
    ensures '$' !in t && ',' !in t
  {
    WithoutKeeps(Without(s, '$'), ',', '$');
    Without(Without(s, '$'), ',')
  }

  /**
   * The cleaned price column: None for a missing or falsy value, `float()`
   * of a string stripped of `$` and `,`, `float()` of a number. Fails where
   * `float()` raises.
   */
  function CleanPrice(item: Item, key: string, parse: FloatParser): (r: Option<Value>)
    ensures r.Some? && (key !in item || !Truthy(item[key])) ==> r.value == NoneV
    ensures r.Some? ==> r.value.NoneV? || r.value.FloatV?
    ensures r.None? ==> key in item && item[key].StrV? && parse(PriceDigits(item[key].s)).None?
    ensures key in item && Truthy(item[key]) && item[key].StrV? ==>
      (r.Some? <==> parse(PriceDigits(item[key].s)).Some?)
      && (r.Some? ==> r.value == FloatV(parse(PriceDigits(item[key].s)).value))
    ensures key in item && Truthy(item[key]) && item[key].IntV? ==> r == Some(FloatV(item[key].i as real))
    ensures key in item && Truthy(item[key]) && item[key].FloatV? ==> r == Some(item[key])
  {
    if key in item && Truthy(item[key]) then
      match item[key]
      case StrV(s) =>
        var parsed := parse(PriceDigits(s));
        if parsed.Some? then Some(FloatV(parsed.value)) else None
      case IntV(i) => Some(FloatV(i as real))
      case FloatV(r) => Some(FloatV(r))
    else Some(NoneV)
  }

  /**
   * The cleaned piece count: None for a missing or falsy value and for a
   * string that is not all digits, the integer for a digit string, and
   * `int()` of a number.
   */
  function CleanPieceCount(item: Item): (v: Value)
    ensures v.NoneV? || v.IntV?
    ensures PieceCountKey !in item || !Truthy(item[PieceCountKey]) ==> v == NoneV
    ensures PieceCountKey in item && item[PieceCountKey].StrV? && !IsDigits(item[PieceCountKey].s) ==> v == NoneV
    ensures PieceCountKey in item && item[PieceCountKey].StrV? && IsDigits(item[PieceCountKey].s) ==>
      v == IntV(DigitsValue(item[PieceCountKey].s))
    ensures PieceCountKey in item && Truthy(item[PieceCountKey]) && item[PieceCountKey].IntV? ==> v == item[PieceCountKey]
    ensures PieceCountKey in item && Truthy(item[PieceCountKey]) && item[PieceCountKey].FloatV? ==>
      v == IntV(TruncateToInt(item[PieceCountKey].r))
  {
    if PieceCountKey in item && Truthy(item[PieceCountKey]) then
      match item[PieceCountKey]
      case StrV(s) => if IsDigits(s) then IntV(DigitsValue(s)) else NoneV
      case IntV(i) => IntV(i)
      case FloatV(r) => IntV(TruncateToInt(r))
    else NoneV
  }

  /** One cleaned copy of a set, or None when `float()` raises on one of its prices. */
  function CleanItem(item: Item, parse: FloatParser): (r: Option<Item>)
  {
    var msrp := CleanPrice(item, MsrpKey, parse);
    var salePrice := CleanPrice(item, SalePriceKey, parse);
    if msrp.None? || salePrice.None? then None
    else Some(item[MsrpKey := msrp.value][SalePriceKey := salePrice.value][PieceCountKey := CleanPieceCount(item)])
  }

  /**
   * A cleaned set has the columns of the original plus the three cleaned
   * ones, every other column unchanged, and the three cleaned columns
   * holding the cleaned values of the original's: None or a number of the
   * right kind.
   */
  lemma CleanItemSpec(item: Item, parse: FloatParser)
    requires CleanItem(item, parse).Some?
    ensures var c := CleanItem(item, parse).value;
      && c.Keys == item.Keys + {MsrpKey, SalePriceKey, PieceCountKey}
      && (forall k :: k in item && k != MsrpKey && k != SalePriceKey && k != PieceCountKey ==> c[k] == item[k])
      && (c[MsrpKey].NoneV? || c[MsrpKey].FloatV?)
      && (c[SalePriceKey].NoneV? || c[SalePriceKey].FloatV?)
      && (c[PieceCountKey].NoneV? || c[PieceCountKey].IntV?)
      && c[MsrpKey] == CleanPrice(item, MsrpKey, parse).value
      && c[SalePriceKey] == CleanPrice(item, SalePriceKey, parse).value
      && c[PieceCountKey] == CleanPieceCount(item)
  {
  }

  /** Cleaning fails exactly when `float()` raises on the stripped text of a truthy string price. */
  lemma CleanItemFails(item: Item, parse: FloatParser)
    ensures CleanItem(item, parse).None? <==>
      exists key :: key in {MsrpKey, SalePriceKey} && key in item && item[key].StrV? && item[key].s != ""
        && parse(PriceDigits(item[key].s)).None?
  {
    if CleanItem(item, parse).None? {
      if CleanPrice(item, MsrpKey, parse).None? {
        assert MsrpKey in {MsrpKey, SalePriceKey};
      } else {
        assert SalePriceKey in {MsrpKey, SalePriceKey};
      }
    }
  }

  /**
   * Cleaning a cleaned set again changes nothing, as long as no cleaned
   * column came out as a zero (which the second pass would read as falsy).
   */
  lemma CleanTwice(item: Item, parse: FloatParser, again: FloatParser)
    requires CleanItem(item, parse).Some?
    requires var c := CleanItem(item, parse).value;
      c[MsrpKey] != FloatV(0.0) && c[SalePriceKey] != FloatV(0.0) && c[PieceCountKey] != IntV(0)
    ensures CleanItem(CleanItem(item, parse).value, again) == CleanItem(item, parse)
  {
    var c := CleanItem(item, parse).value;
    var d := CleanItem(c, again);
    assert d.Some?;
    assert d.value == c;
  }

  /** The cleaned list: one cleaned copy per set, in order, or None when any set fails. */
  function CleanAll(setsData: seq<Item>, parse: FloatParser): (r: Option<seq<Item>>)
    ensures r.Some? ==> |r.value| == |setsData|
  {
    if setsData == [] then Some([])
    else
      var n := |setsData| - 1;
      var before := CleanAll(setsData[..n], parse);
      var last := CleanItem(setsData[n], parse);
      if before.None? || last.None? then None else Some(before.value + [last.value])
  }

  /** The cleaned list keeps length and order: its `i`-th entry is the cleaned `i`-th set. */
  lemma {:induction false} CleanAllSpec(setsData: seq<Item>, parse: FloatParser)
    ensures CleanAll(setsData, parse).Some? <==> forall i :: 0 <= i < |setsData| ==> CleanItem(setsData[i], parse).Some?
    ensures CleanAll(setsData, parse).Some? ==>
      forall i :: 0 <= i < |setsData| ==> CleanAll(setsData, parse).value[i] == CleanItem(setsData[i], parse).value
  {
    if setsData != [] {
      var n := |setsData| - 1;
      CleanAllSpec(setsData[..n], parse);
      assert forall i :: 0 <= i < n ==> setsData[..n][i] == setsData[i];
    }
  }

  /**
   * The cleaning loop of `upsert_lego_sets`: each set is copied, its three
   * columns are rewritten in the copy, and the copy is appended. None
   * stands for the exception that aborts the loop.
   */
  method CleanSets(setsData: seq<Item>, parse: FloatParser) returns (cleanedData: Option<seq<Item>>)
    ensures cleanedData == CleanAll(setsData, parse)
  {
    var cleaned: seq<Item> := [];
    var i := 0;
    while i < |setsData|
      invariant 0 <= i <= |setsData|
      invariant CleanAll(setsData[..i], parse) == Some(cleaned)
    {
      assert setsData[..i + 1][..i] == setsData[..i];
      var cleanedItem := setsData[i];
      var msrp := CleanPrice(cleanedItem, MsrpKey, parse);
      if msrp.None? {
        PrefixFails(setsData, parse, i + 1);
        return None;
      }
      cleanedItem := cleanedItem[MsrpKey := msrp.value];
      var salePrice := CleanPrice(cleanedItem, SalePriceKey, parse);
      if salePrice.None? {
        PrefixFails(setsData, parse, i + 1);
        return None;
      }
      cleanedItem := cleanedItem[SalePriceKey := salePrice.value];
      cleanedItem := cleanedItem[PieceCountKey := CleanPieceCount(cleanedItem)];
      cleaned := cleaned + [cleanedItem];
      i := i + 1;
    }
    assert setsData[..i] == setsData;
    cleanedData := Some(cleaned);
  }

  /** Once a prefix of the sets fails to clean, the whole list does. */
  lemma {:induction false} PrefixFails(setsData: seq<Item>, parse: FloatParser, k: nat)
    requires k <= |setsData| && CleanAll(setsData[..k], parse).None?
    ensures CleanAll(setsData, parse).None?
    decreases |setsData| - k
  {
    if k < |setsData| {
      var next := setsData[..k + 1];
      assert next[..k] == setsData[..k];
      PrefixFails(setsData, parse, k + 1);
    } else {
      assert setsData[..k] == setsData;
    }
  }

  // ------------------------------------------------------------ the upsert helpers

  /** How the service call ended. */
  datatype CallOutcome = Completed | Raised

  /** `upsert_themes` and `upsert_pov_data`: True exactly when the call completes; never raises. */
  function UpsertRows(call: CallOutcome): (ok: bool)
    ensures ok <==> call == Completed
  {
    match call
    case Completed => true
    case Raised => false
  }

  /**
   * `upsert_lego_sets`: the rows sent are the cleaned sets, sent only when
   * every set cleans; the result is True exactly when the cleaning and the
   * call both complete.
   */
  method UpsertLegoSets(setsData: seq<Item>, parse: FloatParser, call: CallOutcome)
    returns (ok: bool, sent: Option<seq<Item>>)
    ensures sent == CleanAll(setsData, parse)
    ensures ok <==> sent.Some? && call == Completed
    ensures sent.Some? ==> |sent.value| == |setsData|
  {
    sent := CleanSets(setsData, parse);
    if sent.None? {
      return false, sent;
    }
    ok := UpsertRows(call);
  }
}
