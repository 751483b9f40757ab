/**
 * The list handler: the `limit` query parameter is defaulted, parsed and
 * bounded before the listing index is queried; the records the store returns
 * are projected one by one, in the order given, and counted.
 */
module ListItems {
  import opened Wrappers
  import opened Text
  import opened Records

  const IntegerMessage: string := "limit must be an integer"
  const RangeMessage: string := "limit must be between 1 and 100"
  const DefaultLimit: int := 20
  const MinLimit: int := 1
  const MaxLimit: int := 100

  /** The index query the handler issues: index name, partition value and page size. */
  datatype Query = Query(indexName: string, partition: string, limit: int)

  /** `(q.get("limit") or "").strip()`, where absent query parameters read as `{}`. */
  function LimitText(queryParameters: Option<map<string, string>>): string {
    var q := queryParameters.GetOr(map[]);
    Strip(if "limit" in q then q["limit"] else "")
  }

  /** The page size for a stripped `limit` text, or the 400 response refusing it. */
  function EffectiveLimit(raw: string): (r: Result<int, Response>)
    ensures r.Ok? ==> MinLimit <= r.value <= MaxLimit
    ensures r.Err? ==> r.error.status == 400
  {
    var parsed := if raw == "" then Some(DefaultLimit) else ParseInt(raw);
    match parsed
    case None => Err(Response(400, Message(IntegerMessage)))
    case Some(n) =>
      if n < MinLimit || n > MaxLimit then Err(Response(400, Message(RangeMessage)))
      else Ok(n)
  }

  /** The query the handler would issue, or the response it gives before querying. */
  function ListPlan(cfg: Config, queryParameters: Option<map<string, string>>): Result<Query, Response> {
    if !TableConfigured(cfg) then Err(TableMissing())
    else match EffectiveLimit(LimitText(queryParameters))
      case Err(r) => Err(r)
      case Ok(n) => Ok(Query(ListingIndex(cfg), ListingPartition(cfg), n))
  }

  /** The public projection of each record, position by position. */
  function Project(page: seq<Record>): (items: seq<PublicItem>)
    ensures |items| == |page|
    ensures forall i | 0 <= i < |page| :: items[i] == ToPublic(page[i])
  {
    if page == [] then [] else [ToPublic(page[0])] + Project(page[1..])
  }

  /**
   * The list handler as a function of the configuration, the query parameters
   * and `page`, the records the store returns for the issued query.
   */
  function ListResult(cfg: Config, queryParameters: Option<map<string, string>>, page: seq<Record>): Response {
    match ListPlan(cfg, queryParameters)
    case Err(r) => r
    case Ok(_) =>
      var items := Project(page);
      Response(200, ItemsBody(items, |items|))
  }

  /** The query issued, if any. */
  function Issued(cfg: Config, queryParameters: Option<map<string, string>>): Option<Query> {
    match ListPlan(cfg, queryParameters)
    case Err(_) => None
    case Ok(query) => Some(query)
  }

  /** The projection loop: each returned record's public item appended in order. */
  method ProjectPage(page: seq<Record>) returns (publicItems: seq<PublicItem>)
    ensures publicItems == Project(page)
  {
    publicItems := [];
    var i := 0;
    while i < |page|
      invariant 0 <= i <= |page|
      invariant |publicItems| == i
      invariant forall j | 0 <= j < i :: publicItems[j] == ToPublic(page[j])
    {
      publicItems := publicItems + [ToPublic(page[i])];
      i := i + 1;
    }
  }

  /**
   * The list handler: `limit` starts at 20 and is replaced by the parsed text
   * when one is given; the query is issued only once the limit is in range;
   * the projected items are appended one by one.
   */
  method ListHandler(cfg: Config, queryParameters: Option<map<string, string>>, page: seq<Record>)
    returns (resp: Response, issued: Option<Query>)
    ensures resp == ListResult(cfg, queryParameters, page)
    ensures issued == Issued(cfg, queryParameters)
  {
    if !TableConfigured(cfg) {
      return TableMissing(), None;
    }
    var gsiName := ListingIndex(cfg);
    var gsiPk := ListingPartition(cfg);

    var q := queryParameters.GetOr(map[]);
    var limitRaw := Strip(if "limit" in q then q["limit"] else "");

    var limit := DefaultLimit;
    if limitRaw != "" {
      var parsed := ParseInt(limitRaw);
      if parsed.None? {
        return Response(400, Message(IntegerMessage)), None;
      }
      limit := parsed.value;
    }
    if limit < MinLimit || limit > MaxLimit {
      return Response(400, Message(RangeMessage)), None;
    }

    issued := Some(Query(gsiName, gsiPk, limit));

    var publicItems := ProjectPage(page);
    resp := Response(200, ItemsBody(publicItems, |publicItems|));
  }

  // Properties of the list contract

  /** TABLE_NAME is checked before the limit; nothing is queried. */
  lemma ListConfigCheckedFirst(cfg: Config, queryParameters: Option<map<string, string>>, page: seq<Record>)
    requires !TableConfigured(cfg)
    ensures ListResult(cfg, queryParameters, page) == Response(500, Message(TableMissingMessage))
    ensures Issued(cfg, queryParameters) == None
  {
  }

  /** An absent, empty or whitespace-only `limit` means 20. */
  lemma BlankLimitDefaults(cfg: Config, queryParameters: Option<map<string, string>>)
    requires TableConfigured(cfg)
    requires var q := queryParameters.GetOr(map[]); "limit" !in q || AllSpace(q["limit"])
    ensures Issued(cfg, queryParameters) == Some(Query(ListingIndex(cfg), ListingPartition(cfg), DefaultLimit))
  {
    var q := queryParameters.GetOr(map[]);
    if "limit" in q {
      StripEmptyIff(q["limit"]);
    }
    assert LimitText(queryParameters) == "";
    assert EffectiveLimit("") == Ok(DefaultLimit);
  }

  /** A non-blank `limit` that is not an integer is refused before any query. */
  lemma NonIntegerLimitRefused(cfg: Config, queryParameters: Option<map<string, string>>, page: seq<Record>)
    requires TableConfigured(cfg)
    requires LimitText(queryParameters) != "" && ParseInt(LimitText(queryParameters)).None?
    ensures ListResult(cfg, queryParameters, page) == Response(400, Message(IntegerMessage))
    ensures Issued(cfg, queryParameters) == None
  {
  }

  /** A parsed limit is accepted exactly when it lies in [1, 100]; otherwise the range message. */
  lemma LimitRange(cfg: Config, queryParameters: Option<map<string, string>>, n: int)
    requires TableConfigured(cfg) && ParseInt(LimitText(queryParameters)) == Some(n)
    ensures Issued(cfg, queryParameters).Some? <==> MinLimit <= n <= MaxLimit
    ensures MinLimit <= n <= MaxLimit ==> Issued(cfg, queryParameters).value.limit == n
    ensures !(MinLimit <= n <= MaxLimit) ==>
      ListPlan(cfg, queryParameters) == Err(Response(400, Message(RangeMessage)))
  {
  }

  /** Naturals up to 100 are rendered in at most three digits. */
  lemma SmallDecimalLength(n: nat)
    requires n <= MaxLimit
    ensures |NatToDecimal(n)| <= 3
  {
    if n >= 10 {
      assert NatToDecimal(n) == NatToDecimal(n / 10) + [DigitChar(n % 10)];
      if n / 10 >= 10 {
        assert |NatToDecimal(n / 10)| == |NatToDecimal(n / 100)| + 1;
      }
    }
  }

  /**
   * The rendering of an in-range natural is accepted as that limit. Any other
   * natural, and any negated one ("-0" included), gets the range message,
   * unless its rendering is over 4300 digits, which `int` refuses outright.
   */
  lemma DecimalLimit(n: nat)
    ensures MinLimit <= n <= MaxLimit ==> EffectiveLimit(NatToDecimal(n)) == Ok(n)
    ensures !(MinLimit <= n <= MaxLimit) ==> (EffectiveLimit(NatToDecimal(n)) ==
      if |NatToDecimal(n)| <= MaxStrDigits then Err(Response(400, Message(RangeMessage)))
      else Err(Response(400, Message(IntegerMessage))))
    ensures EffectiveLimit("-" + NatToDecimal(n)) ==
      if |NatToDecimal(n)| <= MaxStrDigits then Err(Response(400, Message(RangeMessage)))
      else Err(Response(400, Message(IntegerMessage)))
  {
    if n <= MaxLimit {
      SmallDecimalLength(n);
    }
    if |NatToDecimal(n)| <= MaxStrDigits {
      ParseIntRoundTrip(n);
    } else {
      ParseIntRejectsLongDigits(NatToDecimal(n));
    }
  }

  /** A limit of more than 4300 digits is refused as not an integer, whatever its value. */
  lemma OverlongLimitRefused(cfg: Config, d: string)
    requires TableConfigured(cfg) && AllDigits(d) && |d| > MaxStrDigits
    ensures EffectiveLimit(d) == Err(Response(400, Message(IntegerMessage)))
    ensures ListPlan(cfg, Some(map["limit" := d])) == Err(Response(400, Message(IntegerMessage)))
  {
    ParseIntRejectsLongDigits(d);
    assert IsTrimmed(d);
    StripTrimmed(d);
  }

  /** 4300 zeros followed by "1" has the value 1, yet it is refused. */
  lemma ZeroPaddedOneRefused()
    ensures EffectiveLimit(seq(MaxStrDigits, _ => '0') + "1") == Err(Response(400, Message(IntegerMessage)))
  {
    var d := seq(MaxStrDigits, _ => '0') + "1";
    assert forall k | 0 <= k < |d| :: IsDigit(d[k]) by {
      forall k | 0 <= k < |d| ensures IsDigit(d[k]) {
        if k < MaxStrDigits {
          assert d[k] == '0';
        } else {
          assert d[k] == '1';
        }
      }
    }
    ParseIntRejectsLongDigits(d);
  }

  /** The limits of the examples: 0, 101, -5 and "abc" are refused; 1, 100 and "1_0" are accepted. */
  lemma LimitExamples()
    ensures EffectiveLimit("0") == Err(Response(400, Message(RangeMessage)))
    ensures EffectiveLimit("101") == Err(Response(400, Message(RangeMessage)))
    ensures EffectiveLimit("-5") == Err(Response(400, Message(RangeMessage)))
    ensures EffectiveLimit("1") == Ok(1)
    ensures EffectiveLimit("100") == Ok(100)
    ensures EffectiveLimit("abc") == Err(Response(400, Message(IntegerMessage)))
    ensures EffectiveLimit("1_0") == Ok(10)
  {
    assert NatToDecimal(0) == "0";
    assert NatToDecimal(1) == "1";
    assert NatToDecimal(5) == "5";
    assert NatToDecimal(10) == "10";
    assert NatToDecimal(100) == "100";
    assert NatToDecimal(101) == "101";
    DecimalLimit(0);
    DecimalLimit(1);
    DecimalLimit(5);
    DecimalLimit(100);
    DecimalLimit(101);
    ParseIntRejectsNonDigit("abc", 0);
    ParseIntSeparatorExample();
  }

  /** A refused request gives the same answer whatever the store would have returned. */
  lemma RefusedLimitIgnoresPage(cfg: Config, queryParameters: Option<map<string, string>>,
                                page1: seq<Record>, page2: seq<Record>)
    requires ListPlan(cfg, queryParameters).Err?
    ensures ListResult(cfg, queryParameters, page1) == ListResult(cfg, queryParameters, page2)
  {
  }

  /**
   * An accepted request answers 200 with one item per returned record, in the
   * store's order, each with exactly the seven public attributes (missing ones
   * as ""), and a count equal to the number of items.
   */
  lemma AcceptedListShape(cfg: Config, queryParameters: Option<map<string, string>>, page: seq<Record>)
    requires ListPlan(cfg, queryParameters).Ok?
    ensures var resp := ListResult(cfg, queryParameters, page);
      && resp.status == 200
      && resp.body.ItemsBody?
      && resp.body.count == |resp.body.items| == |page|
      && (forall i | 0 <= i < |page| :: resp.body.items[i] == ToPublic(page[i]))
      && (forall i | 0 <= i < |page| :: resp.body.items[i].Keys == PublicKeys)
      && (forall i, k | 0 <= i < |page| && k in PublicKeys :: resp.body.items[i][k] == Lookup(page[i], k))
  {
  }
}
