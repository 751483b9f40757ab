/**
 * The get-by-id handler: the path id is stripped and checked against the
 * uuid4-hex pattern, turned into the `"ITEM#" + id` key and looked up; a
 * missing or empty record is 404, a present one is projected to its public form.
 */
module GetItem {
  import opened Wrappers
  import opened Text
  import opened Records
  import CreateItem

  const IdMessage: string := "id must be 32 hex chars (uuid4 hex)"
  const NotFoundMessage: string := "not found"
  const IdLength: nat := 32

  predicate IsHexDigit(c: char) {
    ('0' <= c <= '9') || ('a' <= c <= 'f') || ('A' <= c <= 'F')
  }

  /** `[0-9a-fA-F]{n}` matched against the whole of `s`. */
  predicate HexRun(s: string, n: nat) {
    if n == 0 then s == []
    else s != [] && IsHexDigit(s[0]) && HexRun(s[1..], n - 1)
  }

  /**
   * `re.match(r"^[0-9a-fA-F]{32}$", s)`: in Python `$` matches at the end of
   * the string and also just before a newline that ends it.
   */
  predicate MatchesIdPattern(s: string) {
    HexRun(s, IdLength) || (s != [] && s[|s| - 1] == '\n' && HexRun(s[..|s| - 1], IdLength))
  }

  /** The run matcher accepts exactly the strings of `n` hex digits. */
  lemma {:induction false} HexRunIff(s: string, n: nat)
    ensures HexRun(s, n) <==> |s| == n && forall k | 0 <= k < |s| :: IsHexDigit(s[k])
  {
    if n > 0 && s != [] {
      HexRunIff(s[1..], n - 1);
      if |s| == n && forall k | 0 <= k < |s| :: IsHexDigit(s[k]) {
        assert forall k | 0 <= k < |s[1..]| :: s[1..][k] == s[k + 1];
      }
    }
  }

  /** `(path_params.get("id") or "").strip()`, where absent path parameters read as `{}`. */
  function PathId(pathParameters: Option<map<string, string>>): string {
    var params := pathParameters.GetOr(map[]);
    Strip(if "id" in params then params["id"] else "")
  }

  /** `item_id and _UUID_HEX_RE.match(item_id)` */
  predicate IdAccepted(id: string) {
    id != "" && MatchesIdPattern(id)
  }

  /** The primary key of the item with this id, with no case normalisation. */
  function ItemKey(id: string): string {
    KeyPrefix + id
  }

  /** `if not item`: an absent record and an empty one are both "not found". */
  predicate Found(store: map<string, Record>, key: string) {
    key in store && store[key] != map[]
  }

  /**
   * The get handler as a function of the configuration, the path parameters
   * and the table contents (a point read; nothing is written).
   */
  function GetHandler(cfg: Config, pathParameters: Option<map<string, string>>, store: map<string, Record>)
    : (resp: Response)
    ensures resp.status == 200 || resp.status == 400 || resp.status == 404 || resp.status == 500
    ensures resp.status == 200 ==> resp.body.ItemBody? && resp.body.item.Keys == PublicKeys
    ensures resp.status == 400 <==> TableConfigured(cfg) && !IdAccepted(PathId(pathParameters))
  {
    if !TableConfigured(cfg) then TableMissing()
    else
      var id := PathId(pathParameters);
      if !IdAccepted(id) then Response(400, Message(IdMessage))
      else
        var key := ItemKey(id);
        if !Found(store, key) then Response(404, Message(NotFoundMessage))
        else Response(200, ItemBody(ToPublic(store[key])))
  }

  /** TABLE_NAME is checked before the id is examined. */
  lemma GetConfigCheckedFirst(cfg: Config, pathParameters: Option<map<string, string>>, store: map<string, Record>)
    requires !TableConfigured(cfg)
    ensures GetHandler(cfg, pathParameters, store) == Response(500, Message(TableMissingMessage))
  {
  }

  /**
   * After stripping, the id is accepted exactly when it is 32 hex digits of
   * either case; the newline allowance of `$` never applies because stripping
   * removed any final newline.
   */
  lemma IdAcceptedIff(pathParameters: Option<map<string, string>>)
    ensures var id := PathId(pathParameters);
      IdAccepted(id) <==> |id| == IdLength && forall k | 0 <= k < |id| :: IsHexDigit(id[k])
  {
    var id := PathId(pathParameters);
    HexRunIff(id, IdLength);
    assert IsTrimmed(id);
    assert !(id != [] && id[|id| - 1] == '\n');
  }

  /** An absent id, or absent path parameters, is refused with the id message. */
  lemma AbsentIdRefused(cfg: Config, params: map<string, string>, store: map<string, Record>)
    requires TableConfigured(cfg) && "id" !in params
    ensures GetHandler(cfg, None, store) == Response(400, Message(IdMessage))
    ensures GetHandler(cfg, Some(params), store) == Response(400, Message(IdMessage))
  {
  }

  /** For a refused id the table is never consulted: the answer is the same for every table. */
  lemma RefusedIdIgnoresStore(cfg: Config, pathParameters: Option<map<string, string>>,
                              store1: map<string, Record>, store2: map<string, Record>)
    requires TableConfigured(cfg) && !IdAccepted(PathId(pathParameters))
    ensures GetHandler(cfg, pathParameters, store1) == GetHandler(cfg, pathParameters, store2)
                                                  == Response(400, Message(IdMessage))
  {
  }

  /** Whitespace around the path id is stripped before the check. */
  lemma PaddedPathId(pre: string, id: string, post: string)
    requires AllSpace(pre) && AllSpace(post) && IsTrimmed(id) && id != []
    ensures PathId(Some(map["id" := pre + id + post])) == id
    ensures PathId(Some(map["id" := id])) == id
  {
    StripPadding(pre, id, post);
    StripTrimmed(id);
  }

  /** Whitespace around the path id is ignored: the padded id gets the same answer. */
  lemma PaddedIdSameAnswer(cfg: Config, pre: string, id: string, post: string, store: map<string, Record>)
    requires AllSpace(pre) && AllSpace(post) && IsTrimmed(id) && id != []
    ensures GetHandler(cfg, Some(map["id" := pre + id + post]), store)
         == GetHandler(cfg, Some(map["id" := id]), store)
  {
    PaddedPathId(pre, id, post);
  }

  /** An accepted id whose key is absent, or holds an empty record, is 404 "not found". */
  lemma MissingRecordNotFound(cfg: Config, pathParameters: Option<map<string, string>>, store: map<string, Record>)
    requires TableConfigured(cfg) && IdAccepted(PathId(pathParameters))
    requires !Found(store, ItemKey(PathId(pathParameters)))
    ensures GetHandler(cfg, pathParameters, store) == Response(404, Message(NotFoundMessage))
  {
  }

  /** A present record is answered with its seven public attributes, missing ones as "". */
  lemma PresentRecordProjected(cfg: Config, pathParameters: Option<map<string, string>>, store: map<string, Record>)
    requires TableConfigured(cfg) && IdAccepted(PathId(pathParameters))
    requires Found(store, ItemKey(PathId(pathParameters)))
    ensures var rec := store[ItemKey(PathId(pathParameters))];
      var resp := GetHandler(cfg, pathParameters, store);
      && resp.status == 200
      && resp.body.item.Keys == PublicKeys
      && forall k | k in PublicKeys :: resp.body.item[k] == Lookup(rec, k)
  {
  }

  function UpperChar(c: char): char {
    if 'a' <= c <= 'z' then (c as int - 32) as char else c
  }

  /** ASCII upper-casing. */
  function Upper(s: string): (r: string)
    ensures |r| == |s| && forall k | 0 <= k < |s| :: r[k] == UpperChar(s[k])
  {
    seq(|s|, k requires 0 <= k < |s| => UpperChar(s[k]))
  }

  /** An id of 32 hex digits sent as the path id is read back unchanged and accepted. */
  lemma HexIdAccepted(id: string)
    requires |id| == IdLength && forall k | 0 <= k < |id| :: IsHexDigit(id[k])
    ensures PathId(Some(map["id" := id])) == id
    ensures IdAccepted(id)
  {
    assert !IsSpace(id[0]) && !IsSpace(id[|id| - 1]);
    StripTrimmed(id);
    HexRunIff(id, IdLength);
  }

  /**
   * Keys are case-sensitive: when only the lower-case id is stored, its
   * upper-case variant passes the pattern but reads a different key and is 404.
   */
  lemma UpperCaseVariantNotFound(cfg: Config, id: string, rec: Record, j: nat)
    requires TableConfigured(cfg) && rec != map[]
    requires CreateItem.IsLowerHexId(id) && j < |id| && 'a' <= id[j] <= 'f'
    ensures ItemKey(Upper(id)) != ItemKey(id)
    ensures GetHandler(cfg, Some(map["id" := Upper(id)]), map[ItemKey(id) := rec])
         == Response(404, Message(NotFoundMessage))
  {
    var up := Upper(id);
    assert ItemKey(up)[|KeyPrefix| + j] == up[j] != id[j] == ItemKey(id)[|KeyPrefix| + j];
    assert forall k | 0 <= k < |up| :: IsHexDigit(up[k]) by {
      forall k | 0 <= k < |up| ensures IsHexDigit(up[k]) {
        assert up[k] == UpperChar(id[k]);
      }
    }
    HexIdAccepted(up);
  }

  /** Reading back a stored record by its own id answers its public projection. */
  lemma GetAfterPut(cfg: Config, rec: Record, store: map<string, Record>)
    requires TableConfigured(cfg)
    requires Pk in rec && Id in rec && rec[Pk] == KeyPrefix + rec[Id]
    requires |rec[Id]| == IdLength && forall k | 0 <= k < |rec[Id]| :: IsHexDigit(rec[Id][k])
    ensures GetHandler(cfg, Some(map["id" := rec[Id]]), store[rec[Pk] := rec])
         == Response(200, ItemBody(ToPublic(rec)))
  {
    HexIdAccepted(rec[Id]);
    assert rec != map[];
  }

  /** Reading back a created outcome's record by its id answers the outcome's item. */
  lemma GetAfterCreated(cfg: Config, o: CreateItem.CreateOutcome, itemId: string, store: map<string, Record>)
    requires TableConfigured(cfg) && o.Created?
    requires Pk in o.record && Id in o.record
    requires o.record[Pk] == KeyPrefix + itemId && o.record[Id] == itemId
    requires o.item == ToPublic(o.record)
    requires CreateItem.IsLowerHexId(itemId)
    ensures GetHandler(cfg, Some(map["id" := o.item[Id]]), CreateItem.StoreAfter(store, o))
         == Response(200, ItemBody(o.item))
  {
    assert forall k | 0 <= k < |itemId| :: IsHexDigit(itemId[k]);
    GetAfterPut(cfg, o.record, store);
  }

  /**
   * Round trip: after the create handler wrote its record, getting the item by
   * the id it returned answers 200 with exactly the item create returned.
   */
  lemma CreateThenGet(cfg: Config, event: CreateItem.CreateEvent, itemId: string, createdAt: string,
                      store: map<string, Record>)
    requires CreateItem.Create(cfg, event, itemId, createdAt).Created?
    requires CreateItem.IsLowerHexId(itemId)
    ensures var o := CreateItem.Create(cfg, event, itemId, createdAt);
      GetHandler(cfg, Some(map["id" := o.item[Id]]), CreateItem.StoreAfter(store, o))
        == Response(200, ItemBody(o.item))
  {
    var o := CreateItem.Create(cfg, event, itemId, createdAt);
    CreateItem.CreatedRecordShape(cfg, event, itemId, createdAt);
    assert Pk in o.record;
    GetAfterCreated(cfg, o, itemId, store);
  }
}
