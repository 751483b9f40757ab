/**
 * The create handler: body decoding, the ordered first-failure-wins field rules,
 * construction of the stored record with its index keys, the write into the
 * table and the public item returned with status 201.
 */
module CreateItem {
  import opened Wrappers
  import opened Text
  import opened Records

  /** What `json.loads` made of the raw body text. */
  datatype JsonText = Json(value: Value) | Malformed(detail: string)

  /** The parts of the request event the create handler reads. */
  datatype CreateEvent = CreateEvent(body: Option<JsonText>, isBase64Encoded: bool)

  const Base64Message: string := "base64 body is not supported in this sample"
  const InvalidJsonPrefix: string := "invalid json: "
  const TitleMessage: string := "title is required (1-200 chars)"
  const BodyMessage: string := "body is required (1-4000 chars)"
  const TitleMax: nat := 200
  const BodyMax: nat := 4000
  const OptionalMax: nat := 100

  /**
   * The request body as a JSON value: an absent body is the empty object, a
   * base64-flagged body is refused, and a decoding failure carries its detail.
   */
  function ParseJsonBody(event: CreateEvent): Result<Value, string> {
    match event.body
    case None => Ok(Object(map[]))
    case Some(text) =>
      if event.isBase64Encoded then Err(Base64Message)
      else match text
        case Json(v) => Ok(v)
        case Malformed(detail) => Err(InvalidJsonPrefix + detail)
  }

  /** A string whose stripped length lies within [lo, hi]; never true of a non-string. */
  predicate IsValidText(v: Value, lo: int, hi: int) {
    v.Str? && lo <= |Strip(v.s)| <= hi
  }

  /**
   * The bound is on the stripped length: padding around a trimmed string does
   * not change the verdict, a whitespace-only string measures 0, and a
   * non-string never passes.
   */
  lemma ValidTextMeasuresStripped(pre: string, s: string, post: string, lo: int, hi: int, v: Value)
    requires AllSpace(pre) && AllSpace(post) && IsTrimmed(s) && s != []
    ensures IsValidText(Str(pre + s + post), lo, hi) <==> lo <= |s| <= hi
    ensures IsValidText(Str(pre), lo, hi) <==> lo <= 0 <= hi
    ensures !v.Str? ==> !IsValidText(v, lo, hi)
  {
    StripPadding(pre, s, post);
    StripEmptyIff(pre);
  }

  /** `body.get(k, "")` on the decoded request object. */
  function Field(body: map<string, Value>, k: string): Value {
    if k in body then body[k] else Str("")
  }

  /** One optional field with its name and maximum stripped length. */
  datatype OptField = OptField(name: string, value: Value, max: nat)

  /** The optional-field rule: "" passes; otherwise a string of stripped length at most `max`. */
  predicate OptFails(f: OptField) {
    f.value != Str("") && (!f.value.Str? || |Strip(f.value.s)| > f.max)
  }

  function OptMessage(f: OptField): string {
    f.name + " must be <= " + NatToDecimal(f.max) + " chars"
  }

  /** The message of the first optional field that fails its rule, if any. */
  function FirstOptionalError(fs: seq<OptField>): (r: Option<string>)
    ensures r.None? <==> forall j | 0 <= j < |fs| :: !OptFails(fs[j])
  {
    if fs == [] then None
    else if OptFails(fs[0]) then Some(OptMessage(fs[0]))
    else FirstOptionalError(fs[1..])
  }

  /** The reported error is the one of the earliest failing field. */
  lemma {:induction false} FirstOptionalErrorAt(fs: seq<OptField>, j: nat)
    requires j < |fs| && OptFails(fs[j])
    requires forall i | 0 <= i < j :: !OptFails(fs[i])
    ensures FirstOptionalError(fs) == Some(OptMessage(fs[j]))
  {
    if j > 0 {
      FirstOptionalErrorAt(fs[1..], j - 1);
    }
  }

  /** The accepted fields, each stripped. */
  datatype Fields = Fields(title: string, body: string, category: string, priority: string, author: string)

  /** What the field rules guarantee of every accepted request. */
  predicate WellFormedFields(f: Fields) {
    && IsTrimmed(f.title) && 1 <= |f.title| <= TitleMax
    && IsTrimmed(f.body) && 1 <= |f.body| <= BodyMax
    && IsTrimmed(f.category) && |f.category| <= OptionalMax
    && IsTrimmed(f.priority) && |f.priority| <= OptionalMax
    && IsTrimmed(f.author) && |f.author| <= OptionalMax
  }

  /** The stripped text of a field that passed its rule ("" stays ""). */
  function StrippedText(v: Value): string {
    if v.Str? then Strip(v.s) else ""
  }

  /** The optional fields in the order they are checked. */
  function OptionalFields(category: Value, priority: Value, author: Value): seq<OptField> {
    [ OptField("category", category, OptionalMax),
      OptField("priority", priority, OptionalMax),
      OptField("author", author, OptionalMax) ]
  }

  /**
   * The field rules in order title, body, category, priority, author; the first
   * failure decides the message. Accepted fields are returned stripped.
   */
  function ValidateFields(title: Value, text: Value, category: Value, priority: Value, author: Value)
    : (r: Result<Fields, string>)
    ensures r.Ok? ==> WellFormedFields(r.value)
    ensures r.Ok? ==> r.value == Fields(StrippedText(title), StrippedText(text),
      StrippedText(category), StrippedText(priority), StrippedText(author))
  {
    if !IsValidText(title, 1, TitleMax) then Err(TitleMessage)
    else if !IsValidText(text, 1, BodyMax) then Err(BodyMessage)
    else
      var opts := OptionalFields(category, priority, author);
      match FirstOptionalError(opts)
      case Some(m) => Err(m)
      case None =>
        assert !OptFails(opts[0]) && !OptFails(opts[1]) && !OptFails(opts[2]);
        Ok(Fields(Strip(title.s), Strip(text.s),
          StrippedText(category), StrippedText(priority), StrippedText(author)))
  }

  /** The create rules applied to the decoded request object; missing keys read as "". */
  function ValidateCreate(body: map<string, Value>): Result<Fields, string> {
    ValidateFields(Field(body, "title"), Field(body, "body"),
      Field(body, "category"), Field(body, "priority"), Field(body, "author"))
  }

  /** What `uuid.uuid4().hex` yields: 32 lower-case hex digits. */
  predicate IsLowerHexId(id: string) {
    |id| == 32 && forall k | 0 <= k < |id| :: ('0' <= id[k] <= '9') || ('a' <= id[k] <= 'f')
  }

  /** The internal record: public attributes plus the primary key and the listing-index keys. */
  function BuildRecord(f: Fields, itemId: string, createdAt: string, partition: string): Record {
    map[
      Pk := KeyPrefix + itemId,
      Gsi1Pk := partition,
      Gsi1Sk := createdAt,
      Id := itemId,
      Title := f.title,
      Category := f.category,
      Priority := f.priority,
      Body := f.body,
      Author := f.author,
      CreatedAt := createdAt
    ]
  }

  /** What every record written by the create handler satisfies. */
  predicate StoredInvariant(rec: Record) {
    && rec.Keys == PublicKeys + IndexKeys
    && rec[Pk] == KeyPrefix + rec[Id]
    && rec[Gsi1Sk] == rec[CreatedAt]
    && WellFormedFields(Fields(rec[Title], rec[Body], rec[Category], rec[Priority], rec[Author]))
  }

  /** The 201 body: the public attributes of the freshly built record, read directly. */
  function PublicOfCreated(rec: Record): PublicItem
    requires PublicKeys <= rec.Keys
  {
    map k | k in PublicKeys :: rec[k]
  }

  /** Either an early response, or the record to write and the item to return. */
  datatype CreateOutcome = Rejected(response: Response) | Created(record: Record, item: PublicItem)

  /**
   * The create handler as a function of the configuration, the event, the
   * generated id and the creation timestamp (both supplied by the caller).
   * A decoded body that is not a JSON object makes `body.get` fail, which the
   * catch-all turns into 500 "internal error".
   */
  function Create(cfg: Config, event: CreateEvent, itemId: string, createdAt: string): CreateOutcome {
    if !TableConfigured(cfg) then Rejected(TableMissing())
    else match ParseJsonBody(event)
      case Err(m) => Rejected(Response(400, Message(m)))
      case Ok(v) =>
        if !v.Object? then Rejected(Response(500, Message(InternalErrorMessage)))
        else match ValidateCreate(v.fields)
          case Err(m) => Rejected(Response(400, Message(m)))
          case Ok(f) =>
            var rec := BuildRecord(f, itemId, createdAt, ListingPartition(cfg));
            Created(rec, PublicOfCreated(rec))
  }

  function CreateResponse(o: CreateOutcome): Response {
    match o
    case Rejected(r) => r
    case Created(_, item) => Response(201, ItemBody(item))
  }

  /** The table contents after the handler: only a created record is written, under its `pk`. */
  function StoreAfter(store: map<string, Record>, o: CreateOutcome): map<string, Record> {
    match o
    case Rejected(_) => store
    case Created(rec, _) => if Pk in rec then store[rec[Pk] := rec] else store
  }

  /** The item table, keyed by `pk`. */
  class Table {
    var items: map<string, Record>

    constructor (initial: map<string, Record>)
      ensures items == initial
    {
      items := initial;
    }

    /** Unconditional upsert under the record's `pk`. */
    method PutItem(item: Record)
      requires Pk in item
      modifies this
      ensures items == old(items)[item[Pk] := item]
    {
      items := items[item[Pk] := item];
    }
  }

  /**
   * The loop over the optional fields with its early exit: the message of the
   * first field that fails its rule, or nothing when all pass.
   */
  method CheckOptionalFields(opts: seq<OptField>) returns (err: Option<string>)
    ensures err == FirstOptionalError(opts)
  {
    var i := 0;
    while i < |opts|
      invariant 0 <= i <= |opts|
      invariant forall j | 0 <= j < i :: !OptFails(opts[j])
    {
      var f := opts[i];
      if f.value != Str("") && (!f.value.Str? || |Strip(f.value.s)| > f.max) {
        FirstOptionalErrorAt(opts, i);
        return Some(f.name + " must be <= " + NatToDecimal(f.max) + " chars");
      }
      i := i + 1;
    }
    return None;
  }

  /** The create handler: validates step by step, writes the record, returns the public item. */
  method CreateHandler(cfg: Config, event: CreateEvent, itemId: string, createdAt: string, table: Table)
    returns (resp: Response)
    modifies table
    ensures resp == CreateResponse(Create(cfg, event, itemId, createdAt))
    ensures table.items == StoreAfter(old(table.items), Create(cfg, event, itemId, createdAt))
  {
    if !TableConfigured(cfg) {
      return TableMissing();
    }
    var parsed := ParseJsonBody(event);
    if parsed.Err? {
      return Response(400, Message(parsed.error));
    }
    if !parsed.value.Object? {
      return Response(500, Message(InternalErrorMessage));
    }
    var body := parsed.value.fields;

    var title := Field(body, "title");
    var bodyText := Field(body, "body");
    var category := Field(body, "category");
    var priority := Field(body, "priority");
    var author := Field(body, "author");
    ghost var validated := ValidateFields(title, bodyText, category, priority, author);
    assert validated == ValidateCreate(body);

    if !IsValidText(title, 1, TitleMax) {
      return Response(400, Message(TitleMessage));
    }
    if !IsValidText(bodyText, 1, BodyMax) {
      return Response(400, Message(BodyMessage));
    }

    var opts := [
      OptField("category", category, OptionalMax),
      OptField("priority", priority, OptionalMax),
      OptField("author", author, OptionalMax)
    ];
    assert opts == OptionalFields(category, priority, author);
    var err := CheckOptionalFields(opts);
    if err.Some? {
      return Response(400, Message(err.value));
    }
    assert !OptFails(opts[0]) && !OptFails(opts[1]) && !OptFails(opts[2]);
    assert category.Str? && priority.Str? && author.Str?;
    ghost var fields := validated.value;
    assert fields == Fields(Strip(title.s), Strip(bodyText.s), Strip(category.s), Strip(priority.s), Strip(author.s));

    var item := map[
      Pk := KeyPrefix + itemId,
      Gsi1Pk := ListingPartition(cfg),
      Gsi1Sk := createdAt,
      Id := itemId,
      Title := Strip(title.s),
      Category := Strip(category.s),
      Priority := Strip(priority.s),
      Body := Strip(bodyText.s),
      Author := Strip(author.s),
      CreatedAt := createdAt
    ];
    assert item == BuildRecord(fields, itemId, createdAt, ListingPartition(cfg));
    assert Create(cfg, event, itemId, createdAt) == Created(item, PublicOfCreated(item));
    table.PutItem(item);

    var publicItem := map k | k in PublicKeys :: item[k];
    assert publicItem == PublicOfCreated(item);
    resp := Response(201, ItemBody(publicItem));
  }

  // Properties of the create contract

  /** TABLE_NAME is checked before the body is looked at. */
  lemma ConfigCheckedFirst(cfg: Config, event: CreateEvent, itemId: string, createdAt: string)
    requires !TableConfigured(cfg)
    ensures CreateResponse(Create(cfg, event, itemId, createdAt)) == Response(500, Message(TableMissingMessage))
  {
  }

  /** An absent body decodes to `{}` and then fails the title rule. */
  lemma AbsentBodyFailsTitle(cfg: Config, isBase64Encoded: bool, itemId: string, createdAt: string)
    requires TableConfigured(cfg)
    ensures CreateResponse(Create(cfg, CreateEvent(None, isBase64Encoded), itemId, createdAt))
         == Response(400, Message(TitleMessage))
  {
    assert !IsValidText(Field(map[], "title"), 1, TitleMax);
  }

  /** A base64-flagged body is refused with 400, whatever it contains. */
  lemma Base64Refused(cfg: Config, text: JsonText, itemId: string, createdAt: string)
    requires TableConfigured(cfg)
    ensures CreateResponse(Create(cfg, CreateEvent(Some(text), true), itemId, createdAt))
         == Response(400, Message(Base64Message))
  {
  }

  /** "" passes an optional rule; so does a string of stripped length at most `max`. */
  predicate OptAccepted(v: Value, max: nat) {
    v == Str("") || (v.Str? && |Strip(v.s)| <= max)
  }

  /** No optional field fails exactly when all three pass their rule. */
  lemma OptionalFieldsPassIff(category: Value, priority: Value, author: Value)
    ensures FirstOptionalError(OptionalFields(category, priority, author)).None? <==>
      OptAccepted(category, OptionalMax) && OptAccepted(priority, OptionalMax) && OptAccepted(author, OptionalMax)
  {
    var opts := OptionalFields(category, priority, author);
    assert !OptFails(opts[0]) <==> OptAccepted(category, OptionalMax);
    assert !OptFails(opts[1]) <==> OptAccepted(priority, OptionalMax);
    assert !OptFails(opts[2]) <==> OptAccepted(author, OptionalMax);
  }

  /** The rules accept exactly when all five fields pass. */
  lemma ValidateAcceptsIff(title: Value, text: Value, category: Value, priority: Value, author: Value)
    ensures ValidateFields(title, text, category, priority, author).Ok? <==>
      && IsValidText(title, 1, TitleMax)
      && IsValidText(text, 1, BodyMax)
      && OptAccepted(category, OptionalMax)
      && OptAccepted(priority, OptionalMax)
      && OptAccepted(author, OptionalMax)
  {
    OptionalFieldsPassIff(category, priority, author);
  }

  lemma HundredDecimal()
    ensures NatToDecimal(100) == "100"
  {
    assert NatToDecimal(1) == "1";
    assert NatToDecimal(10) == "10";
  }

  /** The messages reported for the three optional fields. */
  lemma OptMessageText(name: string, v: Value)
    ensures OptMessage(OptField(name, v, OptionalMax)) == name + " must be <= 100 chars"
  {
    HundredDecimal();
    assert " must be <= " + "100" + " chars" == " must be <= 100 chars";
  }

  /** The title rule is applied first: a bad title decides the message whatever else is wrong. */
  lemma TitleCheckedFirst(title: Value, text: Value, category: Value, priority: Value, author: Value)
    requires !IsValidText(title, 1, TitleMax)
    ensures ValidateFields(title, text, category, priority, author) == Err(TitleMessage)
  {
  }

  /** The body rule comes second. */
  lemma BodyCheckedSecond(title: Value, text: Value, category: Value, priority: Value, author: Value)
    requires IsValidText(title, 1, TitleMax) && !IsValidText(text, 1, BodyMax)
    ensures ValidateFields(title, text, category, priority, author) == Err(BodyMessage)
  {
  }

  /**
   * Once title and body pass, the optional fields are checked in the order
   * category, priority, author, and the first failing one is reported with
   * its own message (see `OptMessageText` for the text).
   */
  lemma OptionalCheckedInOrder(title: Value, text: Value, category: Value, priority: Value, author: Value)
    requires IsValidText(title, 1, TitleMax) && IsValidText(text, 1, BodyMax)
    ensures !OptAccepted(category, OptionalMax) ==>
      ValidateFields(title, text, category, priority, author) == Err(OptMessage(OptField("category", category, OptionalMax)))
    ensures OptAccepted(category, OptionalMax) && !OptAccepted(priority, OptionalMax) ==>
      ValidateFields(title, text, category, priority, author) == Err(OptMessage(OptField("priority", priority, OptionalMax)))
    ensures (OptAccepted(category, OptionalMax) && OptAccepted(priority, OptionalMax)
      && !OptAccepted(author, OptionalMax)) ==>
      ValidateFields(title, text, category, priority, author) == Err(OptMessage(OptField("author", author, OptionalMax)))
  {
    var opts := OptionalFields(category, priority, author);
    if OptFails(opts[0]) {
      FirstOptionalErrorAt(opts, 0);
    } else if OptFails(opts[1]) {
      FirstOptionalErrorAt(opts, 1);
    } else if OptFails(opts[2]) {
      FirstOptionalErrorAt(opts, 2);
    }
  }

  /** A missing key behaves exactly as if it were present with value "". */
  lemma MissingKeyDefaultsToEmpty(body: map<string, Value>, k: string)
    requires k !in body
    ensures ValidateCreate(body) == ValidateCreate(body[k := Str("")])
  {
    var body' := body[k := Str("")];
    assert forall j :: Field(body, j) == Field(body', j);
  }

  /**
   * Title bounds: a whitespace-only title and a title of stripped length 201
   * are refused with the title message; a stripped length of 200 is accepted
   * when the other fields pass.
   */
  lemma TitleBoundaries(s: string, text: Value, category: Value, priority: Value, author: Value)
    ensures AllSpace(s) ==> ValidateFields(Str(s), text, category, priority, author) == Err(TitleMessage)
    ensures |Strip(s)| == TitleMax + 1 ==>
      ValidateFields(Str(s), text, category, priority, author) == Err(TitleMessage)
    ensures (|Strip(s)| == TitleMax && IsValidText(text, 1, BodyMax) && OptAccepted(category, OptionalMax)
      && OptAccepted(priority, OptionalMax) && OptAccepted(author, OptionalMax)) ==>
      ValidateFields(Str(s), text, category, priority, author).Ok?
  {
    StripEmptyIff(s);
    ValidateAcceptsIff(Str(s), text, category, priority, author);
  }

  /** The 201 projection agrees with the defaulting projection used by get and list. */
  lemma PublicOfCreatedIsToPublic(rec: Record)
    requires PublicKeys <= rec.Keys
    ensures PublicOfCreated(rec) == ToPublic(rec)
  {
    assert forall k | k in PublicKeys :: Lookup(rec, k) == rec[k];
  }

  /** A record built from accepted fields satisfies the stored-record invariant. */
  lemma BuildRecordInvariant(f: Fields, itemId: string, createdAt: string, partition: string)
    requires WellFormedFields(f)
    ensures var rec := BuildRecord(f, itemId, createdAt, partition);
      && StoredInvariant(rec)
      && rec[Pk] == KeyPrefix + itemId
      && rec[Gsi1Pk] == partition
      && rec[Gsi1Sk] == createdAt
      && rec[Id] == itemId
  {
    var rec := BuildRecord(f, itemId, createdAt, partition);
    assert rec.Keys == PublicKeys + IndexKeys;
  }

  /**
   * Every created record satisfies the stored-record invariant, carries the
   * key `"ITEM#" + id`, the configured partition and `created_at` as sort key,
   * and the returned item is its public part with the index keys hidden.
   */
  lemma CreatedRecordShape(cfg: Config, event: CreateEvent, itemId: string, createdAt: string)
    requires Create(cfg, event, itemId, createdAt).Created?
    ensures TableConfigured(cfg)
    ensures var o := Create(cfg, event, itemId, createdAt);
      && StoredInvariant(o.record)
      && o.record[Id] == itemId
      && o.record[Pk] == KeyPrefix + itemId
      && o.record[Gsi1Pk] == ListingPartition(cfg)
      && o.record[Gsi1Sk] == createdAt
      && o.item == ToPublic(o.record)
  {
    var o := Create(cfg, event, itemId, createdAt);
    var f := ValidateCreate(ParseJsonBody(event).value.fields).value;
    assert o.record == BuildRecord(f, itemId, createdAt, ListingPartition(cfg));
    BuildRecordInvariant(f, itemId, createdAt, ListingPartition(cfg));
    PublicOfCreatedIsToPublic(o.record);
  }

  /** Blank or accepted: what an optional field needs for the request to pass. */
  predicate BlankOrAccepted(v: Value) {
    (v.Str? && AllSpace(v.s)) || OptAccepted(v, OptionalMax)
  }

  /**
   * A whitespace-only optional field never fails its rule: with a valid title and
   * body and the other optional fields accepted, the request passes, and every
   * blank optional field is stored as "".
   */
  lemma BlankOptionalStoredEmpty(title: Value, text: Value, category: Value, priority: Value, author: Value)
    requires IsValidText(title, 1, TitleMax) && IsValidText(text, 1, BodyMax)
    requires BlankOrAccepted(category) && BlankOrAccepted(priority) && BlankOrAccepted(author)
    ensures ValidateFields(title, text, category, priority, author).Ok?
    ensures category.Str? && AllSpace(category.s) ==>
      ValidateFields(title, text, category, priority, author).value.category == ""
    ensures priority.Str? && AllSpace(priority.s) ==>
      ValidateFields(title, text, category, priority, author).value.priority == ""
    ensures author.Str? && AllSpace(author.s) ==>
      ValidateFields(title, text, category, priority, author).value.author == ""
  {
    if category.Str? { StripEmptyIff(category.s); }
    if priority.Str? { StripEmptyIff(priority.s); }
    if author.Str? { StripEmptyIff(author.s); }
    ValidateAcceptsIff(title, text, category, priority, author);
  }
}
