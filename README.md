# opsnote in Dafny

A verified model of the request handling of opsnote, a small notes service. The
service has three HTTP handlers over one item table and a browser front end.

- **Create** (`POST /items`) decodes the JSON body and applies the field
  rules in a fixed, first-failure-wins order: title, body, then the optional
  category, priority and author. It builds the stored record with its primary
  key `"ITEM#" + id` and the listing-index keys, writes it, and answers 201
  with the public item.
- **Get** (`GET /items/{id}`) strips the path id and checks it against the
  32-hex-digit pattern. It then reads the record under `"ITEM#" + id` and
  answers 404 when it is absent or empty, and 200 with the public projection
  otherwise.
- **List** (`GET /items`) defaults, parses and bounds `limit`, issues one
  query on the listing index, and projects the returned records in order with
  their count.
- **Front end**: `escapeHtml`, five `replaceAll` steps with `&` first, and the
  trimmed title/body checks `createItem` makes before submitting.

Modules:

- `Wrappers`: `Option` and `Result`.
- `Text`: stripping, decimal rendering and the `int()` parse.
- `Records`: JSON values, the ten record attributes, the public projection,
  responses and configuration.
- `CreateItem`: a pure function `Create` that states the outcome, the `Table` class that
  `put_item` updates, and the `CreateHandler` method. The method runs the
  optional-field loop with its early return and is proved to agree with
  that function on the response and the new table contents.
- `GetItem`: a pure `GetHandler` over the table as a map, plus the
  create-then-get round trip.
- `ListItems`: the pure functions `ListResult`/`Issued`, and the
  `ListHandler` method, in which `limit` is set to 20 and then reassigned, and
  the items are appended in a loop.
- `Frontend`: `EscapeHtml` and its per-character reference encoding, the
  inverse chain, and `ClientCheck`.

Inputs the handlers read from the environment are parameters:

- the configuration (`TABLE_NAME`, `GSI_NAME`, `GSI_PK`; each may be unset);
- the generated id and the creation timestamp;
- the outcome of `json.loads` on the body;
- the table contents for get;
- the records the store returns for list.

In these corners the model follows the handler code:

- A decoded body that is not a JSON object makes `body.get` raise. The
  catch-all then answers 500 "internal error".
- An empty `GSI_PK` is kept as the partition, because `os.environ.get` only
  defaults when the variable is unset.
- After stripping, the id pattern's `$` cannot match before a final newline.
- `int()` accepts single underscores between digits, so `limit=1_0` means 10.
- `int()` refuses a text of more than 4300 digits, whatever its value. This is
  the interpreter's default string-conversion limit. So 4300 zeros followed by
  "1" is answered 400 "limit must be an integer", not accepted as 1.
- Get accepts upper-case hex digits, but keys are not normalised, so an
  upper-case variant of a stored id is 404.

## Model

| member | source | states |
|---|---|---|
| Text.Strip | app/lambda/create_item.py:46 | `str.strip()` returns a string no longer than its input with no leading or trailing whitespace |
| Text.StripEmptyIff | app/lambda/create_item.py:46 | stripping gives "" exactly when the string is all whitespace |
| Text.StripSplit | app/lambda/create_item.py:46 | the text is its leading whitespace, then its stripped form, then its trailing whitespace |
| Text.StripPadding | app/lambda/get_item.py:32 | whitespace on either side of a trimmed non-empty string is removed, and the string is kept |
| Text.TrimStartDropsSpace | app/lambda/create_item.py:46 | the characters stripped at the front are whitespace |
| Text.TrimEndDropsSpace | app/lambda/create_item.py:46 | the characters stripped at the back are whitespace |
| Text.NatToDecimal | app/lambda/create_item.py:76 | the f-string rendering of a count is non-empty, all digits, with no leading zero |
| Text.DecimalRoundTrip | app/lambda/create_item.py:76 | reading back the rendering of a natural gives the natural |
| Text.ParseIntRoundTrip | app/lambda/list_items.py:38 | `int()` of a rendered natural of at most 4300 digits, bare or after "+", is that natural; after "-" it is its negation |
| Text.ParseIntRejectsLongDigits | app/lambda/list_items.py:37-40 | a digit string of more than 4300 digits, bare or after a sign, makes `int()` fail |
| Text.ParseIntRejectsNonDigit | app/lambda/list_items.py:37-40 | any character other than a digit or `_` (a leading sign aside) makes `int()` fail |
| Text.ParseIntRejectsBadSeparator | app/lambda/list_items.py:37-40 | a leading, trailing or doubled `_` makes `int()` fail |
| Text.ParseIntSeparatorExample | app/lambda/list_items.py:38 | `int("1_0")` is 10 |
| Text.DigitPartShape | app/lambda/list_items.py:38 | each character `int()` accepts is a digit, or an underscore with a digit on each side |
| Records.ToPublic | app/lambda/get_item.py:46-54 | the projection has exactly the seven public keys, each the record's value or "", and no index key |
| CreateItem.ValidTextMeasuresStripped | app/lambda/create_item.py:43-47 | `_is_valid_text` bounds the stripped length: padding does not matter, whitespace-only measures 0, non-strings always fail |
| CreateItem.FirstOptionalError | app/lambda/create_item.py:70-76 | the optional loop reports nothing exactly when no field fails its rule |
| CreateItem.FirstOptionalErrorAt | app/lambda/create_item.py:70-76 | the message reported is that of the earliest failing field |
| CreateItem.ValidateFields | app/lambda/create_item.py:64-76 | an accepted request yields the five stripped fields, trimmed, title 1-200, body 1-4000, optional fields at most 100 |
| CreateItem.OptionalFieldsPassIff | app/lambda/create_item.py:70-76 | the loop passes exactly when each optional field is "" or a string of stripped length at most 100 |
| CreateItem.ValidateAcceptsIff | app/lambda/create_item.py:64-76 | the rules accept exactly when title, body and all three optional fields pass |
| CreateItem.TitleCheckedFirst | app/lambda/create_item.py:64-65 | a failing title gives the title message whatever the other fields hold |
| CreateItem.BodyCheckedSecond | app/lambda/create_item.py:66-67 | with a valid title, a failing body gives the body message whatever the optional fields hold |
| CreateItem.OptionalCheckedInOrder | app/lambda/create_item.py:70-76 | after title and body pass, the first failing field among category, priority, author gives its own message |
| CreateItem.OptMessageText | app/lambda/create_item.py:76 | the optional-field message reads "<name> must be <= 100 chars" |
| CreateItem.HundredDecimal | app/lambda/create_item.py:76 | the limit 100 is rendered "100" in the message |
| CreateItem.MissingKeyDefaultsToEmpty | app/lambda/create_item.py:58-62 | a missing key is validated exactly as if it were present with "" |
| CreateItem.TitleBoundaries | app/lambda/create_item.py:64-65 | a whitespace-only title or one of stripped length 201 is refused; 200 is accepted when the rest passes |
| CreateItem.BlankOptionalStoredEmpty | app/lambda/create_item.py:64-95 | with a valid title and body, each optional field blank or within 100 characters, the request is accepted, and each whitespace-only optional field is stored as "" |
| CreateItem.AbsentBodyFailsTitle | app/lambda/create_item.py:30-33 | an absent body decodes to `{}` and is refused with the title message |
| CreateItem.Base64Refused | app/lambda/create_item.py:34-36 | a base64-flagged body is refused with 400 and the not-supported message, whatever it holds |
| CreateItem.ConfigCheckedFirst | app/lambda/create_item.py:51-53 | a missing or empty TABLE_NAME gives 500 before the body is read |
| CreateItem.BuildRecordInvariant | app/lambda/create_item.py:82-97 | the built record has the ten attributes, pk "ITEM#"+id, gsi1pk the partition, gsi1sk the creation time, and well-formed fields |
| CreateItem.CreatedRecordShape | app/lambda/create_item.py:82-103 | every created record satisfies the stored-record invariant and the returned item is its public projection |
| CreateItem.PublicOfCreatedIsToPublic | app/lambda/create_item.py:103 | the 201 item equals the defaulting projection that get and list use |
| CreateItem.Table.constructor | app/lambda/create_item.py:99 | the table starts with the given contents |
| CreateItem.Table.PutItem | app/lambda/create_item.py:100 | the record is upserted under its pk and nothing else changes |
| CreateItem.CheckOptionalFields | app/lambda/create_item.py:70-76 | the loop with early return yields the first optional error that `FirstOptionalError` reports |
| CreateItem.CreateHandler | app/lambda/create_item.py:50-104 | the handler's response and the table's new contents are those of the function `Create` |
| GetItem.HexRunIff | app/lambda/get_item.py:23 | `[0-9a-fA-F]{n}` matches exactly the strings of n hex digits |
| GetItem.IdAcceptedIff | app/lambda/get_item.py:31-35 | a stripped path id is accepted exactly when it is 32 hex digits of either case |
| GetItem.HexIdAccepted | app/lambda/get_item.py:32-35 | a 32-hex-digit id sent as the path id is read back unchanged and accepted |
| GetItem.GetHandler | app/lambda/get_item.py:26-55 | the status is one of 200/400/404/500; 400 exactly for a refused id; 200 carries the seven public keys |
| GetItem.GetConfigCheckedFirst | app/lambda/get_item.py:27-29 | a missing TABLE_NAME gives 500 before the id is examined |
| GetItem.AbsentIdRefused | app/lambda/get_item.py:31-35 | absent path parameters or id are refused with the id message |
| GetItem.RefusedIdIgnoresStore | app/lambda/get_item.py:34-41 | for a refused id the answer is the same for every table: no lookup |
| GetItem.PaddedPathId | app/lambda/get_item.py:32 | whitespace around the path id is stripped |
| GetItem.PaddedIdSameAnswer | app/lambda/get_item.py:32-35 | a padded id gets the same answer as the bare id |
| GetItem.MissingRecordNotFound | app/lambda/get_item.py:41-44 | an absent or empty record gives 404 "not found" |
| GetItem.PresentRecordProjected | app/lambda/get_item.py:46-55 | a present record gives 200 with its seven public attributes, missing ones "" |
| GetItem.UpperCaseVariantNotFound | app/lambda/get_item.py:39 | the upper-case variant of a stored lower-case id passes the check but is a different key and gives 404 |
| GetItem.GetAfterPut | app/lambda/get_item.py:39-55 | after writing a record under "ITEM#"+id, getting that id answers its public projection |
| GetItem.GetAfterCreated | app/lambda/get_item.py:39-55 | getting a created record by its id answers the item create returned |
| GetItem.CreateThenGet | app/lambda/get_item.py:46-54 | round trip with create_item.py:86-103: create, then get by the returned id answers 200 with the same item |
| ListItems.EffectiveLimit | app/lambda/list_items.py:35-42 | an accepted limit lies in [1, 100]; every refusal is a 400 |
| ListItems.BlankLimitDefaults | app/lambda/list_items.py:32-36 | an absent, empty or whitespace-only limit issues the query with 20 |
| ListItems.NonIntegerLimitRefused | app/lambda/list_items.py:36-40 | a non-blank limit that `int()` rejects gives 400 "limit must be an integer" and no query |
| ListItems.LimitRange | app/lambda/list_items.py:41-42 | a parsed limit is used exactly when it lies in [1, 100], otherwise the range message |
| ListItems.DecimalLimit | app/lambda/list_items.py:38-42 | a rendered natural in [1, 100] is taken as the limit; any other natural or negated one gets the range message, or the integer message when its rendering is over 4300 digits |
| ListItems.OverlongLimitRefused | app/lambda/list_items.py:37-40 | a limit of more than 4300 digits is answered 400 "limit must be an integer" |
| ListItems.ZeroPaddedOneRefused | app/lambda/list_items.py:37-40 | 4300 zeros followed by "1" is refused as not an integer |
| ListItems.LimitExamples | app/lambda/list_items.py:35-42 | 0, 101 and -5 get the range message, "abc" the integer message; 1, 100 and "1_0" are accepted |
| ListItems.ListConfigCheckedFirst | app/lambda/list_items.py:24-26 | a missing TABLE_NAME gives 500 before the limit is looked at, and no query |
| ListItems.RefusedLimitIgnoresPage | app/lambda/list_items.py:35-53 | a refused request answers the same whatever the store would return: the store is queried only after validation |
| ListItems.Project | app/lambda/list_items.py:55-66 | one item per record, same order, each the record's public projection |
| ListItems.ProjectPage | app/lambda/list_items.py:56-66 | the append loop yields the projection `Project` of each record in order |
| ListItems.ListHandler | app/lambda/list_items.py:23-68 | the handler's response and issued query are those of the functions `ListResult` and `Issued` |
| ListItems.AcceptedListShape | app/lambda/list_items.py:55-68 | an accepted request gives 200, items in store order with the seven public keys, count equal to the number of items |
| Frontend.ReplaceChar | app/frontend/app.js:13 | `replaceAll` of a character absent from the text leaves it unchanged |
| Frontend.EscapeHtmlIsEncoding | app/frontend/app.js:11-18 | the five-step chain equals replacing each character independently by its entity |
| Frontend.ChainStep | app/frontend/app.js:13-17 | each later step only touches the original characters, never an entity made by an earlier step |
| Frontend.EscapeHtmlSafe | app/frontend/app.js:11-18 | the output holds no `<`, `>`, `"` or `'`, and every `&` begins one of the five entities |
| Frontend.EncodeSafe | app/frontend/app.js:13-17 | the per-character encoding is markup-free, and its every `&` starts an entity |
| Frontend.EscapeHtmlIdentityIff | app/frontend/app.js:12-17 | the text is returned unchanged exactly when it contains none of the five characters |
| Frontend.EscapeHtmlNull | app/frontend/app.js:12 | null or undefined escapes to "" |
| Frontend.UndoStep | app/frontend/app.js:13-17 | replacing the k-th entity back undoes the k-th step |
| Frontend.UnescapeEncoded | app/frontend/app.js:13-17 | undoing the last k steps of the encoding, latest first, gives back the text |
| Frontend.UnescapeEscape | app/frontend/app.js:11-18 | replacing the five entities back in reverse order recovers the original text |
| Frontend.ClientCheckOrder | app/frontend/app.js:119-126 | a blank title is refused first whatever the body; a blank body only after the title passed; otherwise submitted |
| Frontend.ServerStricterThanClient | app/frontend/app.js:119-126 | every form the create handler accepts also passes the client check |

## Left out

- `json.loads`, `json.dumps` and `_resp` are left out. The decode outcome (a value, or a failure with its message) is an input, and a response is a status with a message, item or item page. Headers and serialisation are not modelled.
- `json.loads` failures other than malformed JSON are left out, such as very long integers or very deep nesting. So are JSON numbers other than integers.
- `uuid.uuid4().hex` and the clock are not modelled. The id and the `created_at` text are parameters.
- Store faults and the catch-all `except Exception` branches are not modelled, apart from the non-object body case. A store call is assumed to succeed.
- ListItems.ListHandler: DynamoDB's `Limit` truncation, the newest-first ordering from `ScanIndexForward=False` and eventual consistency belong to the store. The returned records are a parameter, and the model proves they are passed on in the given order.
- ListItems.Query: `GSI_NAME` and `GSI_PK` are only carried into the issued query. Which index exists is the store's concern.
- Records.Value: record attribute values are strings only. The ten known attributes are the only ones represented, so extra attributes of a stored item are not.
- Text.IsSpace: the model strips exactly six characters: space, tab, line feed, carriage return, vertical tab (U+000B) and form feed (U+000C). Python's `str.strip()` also strips U+001C–U+001F, U+0085, U+00A0 and the other Unicode spaces. JavaScript's `trim()` strips a different set again, which includes U+FEFF but not U+001C–U+001F.
- Text.ParseInt: decimal digits outside ASCII, which `int()` also accepts, are refused. Whitespace inside the text is refused, as `int()` does after stripping. The 4300-digit bound is the interpreter's default. The deployment can change it, but the model keeps it fixed.
- Frontend.EscapeHtml: the `String()` coercion of non-string values is not modelled. The input is a string or absent.
- Frontend.ServerStricterThanClient: the result assumes Python and JavaScript strip the same whitespace set. The two real sets differ.
- Frontend.UnescapeHtml is not part of the front end. It is the inverse chain stated in order to prove the round trip.
- The rest of `app.js` is left out: `api`/`fetch`, DOM rendering in `renderItems`/`loadDetail`, event listeners and the status messages.
- Concurrency between handler invocations is left out.
