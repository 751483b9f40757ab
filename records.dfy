/**
 * The shared data model of the three handlers: decoded JSON values, the stored
 * item record with its index keys, the public projection that hides them, the
 * environment configuration and the (status, body) responses.
 */
module Records {
  import opened Wrappers

  /** A decoded JSON value, as `json.loads` produces it (numbers kept as integers). */
  datatype Value =
    | Str(s: string)
    | Num(n: int)
    | Boolean(b: bool)
    | Null
    | Array(elems: seq<Value>)
    | Object(fields: map<string, Value>)

  /** The attributes the handlers read or write, named as in the table and in JSON by `Name`. */
  datatype Attr = Pk | Gsi1Pk | Gsi1Sk | Id | Title | Category | Priority | Body | Author | CreatedAt {
    function Name(): string {
      match this
      case Pk => "pk"
      case Gsi1Pk => "gsi1pk"
      case Gsi1Sk => "gsi1sk"
      case Id => "id"
      case Title => "title"
      case Category => "category"
      case Priority => "priority"
      case Body => "body"
      case Author => "author"
      case CreatedAt => "created_at"
    }
  }

  /** A stored item: attribute to string attribute value. */
  type Record = map<Attr, string>

  /** The item as callers see it: the seven public attributes. */
  type PublicItem = map<Attr, string>

  const PublicKeys: set<Attr> := {Id, Title, Category, Priority, Body, Author, CreatedAt}
  const IndexKeys: set<Attr> := {Pk, Gsi1Pk, Gsi1Sk}

  /** Prefix of the primary key of every item. */
  const KeyPrefix: string := "ITEM#"

  /** `d.get(k, "")` on a record. */
  function Lookup(rec: Record, k: Attr): string {
    if k in rec then rec[k] else ""
  }

  /**
   * The public projection used by the get and list handlers: the seven public
   * attributes, each defaulting to "" when the record lacks it. It never fails
   * and never carries an index key.
   */
  function ToPublic(rec: Record): (p: PublicItem)
    ensures p.Keys == PublicKeys
    ensures forall k | k in PublicKeys :: p[k] == Lookup(rec, k)
    ensures forall k | k in IndexKeys :: k !in p
  {
    map k | k in PublicKeys :: Lookup(rec, k)
  }

  /** Response body: an error message, one item, or a page of items with its count. */
  datatype Payload =
    | Message(text: string)
    | ItemBody(item: PublicItem)
    | ItemsBody(items: seq<PublicItem>, count: int)

  /** The logical response: status code plus JSON body (headers and serialisation left out). */
  datatype Response = Response(status: int, body: Payload)

  /** Environment configuration: TABLE_NAME, GSI_NAME and GSI_PK, each possibly unset. */
  datatype Config = Config(tableName: Option<string>, gsiName: Option<string>, gsiPk: Option<string>)

  /** `if not table_name`: unset and empty both count as missing. */
  predicate TableConfigured(cfg: Config) {
    cfg.tableName.Some? && cfg.tableName.value != ""
  }

  /** The listing partition, "ITEM" unless GSI_PK is set (an empty setting is kept). */
  function ListingPartition(cfg: Config): string {
    cfg.gsiPk.GetOr("ITEM")
  }

  /** The listing index name, "gsi1" unless GSI_NAME is set. */
  function ListingIndex(cfg: Config): string {
    cfg.gsiName.GetOr("gsi1")
  }

  const TableMissingMessage: string := "TABLE_NAME env var is missing"
  const InternalErrorMessage: string := "internal error"

  /** Every handler answers 500 with this response when TABLE_NAME is missing. */
  function TableMissing(): Response {
    Response(500, Message(TableMissingMessage))
  }
}
