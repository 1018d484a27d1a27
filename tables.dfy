/**
 * The relational store as abstract state. Each table is a map keyed by
 * its primary key, a set, or a sequence of rows (for `module`, which has
 * no key, and for `schema_upgrades`, in insertion order). Valid is what the schema and the write operations guarantee: every
 * reference points at an existing row, tokens are 64 bytes long, module
 * parameters are encoded maps without the reserved key, and the schema
 * objects and the ledger agree with each other.
 */
module Tables {
  import opened Wrappers
  import opened Text
  import opened ParamCodec
  import opened ModuleParams
  import opened Interval

  /** The schema version this code expects (database.go:16). */
  const CurrentDbVersion := 2

  /** The only token length dbWriteProfileToken accepts, in bytes. */
  const TokenBytes := 64

  datatype ProfileRow = ProfileRow(source: string, public: bool, immutablePast: bool)

  /** A `module` row: identity is the whole triple; nothing prevents duplicates. */
  datatype ModuleRow = ModuleRow(profile: string, name: string, parameters: string)

  /** An `admin_tokens` row, keyed by the token itself. */
  datatype TokenRow = TokenRow(profile: string, note: Option<string>)

  datatype NotifierRow = NotifierRow(source: string, interval: DbInterval)

  datatype Db = Db(
    tablesExist: bool,                      // the objects of the baseline script exist
    noteColumn: bool,                       // admin_tokens has its `note` column (schema version 2)
    ledger: seq<int>,                       // schema_upgrades, in insertion order
    profiles: map<string, ProfileRow>,      // profile, by name
    modules: seq<ModuleRow>,                // module
    tokens: map<string, TokenRow>,          // admin_tokens, by token
    notifiers: map<string, NotifierRow>,    // notifier, by name
    recipients: set<string>,                // recipients, by email
    links: set<(string, string)>            // notifier_recipients: (notifier, recipient)
  )

  /** A store before the baseline script has run. */
  const Empty := Db(false, false, [], map[], [], map[], map[], {}, {})

  /** InvalidTokenFormat is the caller's mistake; StoreFailure is any statement the engine rejects. */
  datatype Error = InvalidTokenFormat | StoreFailure

  datatype Outcome = Done | Failed(error: Error)

  /** The store after an operation that can fail, and how it ended. */
  datatype Step = Step(db: Db, outcome: Outcome)

  datatype Result<T> = Ok(value: T) | Err(error: Error)

  function ModuleColumns(row: ModuleRow): Columns {
    Columns(row.name, row.parameters)
  }

  ghost predicate Valid(db: Db) {
    && (!db.tablesExist ==> db == Empty)
    && (db.noteColumn ==> db.tablesExist)
    && (forall i :: 0 <= i < |db.ledger| && db.ledger[i] >= CurrentDbVersion ==> db.noteColumn)
    && (!db.noteColumn ==> forall t :: t in db.tokens ==> db.tokens[t].note == None)
    && (forall row :: row in db.modules ==> row.profile in db.profiles && WellFormed(ModuleColumns(row)))
    && (forall t :: t in db.tokens ==> db.tokens[t].profile in db.profiles && ByteLength(t) == TokenBytes)
    && (forall l :: l in db.links ==> l.0 in db.notifiers && l.1 in db.recipients)
  }

  /** Two stores agree on the schema, the ledger and the profile, module and token tables. */
  predicate SameProfileSide(a: Db, b: Db) {
    && a.tablesExist == b.tablesExist && a.noteColumn == b.noteColumn && a.ledger == b.ledger
    && a.profiles == b.profiles && a.modules == b.modules && a.tokens == b.tokens
  }

  /** Two stores agree on the schema, the ledger and the notifier, recipient and link tables. */
  predicate SameNotifierSide(a: Db, b: Db) {
    && a.tablesExist == b.tablesExist && a.noteColumn == b.noteColumn && a.ledger == b.ledger
    && a.notifiers == b.notifiers && a.recipients == b.recipients && a.links == b.links
  }

  /** The schema the repository operations run against: what connect leaves behind. */
  predicate Ready(db: Db) {
    db.tablesExist && db.noteColumn
  }
}
