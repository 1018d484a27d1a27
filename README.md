# ical-relay persistence layer in Dafny

This project models the persistence layer of ical-relay (`database.go`).
ical-relay is a calendar relay service. It stores named **profiles**: a
source calendar, public and immutable-past flags, an ordered pipeline of
parameterised modules, and bearer admin tokens. It also stores
**notifiers**: a source, a recurrence interval and a set of email
recipients. All of this lives in a relational store. The store's schema
is moved forward by an append-only ledger of schema versions
(`schema_upgrades`).

The relational store is abstract state (`Tables.Db`). Each table is a
map keyed by its primary key, or a set. Two tables are sequences of
rows: `module`, which has no key, and `schema_upgrades`, the ledger of
versions in insertion order. Each SQL statement has plain map, set or
sequence meaning:

- `ON CONFLICT DO UPDATE` is an overwrite.
- `ON CONFLICT DO NOTHING` is an insert-if-absent.
- `DELETE WHERE` is a filter.

`Tables.Valid` holds what the schema and the write operations guarantee:

- every reference points at an existing row;
- every token is 64 bytes long;
- module parameters are encoded maps without the reserved `"name"`
  key;
- the ledger and the schema objects agree.

The layout follows the source:

- **Pure parts.** Each is a module of functions with lemmas.
  - `Text`: Go's `strings.Split`, `strings.ToLower` and `len`, and
    decimal digits.
  - `ParamCodec`: a deterministic sorted-key encoding of a
    `map[string]string`. It stands in for `json.Marshal` and
    `json.Unmarshal`.
  - `ModuleParams`: the reserved `"name"` key, stripped before storage
    and put back on read.
  - `GoDuration`: `time.ParseDuration` and `Duration.String` for whole
    hours, minutes and seconds.
  - `Interval`: the engine's ISO 8601 rendering of an interval, and the
    conversion `dbReadNotifier` applies to it.
- **State transitions.** `SchemaLedger`, `Profiles` and `Notifiers` give
  every write as a function from store to store, and prove that function
  keeps `Valid`. Their lemmas cover upserts, idempotence, cascades and
  round trips.
- **The store itself.** `Database.Store` is a class whose fields are the
  tables. Each `db*` function of the source is a method that updates the
  fields statement by statement. Each changing method ensures that its
  new state is the transition function applied to the old state. All
  of them keep `Valid`, except that `SetDbVersion` keeps it only when
  the version it records is below 2 or the note column already exists:
  recording version 2 without the column would break the agreement
  between the ledger and the schema. The reads are loops over the rows:
  - `ReadProfile` builds the module maps in row order;
  - `ProfileModuleExists` copies the caller's map first;
  - `Enumerate` gives the rows of a one-column select.
- **The caller's map.** `Database.ParamMap` holds the map the caller
  passes in. `AddProfileModule` and `RemoveProfileModule` delete `"name"`
  from it, as the source does, and `ProfileModuleExists` leaves it
  unchanged.

A statement the engine rejects stops the process in the source (`panic`
or `log.Fatal`), with three exceptions:

- the version query in `connect` (database.go:38-44): its error, when
  `schema_upgrades` does not exist, leads to the first-boot path
  (`SchemaLedger.CurrentVersion` gives None);
- the profile query in `dbReadProfile` (database.go:124-127): its error
  reads as "no such profile" (`Store.ReadProfile` gives `Ok(None)`);
- the recipient query in `dbReadNotifier` (database.go:306-313): its
  error is assigned but never checked, and the function still returns
  the notifier without an error.

Here a
rejected statement ends the operation with an `Outcome` of
`Failed(...)`, or a `Result` of `Err(...)`. The store keeps whatever
earlier statements did. The reads run several queries (four in
`dbReadProfile`, a transaction and then the recipient query in
`dbReadNotifier`) but change nothing. Three write paths run more than
one statement:

- `AddNotifierRecipient`: the registry insert, then the link insert;
- the first-boot path of `Connect`: the init script, then the version
  record;
- the upgrade path of `doDbUpgrade`: the `ALTER TABLE`, then the version
  record (database.go:63-67).

### Behaviour of database.go worth knowing

- **Token removal.** `dbRemoveProfileToken` deletes by profile *and*
  token (database.go:242-244). A token owned by another profile is kept
  (`Profiles.RemoveTokenScoped`).
- **Interval conversion.** It keeps only the second piece of the split at `T`: the text after the first `T`, up to a second `T` if there were one (the engine's text has at most one).
  - Days and months are dropped: one day and two hours reads as
    `2h0m0s` (`Interval.ReadDropsDays`).
  - An interval of whole days has no `T`, so the read fails
    (`Interval.ReadDateOnlyInterval`).
- **Newer schema versions.** `connect` accepts a ledger whose maximum is
  above 2 and does nothing (`SchemaLedger.ConnectUpToDate`).
- **Token length.** It is Go's `len`, which counts UTF-8 bytes
  (`Text.ByteLength`).
- **Missing `"name"`.** A module map without `"name"` is stored under the
  empty name. It reads back with `"name": ""`
  (`Profiles.ModuleWithoutName`).
- **Reusing the caller's map.** `dbAddProfileModule` deletes `"name"` from
  the map it is given (database.go:198). A caller who passes the same map
  to `dbProfileModuleExists` or `dbRemoveProfileModule` afterwards looks
  for a module with an empty name, so for a named module the lookup does
  not find the row just added and the delete keeps it
  (`Profiles.ReusedMapMissesRow`).
- **Two token queries.** `dbReadProfile` reads the tokens and the tokens
  with their notes in two separate queries (database.go:128-135). Each
  list holds every token of the profile once, but the two lists need not
  come back in the same order (`Database.Store.ReadTokens`).

## Model

| member | source | states |
|---|---|---|
| SchemaLedger.LedgerMax | database.go:38 | MAX(version) is None exactly for an empty ledger, and otherwise an entry that no entry exceeds |
| SchemaLedger.CurrentVersion | database.go:37-39 | the version query has no value exactly when the tables or the ledger entries are missing, and otherwise gives the largest recorded version |
| SchemaLedger.InitTables | database.go:53-58 | the baseline script succeeds exactly on a store without tables, and leaves empty tables with the note column; otherwise nothing changes |
| SchemaLedger.SetDbVersion | database.go:71-79 | appending a version keeps the store valid when the version's schema is in place |
| SchemaLedger.DoDbUpgrade | database.go:60-69 | the gated upgrade keeps the store valid |
| SchemaLedger.Connect | database.go:37-47 | the startup decision keeps the store valid |
| SchemaLedger.LedgerMaxAppend | database.go:73 | after one append, the maximum is the larger of the old maximum and the new entry |
| SchemaLedger.ConnectFresh | database.go:39-44 | a fresh store gets the baseline tables and a ledger of exactly [2], and no upgrade step runs |
| SchemaLedger.ConnectFromOldVersion | database.go:45-67 | below version 2 the note column is added and 2 is appended once, without the baseline script |
| SchemaLedger.ConnectLostVersionRecord | database.go:38-41 | tables with an empty ledger read as fresh; the init script then fails and nothing changes |
| SchemaLedger.ConnectColumnAlreadyAdded | database.go:62-66 | an old version whose note column already exists makes the ALTER fail, and nothing changes |
| SchemaLedger.ConnectUpToDate | database.go:45 | at version 2 or above, connect changes nothing |
| SchemaLedger.ConnectAppendOnly | database.go:37-79 | the ledger only grows, by at most one entry, and no other table changes |
| SchemaLedger.ConnectReachesCurrent | database.go:37-47 | after success the store is valid, has the version-2 schema, and records at least version 2; exactly 2 unless it was already newer |
| SchemaLedger.ConnectSucceeds | database.go:37-69 | connect succeeds exactly on a fresh store, a store at or above version 2, or an old one still without the column |
| SchemaLedger.ConnectIdempotent | database.go:45 | running connect again after a success changes nothing |
| Text.ToLower | database.go:297 | strings.ToLower (ASCII letters) keeps the length and lowers each character |
| Text.Split | database.go:297 | strings.Split gives at least one piece, and no piece contains the separator |
| Text.JoinSplit | database.go:297 | joining the pieces of Split with the separator gives the original text |
| Text.SplitAround | database.go:297 | a text with one separator splits into exactly the two sides |
| Text.ByteLength | database.go:228 | Go's len counts between one and four bytes per character |
| Text.AsciiByteLength | database.go:228 | len equals the character count exactly for ASCII text |
| ParamCodec.LeastKey | database.go:179 | the key the encoding writes first is the least under byte order, so the encoding does not depend on iteration order |
| ParamCodec.Encode | database.go:199 | the encoding of a parameter map is a braced text |
| ParamCodec.DecodeEncode | database.go:146 | decoding the encoding of any map gives that map back |
| ParamCodec.EncodeInjective | database.go:186 | two maps have the same encoding only if they are equal, so matching on the text matches on the content |
| ParamCodec.Decode | database.go:146 | json.Unmarshal of the parameters column; ParamCodec.DecodeEncode states that it gives back every encoded map |
| ModuleParams.Stripped | database.go:197-198 | the stored parameters have no "name" key and keep every other entry |
| ModuleParams.ToColumns | database.go:197-199 | the name column and the encoded parameters without "name"; ModuleParams.Stripped, ModuleParams.ColumnsRoundTrip and ModuleParams.ToColumnsWellFormed state its properties |
| ModuleParams.FromColumns | database.go:145-150 | decoding the parameters and putting the name back under "name"; ModuleParams.ColumnsRoundTrip and ModuleParams.Reinject state its properties |
| ModuleParams.Reinject | database.go:150 | the read map has "name" set to the name column, and every other decoded entry |
| ModuleParams.ColumnsRoundTrip | database.go:144-151 | storing then reading a map gives it back with "name" set, to "" when it had none |
| ModuleParams.ColumnsRoundTripExact | database.go:144-151 | the read gives the original map exactly when the map has "name" |
| ModuleParams.ColumnsInjective | database.go:185-187 | two maps with "name" give the same columns only if they are equal |
| ModuleParams.ToColumnsWellFormed | database.go:196-205 | the columns of any map decode, and their parameters lack "name" |
| Profiles.WriteProfile | database.go:157-168 | the profile upsert keeps the store valid |
| Profiles.AddModule | database.go:196-209 | the module insert succeeds exactly for an existing profile, changes nothing when it fails, and keeps the store valid |
| Profiles.ModuleRowOf | database.go:177-187 | the row a map is stored, looked up and deleted as names the profile and reads back as the map with "name" set |
| Profiles.HasModule | database.go:184-193 | the EXISTS lookup on the stored triple; Profiles.AddModuleThenExists, Profiles.RemoveModuleThenAbsent and Profiles.ReusedMapMissesRow state its properties |
| Profiles.Without | database.go:219-221 | after DELETE, the rows left are exactly those different from the deleted triple, each with all its copies |
| Profiles.RemoveModule | database.go:211-225 | the module delete keeps the store valid |
| Profiles.WriteToken | database.go:227-238 | the token write keeps the store valid |
| Profiles.RemoveToken | database.go:240-248 | the token delete keeps the store valid |
| Profiles.WriteProfileUpsert | database.go:157-163 | one row for the name with the new source, public and immutable_past; other profiles, modules and tokens unchanged |
| Profiles.WriteProfileTwice | database.go:157-163 | a second write of the same name replaces the first (last write wins) |
| Profiles.AddModuleThenExists | database.go:171-209 | adding a module to an existing profile succeeds, and the exists lookup then finds it |
| Profiles.RemoveModuleThenAbsent | database.go:171-225 | after a remove the lookup fails, exactly the rows with that triple are gone, every other row keeps its copies, and other profiles read the same module list |
| Profiles.WithoutConcat | database.go:219-221 | the delete keeps the order of the remaining rows, part by part |
| Profiles.WithoutOtherProfile | database.go:219-221 | deleting a row of one profile leaves every other profile's module list as it was |
| Profiles.ReusedMapMissesRow | database.go:196-225 | after an add deletes "name" from the caller's map, a lookup with that map finds only what it found before and a delete with it keeps the added row |
| Profiles.ModuleRowCanonical | database.go:171-225 | two maps with "name" have the same (profile, name, parameters) triple exactly when they are equal |
| Profiles.ModulesOfAppend | database.go:144-152 | one more module row adds its decoded map at the end of a profile's list |
| Profiles.ModulesOf | database.go:138-152 | one decoded map per row of the profile in row order, or a failure; Profiles.ModulesOfAppend, Profiles.ModulesOfFailure, Profiles.ModulesOfWellFormed and Profiles.ModuleRoundTrip state its properties |
| Profiles.ModulesOfWellFormed | database.go:144-149 | on a valid store no module row fails to decode |
| Profiles.ModulesOfFailure | database.go:146-149 | once a row fails to decode, the whole read fails |
| Profiles.ModuleRoundTrip | database.go:196-205 | adding a map with "name" and reading the profile gives that map back, after the modules read before |
| Profiles.ModuleWithoutName | database.go:150 | a map without "name" reads back with "name" set to "" |
| Profiles.WriteTokenWrongLength | database.go:228-230 | a token that is not 64 bytes long is refused, and the store is unchanged |
| Profiles.WriteTokenUpsert | database.go:231-234 | a known token keeps its owner and takes the new note; a new token is inserted for an existing profile |
| Profiles.WriteTokenIdempotent | database.go:227-238 | repeating a token write with the same token and note changes nothing and ends the same way |
| Profiles.RemoveTokenScoped | database.go:242-244 | a token is deleted only when the named profile owns it; every other token, the profiles, the modules and the notifier side are unchanged |
| GoDuration.FormatParse | database.go:297-303 | parsing Duration.String of a representable duration gives the same duration back |
| GoDuration.ParseDuration | database.go:297 | the empty text is refused; GoDuration.ParseTermsText and GoDuration.FormatParse state which texts parse and to what |
| GoDuration.Format | database.go:303 | Duration.String; GoDuration.FormatSeconds and GoDuration.FormatParse state that its terms add up to the duration and parse back to it |
| GoDuration.FormatSeconds | database.go:303 | the terms Duration.String prints add up to the duration |
| GoDuration.ParseTermsText | database.go:297 | ParseDuration reads back any text made of h/m/s terms as the sum of their seconds |
| GoDuration.NinetyMinutes | database.go:297-303 | ninety minutes prints as "1h30m0s", and "1h30m0s" parses back to 5400 seconds |
| Interval.ReadTimeInterval | database.go:296-303 | an interval with a time part reads as Duration.String of its seconds; months and days are dropped |
| Interval.ReadInterval | database.go:296-303 | the conversion fails on text without 'T'; Interval.ReadTimeInterval and Interval.ReadIntervalKeepsDuration state what it gives for the engine's text |
| Interval.ReadWithoutSeparator | database.go:297 | a text without 'T' cannot be read (index out of range) |
| Interval.ReadDateOnlyInterval | database.go:297 | an interval of whole days or months prints without 'T', and its read fails |
| Interval.ReadZeroInterval | database.go:296-303 | the zero interval, printed "PT0S", reads as "0s" |
| Interval.ReadNinetyMinutes | database.go:296-303 | "PT1H30M" reads as "1h30m0s" |
| Interval.ReadDropsDays | database.go:297 | one day and two hours reads as "2h0m0s" |
| Interval.ReadIntervalKeepsDuration | database.go:296-303 | what a read returns parses to the same duration as the piece after 'T' |
| Notifiers.WriteNotifier | database.go:316-327 | the notifier upsert keeps the store valid |
| Notifiers.DeleteNotifier | database.go:329-334 | the notifier delete keeps the store valid |
| Notifiers.AddRecipient | database.go:336-350 | adding a recipient keeps the store valid |
| Notifiers.RemoveNotifierRecipient | database.go:352-359 | removing a link keeps the store valid |
| Notifiers.RemoveRecipient | database.go:361-370 | removing a recipient keeps the store valid |
| Notifiers.WriteNotifierUpsert | database.go:316-322 | the notifier gets the new source and interval; other notifiers, recipients and links are unchanged |
| Notifiers.DeleteNotifierCascades | database.go:329-334 | the notifier and exactly its links are gone; every other notifier keeps its row, and the registry and the profile side are unchanged |
| Notifiers.AddRecipientLinks | database.go:336-350 | the email is always registered; the link is added, and the call succeeds, exactly when the notifier exists |
| Notifiers.AddRecipientIdempotent | database.go:336-350 | adding the same recipient twice gives the state and outcome of adding it once |
| Notifiers.RemoveNotifierRecipientOnly | database.go:352-359 | only that one link goes; the registry is unchanged |
| Notifiers.RemoveRecipientCascades | database.go:361-370 | the email leaves the registry and no notifier lists it; every other registry entry, every other link, the notifiers and the profile side stay |
| Notifiers.RecipientsOfValid | database.go:306-311 | on a valid store the join gives exactly the emails linked to the notifier |
| Notifiers.RecipientsOf | database.go:306-311 | the join: empty for an unknown notifier, and otherwise exactly the registered emails linked to it |
| Notifiers.NotifierInterval | database.go:284-303 | the interval a read reports; Notifiers.WriteThenReadInterval, Notifiers.NinetyMinuteNotifier and Notifiers.DayIntervalUnreadable state its properties |
| Notifiers.WriteThenReadInterval | database.go:296-303 | a notifier written with a time interval reads back as a duration text that parses to the same seconds |
| Notifiers.NinetyMinuteNotifier | database.go:296-303 | a 90-minute interval written and read back gives "1h30m0s" |
| Notifiers.DayIntervalUnreadable | database.go:296-301 | a notifier with a whole-day interval cannot be read |
| Database.Enumerate | database.go:103 | a one-column select gives each element of the set exactly once |
| Database.Store.QueryVersion | database.go:37-38 | the loop finds the ledger's maximum, or None when the table or the entries are missing |
| Database.Store.InitTables | database.go:53-58 | the new state and outcome are those of SchemaLedger.InitTables, and the store stays valid |
| Database.Store.SetDbVersion | database.go:71-79 | the new state and outcome are those of SchemaLedger.SetDbVersion; the store stays valid when the version is below 2 or the note column exists |
| Database.Store.DoDbUpgrade | database.go:60-69 | the new state and outcome are those of SchemaLedger.DoDbUpgrade, and validity is kept |
| Database.Store.Connect | database.go:37-47 | the new state and outcome are those of SchemaLedger.Connect; after a success on a valid store it is ready for the repository |
| Database.Store.ProfileExists | database.go:87-98 | true exactly when a profile row has the name |
| Database.Store.ListProfiles | database.go:111-120 | every profile name exactly once |
| Database.Store.ListPublicProfiles | database.go:100-109 | exactly the names of public profiles, each once |
| Database.Store.ReadProfile | database.go:122-155 | None with no row; else its columns, its tokens each once, the same tokens each once with their notes in an order of their own, and its module maps in row order with "name" put back; an error exactly when a module does not decode |
| Database.Store.ReadTokens | database.go:128-135 | two separate queries: the profile's tokens each exactly once, and the same tokens each exactly once with their stored notes, in an order of their own |
| Database.Store.ReadModules | database.go:138-152 | the decoded module maps in row order with "name" put back, or an error when a row does not decode |
| Database.Store.WriteProfile | database.go:157-168 | the new state is that of Profiles.WriteProfile, and validity is kept |
| Database.Store.ProfileModuleExists | database.go:171-194 | true exactly when the row for the copied, stripped map exists; the caller's map is not changed |
| Database.Store.AddProfileModule | database.go:196-209 | "name" is deleted from the caller's map; the new state and outcome are those of Profiles.AddModule on the original map |
| Database.Store.RemoveProfileModule | database.go:211-225 | "name" is deleted from the caller's map; the new state is that of Profiles.RemoveModule on the original map |
| Database.Store.WriteProfileToken | database.go:227-238 | the new state and outcome are those of Profiles.WriteToken |
| Database.Store.RemoveProfileToken | database.go:240-248 | the new state is that of Profiles.RemoveToken |
| Database.Store.NotifierExists | database.go:250-259 | true exactly when a notifier row has the name |
| Database.Store.ListNotifiers | database.go:261-270 | every notifier name exactly once |
| Database.Store.ReadNotifier | database.go:272-314 | fails exactly when the notifier is missing or its interval cannot be converted; else the source, the converted interval, and the linked recipients each once, only when fetchRecipients is set |
| Database.Store.WriteNotifier | database.go:316-327 | the new state is that of Notifiers.WriteNotifier |
| Database.Store.DeleteNotifier | database.go:329-334 | the new state is that of Notifiers.DeleteNotifier |
| Database.Store.AddNotifierRecipient | database.go:336-350 | two statements; the new state and outcome are those of Notifiers.AddRecipient |
| Database.Store.RemoveNotifierRecipient | database.go:352-359 | the new state is that of Notifiers.RemoveNotifierRecipient |
| Database.Store.RemoveRecipient | database.go:361-370 | the new state is that of Notifiers.RemoveRecipient |

## Left out

- Connection setup in `connect` (database.go:19-35): building the connection string and opening the connection is I/O. The model starts from the version query.
- The contents of `db.sql` are not part of this model. The init script is assumed to create every table at the version-2 layout, and to fail when the tables already exist. The foreign keys are assumed too:
  - module, token and link rows reference existing rows;
  - deleting a notifier or a recipient cascades to its links.
- The engine's interval input parsing is not modelled. `Store.WriteNotifier` takes the interval value the engine would store.
- Intervals are whole seconds; fractional seconds are not modelled.
- The transaction and `SET intervalstyle` in `dbReadNotifier` are left out. The model always renders in the iso_8601 style.
- Concurrency is left out: last-write-wins races, and the snapshot gap between the notifier read and the recipient read. The store is sequential state.
- Row order of a select is left out. The two token queries of `dbReadProfile` are two separate enumerations, so the model does not promise that their lists line up. `Enumerate` picks an arbitrary order. Module rows are read in insertion order, which the engine does not promise.
- GoDuration.ParseDuration: fractions and the ms/us/ns units are not modelled; the engine's whole-second output has neither. The sign is not modelled either, see the next line.
- Negative intervals are not modelled: `Interval.DbInterval` has non-negative months, days and seconds. The engine prints a negative part with a minus sign under the iso_8601 style (one hour back prints as `PT-1H`); the source's conversion turns that into `-1h`, which `time.ParseDuration` reads as a negative duration and prints as `-1h0m0s`.
- Text.ToLower: only ASCII letters are lowered. The engine's interval text is ASCII.
- ParamCodec.Encode is a sorted-key JSON-style encoding that escapes only `"` and `\`. It is not Go's `encoding/json`, which also escapes control characters and `<`, `>`, `&`. Only determinism and the round trip matter here.
- Logging and the debug prints are left out. So is the difference between `panic`, `log.Fatal` and `log.Panicf`: every failure is one error outcome.
- The cache invalidation named in the TODO at database.go:364 is not implemented in the source, so it is not modelled.
- A Go nil map is not modelled: `Database.ParamMap` always holds a map, and nil reads as the empty map. In the source `json.Marshal` of a nil map gives `null`, so `dbAddProfileModule` stores the parameters `null` (database.go:198-205); reading that row back makes `json.Unmarshal` leave a nil map, and the assignment at database.go:150 then panics; `dbProfileModuleExists` marshals its fresh copy as `{}` (database.go:172-179) and never finds the row. `Profiles.AddModuleThenExists` and `Profiles.ModuleRoundTrip` hold for every non-nil map only.
- The ignored error of the recipient query in `dbReadNotifier` (database.go:306-313) is not modelled: the model's query cannot fail, so `Store.ReadNotifier` always returns the joined recipients.
- The `profile` and `notifier` structs passed to the write functions become their fields. Only those fields are read.
- Database.Store methods require `Ready()`: the tables and the note column exist. The source's operations rely on `connect` having run; `Store.Connect` ensures `Ready()` after success.
