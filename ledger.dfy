/**
 * The schema ledger: `schema_upgrades` records every version the schema
 * has been brought to, and connect decides from its largest entry
 * whether to run the baseline script, the version-2 step, or nothing.
 * A statement the engine rejects ends the process in the source; here it
 * ends the step with Failed, keeping whatever earlier statements did.
 */
module SchemaLedger {
  import opened Wrappers
  import opened Tables

  /** SELECT MAX(version): NULL (None) for an empty ledger. */
  function LedgerMax(s: seq<int>): (r: Option<int>)
    ensures r.Some? <==> s != []
    ensures r.Some? ==> r.value in s && forall i :: 0 <= i < |s| ==> s[i] <= r.value
  {
    if s == [] then None
    else
      var last := s[|s| - 1];
      match LedgerMax(s[..|s| - 1])
      case None => Some(last)
      case Some(m) => Some(if m < last then last else m)
  }

  /**
   * The version connect reads; None when the query fails, that is when
   * the ledger table is missing or the maximum is NULL and cannot be
   * scanned into an int.
   */
  function CurrentVersion(db: Db): (r: Option<int>)
    ensures r.Some? <==> db.tablesExist && db.ledger != []
    ensures r.Some? ==> r.value in db.ledger && forall v :: v in db.ledger ==> v <= r.value
  {
    if db.tablesExist then LedgerMax(db.ledger) else None
  }

  /** initTables: the baseline script creates every table at the current layout; it fails on existing ones. */
  function InitTables(db: Db): (r: Step)
    ensures r.outcome == Done <==> !db.tablesExist
    ensures r.outcome == Done ==> r.db == Empty.(tablesExist := true, noteColumn := true)
    ensures r.outcome != Done ==> r.db == db
  {
    if db.tablesExist then Step(db, Failed(StoreFailure))
    else Step(Empty.(tablesExist := true, noteColumn := true), Done)
  }

  /** setDbVersion: one INSERT into the ledger. */
  function SetDbVersion(db: Db, version: int): (r: Step)
    ensures Valid(db) && (version >= CurrentDbVersion ==> db.noteColumn) ==> Valid(r.db)
  {
    if db.tablesExist then Step(db.(ledger := db.ledger + [version]), Done)
    else Step(db, Failed(StoreFailure))
  }

  /**
   * doDbUpgrade: below version 2 the note column is added and version 2
   * recorded; the ALTER fails when the column is already there. From
   * version 2 on there is nothing to do.
   */
  function DoDbUpgrade(db: Db, from: int): (r: Step)
    ensures Valid(db) ==> Valid(r.db)
  {
    if from < 2 then
      if !db.tablesExist || db.noteColumn then Step(db, Failed(StoreFailure))
      else SetDbVersion(db.(noteColumn := true), 2)
    else Step(db, Done)
  }

  /** connect, from the version query onwards. */
  function Connect(db: Db): (r: Step)
    ensures Valid(db) ==> Valid(r.db)
  {
    match CurrentVersion(db)
    case None =>
      var init := InitTables(db);
      if init.outcome != Done then init else SetDbVersion(init.db, CurrentDbVersion)
    case Some(v) =>
      if v != CurrentDbVersion then DoDbUpgrade(db, v) else Step(db, Done)
  }

  // ---- lemmas ----

  /** The new maximum after one more entry. */
  lemma LedgerMaxAppend(s: seq<int>, v: int)
    ensures LedgerMax(s + [v]) == Some(match LedgerMax(s) case None => v case Some(m) => if m < v then v else m)
  {
    assert (s + [v])[..|s + [v]| - 1] == s;
  }

  /** A fresh store gets the baseline schema and a ledger holding exactly the current version. */
  lemma ConnectFresh()
    ensures Connect(Empty) == Step(Empty.(tablesExist := true, noteColumn := true, ledger := [CurrentDbVersion]), Done)
  {
  }

  /** A store at version 1 gets only the version-2 step, without the baseline script. */
  lemma ConnectFromOldVersion(db: Db, v: int)
    requires Valid(db) && db.tablesExist && !db.noteColumn && LedgerMax(db.ledger) == Some(v) && v < CurrentDbVersion
    ensures Connect(db) == Step(db.(noteColumn := true, ledger := db.ledger + [CurrentDbVersion]), Done)
  {
  }

  /**
   * Tables without a ledger entry look like a fresh store, but rerunning the
   * baseline script fails: the process stops and nothing changes.
   */
  lemma ConnectLostVersionRecord(db: Db)
    requires db.tablesExist && db.ledger == []
    ensures Connect(db) == Step(db, Failed(StoreFailure))
  {
  }

  /** An old version whose column already exists makes the ALTER fail; nothing changes. */
  lemma ConnectColumnAlreadyAdded(db: Db, v: int)
    requires db.tablesExist && db.noteColumn && LedgerMax(db.ledger) == Some(v) && v < CurrentDbVersion
    ensures Connect(db) == Step(db, Failed(StoreFailure))
  {
  }

  /** From the current version or a newer one, connect changes nothing. */
  lemma ConnectUpToDate(db: Db, v: int)
    requires db.tablesExist && LedgerMax(db.ledger) == Some(v) && v >= CurrentDbVersion
    ensures Connect(db) == Step(db, Done)
  {
  }

  /** The ledger only grows, by at most one entry, and no other table changes. */
  lemma ConnectAppendOnly(db: Db)
    requires Valid(db)
    ensures var r := Connect(db).db;
      && db.ledger <= r.ledger && |r.ledger| <= |db.ledger| + 1
      && r.profiles == db.profiles && r.modules == db.modules && r.tokens == db.tokens
      && r.notifiers == db.notifiers && r.recipients == db.recipients && r.links == db.links
  {
  }

  /**
   * After a successful connect the schema is the one the repository
   * operations expect and the recorded version is at least the current one;
   * it is exactly the current one unless the store was already newer.
   */
  lemma {:induction false} ConnectReachesCurrent(db: Db)
    requires Valid(db) && Connect(db).outcome == Done
    ensures var r := Connect(db).db;
      && Valid(r) && Ready(r)
      && CurrentVersion(r).Some? && CurrentVersion(r).value >= CurrentDbVersion
      && (CurrentVersion(db).None? || CurrentVersion(db).value <= CurrentDbVersion ==> CurrentVersion(r) == Some(CurrentDbVersion))
  {
    var r := Connect(db).db;
    match CurrentVersion(db)
    case None =>
      assert r.ledger == [CurrentDbVersion];
    case Some(v) =>
      if v != CurrentDbVersion {
        if v < CurrentDbVersion {
          LedgerMaxAppend(db.ledger, CurrentDbVersion);
        } else {
          var i :| 0 <= i < |db.ledger| && db.ledger[i] == v;
        }
      }
  }

  /** Connect succeeds exactly when the store is fresh, at version 1 without the column, or up to date. */
  lemma ConnectSucceeds(db: Db)
    requires Valid(db)
    ensures Connect(db).outcome == Done <==>
      (!db.tablesExist || (db.ledger != [] && (LedgerMax(db.ledger).value >= CurrentDbVersion || !db.noteColumn)))
  {
  }

  /** Running connect again after it has succeeded changes nothing. */
  lemma ConnectIdempotent(db: Db)
    requires Valid(db) && Connect(db).outcome == Done
    ensures Connect(Connect(db).db) == Step(Connect(db).db, Done)
  {
    ConnectReachesCurrent(db);
  }
}
