/**
 * The profile repository of database.go as functions on the store:
 * profile metadata, the module pipeline and admin tokens.
 */
module Profiles {
  import opened Wrappers
  import opened Text
  import opened ParamCodec
  import opened ModuleParams
  import opened Tables

  // ---- profiles ----

  function PublicProfileNames(db: Db): set<string> {
    set n | n in db.profiles && db.profiles[n].public
  }

  /** INSERT ... ON CONFLICT (name) DO UPDATE of source, public and immutable_past. */
  function WriteProfile(db: Db, name: string, row: ProfileRow): (r: Db)
    requires Ready(db)
    ensures Valid(db) ==> Valid(r)
  {
    db.(profiles := db.profiles[name := row])
  }

  /** The tokens whose row names the profile. */
  function OwnedTokens(db: Db, profile: string): set<string> {
    set t | t in db.tokens && db.tokens[t].profile == profile
  }

  // ---- modules ----

  /** The row a module map is stored as, and looked up or deleted by. */
  function ModuleRowOf(profile: string, m: Params): (r: ModuleRow)
    ensures r.profile == profile
    ensures FromColumns(ModuleColumns(r)) == Some(m[NameKey := NameOf(m)])
  {
    var c := ToColumns(m);
    ColumnsRoundTrip(m);
    ModuleRow(profile, c.name, c.parameters)
  }

  predicate HasModule(db: Db, profile: string, m: Params) {
    ModuleRowOf(profile, m) in db.modules
  }

  /** INSERT INTO module; the profile reference must exist. */
  function AddModule(db: Db, profile: string, m: Params): (r: Step)
    requires Ready(db)
    ensures Valid(db) ==> Valid(r.db)
    ensures r.outcome == Done <==> profile in db.profiles
    ensures r.outcome != Done ==> r.db == db
  {
    if profile !in db.profiles then Step(db, Failed(StoreFailure))
    else
      ToColumnsWellFormed(m);
      AppendModuleValid(db, ModuleRowOf(profile, m));
      Step(db.(modules := db.modules + [ModuleRowOf(profile, m)]), Done)
  }

  /** Appending a row for an existing profile with well-formed columns keeps the store valid. */
  lemma AppendModuleValid(db: Db, row: ModuleRow)
    requires row.profile in db.profiles && WellFormed(ModuleColumns(row))
    ensures Valid(db) ==> Valid(db.(modules := db.modules + [row]))
  {
    var rows := db.modules + [row];
    assert forall r :: r in rows ==> r in db.modules || r == row;
  }

  /**
   * DELETE WHERE: the rows other than x, in their order. Every copy of x
   * goes, and every other row keeps each of its copies.
   */
  function Without(rows: seq<ModuleRow>, x: ModuleRow): (r: seq<ModuleRow>)
    ensures forall y :: y in r <==> y in rows && y != x
    ensures multiset(r) == multiset(rows)[x := 0]
    ensures |r| <= |rows|
  {
    if rows == [] then []
    else
      var init, last := rows[..|rows| - 1], rows[|rows| - 1];
      assert rows == init + [last];
      Without(init, x) + (if last == x then [] else [last])
  }

  function RemoveModule(db: Db, profile: string, m: Params): (r: Db)
    requires Ready(db)
    ensures Valid(db) ==> Valid(r)
  {
    db.(modules := Without(db.modules, ModuleRowOf(profile, m)))
  }

  /**
   * The module maps a read gives for a profile, one per row of that
   * profile in row order; None when some row's parameters do not decode.
   */
  function ModulesOf(rows: seq<ModuleRow>, profile: string): Option<seq<Params>> {
    if rows == [] then Some([])
    else
      match ModulesOf(rows[..|rows| - 1], profile)
      case None => None
      case Some(ms) =>
        var last := rows[|rows| - 1];
        if last.profile != profile then Some(ms)
        else
          match FromColumns(ModuleColumns(last))
          case None => None
          case Some(m) => Some(ms + [m])
  }

  // ---- tokens ----

  /**
   * dbWriteProfileToken: a token that is not 64 bytes long is refused and
   * nothing changes. A known token keeps its owner and takes the new note;
   * a new token is inserted for the profile, which must exist.
   */
  function WriteToken(db: Db, profile: string, token: string, note: Option<string>): (r: Step)
    requires Ready(db)
    ensures Valid(db) ==> Valid(r.db)
  {
    if ByteLength(token) != TokenBytes then Step(db, Failed(InvalidTokenFormat))
    else if token in db.tokens then
      Step(db.(tokens := db.tokens[token := db.tokens[token].(note := note)]), Done)
    else if profile !in db.profiles then Step(db, Failed(StoreFailure))
    else Step(db.(tokens := db.tokens[token := TokenRow(profile, note)]), Done)
  }

  /** DELETE FROM admin_tokens WHERE profile = $1 AND token = $2. */
  function RemoveToken(db: Db, profile: string, token: string): (r: Db)
    requires Ready(db)
    ensures Valid(db) ==> Valid(r)
  {
    if token in db.tokens && db.tokens[token].profile == profile
    then db.(tokens := db.tokens - {token})
    else db
  }

  // ---- lemmas ----

  /** Writing a profile leaves one row for the name with the new metadata, and touches nothing else. */
  lemma WriteProfileUpsert(db: Db, name: string, row: ProfileRow)
    requires Ready(db)
    ensures var r := WriteProfile(db, name, row);
      && r.profiles.Keys == db.profiles.Keys + {name}
      && r.profiles[name] == row
      && (forall n :: n in db.profiles && n != name ==> r.profiles[n] == db.profiles[n])
      && r.modules == db.modules && r.tokens == db.tokens
      && OwnedTokens(r, name) == OwnedTokens(db, name)
      && SameNotifierSide(r, db)
  {
  }

  /** A second write of the same name replaces the first. */
  lemma WriteProfileTwice(db: Db, name: string, row1: ProfileRow, row2: ProfileRow)
    requires Ready(db)
    ensures WriteProfile(WriteProfile(db, name, row1), name, row2) == WriteProfile(db, name, row2)
  {
  }

  /** After an add, the module exists: the lookup uses the same row as the insert. */
  lemma AddModuleThenExists(db: Db, profile: string, m: Params)
    requires Ready(db)
    requires profile in db.profiles
    ensures AddModule(db, profile, m).outcome == Done
    ensures HasModule(AddModule(db, profile, m).db, profile, m)
  {
  }

  /**
   * After a remove, the module does not exist, and exactly its rows are
   * gone: every other row keeps its copies, and every other profile reads
   * the same module list as before.
   */
  lemma RemoveModuleThenAbsent(db: Db, profile: string, m: Params)
    requires Ready(db)
    ensures var r := RemoveModule(db, profile, m);
      && !HasModule(r, profile, m)
      && (forall row :: row in r.modules <==> row in db.modules && row != ModuleRowOf(profile, m))
      && multiset(r.modules) == multiset(db.modules)[ModuleRowOf(profile, m) := 0]
      && (forall q :: q != profile ==> ModulesOf(r.modules, q) == ModulesOf(db.modules, q))
      && r.profiles == db.profiles && r.tokens == db.tokens
      && SameNotifierSide(r, db)
  {
    forall q | q != profile
      ensures ModulesOf(RemoveModule(db, profile, m).modules, q) == ModulesOf(db.modules, q)
    {
      WithoutOtherProfile(db.modules, ModuleRowOf(profile, m), q);
    }
  }

  /** The delete keeps the order of the rows: it works on each part of the table separately. */
  lemma {:induction false} WithoutConcat(a: seq<ModuleRow>, b: seq<ModuleRow>, x: ModuleRow)
    ensures Without(a + b, x) == Without(a, x) + Without(b, x)
  {
    if b != [] {
      var init, last := b[..|b| - 1], b[|b| - 1];
      assert (a + b)[..|a + b| - 1] == a + init;
      assert (a + b)[|a + b| - 1] == last;
      WithoutConcat(a, init, x);
      assert Without(a + b, x) == Without(a + init, x) + (if last == x then [] else [last]);
      assert Without(b, x) == Without(init, x) + (if last == x then [] else [last]);
    } else {
      assert a + b == a;
    }
  }

  /** Deleting a row of one profile leaves the module list every other profile reads unchanged. */
  lemma {:induction false} WithoutOtherProfile(rows: seq<ModuleRow>, x: ModuleRow, q: string)
    requires x.profile != q
    ensures ModulesOf(Without(rows, x), q) == ModulesOf(rows, q)
  {
    if rows != [] {
      var init, last := rows[..|rows| - 1], rows[|rows| - 1];
      assert rows == init + [last];
      WithoutOtherProfile(init, x, q);
      if last != x {
        ModulesOfAppend(Without(init, x), last, q);
      } else {
        assert Without(rows, x) == Without(init, x);
      }
    }
  }

  /**
   * "name" is deleted from the caller's map by an add, so reusing that map
   * for a lookup or a delete looks for a row with an empty name: for a
   * module whose name is not empty, the lookup finds only what it found
   * before the add, and the delete keeps the row just added.
   */
  lemma ReusedMapMissesRow(db: Db, profile: string, m: Params)
    requires Ready(db) && profile in db.profiles
    requires NameKey in m && m[NameKey] != ""
    ensures var added := AddModule(db, profile, m).db;
      && (HasModule(added, profile, m - {NameKey}) <==> HasModule(db, profile, m - {NameKey}))
      && ModuleRowOf(profile, m) in RemoveModule(added, profile, m - {NameKey}).modules
  {
    var reused, row := ModuleRowOf(profile, m - {NameKey}), ModuleRowOf(profile, m);
    assert reused.name == NameOf(m - {NameKey}) == "";
    assert row.name == m[NameKey];
    var added := db.modules + [row];
    assert AddModule(db, profile, m).db.modules == added;
    assert row in added && row != reused;
    assert reused in added <==> reused in db.modules;
  }

  /** Lookups compare maps, not their text: rows agree only for equal maps. */
  lemma ModuleRowCanonical(profile: string, m1: Params, m2: Params)
    requires NameKey in m1 && NameKey in m2
    ensures ModuleRowOf(profile, m1) == ModuleRowOf(profile, m2) <==> m1 == m2
  {
    if ModuleRowOf(profile, m1) == ModuleRowOf(profile, m2) {
      ColumnsInjective(m1, m2);
    }
  }

  lemma {:induction false} ModulesOfAppend(rows: seq<ModuleRow>, row: ModuleRow, profile: string)
    ensures ModulesOf(rows + [row], profile) ==
      match ModulesOf(rows, profile)
      case None => None
      case Some(ms) =>
        if row.profile != profile then Some(ms)
        else
          match FromColumns(ModuleColumns(row))
          case None => None
          case Some(m) => Some(ms + [m])
  {
    assert (rows + [row])[..|rows|] == rows;
  }

  /** On a valid store every row decodes, so reading a profile's modules never fails. */
  lemma {:induction false} ModulesOfWellFormed(rows: seq<ModuleRow>, profile: string)
    requires forall row :: row in rows ==> WellFormed(ModuleColumns(row))
    ensures ModulesOf(rows, profile).Some?
  {
    if rows != [] {
      var init := rows[..|rows| - 1];
      assert forall row :: row in init ==> row in rows;
      ModulesOfWellFormed(init, profile);
    }
  }

  /** Once some prefix of the rows fails to decode, the whole read fails. */
  lemma {:induction false} ModulesOfFailure(rows: seq<ModuleRow>, k: nat, profile: string)
    requires k <= |rows|
    requires ModulesOf(rows[..k], profile) == None
    ensures ModulesOf(rows, profile) == None
    decreases |rows| - k
  {
    if k < |rows| {
      ModulesOfAppend(rows[..k], rows[k], profile);
      assert rows[..k] + [rows[k]] == rows[..k + 1];
      ModulesOfFailure(rows, k + 1, profile);
    } else {
      assert rows[..k] == rows;
    }
  }

  /**
   * The module round trip: adding a map that carries "name" and reading
   * the profile gives that map back, after the modules read before.
   */
  lemma ModuleRoundTrip(db: Db, profile: string, m: Params)
    requires Valid(db) && Ready(db) && profile in db.profiles && NameKey in m
    ensures ModulesOf(db.modules, profile).Some?
    ensures ModulesOf(AddModule(db, profile, m).db.modules, profile)
         == Some(ModulesOf(db.modules, profile).value + [m])
  {
    ModulesOfWellFormed(db.modules, profile);
    ModulesOfAppend(db.modules, ModuleRowOf(profile, m), profile);
    ColumnsRoundTripExact(m);
  }

  /** A map without "name" reads back with "name" set to the empty string. */
  lemma ModuleWithoutName(db: Db, profile: string, m: Params)
    requires Valid(db) && Ready(db) && profile in db.profiles && NameKey !in m
    ensures ModulesOf(db.modules, profile).Some?
    ensures ModulesOf(AddModule(db, profile, m).db.modules, profile)
         == Some(ModulesOf(db.modules, profile).value + [m[NameKey := ""]])
  {
    ModulesOfWellFormed(db.modules, profile);
    ModulesOfAppend(db.modules, ModuleRowOf(profile, m), profile);
    ColumnsRoundTrip(m);
  }

  /** A token of the wrong length is refused and the store is unchanged. */
  lemma WriteTokenWrongLength(db: Db, profile: string, token: string, note: Option<string>)
    requires Ready(db) && ByteLength(token) != TokenBytes
    ensures WriteToken(db, profile, token, note) == Step(db, Failed(InvalidTokenFormat))
  {
  }

  /**
   * A token of the right length ends up in the table with the given note.
   * If it was known, its owner is kept whatever profile is passed; if it
   * was new, it belongs to the profile passed, which must exist.
   */
  lemma WriteTokenUpsert(db: Db, profile: string, token: string, note: Option<string>)
    requires Ready(db) && ByteLength(token) == TokenBytes
    ensures var r := WriteToken(db, profile, token, note);
      && (r.outcome == Done <==> token in db.tokens || profile in db.profiles)
      && (r.outcome == Done ==>
            && token in r.db.tokens && r.db.tokens[token].note == note
            && r.db.tokens[token].profile == (if token in db.tokens then db.tokens[token].profile else profile))
      && (r.outcome != Done ==> r.db == db)
      && (forall t :: t in db.tokens && t != token ==> t in r.db.tokens && r.db.tokens[t] == db.tokens[t])
      && r.db.profiles == db.profiles && r.db.modules == db.modules
      && (r.outcome == Done ==> r.db.tokens.Keys == db.tokens.Keys + {token})
      && SameNotifierSide(r.db, db)
  {
  }

  /** Repeating a token write with the same token and note changes nothing and ends the same way. */
  lemma WriteTokenIdempotent(db: Db, profile: string, token: string, note: Option<string>)
    requires Ready(db)
    ensures var once := WriteToken(db, profile, token, note);
      WriteToken(once.db, profile, token, note) == once
  {
  }

  /** Removal is scoped by profile: a token owned by another profile survives. */
  lemma RemoveTokenScoped(db: Db, profile: string, token: string)
    requires Ready(db)
    ensures var r := RemoveToken(db, profile, token);
      && (token in r.tokens <==> token in db.tokens && db.tokens[token].profile != profile)
      && (forall t :: t != token ==> (t in r.tokens <==> t in db.tokens))
      && OwnedTokens(r, profile) == OwnedTokens(db, profile) - {token}
      && r.tokens == (if token in db.tokens && db.tokens[token].profile == profile
                      then db.tokens - {token} else db.tokens)
      && r.profiles == db.profiles && r.modules == db.modules
      && SameNotifierSide(r, db)
  {
  }
}
