/**
 * database.go as a store object: the tables are fields that each
 * repository function updates statement by statement. Every method that
 * changes the store is specified by the transition function of the same
 * name in SchemaLedger, Profiles or Notifiers, whose properties are proved
 * there; the reads are specified directly by the rows they return.
 */
module Database {
  import opened Wrappers
  import opened Text
  import opened ParamCodec
  import opened ModuleParams
  import opened Interval
  import opened Tables
  import SchemaLedger
  import Profiles
  import Notifiers

  /** A token with its note, as the second token query returns it. */
  datatype NamedToken = NamedToken(token: string, note: Option<string>)

  /** What dbReadProfile returns: the profile columns, its tokens and its module maps. */
  datatype Profile = Profile(
    name: string, source: string, public: bool, immutablePast: bool,
    tokens: seq<string>, namedTokens: seq<NamedToken>, modules: seq<Params>)

  /** What dbReadNotifier returns; the interval is a Go duration text. */
  datatype Notifier = Notifier(name: string, source: string, interval: string, recipients: seq<string>)

  predicate Distinct(s: seq<string>) {
    forall i, j :: 0 <= i < j < |s| ==> s[i] != s[j]
  }

  /** The token column of the second token query. */
  function TokenNames(ns: seq<NamedToken>): seq<string> {
    if ns == [] then [] else TokenNames(ns[..|ns| - 1]) + [ns[|ns| - 1].token]
  }

  lemma TokenNamesAppend(ns: seq<NamedToken>, n: NamedToken)
    ensures TokenNames(ns + [n]) == TokenNames(ns) + [n.token]
  {
    assert (ns + [n])[..|ns|] == ns;
  }

  /** The rows of a one-column SELECT: each element once, in an order the engine picks. */
  method Enumerate(s: set<string>) returns (r: seq<string>)
    ensures Distinct(r)
    ensures forall x :: x in r <==> x in s
  {
    r := [];
    var pending := s;
    while pending != {}
      invariant pending <= s
      invariant Distinct(r)
      invariant forall x :: x in r <==> x in s && x !in pending
      decreases pending
    {
      var x :| x in pending;
      r := r + [x];
      pending := pending - {x};
    }
  }

  /** A Go map[string]string the caller owns; module operations change it in place. */
  class ParamMap {
    var entries: Params

    constructor (m: Params)
      ensures entries == m
    {
      entries := m;
    }
  }

  class Store {
    var tablesExist: bool
    var noteColumn: bool
    var ledger: seq<int>
    var profiles: map<string, ProfileRow>
    var modules: seq<ModuleRow>
    var tokens: map<string, TokenRow>
    var notifiers: map<string, NotifierRow>
    var recipients: set<string>
    var links: set<(string, string)>

    function State(): Db
      reads this
    {
      Db(tablesExist, noteColumn, ledger, profiles, modules, tokens, notifiers, recipients, links)
    }

    ghost predicate Valid()
      reads this
    {
      Tables.Valid(State())
    }

    predicate Ready()
      reads this
    {
      Tables.Ready(State())
    }

    /** A database nothing has been created in yet. */
    constructor ()
      ensures State() == Empty && Valid()
    {
      tablesExist, noteColumn, ledger := false, false, [];
      profiles, modules, tokens := map[], [], map[];
      notifiers, recipients, links := map[], {}, {};
    }

    // ---- schema ledger ----

    /** SELECT MAX(version) FROM schema_upgrades, scanned into an int. */
    method QueryVersion() returns (v: Option<int>)
      ensures v == SchemaLedger.CurrentVersion(State())
    {
      if !tablesExist || ledger == [] {
        return None;
      }
      var m := ledger[0];
      var i := 1;
      assert ledger[..1] == [ledger[0]];
      while i < |ledger|
        invariant 1 <= i <= |ledger|
        invariant SchemaLedger.LedgerMax(ledger[..i]) == Some(m)
      {
        assert ledger[..i + 1][..i] == ledger[..i];
        if m < ledger[i] {
          m := ledger[i];
        }
        i := i + 1;
      }
      assert ledger[..i] == ledger;
      v := Some(m);
    }

    method InitTables() returns (outcome: Outcome)
      modifies this
      ensures Step(State(), outcome) == SchemaLedger.InitTables(old(State()))
      ensures old(Valid()) ==> Valid()
    {
      if tablesExist {
        return Failed(StoreFailure);
      }
      tablesExist, noteColumn, ledger := true, true, [];
      profiles, modules, tokens := map[], [], map[];
      notifiers, recipients, links := map[], {}, {};
      outcome := Done;
    }

    method SetDbVersion(version: int) returns (outcome: Outcome)
      modifies this
      ensures Step(State(), outcome) == SchemaLedger.SetDbVersion(old(State()), version)
      ensures old(Valid()) && (version < CurrentDbVersion || old(noteColumn)) ==> Valid()
    {
      if !tablesExist {
        return Failed(StoreFailure);
      }
      ledger := ledger + [version];
      outcome := Done;
    }

    method DoDbUpgrade(from: int) returns (outcome: Outcome)
      modifies this
      ensures Step(State(), outcome) == SchemaLedger.DoDbUpgrade(old(State()), from)
      ensures old(Valid()) ==> Valid()
    {
      outcome := Done;
      if from < 2 {
        if !tablesExist || noteColumn {
          return Failed(StoreFailure);
        }
        noteColumn := true;
        outcome := SetDbVersion(2);
      }
    }

    /** connect after the connection is open: create, upgrade or leave the schema. */
    method Connect() returns (outcome: Outcome)
      modifies this
      ensures Step(State(), outcome) == SchemaLedger.Connect(old(State()))
      ensures old(Valid()) ==> Valid()
      ensures old(Valid()) && outcome == Done ==> Ready()
    {
      var version := QueryVersion();
      outcome := Done;
      if version.None? {
        outcome := InitTables();
        if outcome == Done {
          outcome := SetDbVersion(CurrentDbVersion);
        }
      } else if version.value != CurrentDbVersion {
        outcome := DoDbUpgrade(version.value);
      }
      if old(Valid()) && outcome == Done {
        SchemaLedger.ConnectReachesCurrent(old(State()));
      }
    }

    // ---- profiles ----

    method ProfileExists(name: string) returns (b: bool)
      requires Ready()
      ensures b <==> name in profiles
    {
      b := name in profiles;
    }

    method ListProfiles() returns (names: seq<string>)
      requires Ready()
      ensures Distinct(names)
      ensures forall n :: n in names <==> n in profiles
    {
      names := Enumerate(profiles.Keys);
    }

    method ListPublicProfiles() returns (names: seq<string>)
      requires Ready()
      ensures Distinct(names)
      ensures forall n :: n in names <==> n in profiles && profiles[n].public
    {
      names := Enumerate(Profiles.PublicProfileNames(State()));
    }

    /**
     * The two token queries. Each is its own SELECT with an order the
     * engine picks, so the second list holds the same tokens, each once
     * with its note, but not necessarily in the order of the first.
     */
    method ReadTokens(name: string) returns (owned: seq<string>, named: seq<NamedToken>)
      ensures Distinct(owned)
      ensures forall t :: t in owned <==> t in tokens && tokens[t].profile == name
      ensures Distinct(TokenNames(named))
      ensures forall t :: t in TokenNames(named) <==> t in tokens && tokens[t].profile == name
      ensures forall nt :: nt in named ==> nt.token in tokens && nt.note == tokens[nt.token].note
    {
      owned := Enumerate(Profiles.OwnedTokens(State(), name));
      var second := Enumerate(Profiles.OwnedTokens(State(), name));
      named := [];
      var j := 0;
      while j < |second|
        invariant 0 <= j <= |second|
        invariant TokenNames(named) == second[..j]
        invariant forall nt :: nt in named ==> nt.token in tokens && nt.note == tokens[nt.token].note
      {
        assert second[j] in Profiles.OwnedTokens(State(), name);
        TokenNamesAppend(named, NamedToken(second[j], tokens[second[j]].note));
        assert second[..j + 1] == second[..j] + [second[j]];
        named := named + [NamedToken(second[j], tokens[second[j]].note)];
        j := j + 1;
      }
      assert second[..j] == second;
    }

    /** The module query and the decoding loop: one map per row of the profile, in row order. */
    method ReadModules(name: string) returns (r: Option<seq<Params>>)
      ensures r == Profiles.ModulesOf(modules, name)
    {
      var acc: seq<Params> := [];
      var i := 0;
      while i < |modules|
        invariant 0 <= i <= |modules|
        invariant Profiles.ModulesOf(modules[..i], name) == Some(acc)
      {
        Profiles.ModulesOfAppend(modules[..i], modules[i], name);
        assert modules[..i] + [modules[i]] == modules[..i + 1];
        if modules[i].profile == name {
          var m := FromColumns(ModuleColumns(modules[i]));
          if m.None? {
            Profiles.ModulesOfFailure(modules, i + 1, name);
            return None;
          }
          acc := acc + [m.value];
        }
        i := i + 1;
      }
      assert modules[..i] == modules;
      r := Some(acc);
    }

    /**
     * dbReadProfile: Ok(None) when there is no such profile; otherwise its
     * columns, its tokens (each once), and one map per module row in row
     * order with "name" put back. A module whose parameters do not decode
     * stops the read.
     */
    method ReadProfile(name: string) returns (r: Result<Option<Profile>>)
      requires Ready()
      ensures name !in profiles ==> r == Ok(None)
      ensures name in profiles ==>
        (r.Err? <==> Profiles.ModulesOf(modules, name).None?)
      ensures r.Ok? && name in profiles ==>
        r.value.Some? &&
        var p := r.value.value;
        && p.name == name
        && ProfileRow(p.source, p.public, p.immutablePast) == profiles[name]
        && Distinct(p.tokens)
        && (forall t :: t in p.tokens <==> t in tokens && tokens[t].profile == name)
        && Distinct(TokenNames(p.namedTokens))
        && (forall t :: t in TokenNames(p.namedTokens) <==> t in tokens && tokens[t].profile == name)
        && (forall nt :: nt in p.namedTokens ==> nt.token in tokens && nt.note == tokens[nt.token].note)
        && Profiles.ModulesOf(modules, name) == Some(p.modules)
    {
      if name !in profiles {
        return Ok(None);
      }
      var row := profiles[name];
      var owned, named := ReadTokens(name);
      var ms := ReadModules(name);
      if ms.None? {
        return Err(StoreFailure);
      }
      r := Ok(Some(Profile(name, row.source, row.public, row.immutablePast, owned, named, ms.value)));
    }

    method WriteProfile(name: string, source: string, public: bool, immutablePast: bool)
      requires Ready()
      modifies this
      ensures State() == Profiles.WriteProfile(old(State()), name, ProfileRow(source, public, immutablePast))
      ensures old(Valid()) ==> Valid()
    {
      profiles := profiles[name := ProfileRow(source, public, immutablePast)];
    }

    /** Copy the caller's map, split off "name", and look for the exact row. */
    method ProfileModuleExists(profile: string, params: ParamMap) returns (b: bool)
      requires Ready()
      ensures b <==> Profiles.HasModule(State(), profile, params.entries)
    {
      var copy: Params := map[];
      var pending := params.entries.Keys;
      while pending != {}
        invariant pending <= params.entries.Keys
        invariant forall k :: k in copy <==> k in params.entries && k !in pending
        invariant forall k :: k in copy ==> copy[k] == params.entries[k]
        decreases pending
      {
        var k :| k in pending;
        copy := copy[k := params.entries[k]];
        pending := pending - {k};
      }
      assert copy == params.entries;
      var name := if NameKey in copy then copy[NameKey] else "";
      copy := copy - {NameKey};
      var parametersJson := Encode(copy);
      b := ModuleRow(profile, name, parametersJson) in modules;
    }

    /** Insert the module row; "name" is deleted from the caller's map on the way. */
    method AddProfileModule(profile: string, params: ParamMap) returns (outcome: Outcome)
      requires Ready()
      modifies this, params
      ensures params.entries == old(params.entries) - {NameKey}
      ensures Step(State(), outcome) == Profiles.AddModule(old(State()), profile, old(params.entries))
      ensures old(Valid()) ==> Valid()
    {
      var name := if NameKey in params.entries then params.entries[NameKey] else "";
      params.entries := params.entries - {NameKey};
      var parametersJson := Encode(params.entries);
      if profile !in profiles {
        return Failed(StoreFailure);
      }
      modules := modules + [ModuleRow(profile, name, parametersJson)];
      outcome := Done;
    }

    /** Delete every row equal to the module's; "name" is deleted from the caller's map too. */
    method RemoveProfileModule(profile: string, params: ParamMap)
      requires Ready()
      modifies this, params
      ensures params.entries == old(params.entries) - {NameKey}
      ensures State() == Profiles.RemoveModule(old(State()), profile, old(params.entries))
      ensures old(Valid()) ==> Valid()
    {
      var name := if NameKey in params.entries then params.entries[NameKey] else "";
      params.entries := params.entries - {NameKey};
      var parametersJson := Encode(params.entries);
      modules := Profiles.Without(modules, ModuleRow(profile, name, parametersJson));
    }

    method WriteProfileToken(profile: string, token: string, note: Option<string>) returns (outcome: Outcome)
      requires Ready()
      modifies this
      ensures Step(State(), outcome) == Profiles.WriteToken(old(State()), profile, token, note)
      ensures old(Valid()) ==> Valid()
    {
      if ByteLength(token) != TokenBytes {
        return Failed(InvalidTokenFormat);
      }
      if token in tokens {
        tokens := tokens[token := tokens[token].(note := note)];
      } else if profile in profiles {
        tokens := tokens[token := TokenRow(profile, note)];
      } else {
        return Failed(StoreFailure);
      }
      outcome := Done;
    }

    method RemoveProfileToken(profile: string, token: string)
      requires Ready()
      modifies this
      ensures State() == Profiles.RemoveToken(old(State()), profile, token)
      ensures old(Valid()) ==> Valid()
    {
      if token in tokens && tokens[token].profile == profile {
        tokens := tokens - {token};
      }
    }

    // ---- notifiers and recipients ----

    method NotifierExists(name: string) returns (b: bool)
      requires Ready()
      ensures b <==> name in notifiers
    {
      b := name in notifiers;
    }

    method ListNotifiers() returns (names: seq<string>)
      requires Ready()
      ensures Distinct(names)
      ensures forall n :: n in names <==> n in notifiers
    {
      names := Enumerate(notifiers.Keys);
    }

    /**
     * dbReadNotifier: the row, its interval converted to a Go duration
     * text, and (when asked for) the linked recipients, each once. A
     * missing notifier or an interval text the conversion cannot take
     * ends the read with an error.
     */
    method ReadNotifier(name: string, fetchRecipients: bool) returns (r: Result<Notifier>)
      requires Ready()
      ensures r.Err? <==> Notifiers.NotifierInterval(State(), name).Err?
      ensures r.Ok? ==>
        && name in notifiers
        && r.value.name == name
        && r.value.source == notifiers[name].source
        && Notifiers.NotifierInterval(State(), name) == Ok(r.value.interval)
        && Distinct(r.value.recipients)
        && (forall e :: e in r.value.recipients <==> fetchRecipients && e in Notifiers.RecipientsOf(State(), name))
    {
      if name !in notifiers {
        return Err(StoreFailure);
      }
      var row := notifiers[name];
      var duration := ReadInterval(IsoText(row.interval));
      if duration.None? {
        return Err(StoreFailure);
      }
      var emails: seq<string> := [];
      if fetchRecipients {
        emails := Enumerate(Notifiers.RecipientsOf(State(), name));
      }
      r := Ok(Notifier(name, row.source, duration.value, emails));
    }

    method WriteNotifier(name: string, source: string, interval: DbInterval)
      requires Ready()
      modifies this
      ensures State() == Notifiers.WriteNotifier(old(State()), name, NotifierRow(source, interval))
      ensures old(Valid()) ==> Valid()
    {
      notifiers := notifiers[name := NotifierRow(source, interval)];
    }

    method DeleteNotifier(name: string)
      requires Ready()
      modifies this
      ensures State() == Notifiers.DeleteNotifier(old(State()), name)
      ensures old(Valid()) ==> Valid()
    {
      notifiers := notifiers - {name};
      links := set l | l in links && l.0 != name;
    }

    /** Two statements: register the email, then link it; the first stays when the second fails. */
    method AddNotifierRecipient(notifier: string, email: string) returns (outcome: Outcome)
      requires Ready()
      modifies this
      ensures Step(State(), outcome) == Notifiers.AddRecipient(old(State()), notifier, email)
      ensures old(Valid()) ==> Valid()
    {
      recipients := recipients + {email};
      if notifier !in notifiers {
        return Failed(StoreFailure);
      }
      links := links + {(notifier, email)};
      outcome := Done;
    }

    method RemoveNotifierRecipient(notifier: string, email: string)
      requires Ready()
      modifies this
      ensures State() == Notifiers.RemoveNotifierRecipient(old(State()), notifier, email)
      ensures old(Valid()) ==> Valid()
    {
      links := links - {(notifier, email)};
    }

    method RemoveRecipient(email: string)
      requires Ready()
      modifies this
      ensures State() == Notifiers.RemoveRecipient(old(State()), email)
      ensures old(Valid()) ==> Valid()
    {
      recipients := recipients - {email};
      links := set l | l in links && l.1 != email;
    }
  }
}
