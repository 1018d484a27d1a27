/**
 * The notifier repository and the recipient registry of database.go as
 * functions on the store. Deleting a notifier or a recipient removes the
 * links that point at it: the store cascades those deletions.
 */
module Notifiers {
  import opened Wrappers
  import opened Interval
  import opened GoDuration
  import opened Tables

  /** INSERT ... ON CONFLICT (name) DO UPDATE of source and interval; links are not touched. */
  function WriteNotifier(db: Db, name: string, row: NotifierRow): (r: Db)
    requires Ready(db)
    ensures Valid(db) ==> Valid(r)
  {
    db.(notifiers := db.notifiers[name := row])
  }

  /** DELETE FROM notifier WHERE name = $1, with its links going too. */
  function DeleteNotifier(db: Db, name: string): (r: Db)
    requires Ready(db)
    ensures Valid(db) ==> Valid(r)
  {
    db.(notifiers := db.notifiers - {name}, links := set l | l in db.links && l.0 != name)
  }

  /**
   * dbAddNotifierRecipient: the email goes into the registry if absent,
   * then the link if absent. The two statements are separate, so when the
   * link insert fails (an unknown notifier) the registry entry stays.
   */
  function AddRecipient(db: Db, notifier: string, email: string): (r: Step)
    requires Ready(db)
    ensures Valid(db) ==> Valid(r.db)
  {
    var registered := db.(recipients := db.recipients + {email});
    if notifier !in db.notifiers then Step(registered, Failed(StoreFailure))
    else Step(registered.(links := registered.links + {(notifier, email)}), Done)
  }

  /** DELETE FROM notifier_recipients for one (notifier, recipient) pair. */
  function RemoveNotifierRecipient(db: Db, notifier: string, email: string): (r: Db)
    requires Ready(db)
    ensures Valid(db) ==> Valid(r)
  {
    db.(links := db.links - {(notifier, email)})
  }

  /** DELETE FROM recipients WHERE email = $1, with every link to it going too. */
  function RemoveRecipient(db: Db, email: string): (r: Db)
    requires Ready(db)
    ensures Valid(db) ==> Valid(r)
  {
    db.(recipients := db.recipients - {email}, links := set l | l in db.links && l.1 != email)
  }

  /** The recipient query's join: linked emails that are registered, for an existing notifier. */
  function RecipientsOf(db: Db, notifier: string): (r: set<string>)
    ensures notifier !in db.notifiers ==> r == {}
    ensures forall e :: e in r <==> notifier in db.notifiers && e in db.recipients && (notifier, e) in db.links
  {
    set l | l in db.links && l.0 == notifier && l.1 in db.recipients && notifier in db.notifiers :: l.1
  }

  /** The interval a read reports: the engine's ISO 8601 text put through ReadInterval. */
  function NotifierInterval(db: Db, name: string): Result<string> {
    if name !in db.notifiers then Err(StoreFailure)
    else
      match ReadInterval(IsoText(db.notifiers[name].interval))
      case None => Err(StoreFailure)
      case Some(text) => Ok(text)
  }

  // ---- lemmas ----

  /** Writing a notifier sets its row and leaves recipients and links alone. */
  lemma WriteNotifierUpsert(db: Db, name: string, row: NotifierRow)
    requires Ready(db)
    ensures var r := WriteNotifier(db, name, row);
      && r.notifiers.Keys == db.notifiers.Keys + {name} && r.notifiers[name] == row
      && (forall n :: n in db.notifiers && n != name ==> r.notifiers[n] == db.notifiers[n])
      && r.recipients == db.recipients && r.links == db.links
      && SameProfileSide(r, db)
  {
  }

  /**
   * After deletion the notifier is gone with all of its links; every other
   * notifier keeps its row, and the registry and the profile side are unchanged.
   */
  lemma DeleteNotifierCascades(db: Db, name: string)
    requires Ready(db)
    ensures var r := DeleteNotifier(db, name);
      && name !in r.notifiers
      && r.notifiers == db.notifiers - {name}
      && SameProfileSide(r, db)
      && (forall l :: l in r.links <==> l in db.links && l.0 != name)
      && r.recipients == db.recipients
      && RecipientsOf(r, name) == {}
  {
  }

  /** After adding, the email is registered and, for a known notifier, linked. */
  lemma AddRecipientLinks(db: Db, notifier: string, email: string)
    requires Ready(db)
    ensures var r := AddRecipient(db, notifier, email);
      && r.db.recipients == db.recipients + {email}
      && (r.outcome == Done <==> notifier in db.notifiers)
      && (r.outcome == Done ==> r.db.links == db.links + {(notifier, email)})
      && (r.outcome != Done ==> r.db.links == db.links)
      && (r.outcome == Done ==> email in RecipientsOf(r.db, notifier))
      && r.db.notifiers == db.notifiers
      && SameProfileSide(r.db, db)
  {
  }

  /** Adding the same recipient twice gives the state of adding it once. */
  lemma AddRecipientIdempotent(db: Db, notifier: string, email: string)
    requires Ready(db)
    ensures var once := AddRecipient(db, notifier, email);
      AddRecipient(once.db, notifier, email) == once
  {
    var once := AddRecipient(db, notifier, email);
    assert once.db.recipients + {email} == once.db.recipients;
    if once.outcome == Done {
      assert once.db.links + {(notifier, email)} == once.db.links;
    }
  }

  /** Removing one link leaves every other link and the whole registry. */
  lemma RemoveNotifierRecipientOnly(db: Db, notifier: string, email: string)
    requires Ready(db)
    ensures var r := RemoveNotifierRecipient(db, notifier, email);
      && (forall l :: l in r.links <==> l in db.links && l != (notifier, email))
      && r.recipients == db.recipients
      && email !in RecipientsOf(r, notifier)
      && r.notifiers == db.notifiers
      && SameProfileSide(r, db)
  {
  }

  /**
   * After global removal no notifier lists the email, other links and
   * registry entries survive, and the notifiers and the profile side are
   * unchanged.
   */
  lemma RemoveRecipientCascades(db: Db, email: string)
    requires Ready(db)
    ensures var r := RemoveRecipient(db, email);
      && email !in r.recipients
      && r.recipients == db.recipients - {email}
      && r.notifiers == db.notifiers
      && SameProfileSide(r, db)
      && (forall n :: email !in RecipientsOf(r, n))
      && (forall l :: l in r.links <==> l in db.links && l.1 != email)
  {
  }

  /** On a valid store the join adds nothing: the recipients are exactly the linked emails. */
  lemma RecipientsOfValid(db: Db, notifier: string)
    requires Valid(db)
    ensures RecipientsOf(db, notifier) == set l | l in db.links && l.0 == notifier :: l.1
  {
  }

  /**
   * A notifier written with a time-only interval reads back as
   * Duration.String of its seconds, which parses back to the same seconds.
   */
  lemma WriteThenReadInterval(db: Db, name: string, source: string, iv: DbInterval)
    requires Ready(db)
    requires iv.seconds > 0 && Representable(iv.seconds)
    ensures NotifierInterval(WriteNotifier(db, name, NotifierRow(source, iv)), name) == Ok(Format(iv.seconds))
    ensures ParseDuration(Format(iv.seconds)) == Some(iv.seconds)
  {
    ReadTimeInterval(iv);
    FormatParse(iv.seconds);
  }

  /** The interval of one hour thirty minutes reads back as "1h30m0s", ninety minutes. */
  lemma NinetyMinuteNotifier(db: Db, name: string, source: string, iv: DbInterval)
    requires Ready(db) && iv == DbInterval(0, 0, 90 * 60)
    ensures var text := NotifierInterval(WriteNotifier(db, name, NotifierRow(source, iv)), name);
      text == Ok("1h30m0s") && ParseDuration(text.value) == Some(90 * 60)
  {
    WriteThenReadInterval(db, name, source, iv);
    NinetyMinutes(iv.seconds);
  }

  /** A whole-day interval cannot be read back: its text has no 'T'. */
  lemma DayIntervalUnreadable(db: Db, name: string, source: string, days: nat)
    requires Ready(db) && days > 0
    ensures NotifierInterval(WriteNotifier(db, name, NotifierRow(source, DbInterval(0, days, 0))), name).Err?
  {
    ReadDateOnlyInterval(DbInterval(0, days, 0));
  }
}
