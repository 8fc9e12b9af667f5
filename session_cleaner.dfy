/** The expiry sweep (lib/session-cleaner.ts): every active session whose
    expiry time has passed has its firewall pair deleted, is marked
    inactive and is logged, one after the other. The clock, the outcome of
    each delete command and the failures of the store are inputs. */
module SessionCleaner {
  import opened JsRuntime
  import opened Nftables
  import opened Models
  import opened Store
  import opened Listing

  /** startSessionCleaner: the sweep runs every 30 seconds. */
  const CleanerIntervalMs: nat := 30000

  /** The query `{ active: true, expiresAt: { $lte: now } }`. */
  predicate IsExpired(s: Session, now: int) {
    s.active && s.expiresAt <= now
  }

  /** The sessions the sweep works through, in collection order. */
  function ExpiredBatch(sessions: seq<Session>, now: int): (r: seq<Session>)
    ensures forall s :: s in r <==> s in sessions && IsExpired(s, now)
  {
    FilterContents(sessions, (s: Session) => IsExpired(s, now));
    Filter(sessions, (s: Session) => IsExpired(s, now))
  }

  function IdsOf(batch: seq<Session>): set<string> {
    set s | s in batch :: s.id
  }

  /** The collection once every session whose id is in ids has been
      updated with `{ active: false }`. */
  function DeactivatedIds(sessions: seq<Session>, ids: set<string>): (r: seq<Session>)
    ensures |r| == |sessions|
  {
    seq(|sessions|, j requires 0 <= j < |sessions| =>
      if sessions[j].id in ids then sessions[j].(active := false) else sessions[j])
  }

  /** The log entry for a cleaned session. */
  function CleanedEntry(s: Session): LogEntry {
    LogEntry(Info, "Cleaned expired session: " + s.id + " (Room: " + s.room + ")", None, None)
  }

  function CleanedEntries(batch: seq<Session>): (r: seq<LogEntry>)
    ensures |r| == |batch|
  {
    seq(|batch|, j requires 0 <= j < |batch| => CleanedEntry(batch[j]))
  }

  function DeleteCommands(cfg: Config, batch: seq<Session>): (r: seq<string>)
    ensures |r| == |batch|
  {
    seq(|batch|, j requires 0 <= j < |batch| =>
      DeleteCommand(cfg, batch[j].mobileIp, batch[j].chromecastIp))
  }

  function PairOf(s: Session): Pair {
    Pair(s.mobileIp, s.chromecastIp)
  }

  /** The firewall elements after the first n deletes of the batch, the
      i-th of which ended as outcome(i). */
  function PairsAfter(pairs: map<Pair, int>, batch: seq<Session>, outcome: nat -> CommandOutcome, n: nat)
    : map<Pair, int>
    requires n <= |batch|
  {
    if n == 0 then pairs
    else
      var before := PairsAfter(pairs, batch, outcome, n - 1);
      if outcome(n - 1).Completed? then before - {PairOf(batch[n - 1])} else before
  }

  /** How many sessions the sweep finishes: all of them, unless the update
      of the one at position failAt throws, which ends the sweep there. */
  function Finished(batch: seq<Session>, failAt: Option<nat>): (n: nat)
    ensures n <= |batch|
  {
    if failAt.Some? && failAt.value < |batch| then failAt.value else |batch|
  }

  /** How many deletes the sweep issues: the session whose update throws
      has already had its pair deleted. */
  function Deletes(batch: seq<Session>, failAt: Option<nat>): (n: nat)
    ensures n <= |batch|
  {
    if failAt.Some? && failAt.value < |batch| then failAt.value + 1 else |batch|
  }

  /** cleanExpiredSessions at time now. `queryFails` says whether the find
      throws, `failAt` the position in the batch whose update throws, if
      any; either ends the sweep in the catch, which only writes to the
      console. */
  method Sweep(db: Database, fw: Firewall, now: int, deleteOutcome: nat -> CommandOutcome,
               failAt: Option<nat>, queryFails: bool)
    requires db.Valid()
    modifies db, fw
    ensures db.Valid()
    ensures db.devices == old(db.devices)
    ensures queryFails ==>
      db.sessions == old(db.sessions) && db.logs == old(db.logs)
      && fw.pairs == old(fw.pairs) && fw.issued == old(fw.issued)
    ensures !queryFails ==>
      var batch := ExpiredBatch(old(db.sessions), now);
      var done := Finished(batch, failAt);
      var deleted := Deletes(batch, failAt);
      db.sessions == DeactivatedIds(old(db.sessions), IdsOf(batch[..done]))
      && db.logs == old(db.logs) + CleanedEntries(batch[..done])
      && fw.issued == old(fw.issued) + DeleteCommands(fw.config, batch[..deleted])
      && fw.pairs == PairsAfter(old(fw.pairs), batch, deleteOutcome, deleted)
    // A sweep that nothing interrupts leaves no expired session active.
    ensures !queryFails && failAt.None? ==>
      forall j :: 0 <= j < |db.sessions| ==> !IsExpired(db.sessions[j], now)
  {
    if queryFails {
      return;
    }
    var batch := ExpiredBatch(db.sessions, now);
    ghost var sessions0 := db.sessions;
    // The sessions before the one whose update throws go through all three
    // steps; that one has had its pair deleted when the throw ends the sweep.
    var done := Finished(batch, failAt);
    CleanBatch(db, fw, batch, done, deleteOutcome);
    if done < |batch| {
      var session := batch[done];
      SweepStep(fw.config, sessions0, batch, done);
      var _ := fw.DeletePair(session.mobileIp, session.chromecastIp, deleteOutcome(done));
      return;
    }
    assert batch[..done] == batch;
    SweepClearsExpired(sessions0, now);
  }

  /** The loop of cleanExpiredSessions over the first n sessions of the
      batch, none of whose updates throws: delete the pair (the i-th delete
      ends as outcome(i)), mark the session inactive, log it. */
  method CleanBatch(db: Database, fw: Firewall, batch: seq<Session>, n: nat,
                    deleteOutcome: nat -> CommandOutcome)
    requires db.Valid() && n <= |batch|
    modifies db, fw
    ensures db.Valid() && db.devices == old(db.devices)
    ensures db.sessions == DeactivatedIds(old(db.sessions), IdsOf(batch[..n]))
    ensures db.logs == old(db.logs) + CleanedEntries(batch[..n])
    ensures fw.issued == old(fw.issued) + DeleteCommands(fw.config, batch[..n])
    ensures fw.pairs == PairsAfter(old(fw.pairs), batch, deleteOutcome, n)
  {
    var i := 0;
    while i < n
      invariant 0 <= i <= n
      invariant db.Valid() && db.devices == old(db.devices)
      invariant db.sessions == DeactivatedIds(old(db.sessions), IdsOf(batch[..i]))
      invariant db.logs == old(db.logs) + CleanedEntries(batch[..i])
      invariant fw.issued == old(fw.issued) + DeleteCommands(fw.config, batch[..i])
      invariant fw.pairs == PairsAfter(old(fw.pairs), batch, deleteOutcome, i)
    {
      var session := batch[i];
      SweepStep(fw.config, old(db.sessions), batch, i);
      var _ := fw.DeletePair(session.mobileIp, session.chromecastIp, deleteOutcome(i));
      db.DeactivateSession(session.id);
      db.Log(CleanedEntry(session));
      i := i + 1;
    }
  }

  /** What one more session of the batch adds to each part of the state. */
  lemma SweepStep(cfg: Config, sessions: seq<Session>, batch: seq<Session>, i: nat)
    requires i < |batch|
    ensures DeleteCommands(cfg, batch[..i + 1])
      == DeleteCommands(cfg, batch[..i]) + [DeleteCommand(cfg, batch[i].mobileIp, batch[i].chromecastIp)]
    ensures Deactivated(DeactivatedIds(sessions, IdsOf(batch[..i])), batch[i].id)
      == DeactivatedIds(sessions, IdsOf(batch[..i + 1]))
    ensures CleanedEntries(batch[..i + 1]) == CleanedEntries(batch[..i]) + [CleanedEntry(batch[i])]
  {
    assert batch[..i + 1] == batch[..i] + [batch[i]];
    assert IdsOf(batch[..i + 1]) == IdsOf(batch[..i]) + {batch[i].id};
    DeactivateOneMore(sessions, IdsOf(batch[..i]), batch[i].id);
  }

  /** Deactivating one more id is deactivating the larger set. */
  lemma DeactivateOneMore(sessions: seq<Session>, ids: set<string>, id: string)
    ensures Deactivated(DeactivatedIds(sessions, ids), id) == DeactivatedIds(sessions, ids + {id})
  {
    var a := Deactivated(DeactivatedIds(sessions, ids), id);
    var b := DeactivatedIds(sessions, ids + {id});
    assert forall j :: 0 <= j < |a| ==> a[j] == b[j];
  }

  /** A sweep that finishes leaves no active session past its expiry, and
      with ids unique it touches no other session. */
  lemma SweepClearsExpired(sessions: seq<Session>, now: int)
    requires UniqueIds(sessions)
    ensures var r := DeactivatedIds(sessions, IdsOf(ExpiredBatch(sessions, now)));
      |r| == |sessions|
      && (forall j :: 0 <= j < |r| ==> !IsExpired(r[j], now))
      && (forall j :: 0 <= j < |r| && IsExpired(sessions[j], now) ==> r[j] == sessions[j].(active := false))
      && (forall j :: 0 <= j < |r| && !IsExpired(sessions[j], now) ==> r[j] == sessions[j])
  {
    var batch := ExpiredBatch(sessions, now);
    var r := DeactivatedIds(sessions, IdsOf(batch));
    forall j | 0 <= j < |r|
      ensures IsExpired(sessions[j], now) ==> sessions[j].id in IdsOf(batch)
      ensures !IsExpired(sessions[j], now) ==> sessions[j].id !in IdsOf(batch)
    {
      if IsExpired(sessions[j], now) {
        assert sessions[j] in batch;
      }
    }
  }

  /** Deletes only remove elements: whatever a completed delete removed
      stays removed, and nothing is added. */
  lemma {:induction false} PairsOnlyShrink(pairs: map<Pair, int>, batch: seq<Session>,
                                           outcome: nat -> CommandOutcome, n: nat)
    requires n <= |batch|
    ensures PairsAfter(pairs, batch, outcome, n).Keys <= pairs.Keys
    ensures forall p :: p in PairsAfter(pairs, batch, outcome, n) ==>
      PairsAfter(pairs, batch, outcome, n)[p] == pairs[p]
    ensures forall k :: 0 <= k < n && outcome(k).Completed? ==>
      PairOf(batch[k]) !in PairsAfter(pairs, batch, outcome, n)
  {
    if n > 0 {
      PairsOnlyShrink(pairs, batch, outcome, n - 1);
    }
  }
}
