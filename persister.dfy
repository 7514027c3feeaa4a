/** The session persister: it admits a parsed session record into the
    store as a `pending` session, looks for its counterpart of the other
    kind, and merges a matched pair into the bait session. It also clears
    crash residue when it starts. */
module Persister {
  import opened Entities
  import opened Database
  import opened Matching

  /** The topic a session record arrives under. */
  datatype Topic = SessionHoneypot | SessionClient | OtherTopic(name: string)

  /** One login attempt of a record; a missing username or password is None. */
  datatype LoginAttempt = LoginAttempt(
    id: string,
    username: Option<string>,
    password: Option<string>,
    successful: bool,
    timestamp: int)

  /** A session record as decoded from its payload. `transcript` is read only
      for honeypot records; `clientId` and the three flags only for bait records. */
  datatype SessionRecord = SessionRecord(
    id: string,
    timestamp: int,
    protocol: string,
    destinationIp: string,
    destinationPort: int,
    sourceIp: string,
    sourcePort: int,
    honeypotId: Option<string>,
    transcript: seq<TranscriptEntry>,
    loginAttempts: seq<LoginAttempt>,
    clientId: string,
    didConnect: bool,
    didLogin: bool,
    didComplete: bool)

  /** Why a record was not stored: the failed assertion on the honeypot id,
      a lookup that found no row, or a commit refused by the primary key. */
  datatype PersistError = MissingHoneypotId | UnknownHoneypot | UnknownClient | DuplicateId

  datatype Outcome =
    | IgnoredFailedBait                    // incomplete bait session dropped by configuration
    | UnknownType                          // unknown topic: dropped with a warning
    | Failed(error: PersistError)          // raised: nothing is committed
    | Stored(counterpart: Option<string>)  // stored; the id of the merged counterpart, if any

  /** `extract_auth_entity`: username and password default to the empty string. */
  function ExtractAuthEntity(a: LoginAttempt): (r: Authentication)
    ensures r.id == a.id && r.successful == a.successful && r.timestamp == a.timestamp
    ensures a.username.Some? ==> r.username == a.username.value
    ensures a.username.None? ==> r.username == ""
    ensures a.password.Some? ==> r.password == a.password.value
    ensures a.password.None? ==> r.password == ""
  {
    Authentication(
      a.id,
      if a.username.Some? then a.username.value else "",
      if a.password.Some? then a.password.value else "",
      a.successful,
      a.timestamp)
  }

  /** The login attempts of a record as authentications, one for one, in payload order. */
  method ExtractAuthentications(attempts: seq<LoginAttempt>) returns (auths: seq<Authentication>)
    ensures |auths| == |attempts|
    ensures forall i :: 0 <= i < |attempts| ==> auths[i] == ExtractAuthEntity(attempts[i])
  {
    auths := [];
    for i := 0 to |attempts|
      invariant |auths| == i
      invariant forall k :: 0 <= k < i ==> auths[k] == ExtractAuthEntity(attempts[k])
    {
      auths := auths + [ExtractAuthEntity(attempts[i])];
    }
  }

  /** The session a record becomes when it is admitted: classification
      `pending`, received at `received`, its authentications in payload order;
      a honeypot session takes the record's transcript, a bait session
      starts with none and takes the client and the three flags. */
  function Admit(rec: SessionRecord, kind: Kind, received: int): (s: Session)
    requires rec.honeypotId.Some?
    ensures s.id == rec.id && s.kind == kind && s.timestamp == rec.timestamp
    ensures s.protocol == rec.protocol && s.honeypotId == rec.honeypotId.value
    ensures s.classification == Pending && s.received == received
    ensures |s.authentication| == |rec.loginAttempts|
    ensures forall i :: 0 <= i < |rec.loginAttempts| ==> s.authentication[i] == ExtractAuthEntity(rec.loginAttempts[i])
    ensures s.sourceIp == rec.sourceIp && s.sourcePort == rec.sourcePort
    ensures s.destinationIp == rec.destinationIp && s.destinationPort == rec.destinationPort
    ensures kind == Honeypot ==> s.transcript == rec.transcript && s.clientId == None
    ensures kind == Honeypot ==> !s.didConnect && !s.didLogin && !s.didComplete
    ensures kind == Bait ==> s.transcript == [] && s.clientId == Some(rec.clientId)
    ensures kind == Bait ==> s.didConnect == rec.didConnect && s.didLogin == rec.didLogin && s.didComplete == rec.didComplete
    ensures s.sessionData == None
  {
    var auths := seq(|rec.loginAttempts|, i requires 0 <= i < |rec.loginAttempts| => ExtractAuthEntity(rec.loginAttempts[i]));
    Session(
      rec.id, kind, rec.protocol, rec.honeypotId.value, rec.timestamp, received, Pending, auths,
      if kind == Honeypot then rec.transcript else [],
      None,
      rec.sourceIp, rec.sourcePort, rec.destinationIp, rec.destinationPort,
      kind == Bait && rec.didConnect, kind == Bait && rec.didLogin, kind == Bait && rec.didComplete,
      if kind == Bait then Some(rec.clientId) else None)
  }

  /** The bait session as the merge leaves it. */
  function Relabelled(bait: Session, honeypot: Session): Session {
    bait.(classification := BaitSession, transcript := honeypot.transcript, sessionData := honeypot.sessionData)
  }

  /** The sessions after `merge_bait_and_session(h, b)`. */
  function Merged(ss: seq<Session>, h: Session, b: Session): seq<Session> {
    WithoutId(Replaced(ss, Relabelled(b, h)), h.id)
  }

  /** Re-labelling a stored session keeps the ids unique. */
  lemma ReplacedUnique(ss: seq<Session>, s: Session)
    requires UniqueIds(ss)
    ensures UniqueIds(Replaced(ss, s))
  {
    var rep := Replaced(ss, s);
    forall i, j | 0 <= i < j < |rep| ensures rep[i].id != rep[j].id {
      assert rep[i].id == ss[i].id && rep[j].id == ss[j].id;
    }
  }

  /** Overwriting the row of a stored session `b` touches no other row. */
  lemma ReplacedFrame(ss: seq<Session>, b: Session, nb: Session)
    requires UniqueIds(ss) && b in ss && nb.id == b.id
    ensures forall x :: x in ss && x.id != b.id ==> x in Replaced(ss, nb)
    ensures forall x :: x in Replaced(ss, nb) ==> x == nb || (x in ss && x.id != b.id)
  {
    var rep := Replaced(ss, nb);
    forall x | x in ss && x.id != b.id ensures x in rep {
      var m :| 0 <= m < |ss| && ss[m] == x;
      assert rep[m] == x;
    }
  }

  /** What a merge does: the bait session is re-labelled `bait_session`, keeps
      its id and takes the honeypot session's transcript and session data in
      place of its own; the honeypot session is gone; every other session
      stays as it was; ids stay unique. */
  lemma MergedSessions(ss: seq<Session>, h: Session, b: Session)
    requires UniqueIds(ss) && h in ss && b in ss && h.id != b.id
    ensures var r := Merged(ss, h, b);
      && |r| == |ss| - 1
      && UniqueIds(r)
      && !HasId(r, h.id)
      && Relabelled(b, h) in r
      && (forall x :: x in ss && x.id != h.id && x.id != b.id ==> x in r)
      && (forall x :: x in r ==> x == Relabelled(b, h) || (x in ss && x.id != h.id && x.id != b.id))
  {
    var nb := Relabelled(b, h);
    var rep := Replaced(ss, nb);
    ReplacedUnique(ss, nb);
    ReplacedFrame(ss, b, nb);
    var k :| 0 <= k < |ss| && ss[k] == h;
    assert rep[k].id == h.id;
    assert HasId(ss, b.id);
    WithoutPresentId(rep, h.id);
  }

  /** `merge_bait_and_session`: re-label the bait session, hand it the
      honeypot session's transcript and session data, delete the honeypot
      session. */
  method MergeBaitAndSession(db: Store, honeypotSession: Session, baitSession: Session)
    requires db.Valid()
    requires honeypotSession in db.sessions && baitSession in db.sessions
    requires honeypotSession.id != baitSession.id
    modifies db
    ensures db.Valid()
    ensures db.sessions == Merged(old(db.sessions), honeypotSession, baitSession)
    ensures db.clients == old(db.clients) && db.honeypots == old(db.honeypots)
  {
    var merged := baitSession.(classification := BaitSession);
    merged := merged.(transcript := honeypotSession.transcript);
    merged := merged.(sessionData := honeypotSession.sessionData);
    db.Update(merged);
    db.Delete(honeypotSession.id);
  }

  /** `persist_session` on a decoded record, as one function of the store:
      the outcome and the store afterwards. `ignoreFailedBait` is the
      configuration item `ignore_failed_bait_session`; `utcNow` stamps the
      session as received and `now` becomes the client's last activity. */
  function Persist(d: Db, rec: SessionRecord, topic: Topic, ignoreFailedBait: bool, utcNow: int, now: int): (Outcome, Db) {
    if rec.honeypotId.None? then (Failed(MissingHoneypotId), d)
    else if rec.honeypotId.value !in d.honeypots then (Failed(UnknownHoneypot), d)
    else match topic
      case OtherTopic(_) => (UnknownType, d)
      case SessionClient =>
        if !rec.didComplete && ignoreFailedBait then (IgnoredFailedBait, d)
        else if rec.clientId !in d.clients then (Failed(UnknownClient), d)
        else if HasId(d.sessions, rec.id) then (Failed(DuplicateId), d)
        else
          var s := Admit(rec, Bait, utcNow);
          var stored := d.sessions + [s];
          var clients := d.clients[rec.clientId := now];
          (match MatchOf(s, stored, DefaultTimediff)
           case None => (Stored(None), Db(stored, clients, d.honeypots))
           case Some(h) => (Stored(Some(h.id)), Db(Merged(stored, h, s), clients, d.honeypots)))
      case SessionHoneypot =>
        if HasId(d.sessions, rec.id) then (Failed(DuplicateId), d)
        else
          var s := Admit(rec, Honeypot, utcNow);
          var stored := d.sessions + [s];
          (match MatchOf(s, stored, DefaultTimediff)
           case None => (Stored(None), Db(stored, d.clients, d.honeypots))
           case Some(b) => (Stored(Some(b.id)), Db(Merged(stored, s, b), d.clients, d.honeypots)))
  }

  /** `persist_session`: the checks that raise come first and leave the
      store as it was; a stored session is looked up against the other kind
      and merged with its match, the honeypot session always being the one
      that is deleted. */
  method PersistSession(db: Store, rec: SessionRecord, topic: Topic, ignoreFailedBait: bool, utcNow: int, now: int)
    returns (outcome: Outcome)
    requires db.Valid()
    modifies db
    ensures db.Valid()
    ensures (outcome, db.Snapshot()) == Persist(old(db.Snapshot()), rec, topic, ignoreFailedBait, utcNow, now)
  {
    if rec.honeypotId.None? {
      return Failed(MissingHoneypotId);
    }
    if rec.honeypotId.value !in db.honeypots {
      return Failed(UnknownHoneypot);
    }
    var kind: Kind;
    var auths: seq<Authentication>;
    match topic {
      case SessionHoneypot =>
        kind := Honeypot;
        auths := ExtractAuthentications(rec.loginAttempts);
      case SessionClient =>
        if !rec.didComplete && ignoreFailedBait {
          return IgnoredFailedBait;
        }
        if rec.clientId !in db.clients {
          return Failed(UnknownClient);
        }
        kind := Bait;
        auths := ExtractAuthentications(rec.loginAttempts);
      case OtherTopic(_) =>
        return UnknownType;
    }
    var session := Session(
      rec.id, kind, rec.protocol, rec.honeypotId.value, rec.timestamp, utcNow, Pending, auths,
      if kind == Honeypot then rec.transcript else [],
      None,
      rec.sourceIp, rec.sourcePort, rec.destinationIp, rec.destinationPort,
      kind == Bait && rec.didConnect, kind == Bait && rec.didLogin, kind == Bait && rec.didComplete,
      if kind == Bait then Some(rec.clientId) else None);
    assert session == Admit(rec, kind, utcNow);
    if HasId(db.sessions, rec.id) {
      return Failed(DuplicateId);
    }
    if kind == Bait {
      db.TouchClient(rec.clientId, now);
    }
    db.Add(session);
    var m := GetMatchingSession(db, session, DefaultTimediff);
    if m.Some? {
      MatchPassesFilters(session, db.sessions, DefaultTimediff, m.value);
      if kind == Honeypot {
        MergeBaitAndSession(db, session, m.value);
      } else {
        MergeBaitAndSession(db, m.value, session);
      }
      outcome := Stored(Some(m.value.id));
    } else {
      outcome := Stored(None);
    }
  }

  /** A record that is dropped or refused changes nothing: no session is
      added and no client's last activity moves. */
  lemma NothingStoredUnlessStored(d: Db, rec: SessionRecord, topic: Topic, ignoreFailedBait: bool, utcNow: int, now: int)
    ensures var (outcome, after) := Persist(d, rec, topic, ignoreFailedBait, utcNow, now);
      !outcome.Stored? ==> after == d
  {
  }

  /** The gate: with the flag set, an incomplete bait record from a known
      honeypot is dropped; a record under an unknown topic is dropped. */
  lemma GateDropsRecord(d: Db, rec: SessionRecord, topic: Topic, ignoreFailedBait: bool, utcNow: int, now: int)
    requires rec.honeypotId.Some? && rec.honeypotId.value in d.honeypots
    ensures topic == SessionClient && !rec.didComplete && ignoreFailedBait
        ==> Persist(d, rec, topic, ignoreFailedBait, utcNow, now) == (IgnoredFailedBait, d)
    ensures topic.OtherTopic? ==> Persist(d, rec, topic, ignoreFailedBait, utcNow, now) == (UnknownType, d)
  {
  }

  /** Without a match the record is appended as a `pending` session. */
  lemma UnmatchedStaysPending(d: Db, rec: SessionRecord, topic: Topic, ignoreFailedBait: bool, utcNow: int, now: int)
    requires Persist(d, rec, topic, ignoreFailedBait, utcNow, now).0 == Stored(None)
    ensures var after := Persist(d, rec, topic, ignoreFailedBait, utcNow, now).1;
      && rec.honeypotId.Some?
      && after.sessions == d.sessions + [Admit(rec, if topic == SessionHoneypot then Honeypot else Bait, utcNow)]
      && after.sessions[|d.sessions|].classification == Pending
      && after.sessions[|d.sessions|].received == utcNow
  {
  }

  /** Appending a row under a fresh id keeps the ids unique. */
  lemma AppendUnique(ss: seq<Session>, s: Session)
    requires UniqueIds(ss) && !HasId(ss, s.id)
    ensures UniqueIds(ss + [s])
  {
    forall i, j | 0 <= i < j < |ss + [s]| ensures (ss + [s])[i].id != (ss + [s])[j].id {
      if j == |ss| {
        assert (ss + [s])[i] == ss[i];
      }
    }
  }

  /** One admitted session appended and merged with its match, if any:
      ids stay unique and every row is an old one, the new `pending` one or
      a re-labelled bait session. */
  lemma AppendedKeepsStore(ss: seq<Session>, s: Session)
    requires UniqueIds(ss) && !HasId(ss, s.id) && s.classification == Pending
    ensures var stored := ss + [s];
      var r := match MatchOf(s, stored, DefaultTimediff)
               case None => stored
               case Some(m) => if s.kind == Honeypot then Merged(stored, s, m) else Merged(stored, m, s);
      && UniqueIds(r)
      && forall x :: x in r ==> x in ss || (x.id == s.id && x.classification == Pending) || x.classification == BaitSession
  {
    var stored := ss + [s];
    AppendUnique(ss, s);
    var m := MatchOf(s, stored, DefaultTimediff);
    if m.Some? {
      MatchPassesFilters(s, stored, DefaultTimediff, m.value);
      if s.kind == Honeypot {
        MergedSessions(stored, s, m.value);
      } else {
        MergedSessions(stored, m.value, s);
      }
    }
  }

  /** The persister keeps ids unique, and the only labels it writes are
      `pending` for the new session and `bait_session` for a merged one:
      every session afterwards was already stored unchanged, is the admitted
      session, or is a re-labelled bait session. */
  lemma {:induction false} PersistKeepsStore(d: Db, rec: SessionRecord, topic: Topic, ignoreFailedBait: bool, utcNow: int, now: int)
    requires UniqueIds(d.sessions)
    ensures var after := Persist(d, rec, topic, ignoreFailedBait, utcNow, now).1;
      && UniqueIds(after.sessions)
      && after.honeypots == d.honeypots
      && forall x :: x in after.sessions ==>
           x in d.sessions || (x.id == rec.id && x.classification == Pending) || x.classification == BaitSession
  {
    if rec.honeypotId.Some? && rec.honeypotId.value in d.honeypots && !HasId(d.sessions, rec.id) {
      if topic == SessionHoneypot {
        AppendedKeepsStore(d.sessions, Admit(rec, Honeypot, utcNow));
      } else if topic == SessionClient {
        AppendedKeepsStore(d.sessions, Admit(rec, Bait, utcNow));
      }
    }
  }

  /** Whichever side arrives second, the merge keeps the bait session: it is
      stored with label `bait_session`, and the honeypot session of the pair
      no longer resolves. */
  lemma {:induction false} MatchedKeepsBait(d: Db, rec: SessionRecord, topic: Topic, ignoreFailedBait: bool, utcNow: int, now: int, other: string)
    requires UniqueIds(d.sessions)
    requires Persist(d, rec, topic, ignoreFailedBait, utcNow, now).0 == Stored(Some(other))
    ensures var after := Persist(d, rec, topic, ignoreFailedBait, utcNow, now).1;
      var (honeypotId, baitId) := if topic == SessionHoneypot then (rec.id, other) else (other, rec.id);
      && !HasId(after.sessions, honeypotId)
      && exists x :: x in after.sessions && x.id == baitId && x.kind == Bait && x.classification == BaitSession
  {
    var kind := if topic == SessionHoneypot then Honeypot else Bait;
    var s := Admit(rec, kind, utcNow);
    var stored := d.sessions + [s];
    AppendUnique(d.sessions, s);
    var m := MatchOf(s, stored, DefaultTimediff).value;
    MatchPassesFilters(s, stored, DefaultTimediff, m);
    if kind == Honeypot {
      MergedSessions(stored, s, m);
      assert Relabelled(m, s).kind == Bait;
    } else {
      MergedSessions(stored, m, s);
    }
  }

  /** The sessions left by the startup cleanup: the pending ones are
      deleted, and with `clearSessions` all of them. */
  function Cleanup(ss: seq<Session>, clearSessions: bool): (r: seq<Session>)
    ensures forall x :: x in r ==> x in ss && x.classification != Pending
    ensures !clearSessions ==> forall x :: x in ss && x.classification != Pending ==> x in r
    ensures clearSessions ==> r == []
  {
    var kept := WithoutPending(ss);
    if clearSessions then [] else kept
  }

  /** Deleting the pending sessions a second time deletes nothing. */
  lemma {:induction false} WithoutPendingIdempotent(ss: seq<Session>)
    ensures WithoutPending(WithoutPending(ss)) == WithoutPending(ss)
    decreases |ss|
  {
    if ss != [] {
      WithoutPendingIdempotent(ss[1..]);
      if ss[0].classification != Pending {
        var rest := WithoutPending(ss[1..]);
        assert ([ss[0]] + rest)[1..] == rest;
      }
    }
  }

  /** Running the startup cleanup twice is the same as running it once. */
  lemma CleanupIdempotent(ss: seq<Session>, clearSessions: bool)
    ensures Cleanup(Cleanup(ss, clearSessions), clearSessions) == Cleanup(ss, clearSessions)
  {
    WithoutPendingIdempotent(ss);
  }

  /** The startup cleanup of the persister's constructor. */
  method StartupCleanup(db: Store, clearSessions: bool)
    requires db.Valid()
    modifies db
    ensures db.Valid()
    ensures db.sessions == Cleanup(old(db.sessions), clearSessions)
    ensures db.clients == old(db.clients) && db.honeypots == old(db.honeypots)
  {
    db.DeletePending();
    if clearSessions {
      db.DeleteAll();
    }
  }
}
