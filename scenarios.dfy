/** Two end-to-end runs of the persister on a store that knows one
    honeypot and one client: a honeypot session with one successful login,
    then a bait session with the same login, three seconds later in the
    first run and seven seconds later in the second. */
module Scenarios {
  import opened Entities
  import opened Database
  import opened Matching
  import opened Persister

  /** 10:00:00 on the first day, in microseconds. */
  const T: int := 36000 * MicrosPerSecond

  const Start: Db := Db([], map["client-1" := 0], {"honeypot-1"})

  const Transcript: seq<TranscriptEntry> := [TranscriptEntry(T, "incoming", "ls")]

  /** The honeypot record at T with login (u, p, successful). */
  const HoneypotRecord: SessionRecord := SessionRecord(
    "session-h", T, "ssh", "10.0.0.1", 22, "10.0.0.2", 40000, Some("honeypot-1"),
    Transcript, [LoginAttempt("auth-h", Some("u"), Some("p"), true, T)],
    "", false, false, false)

  /** The bait record with the same login, `offset` microseconds after T. */
  function BaitRecord(offset: int): SessionRecord {
    SessionRecord(
      "session-b", T + offset, "ssh", "10.0.0.1", 22, "10.0.0.3", 40001, Some("honeypot-1"),
      [], [LoginAttempt("auth-b", Some("u"), Some("p"), true, T + offset)],
      "client-1", true, true, true)
  }

  /** The first step of both runs: the honeypot record is stored `pending`. */
  lemma HoneypotFirst()
    ensures Persist(Start, HoneypotRecord, SessionHoneypot, true, T, T)
         == (Stored(None), Db([Admit(HoneypotRecord, Honeypot, T)], Start.clients, Start.honeypots))
  {
    var h := Admit(HoneypotRecord, Honeypot, T);
    assert !HasId([], h.id);
    assert !Qualifies(h, h, DefaultTimediff);
    MatchOfExtend(h, [h], DefaultTimediff, 0);
    assert [h][..1] == [h];
  }

  /** Three seconds apart, the bait session finds the honeypot session. */
  lemma BaitFindsHoneypot(h: Session, b: Session)
    requires h == Admit(HoneypotRecord, Honeypot, T)
    requires b == Admit(BaitRecord(3 * MicrosPerSecond), Bait, T + 1)
    ensures MatchOf(b, [h, b], DefaultTimediff) == Some(h)
  {
    var ss := [h, b];
    assert SameCredential(b.authentication[0], h.authentication[0]);
    assert SharedWithin(b, h, 1);
    assert Qualifies(b, h, DefaultTimediff);
    assert !Qualifies(b, b, DefaultTimediff);
    MatchOfExtend(b, ss, DefaultTimediff, 0);
    MatchOfExtend(b, ss, DefaultTimediff, 1);
    assert ss[..2] == ss && ss[..0] == [];
  }

  /** Merging the pair leaves the re-labelled bait session alone. */
  lemma MergePair(h: Session, b: Session)
    requires h.id != b.id
    ensures Merged([h, b], h, b) == [Relabelled(b, h)]
  {
    var nb := Relabelled(b, h);
    assert Replaced([h, b], nb) == [h, nb];
    assert [h, nb][1..] == [nb];
    assert WithoutId([nb], h.id) == [nb];
  }

  /** Three seconds apart: the bait session survives as `bait_session`,
      carrying the honeypot session's transcript, and the honeypot session
      no longer resolves. */
  lemma MatchWithinWindow()
    ensures var (first, afterHoneypot) := Persist(Start, HoneypotRecord, SessionHoneypot, true, T, T);
      var (second, afterBait) := Persist(afterHoneypot, BaitRecord(3 * MicrosPerSecond), SessionClient, true, T + 1, T + 1);
      && first == Stored(None)
      && second == Stored(Some("session-h"))
      && afterBait.sessions == [afterBait.sessions[0]]
      && afterBait.sessions[0].id == "session-b"
      && afterBait.sessions[0].classification == BaitSession
      && afterBait.sessions[0].transcript == Transcript
      && afterBait.clients["client-1"] == T + 1
  {
    HoneypotFirst();
    var h := Admit(HoneypotRecord, Honeypot, T);
    var b := Admit(BaitRecord(3 * MicrosPerSecond), Bait, T + 1);
    assert !HasId([h], b.id);
    BaitFindsHoneypot(h, b);
    MergePair(h, b);
    var afterHoneypot := Db([h], Start.clients, Start.honeypots);
    assert [h] + [b] == [h, b];
    assert "client-1" in Start.clients && "honeypot-1" in Start.honeypots;
    assert Persist(afterHoneypot, BaitRecord(3 * MicrosPerSecond), SessionClient, true, T + 1, T + 1)
        == (Stored(Some(h.id)), Db([Relabelled(b, h)], Start.clients["client-1" := T + 1], Start.honeypots));
  }

  /** Seven seconds apart: no match, both sessions stay `pending`. */
  lemma NoMatchOutsideWindow()
    ensures var (first, afterHoneypot) := Persist(Start, HoneypotRecord, SessionHoneypot, true, T, T);
      var (second, afterBait) := Persist(afterHoneypot, BaitRecord(7 * MicrosPerSecond), SessionClient, true, T + 1, T + 1);
      && first == Stored(None)
      && second == Stored(None)
      && |afterBait.sessions| == 2
      && afterBait.sessions[0].classification == Pending
      && afterBait.sessions[1].classification == Pending
  {
    HoneypotFirst();
    var h := Admit(HoneypotRecord, Honeypot, T);
    var b := Admit(BaitRecord(7 * MicrosPerSecond), Bait, T + 1);
    var ss := [h, b];
    assert !HasId([h], b.id);
    assert !InWindow(b, h, DefaultTimediff);
    assert !Qualifies(b, h, DefaultTimediff);
    assert !Qualifies(b, b, DefaultTimediff);
    MatchOfExtend(b, ss, DefaultTimediff, 0);
    MatchOfExtend(b, ss, DefaultTimediff, 1);
    assert ss[..2] == ss && ss[..0] == [];
    assert MatchOf(b, ss, DefaultTimediff) == None;
  }

  /** The honeypot record of the reverse run, three seconds after T. */
  const LateHoneypotRecord: SessionRecord := SessionRecord(
    "session-h", T + 3 * MicrosPerSecond, "ssh", "10.0.0.1", 22, "10.0.0.2", 40000, Some("honeypot-1"),
    Transcript, [LoginAttempt("auth-h", Some("u"), Some("p"), true, T + 3 * MicrosPerSecond)],
    "", false, false, false)

  /** The first step of the reverse run: the bait record is stored `pending`
      and its client's last activity moves. */
  lemma BaitFirst()
    ensures Persist(Start, BaitRecord(0), SessionClient, true, T, T)
         == (Stored(None), Db([Admit(BaitRecord(0), Bait, T)], Start.clients["client-1" := T], Start.honeypots))
  {
    var b := Admit(BaitRecord(0), Bait, T);
    assert !HasId([], b.id);
    assert "client-1" in Start.clients && "honeypot-1" in Start.honeypots;
    assert !Qualifies(b, b, DefaultTimediff);
    MatchOfExtend(b, [b], DefaultTimediff, 0);
    assert [b][..1] == [b];
  }

  /** Three seconds apart, the honeypot session finds the bait session. */
  lemma HoneypotFindsBait(b: Session, h: Session)
    requires b == Admit(BaitRecord(0), Bait, T)
    requires h == Admit(LateHoneypotRecord, Honeypot, T + 1)
    ensures MatchOf(h, [b, h], DefaultTimediff) == Some(b)
  {
    var ss := [b, h];
    assert SameCredential(h.authentication[0], b.authentication[0]);
    assert SharedWithin(h, b, 1);
    assert Qualifies(h, b, DefaultTimediff);
    assert !Qualifies(h, h, DefaultTimediff);
    MatchOfExtend(h, ss, DefaultTimediff, 0);
    MatchOfExtend(h, ss, DefaultTimediff, 1);
    assert ss[..2] == ss && ss[..0] == [];
  }

  /** Merging the pair stored bait first leaves the re-labelled bait session alone. */
  lemma MergeReversePair(b: Session, h: Session)
    requires h.id != b.id
    ensures Merged([b, h], h, b) == [Relabelled(b, h)]
  {
    var nb := Relabelled(b, h);
    assert Replaced([b, h], nb) == [nb, h];
    assert [nb, h][1..] == [h];
    assert WithoutId([h], h.id) == [];
  }

  /** The reverse order, three seconds apart: the honeypot session arrives
      second and is merged into the bait session, which survives as
      `bait_session` with the honeypot session's transcript. */
  lemma MatchWithinWindowBaitFirst()
    ensures var (first, afterBait) := Persist(Start, BaitRecord(0), SessionClient, true, T, T);
      var (second, afterHoneypot) := Persist(afterBait, LateHoneypotRecord, SessionHoneypot, true, T + 1, T + 1);
      && first == Stored(None)
      && second == Stored(Some("session-b"))
      && afterHoneypot.sessions == [afterHoneypot.sessions[0]]
      && afterHoneypot.sessions[0].id == "session-b"
      && afterHoneypot.sessions[0].classification == BaitSession
      && afterHoneypot.sessions[0].transcript == Transcript
      && afterHoneypot.clients["client-1"] == T
  {
    BaitFirst();
    var b := Admit(BaitRecord(0), Bait, T);
    var h := Admit(LateHoneypotRecord, Honeypot, T + 1);
    assert !HasId([b], h.id);
    HoneypotFindsBait(b, h);
    MergeReversePair(b, h);
    var afterBait := Db([b], Start.clients["client-1" := T], Start.honeypots);
    assert [b] + [h] == [b, h];
    assert "honeypot-1" in Start.honeypots;
    assert Persist(afterBait, LateHoneypotRecord, SessionHoneypot, true, T + 1, T + 1)
        == (Stored(Some(b.id)), Db([Relabelled(b, h)], afterBait.clients, Start.honeypots));
  }
}
