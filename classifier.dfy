/** The batch classifier: pending sessions older than a cutoff leave
    `pending`. A completed bait session nobody matched becomes `mitm`; a
    honeypot session becomes `credentials_reuse`, `probe` or `bruteforce`
    according to whether its credentials were ever used by a bait client. */
module Classifier {
  import opened Entities
  import opened Database

  /** The local `bait_match` of `classify_sessions`: unbound until the first
      authentication of any processed session is looked up, then whether
      the last lookup found a bait session. */
  datatype BaitMatch = Unbound | Bound(found: bool)

  /** The cutoff: `now - delay_seconds`, in microseconds. */
  function MinDatetime(utcNow: int, delaySeconds: int): int {
    utcNow - delaySeconds * MicrosPerSecond
  }

  /** The filters of the bait-session query of the first pass. */
  predicate IsMitmCandidate(s: Session, minDatetime: int) {
    s.kind == Bait && s.classification == Pending && s.didComplete && s.received < minDatetime
  }

  /** The sessions after the first pass. */
  function MitmPass(ss: seq<Session>, minDatetime: int): seq<Session> {
    seq(|ss|, k requires 0 <= k < |ss| =>
      if IsMitmCandidate(ss[k], minDatetime) then ss[k].(classification := Mitm) else ss[k])
  }

  /** The filters of the session query of the second pass: honeypot
      sessions (null discriminator) that are pending and old enough. */
  predicate IsHoneypotCandidate(s: Session, minDatetime: int) {
    s.kind == Honeypot && s.timestamp <= minDatetime && s.classification == Pending
  }

  /** The bait-session lookup for one authentication: some bait session has
      an authentication with the same username and password. The success
      flag, the time and the honeypot play no part. */
  predicate Leaked(ss: seq<Session>, a: Authentication) {
    exists k, i :: 0 <= k < |ss| && ss[k].kind == Bait && 0 <= i < |ss[k].authentication|
      && ss[k].authentication[i].username == a.username && ss[k].authentication[i].password == a.password
  }

  /** Some authentication of `s` was leaked by a bait session of `ss`. */
  predicate AnyLeaked(ss: seq<Session>, s: Session) {
    exists i :: 0 <= i < |s.authentication| && Leaked(ss, s.authentication[i])
  }

  /** `bait_match` after the authentication loop of `s`, entered with `bm`:
      a session without authentications leaves it as it was. */
  function AfterAuthLoop(bm: BaitMatch, ss: seq<Session>, s: Session): BaitMatch {
    if |s.authentication| == 0 then bm else Bound(AnyLeaked(ss, s))
  }

  /** `bait_match` when the second pass reaches position `k` of `ss`. */
  ghost function CarryBefore(ss: seq<Session>, minDatetime: int, k: nat): BaitMatch
    requires k <= |ss|
    decreases k
  {
    if k == 0 then Unbound
    else
      var bm := CarryBefore(ss, minDatetime, k - 1);
      if IsHoneypotCandidate(ss[k - 1], minDatetime) then AfterAuthLoop(bm, ss, ss[k - 1]) else bm
  }

  /** The second pass raises at position `k`: it reads `bait_match` there while it is unbound. */
  ghost predicate FailsAt(ss: seq<Session>, minDatetime: int, k: nat)
    requires k < |ss|
  {
    IsHoneypotCandidate(ss[k], minDatetime) && AfterAuthLoop(CarryBefore(ss, minDatetime, k), ss, ss[k]).Unbound?
  }

  /** The label a processed honeypot session gets from `bait_match`. */
  function LabelFor(bm: BaitMatch, s: Session): Classification
    requires bm.Bound?
  {
    if bm.found then CredentialsReuse
    else if |s.authentication| == 0 then Probe
    else Bruteforce
  }

  /** Position `k` of `ss` after the second pass. */
  ghost function ProcessedAt(ss: seq<Session>, minDatetime: int, k: nat): Session
    requires k < |ss| && !FailsAt(ss, minDatetime, k)
  {
    if IsHoneypotCandidate(ss[k], minDatetime)
    then ss[k].(classification := LabelFor(AfterAuthLoop(CarryBefore(ss, minDatetime, k), ss, ss[k]), ss[k]))
    else ss[k]
  }

  /** The second pass: None when it raises, so that nothing is committed. */
  ghost function HoneypotPass(ss: seq<Session>, minDatetime: int): Option<seq<Session>> {
    if exists k :: 0 <= k < |ss| && FailsAt(ss, minDatetime, k) then None
    else Some(seq(|ss|, k requires 0 <= k < |ss| && !FailsAt(ss, minDatetime, k) => ProcessedAt(ss, minDatetime, k)))
  }

  /** `classify_sessions` as one function of the sessions: None when it raises. */
  ghost function Classify(ss: seq<Session>, minDatetime: int): Option<seq<Session>> {
    HoneypotPass(MitmPass(ss, minDatetime), minDatetime)
  }

  /** The lookup only sees kinds and authentications, which the classifier never changes. */
  lemma LeakedUnderRelabel(a: seq<Session>, b: seq<Session>, x: Authentication)
    requires |a| == |b|
    requires forall j :: 0 <= j < |a| ==> a[j].kind == b[j].kind && a[j].authentication == b[j].authentication
    ensures Leaked(a, x) == Leaked(b, x)
  {
    if Leaked(a, x) {
      var k, i :| 0 <= k < |a| && a[k].kind == Bait && 0 <= i < |a[k].authentication|
        && a[k].authentication[i].username == x.username && a[k].authentication[i].password == x.password;
      assert b[k].authentication[i] == a[k].authentication[i];
    }
    if Leaked(b, x) {
      var k, i :| 0 <= k < |b| && b[k].kind == Bait && 0 <= i < |b[k].authentication|
        && b[k].authentication[i].username == x.username && b[k].authentication[i].password == x.password;
      assert a[k].authentication[i] == b[k].authentication[i];
    }
  }

  /** The same for every authentication of a session. */
  lemma AnyLeakedUnderRelabel(a: seq<Session>, b: seq<Session>, s: Session)
    requires |a| == |b|
    requires forall j :: 0 <= j < |a| ==> a[j].kind == b[j].kind && a[j].authentication == b[j].authentication
    ensures AnyLeaked(a, s) == AnyLeaked(b, s)
  {
    forall i | 0 <= i < |s.authentication| ensures Leaked(a, s.authentication[i]) == Leaked(b, s.authentication[i]) {
      LeakedUnderRelabel(a, b, s.authentication[i]);
    }
  }

  /** The authentication loop of one session: each authentication is looked
      up among the bait sessions in turn, and the loop stops at the first
      one found. A session without authentications leaves `bait_match` as
      it was entered. */
  method LookUpCredentials(db: Store, session: Session, entered: BaitMatch) returns (baitMatch: BaitMatch)
    ensures |session.authentication| == 0 ==> baitMatch == entered
    ensures |session.authentication| > 0 ==> baitMatch == Bound(AnyLeaked(db.sessions, session))
  {
    baitMatch := entered;
    var i := 0;
    while i < |session.authentication|
      invariant 0 <= i <= |session.authentication|
      invariant i == 0 ==> baitMatch == entered
      invariant i > 0 ==> baitMatch == Bound(false)
      invariant forall n :: 0 <= n < i ==> !Leaked(db.sessions, session.authentication[n])
    {
      var a := session.authentication[i];
      baitMatch := Bound(Leaked(db.sessions, a));
      if baitMatch.found {
        break;
      }
      i := i + 1;
    }
  }

  /** The first pass, in place. */
  method MarkMitm(db: Store, minDatetime: int)
    modifies db
    ensures db.sessions == MitmPass(old(db.sessions), minDatetime)
    ensures db.clients == old(db.clients) && db.honeypots == old(db.honeypots)
  {
    ghost var original := db.sessions;
    var k := 0;
    while k < |db.sessions|
      invariant 0 <= k <= |original| == |db.sessions|
      invariant forall j :: 0 <= j < k ==> db.sessions[j] == MitmPass(original, minDatetime)[j]
      invariant forall j :: k <= j < |original| ==> db.sessions[j] == original[j]
      invariant db.clients == old(db.clients) && db.honeypots == old(db.honeypots)
    {
      if IsMitmCandidate(db.sessions[k], minDatetime) {
        db.sessions := db.sessions[k := db.sessions[k].(classification := Mitm)];
      }
      k := k + 1;
    }
  }

  /** The second pass, in place; `ok` is false when it raises. It can only
      raise at the first candidate, before any label is written, so then the
      sessions are as they were. */
  method ClassifyHoneypotSessions(db: Store, minDatetime: int) returns (ok: bool)
    modifies db
    ensures ok == HoneypotPass(old(db.sessions), minDatetime).Some?
    ensures ok ==> db.sessions == HoneypotPass(old(db.sessions), minDatetime).value
    ensures !ok ==> db.sessions == old(db.sessions)
    ensures db.clients == old(db.clients) && db.honeypots == old(db.honeypots)
  {
    ghost var original := db.sessions;
    var baitMatch := Unbound;
    var k := 0;
    while k < |db.sessions|
      invariant 0 <= k <= |original| == |db.sessions|
      invariant baitMatch == CarryBefore(original, minDatetime, k)
      invariant forall j :: 0 <= j < k ==> !FailsAt(original, minDatetime, j)
      invariant forall j :: 0 <= j < k ==> db.sessions[j] == ProcessedAt(original, minDatetime, j)
      invariant forall j :: k <= j < |original| ==> db.sessions[j] == original[j]
      invariant db.clients == old(db.clients) && db.honeypots == old(db.honeypots)
    {
      var session := db.sessions[k];
      if IsHoneypotCandidate(session, minDatetime) {
        ghost var entered := baitMatch;
        baitMatch := LookUpCredentials(db, session, baitMatch);
        AnyLeakedUnderRelabel(db.sessions, original, session);
        assert baitMatch == AfterAuthLoop(entered, original, session);
        if baitMatch.Unbound? {
          assert FailsAt(original, minDatetime, k);
          CarryBeforeUnbound(original, minDatetime, k);
          forall j | 0 <= j < k ensures !IsHoneypotCandidate(original[j], minDatetime) {
            CarryBeforeUnbound(original, minDatetime, j);
            assert !FailsAt(original, minDatetime, j);
          }
          assert db.sessions == original;
          return false;
        }
        var newLabel := if baitMatch.found then CredentialsReuse
                        else if |session.authentication| == 0 then Probe
                        else Bruteforce;
        db.sessions := db.sessions[k := session.(classification := newLabel)];
      }
      k := k + 1;
    }
    assert db.sessions == HoneypotPass(original, minDatetime).value;
    ok := true;
  }

  /** `classify_sessions`: the first pass labels old completed pending bait
      sessions `mitm`; the second walks the old pending honeypot sessions and
      labels each from `bait_match`, which is never reset between sessions.
      Reading it unbound raises, and then nothing is committed: `committed`
      is false and the store is as it was. */
  method ClassifySessions(db: Store, delaySeconds: int, utcNow: int) returns (committed: bool)
    requires db.Valid()
    modifies db
    ensures db.Valid()
    ensures var r := Classify(old(db.sessions), MinDatetime(utcNow, delaySeconds));
      committed == r.Some? && db.sessions == if committed then r.value else old(db.sessions)
    ensures db.clients == old(db.clients) && db.honeypots == old(db.honeypots)
  {
    var minDatetime := MinDatetime(utcNow, delaySeconds);
    var original := db.sessions;
    MarkMitm(db, minDatetime);
    committed := ClassifyHoneypotSessions(db, minDatetime);
    if !committed {
      db.sessions := original;
    } else {
      ClassifyRelabelsOnly(original, minDatetime);
      forall i, j | 0 <= i < j < |db.sessions| ensures db.sessions[i].id != db.sessions[j].id {
        assert db.sessions[i].id == original[i].id && db.sessions[j].id == original[j].id;
      }
    }
  }

  /** The classifier changes labels only: every session keeps its place,
      its id, its kind and its authentications. */
  lemma ClassifyRelabelsOnly(ss: seq<Session>, minDatetime: int)
    requires Classify(ss, minDatetime).Some?
    ensures var r := Classify(ss, minDatetime).value;
      |r| == |ss| && forall k :: 0 <= k < |ss| ==> r[k] == ss[k].(classification := r[k].classification)
  {
  }

  /** The first pass touches bait sessions only, and no session's
      authentications: the second pass sees the same candidates and the
      same lookups as on the input. */
  lemma MitmPassKeepsHoneypotSide(ss: seq<Session>, minDatetime: int)
    ensures var a := MitmPass(ss, minDatetime);
      && |a| == |ss|
      && (forall j :: 0 <= j < |ss| ==> a[j].kind == ss[j].kind && a[j].authentication == ss[j].authentication)
      && (forall j :: 0 <= j < |ss| && ss[j].kind == Honeypot ==> a[j] == ss[j])
      && (forall j :: 0 <= j < |ss| ==> IsHoneypotCandidate(a[j], minDatetime) == IsHoneypotCandidate(ss[j], minDatetime))
  {
  }

  /** `bait_match` is still unbound at position `k` exactly when every
      session processed before `k` had no authentications. */
  lemma {:induction false} CarryBeforeUnbound(ss: seq<Session>, minDatetime: int, k: nat)
    requires k <= |ss|
    ensures CarryBefore(ss, minDatetime, k) == Unbound
        <==> forall j :: 0 <= j < k && IsHoneypotCandidate(ss[j], minDatetime) ==> |ss[j].authentication| == 0
    decreases k
  {
    if k > 0 {
      CarryBeforeUnbound(ss, minDatetime, k - 1);
    }
  }

  /** From `p` on, as long as the processed sessions have no
      authentications, `bait_match` keeps the result of the lookups of `p`. */
  lemma {:induction false} CarryBeforeFrom(ss: seq<Session>, minDatetime: int, p: nat, k: nat)
    requires p < k <= |ss|
    requires IsHoneypotCandidate(ss[p], minDatetime) && |ss[p].authentication| > 0
    requires forall j :: p < j < k && IsHoneypotCandidate(ss[j], minDatetime) ==> |ss[j].authentication| == 0
    ensures CarryBefore(ss, minDatetime, k) == Bound(AnyLeaked(ss, ss[p]))
    decreases k
  {
    if k > p + 1 {
      CarryBeforeFrom(ss, minDatetime, p, k - 1);
    }
  }

  /** Some candidate comes first. */
  lemma {:induction false} FirstCandidate(ss: seq<Session>, minDatetime: int, k: nat)
    requires k < |ss| && IsHoneypotCandidate(ss[k], minDatetime)
    ensures exists f ::
      && 0 <= f <= k && IsHoneypotCandidate(ss[f], minDatetime)
      && forall j :: 0 <= j < f ==> !IsHoneypotCandidate(ss[j], minDatetime)
    decreases k
  {
    if exists j :: 0 <= j < k && IsHoneypotCandidate(ss[j], minDatetime) {
      var j :| 0 <= j < k && IsHoneypotCandidate(ss[j], minDatetime);
      FirstCandidate(ss, minDatetime, j);
    }
  }

  /** The run raises, and commits nothing, exactly when the first honeypot
      session it processes has no authentications: `bait_match` is read
      before any lookup bound it. */
  lemma ClassifyFailsIffFirstHasNoAuthentication(ss: seq<Session>, minDatetime: int)
    ensures Classify(ss, minDatetime).None?
        <==> exists k ::
               && 0 <= k < |ss| && IsHoneypotCandidate(ss[k], minDatetime) && |ss[k].authentication| == 0
               && forall j :: 0 <= j < k ==> !IsHoneypotCandidate(ss[j], minDatetime)
  {
    var a := MitmPass(ss, minDatetime);
    MitmPassKeepsHoneypotSide(ss, minDatetime);
    if Classify(ss, minDatetime).None? {
      var k :| 0 <= k < |a| && FailsAt(a, minDatetime, k);
      CarryBeforeUnbound(a, minDatetime, k);
      FirstCandidate(ss, minDatetime, k);
      var f :| 0 <= f <= k && IsHoneypotCandidate(ss[f], minDatetime)
        && forall j :: 0 <= j < f ==> !IsHoneypotCandidate(ss[j], minDatetime);
      assert |ss[f].authentication| == 0;
    } else {
      forall k | 0 <= k < |ss| && IsHoneypotCandidate(ss[k], minDatetime) && |ss[k].authentication| == 0
        ensures exists j :: 0 <= j < k && IsHoneypotCandidate(ss[j], minDatetime)
      {
        assert !FailsAt(a, minDatetime, k);
        CarryBeforeUnbound(a, minDatetime, k);
      }
    }
  }

  /** The labels of a committed run. An old, completed, pending bait session
      becomes `mitm`; every processed honeypot session ends with exactly one
      of `credentials_reuse`, `probe`, `bruteforce`; one with
      authentications is `credentials_reuse` when one of its (username,
      password) pairs was used by any bait session and `bruteforce`
      otherwise; a session without authentications is never `bruteforce`;
      every other session is left as it was. */
  lemma ClassifyLabels(ss: seq<Session>, minDatetime: int)
    requires Classify(ss, minDatetime).Some?
    ensures var r := Classify(ss, minDatetime).value;
      && |r| == |ss|
      && (forall k :: 0 <= k < |ss| && IsMitmCandidate(ss[k], minDatetime) ==> r[k].classification == Mitm)
      && (forall k :: 0 <= k < |ss| && IsHoneypotCandidate(ss[k], minDatetime) ==>
            r[k].classification in {CredentialsReuse, Probe, Bruteforce})
      && (forall k :: 0 <= k < |ss| && IsHoneypotCandidate(ss[k], minDatetime) && |ss[k].authentication| > 0 ==>
            r[k].classification == if AnyLeaked(ss, ss[k]) then CredentialsReuse else Bruteforce)
      && (forall k :: 0 <= k < |ss| && IsHoneypotCandidate(ss[k], minDatetime) && |ss[k].authentication| == 0 ==>
            r[k].classification != Bruteforce)
      && (forall k :: 0 <= k < |ss| && !IsMitmCandidate(ss[k], minDatetime) && !IsHoneypotCandidate(ss[k], minDatetime) ==>
            r[k] == ss[k])
  {
    var a := MitmPass(ss, minDatetime);
    MitmPassKeepsHoneypotSide(ss, minDatetime);
    var r := Classify(ss, minDatetime).value;
    forall k | 0 <= k < |ss| && IsHoneypotCandidate(ss[k], minDatetime) && |ss[k].authentication| > 0
      ensures r[k].classification == if AnyLeaked(ss, ss[k]) then CredentialsReuse else Bruteforce
    {
      AnyLeakedUnderRelabel(a, ss, ss[k]);
    }
  }

  /** The carry-over of `bait_match`: a processed honeypot session without
      authentications takes its label from the lookups of the last processed
      session before it that had authentications — `credentials_reuse` if
      those found a bait session, `probe` otherwise. */
  lemma ClassifyCarryOver(ss: seq<Session>, minDatetime: int, p: nat, k: nat)
    requires Classify(ss, minDatetime).Some?
    requires p < k < |ss|
    requires IsHoneypotCandidate(ss[p], minDatetime) && |ss[p].authentication| > 0
    requires IsHoneypotCandidate(ss[k], minDatetime) && |ss[k].authentication| == 0
    requires forall j :: p < j < k && IsHoneypotCandidate(ss[j], minDatetime) ==> |ss[j].authentication| == 0
    ensures Classify(ss, minDatetime).value[k].classification
        == if AnyLeaked(ss, ss[p]) then CredentialsReuse else Probe
  {
    var a := MitmPass(ss, minDatetime);
    MitmPassKeepsHoneypotSide(ss, minDatetime);
    CarryBeforeFrom(a, minDatetime, p, k);
    AnyLeakedUnderRelabel(a, ss, ss[p]);
  }

  /** With the same store and the same cutoff, a second run changes nothing:
      every session the first run processed has left `pending`. */
  lemma ClassifyIdempotent(ss: seq<Session>, minDatetime: int)
    requires Classify(ss, minDatetime).Some?
    ensures Classify(Classify(ss, minDatetime).value, minDatetime) == Classify(ss, minDatetime)
  {
    var r := Classify(ss, minDatetime).value;
    ClassifyLabels(ss, minDatetime);
    assert forall k :: 0 <= k < |r| ==> !IsMitmCandidate(r[k], minDatetime) && !IsHoneypotCandidate(r[k], minDatetime);
    assert MitmPass(r, minDatetime) == r;
    assert forall k :: 0 <= k < |r| ==> !FailsAt(r, minDatetime, k);
    assert HoneypotPass(r, minDatetime).value == r;
  }
}
