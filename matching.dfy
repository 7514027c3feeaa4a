/** What `get_matching_session` looks for: a session of the opposite kind
    inside an inclusive time window around the new session, with the same
    protocol and honeypot, another id, and at least one authentication
    equal on (username, password, successful). Among the qualifying
    sessions, the last one in enumeration order is the match. */
module Matching {
  import opened Entities
  import opened Database

  /** The default half-width of the correlation window, in seconds. */
  const DefaultTimediff: int := 5

  /** `c` lies in [s.timestamp - timediff s, s.timestamp + timediff s], both ends included. */
  predicate InWindow(s: Session, c: Session, timediff: int) {
    s.timestamp - timediff * MicrosPerSecond <= c.timestamp <= s.timestamp + timediff * MicrosPerSecond
  }

  /** The structural filters of the candidate query. */
  predicate IsCandidate(s: Session, c: Session, timediff: int) {
    && c.protocol == s.protocol
    && c.honeypotId == s.honeypotId
    && c.kind != s.kind
    && InWindow(s, c, timediff)
    && c.id != s.id
  }

  /** Equality of two authentications for matching purposes. */
  predicate SameCredential(a: Authentication, b: Authentication) {
    a.username == b.username && a.password == b.password && a.successful == b.successful
  }

  /** Some authentication among the first `n` of `s` agrees with some authentication of `c`. */
  predicate SharedWithin(s: Session, c: Session, n: int) {
    exists i, j :: 0 <= i < n && i < |s.authentication| && 0 <= j < |c.authentication|
      && SameCredential(c.authentication[j], s.authentication[i])
  }

  predicate SharesCredential(s: Session, c: Session) {
    SharedWithin(s, c, |s.authentication|)
  }

  predicate Qualifies(s: Session, c: Session, timediff: int) {
    IsCandidate(s, c, timediff) && SharesCredential(s, c)
  }

  /** The index of the last session of `ss` that qualifies as a match for `s`. */
  function LastMatchIndex(s: Session, ss: seq<Session>, timediff: int): (r: Option<nat>)
    ensures r.Some? ==> r.value < |ss| && Qualifies(s, ss[r.value], timediff)
    ensures r.Some? ==> forall j :: r.value < j < |ss| ==> !Qualifies(s, ss[j], timediff)
    ensures r.None? ==> forall j :: 0 <= j < |ss| ==> !Qualifies(s, ss[j], timediff)
    decreases |ss|
  {
    if ss == [] then None
    else if Qualifies(s, ss[|ss| - 1], timediff) then Some(|ss| - 1)
    else LastMatchIndex(s, ss[..|ss| - 1], timediff)
  }

  /** The session `get_matching_session` returns for `s` over the store `ss`. */
  function MatchOf(s: Session, ss: seq<Session>, timediff: int): Option<Session> {
    match LastMatchIndex(s, ss, timediff)
    case None => None
    case Some(k) => Some(ss[k])
  }

  /** Tie-break: index `k` is chosen exactly when it qualifies and no later session does. */
  lemma LastMatchIndexIsLastQualifying(s: Session, ss: seq<Session>, timediff: int, k: nat)
    requires k < |ss|
    ensures LastMatchIndex(s, ss, timediff) == Some(k)
        <==> Qualifies(s, ss[k], timediff) && forall j :: k < j < |ss| ==> !Qualifies(s, ss[j], timediff)
  {
    var r := LastMatchIndex(s, ss, timediff);
    if Qualifies(s, ss[k], timediff) && forall j :: k < j < |ss| ==> !Qualifies(s, ss[j], timediff) {
      assert r.Some?;
      assert !(r.value > k) && !(r.value < k);
    }
  }

  /** Every returned session passes all structural filters and shares a credential. */
  lemma MatchPassesFilters(s: Session, ss: seq<Session>, timediff: int, m: Session)
    requires MatchOf(s, ss, timediff) == Some(m)
    ensures m in ss
    ensures m.protocol == s.protocol && m.honeypotId == s.honeypotId
    ensures m.kind != s.kind && m.id != s.id
    ensures s.timestamp - timediff * MicrosPerSecond <= m.timestamp <= s.timestamp + timediff * MicrosPerSecond
    ensures exists i, j ::
      && 0 <= i < |s.authentication| && 0 <= j < |m.authentication|
      && m.authentication[j].username == s.authentication[i].username
      && m.authentication[j].password == s.authentication[i].password
      && m.authentication[j].successful == s.authentication[i].successful
  {
  }

  /** No match is found when there is no qualifying session at all. */
  lemma NoMatchIffNoneQualifies(s: Session, ss: seq<Session>, timediff: int)
    ensures MatchOf(s, ss, timediff).None? <==> forall j :: 0 <= j < |ss| ==> !Qualifies(s, ss[j], timediff)
  {
    if MatchOf(s, ss, timediff).Some? {
      var k := LastMatchIndex(s, ss, timediff).value;
      assert Qualifies(s, ss[k], timediff);
    }
  }

  /** A session without authentications is never matched. */
  lemma NoAuthenticationNoMatch(s: Session, ss: seq<Session>, timediff: int)
    requires |s.authentication| == 0
    ensures MatchOf(s, ss, timediff) == None
  {
  }

  /** Both ends of the window count, and one microsecond further does not. */
  lemma WindowIsInclusive(s: Session, c: Session, timediff: int)
    requires timediff >= 0
    ensures c.timestamp == s.timestamp - timediff * MicrosPerSecond ==> InWindow(s, c, timediff)
    ensures c.timestamp == s.timestamp + timediff * MicrosPerSecond ==> InWindow(s, c, timediff)
    ensures c.timestamp == s.timestamp + timediff * MicrosPerSecond + 1 ==> !InWindow(s, c, timediff)
    ensures c.timestamp == s.timestamp - timediff * MicrosPerSecond - 1 ==> !InWindow(s, c, timediff)
  {
  }

  /** Two sessions of the same kind never match, whatever their credentials. */
  lemma SameKindNeverMatches(s: Session, ss: seq<Session>, timediff: int)
    requires forall j :: 0 <= j < |ss| ==> ss[j].kind == s.kind
    ensures MatchOf(s, ss, timediff) == None
  {
  }

  /** Authentications that differ only in the success flag do not agree. */
  lemma SuccessFlagMatters(a: Authentication, b: Authentication)
    requires a.username == b.username && a.password == b.password && a.successful != b.successful
    ensures !SameCredential(a, b)
  {
  }

  /** Extending the enumeration by one session: that session wins if it qualifies. */
  lemma MatchOfExtend(s: Session, ss: seq<Session>, timediff: int, k: nat)
    requires k < |ss|
    ensures MatchOf(s, ss[..k + 1], timediff)
         == if Qualifies(s, ss[k], timediff) then Some(ss[k]) else MatchOf(s, ss[..k], timediff)
  {
    assert ss[..k + 1][..k] == ss[..k];
  }

  /** `get_matching_session`: the candidates are enumerated in store order;
      for each one every authentication of `session` is compared with every
      authentication of the candidate, and an agreeing pair overwrites the
      running match and leaves only the innermost loop. The store is only read. */
  method GetMatchingSession(db: Store, session: Session, timediff: int) returns (m: Option<Session>)
    ensures m == MatchOf(session, db.sessions, timediff)
  {
    var ss := db.sessions;
    m := None;
    var k := 0;
    while k < |ss|
      invariant 0 <= k <= |ss|
      invariant m == MatchOf(session, ss[..k], timediff)
    {
      var candidate := ss[k];
      ghost var before := m;
      if IsCandidate(session, candidate, timediff) {
        var i := 0;
        while i < |session.authentication|
          invariant 0 <= i <= |session.authentication|
          invariant m == if SharedWithin(session, candidate, i) then Some(candidate) else before
        {
          var honeyAuth := session.authentication[i];
          var j := 0;
          while j < |candidate.authentication|
            invariant 0 <= j <= |candidate.authentication|
            invariant forall jj :: 0 <= jj < j ==> !SameCredential(candidate.authentication[jj], honeyAuth)
          {
            if SameCredential(candidate.authentication[j], honeyAuth) {
              m := Some(candidate);
              break;
            }
            j := j + 1;
          }
          i := i + 1;
        }
      }
      MatchOfExtend(session, ss, timediff, k);
      k := k + 1;
    }
    assert ss[..k] == ss;
  }
}
