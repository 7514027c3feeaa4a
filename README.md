# Beeswarm session correlation and classification, in Dafny

This project models the part of the beeswarm server that decides what a
reported session is.

Two observation points report sessions:

- **Honeypot sessions** come from decoy services that log the attacker.
- **Bait sessions** come from clients that deliberately leak credentials.

The **session persister** turns each parsed record into a stored session
classified `pending`. It then looks for the counterpart of the other kind:
same protocol, same honeypot, a timestamp within ±5 seconds (both ends
included), another id, and one authentication equal on (username, password,
successful). If several sessions qualify, the last one in enumeration order
wins. A matched pair is merged into the bait session. That session is
relabelled `bait_session` and takes the honeypot session's transcript and
session data. The honeypot session is then deleted. On start-up the
persister deletes every `pending` session, and every session when asked to
clear them all.

The **classifier** is a batch pass over pending sessions older than
`now - delay_seconds`:

- A completed bait session becomes `mitm`.
- A honeypot session becomes `credentials_reuse` when one of its
  (username, password) pairs was used by any bait session.
- Otherwise it becomes `probe` when it has no authentications and
  `bruteforce` when it has some.

The classifier's local `bait_match` is never reset between sessions. The
model reproduces that:

- A session without authentications inherits the previous value.
- When the first processed session has none, the read of the unbound
  variable raises and nothing is committed.

Layout:

- `entities.dfy` holds the records: sessions, authentications, transcript
  entries and classifications. Timestamps are integer microseconds.
- `database.dfy` holds the store. It is a class with a `seq<Session>` in
  query order, a client table and the known honeypots, plus the
  insert/update/delete operations the persister uses. The classifier
  relabels the sessions of the store directly.
- `matching.dfy` holds the correlator: a specification (the last
  qualifying candidate) and the three nested loops of the source, proved
  equal to it.
- `persister.dfy` holds admission, merging and the start-up cleanup.
- `classifier.dfy` holds the two classification passes. The carry-over
  state is modelled explicitly as `Unbound | Bound(found)`.
- `scenarios.dfy` proves what the persister does with two records: the bait
  session three seconds after the honeypot session, seven seconds after it,
  and three seconds before it.

Three points of the persister's behaviour are worth stating plainly:

- A session that finds no match stays `pending`. The honeypot labels
  come later, from the classifier.
- The honeypot lookup runs before the topic is examined. So a record under
  an unknown topic that names an unknown honeypot raises.
- The timestamp format's `%f` field carries microseconds.

## Model

| member | source | states |
|---|---|---|
| Matching.LastMatchIndex | beeswarm/server/db/session_persister.py:158-181 | the index chosen qualifies, and no later session qualifies; None means that no session qualifies |
| Matching.GetMatchingSession | beeswarm/server/db/session_persister.py:145-181 | the three nested loops, with `break` leaving only the innermost one, return exactly the last qualifying candidate in store order; the store is only read |
| Matching.LastMatchIndexIsLastQualifying | beeswarm/server/db/session_persister.py:170-181 | tie-break: index k is the match if and only if it qualifies and no later candidate does |
| Matching.MatchPassesFilters | beeswarm/server/db/session_persister.py:154-178 | a returned session is stored and has the same protocol and honeypot, the other kind, another id and a timestamp in the window; one of its authentications equals one of the session's on (username, password, successful) |
| Matching.NoMatchIffNoneQualifies | beeswarm/server/db/session_persister.py:158-181 | the result is None if and only if no stored session qualifies |
| Matching.NoAuthenticationNoMatch | beeswarm/server/db/session_persister.py:170-181 | a session without authentications never finds a match |
| Matching.WindowIsInclusive | beeswarm/server/db/session_persister.py:154-165 | both ends of the ±timediff window count; one microsecond beyond either end does not |
| Matching.SameKindNeverMatches | beeswarm/server/db/session_persister.py:163 | sessions of the same kind never match, whatever their credentials and timestamps |
| Matching.SuccessFlagMatters | beeswarm/server/db/session_persister.py:174-176 | two authentications that differ only in the success flag do not agree |
| Persister.ExtractAuthEntity | beeswarm/server/db/session_persister.py:137-143 | a missing username or password becomes the empty string; id, flag and time are kept |
| Persister.ExtractAuthentications | beeswarm/server/db/session_persister.py:91-93 | the authentications are the login attempts converted one for one, in payload order |
| Persister.Admit | beeswarm/server/db/session_persister.py:114-124 | an admitted session is `pending`, received at the given time, and carries the record's id, protocol, honeypot, timestamp and authentications; a honeypot session takes the transcript and has every client flag false; a bait session takes the client and did_connect, did_login and did_complete; the addresses and ports are the record's |
| Persister.MergedSessions | beeswarm/server/db/session_persister.py:183-192 | after a merge the bait session is `bait_session` and keeps its id, its transcript and session data are the honeypot session's, the honeypot session is gone, every other session is unchanged, ids stay unique and one session fewer is stored |
| Persister.MergeBaitAndSession | beeswarm/server/db/session_persister.py:183-192 | the store afterwards is the merge of the old store; the clients are unchanged |
| Persister.PersistSession | beeswarm/server/db/session_persister.py:70-135 | outcome and new store are those given by `Persist`: failures and drops leave the store as it was; a stored session is matched and merged with the honeypot side deleted |
| Persister.NothingStoredUnlessStored | beeswarm/server/db/session_persister.py:80-112 | a dropped or failed record changes nothing: no session is added and no client's last activity moves |
| Persister.GateDropsRecord | beeswarm/server/db/session_persister.py:94-112 | with a known honeypot, an incomplete bait record under the ignore flag is dropped, and so is a record under an unknown topic |
| Persister.UnmatchedStaysPending | beeswarm/server/db/session_persister.py:114-139 | without a match the admitted session is appended as `pending` with received time `utcNow` |
| Persister.PersistKeepsStore | beeswarm/server/db/session_persister.py:114-135 | ids stay unique; every session afterwards was already stored, is the new `pending` session or carries `bait_session`: the persister writes no other label |
| Persister.MatchedKeepsBait | beeswarm/server/db/session_persister.py:128-135 | whichever side arrives second, the honeypot session of the pair no longer resolves and the bait session survives as `bait_session` |
| Persister.Cleanup | beeswarm/server/db/session_persister.py:42-49 | no `pending` session survives; without `clear_sessions` every other session does; with it none does |
| Persister.WithoutPendingIdempotent | beeswarm/server/db/session_persister.py:42-44 | deleting the pending sessions a second time deletes nothing |
| Persister.CleanupIdempotent | beeswarm/server/db/session_persister.py:40-49 | running the startup cleanup twice is the same as running it once |
| Persister.StartupCleanup | beeswarm/server/db/session_persister.py:40-49 | the store afterwards holds the cleanup of the old sessions; clients and honeypots are unchanged |
| Database.Store.Add | beeswarm/server/db/session_persister.py:125-126 | the new session is appended under an id not yet taken |
| Database.Store.Update | beeswarm/server/db/session_persister.py:186-190 | the row with the session's id is overwritten and nothing else changes |
| Database.Store.Delete | beeswarm/server/db/session_persister.py:191 | exactly the row with the given id is deleted, in order, and ids stay unique |
| Database.Store.DeletePending | beeswarm/server/db/session_persister.py:43 | exactly the `pending` rows are deleted, in order |
| Database.Store.DeleteAll | beeswarm/server/db/session_persister.py:47 | no session is left |
| Database.Store.TouchClient | beeswarm/server/db/session_persister.py:101-102 | the client's last activity becomes the given time and nothing else changes |
| Database.WithoutPresentId | beeswarm/server/db/session_persister.py:191 | deleting a stored id removes exactly one row and keeps ids unique |
| Scenarios.HoneypotFirst | beeswarm/server/db/session_persister.py:114-130 | a honeypot record on an empty store is stored alone as `pending` and finds no match |
| Scenarios.MatchWithinWindow | beeswarm/server/db/session_persister.py:128-135 | a bait record three seconds after a honeypot record with the same successful login leaves one session: the bait one, labelled `bait_session`, carrying the honeypot transcript; the client's last activity is updated |
| Scenarios.MatchWithinWindowBaitFirst | beeswarm/server/db/session_persister.py:114-135 | a honeypot record three seconds after a bait record with the same successful login is merged into it: one session remains, the bait one, labelled `bait_session`, carrying the honeypot transcript |
| Scenarios.NoMatchOutsideWindow | beeswarm/server/db/session_persister.py:154-165 | the same records seven seconds apart are not matched: both stay stored as `pending` |
| Classifier.LookUpCredentials | beeswarm/server/misc/classifier.py:59-64 | the authentication loop leaves `bait_match` as entered when there are no authentications, and otherwise bound to whether any (username, password) pair was used by a bait session |
| Classifier.MarkMitm | beeswarm/server/misc/classifier.py:44-51 | the first pass labels exactly the old, completed, pending bait sessions `mitm` |
| Classifier.ClassifyHoneypotSessions | beeswarm/server/misc/classifier.py:53-78 | the second pass labels the old pending honeypot sessions from the carried `bait_match`, and reports failure exactly when it reads the variable unbound; a failed run has written no label, so the sessions are as they were |
| Classifier.ClassifySessions | beeswarm/server/misc/classifier.py:32-80 | a committed run leaves the classification of the old store; a run that raises commits nothing |
| Classifier.ClassifyRelabelsOnly | beeswarm/server/misc/classifier.py:44-78 | only classifications change: every session keeps its place, id, kind and authentications |
| Classifier.MitmPassKeepsHoneypotSide | beeswarm/server/misc/classifier.py:44-56 | the mitm pass leaves honeypot sessions and all authentications alone, so the second query sees the same candidates |
| Classifier.CarryBeforeUnbound | beeswarm/server/misc/classifier.py:58-66 | `bait_match` is still unbound at a position exactly when no session processed before it had authentications |
| Classifier.CarryBeforeFrom | beeswarm/server/misc/classifier.py:58-66 | `bait_match` keeps the result of the last session with authentications while the sessions that follow have none |
| Classifier.ClassifyFailsIffFirstHasNoAuthentication | beeswarm/server/misc/classifier.py:58-66 | a run raises exactly when the first honeypot session it processes has no authentications |
| Classifier.ClassifyLabels | beeswarm/server/misc/classifier.py:44-78 | an old completed pending bait session becomes `mitm`; each processed honeypot session ends with exactly one of `credentials_reuse`, `probe`, `bruteforce`; with authentications it is `credentials_reuse` if and only if some (username, password) appears in a bait session, else `bruteforce`; without them it is never `bruteforce`; every other session is unchanged |
| Classifier.ClassifyCarryOver | beeswarm/server/misc/classifier.py:59-78 | a processed session without authentications is `credentials_reuse` or `probe` according to the lookups of the last processed session before it that had authentications |
| Classifier.ClassifyIdempotent | beeswarm/server/misc/classifier.py:44-56 | with the same store and cutoff, a second run changes nothing |

## Left out

- `SessionPersister._run`, the sockets, the poller and `gevent.sleep` are
  left out. They are transport and cooperative scheduling, and the model
  takes one already-decoded record per call.
- JSON decoding and the ISO-8859-1 fallback are left out, along with
  `datetime.strptime` for the record, transcript and authentication
  timestamps. Records arrive parsed, and timestamps are integer
  microseconds. A parse error is not modelled.
- A `username` or `password` present in the payload with a JSON null value
  is not modelled. The source would store None; the model's `Option` has
  only absent and present.
- The transcript loop copies parsed entries one for one. The model assigns
  the parsed sequence directly.
- The configuration request for `ignore_failed_bait_session` becomes the
  boolean parameter `ignoreFailedBait`. Both clocks become parameters:
  `utcNow` for `received` and for the classifier's cutoff, and `now` for a
  client's `last_activity`.
- SQLAlchemy sessions, `commit`, autoflush, `joinedload` and cascades are
  not modelled. Each operation is atomic on the store, and query order is
  store order.
- Object identity and aliasing are not modelled either: the merge finds
  both sessions by id. The deletion of authentication and transcript rows
  is implicit, because they are parts of the session value.
- The primary-key rule on session ids is an assumption.
  `beeswarm/server/db/entities.py` is not part of this model. A record
  whose id is already stored fails at commit, with the store unchanged.
- Lookups that find no row are modelled as failures with the store
  unchanged: an unknown honeypot or client (`.one()`). The `pending`,
  `bait_session`, `mitm`, `credentials_reuse`, `probe` and `bruteforce`
  rows are taken to exist.
- The database's three-valued NULL logic is not covered. The kind is a
  two-valued tag compared with ordinary inequality. A honeypot session's
  discriminator is NULL, and in SQL `discriminator != 'bait_session'`
  excludes NULL rows, so a bait session arriving second would not find its
  honeypot counterpart in the real database. The model finds it.
- A `db_session` handed to `classify_sessions` by its caller, which could
  commit after an exception, is not modelled. A run that raises leaves the
  store as it was.
- Logging, the classifier's `enabled` flag, `stop` and the misspelled
  `__init` are left out. They have no effect on classification.
