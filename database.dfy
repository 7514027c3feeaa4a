/** The in-memory stand-in for the relational store both components work
    on. Each method of the persister and the classifier is one atomic
    transaction on it; the order of `sessions` is the order in which a
    query enumerates its rows. */
module Database {
  import opened Entities

  /** The sessions of `ss` whose id is not `id`, in their order: the rows
      left after deleting the row with that primary key. */
  function WithoutId(ss: seq<Session>, id: string): (r: seq<Session>)
    ensures |r| <= |ss|
    ensures forall x :: x in r <==> x in ss && x.id != id
    decreases |ss|
  {
    if ss == [] then []
    else
      assert forall x :: x in ss[1..] ==> x in ss;
      if ss[0].id == id then WithoutId(ss[1..], id)
      else [ss[0]] + WithoutId(ss[1..], id)
  }

  /** The sessions that survive deleting every `pending` row, in their order. */
  function WithoutPending(ss: seq<Session>): (r: seq<Session>)
    ensures |r| <= |ss|
    ensures forall x :: x in r <==> x in ss && x.classification != Pending
    decreases |ss|
  {
    if ss == [] then []
    else
      assert forall x :: x in ss[1..] ==> x in ss;
      if ss[0].classification == Pending then WithoutPending(ss[1..])
      else [ss[0]] + WithoutPending(ss[1..])
  }

  /** `ss` with the row whose primary key is `s.id` overwritten by `s`. */
  function Replaced(ss: seq<Session>, s: Session): (r: seq<Session>)
    ensures |r| == |ss|
    ensures forall k :: 0 <= k < |ss| ==> r[k].id == ss[k].id
    ensures HasId(ss, s.id) ==> s in r
    ensures forall x :: x in r && x != s ==> x in ss && x.id != s.id
  {
    seq(|ss|, k requires 0 <= k < |ss| => if ss[k].id == s.id then s else ss[k])
  }

  class Store {
    var sessions: seq<Session>
    var clients: map<string, int>
    var honeypots: set<string>

    /** The session id is the primary key of the session table. */
    ghost predicate Valid()
      reads this
    {
      UniqueIds(sessions)
    }

    /** The current contents of the store as a value. */
    function Snapshot(): Db
      reads this
    {
      Db(sessions, clients, honeypots)
    }

    constructor (honeypots: set<string>, clients: map<string, int>)
      ensures Valid()
      ensures this.sessions == [] && this.clients == clients && this.honeypots == honeypots
    {
      this.sessions := [];
      this.clients := clients;
      this.honeypots := honeypots;
    }

    /** Inserts a session whose id is not yet taken. */
    method Add(s: Session)
      requires Valid() && !HasId(sessions, s.id)
      modifies this
      ensures Valid()
      ensures sessions == old(sessions) + [s]
      ensures clients == old(clients) && honeypots == old(honeypots)
    {
      sessions := sessions + [s];
    }

    /** Writes back a changed session under its own id. */
    method Update(s: Session)
      requires Valid()
      modifies this
      ensures Valid()
      ensures sessions == Replaced(old(sessions), s)
      ensures clients == old(clients) && honeypots == old(honeypots)
    {
      sessions := Replaced(sessions, s);
    }

    /** Deletes the session with the given id, with its authentications
        and transcript. */
    method Delete(id: string)
      requires Valid()
      modifies this
      ensures Valid()
      ensures sessions == WithoutId(old(sessions), id)
      ensures clients == old(clients) && honeypots == old(honeypots)
    {
      WithoutPresentId(sessions, id);
      sessions := WithoutId(sessions, id);
    }

    /** Deletes every session classified `pending`. */
    method DeletePending()
      requires Valid()
      modifies this
      ensures Valid()
      ensures sessions == WithoutPending(old(sessions))
      ensures clients == old(clients) && honeypots == old(honeypots)
    {
      WithoutPendingUnique(sessions);
      sessions := WithoutPending(sessions);
    }

    /** Deletes every session. */
    method DeleteAll()
      modifies this
      ensures Valid()
      ensures sessions == []
      ensures clients == old(clients) && honeypots == old(honeypots)
    {
      sessions := [];
    }

    /** Sets a client's last activity time. */
    method TouchClient(clientId: string, time: int)
      modifies this
      ensures sessions == old(sessions) && honeypots == old(honeypots)
      ensures clients == old(clients)[clientId := time]
    {
      clients := clients[clientId := time];
    }
  }

  /** The rows after the first of a table with unique ids have unique
      ids, all different from the first row's. */
  lemma UniqueTail(ss: seq<Session>)
    requires UniqueIds(ss) && ss != []
    ensures UniqueIds(ss[1..])
    ensures forall x :: x in ss[1..] ==> x.id != ss[0].id
  {
    forall i, j | 0 <= i < j < |ss[1..]| ensures ss[1..][i].id != ss[1..][j].id {
      assert ss[i + 1] == ss[1..][i] && ss[j + 1] == ss[1..][j];
    }
    forall x | x in ss[1..] ensures x.id != ss[0].id {
      var m :| 0 <= m < |ss[1..]| && ss[1..][m] == x;
      assert ss[m + 1] == x;
    }
  }

  /** Putting a row in front of rows with unique ids that are all different
      from its own keeps the ids unique. */
  lemma UniqueCons(x: Session, rest: seq<Session>)
    requires UniqueIds(rest)
    requires forall y :: y in rest ==> y.id != x.id
    ensures UniqueIds([x] + rest)
  {
    forall i, j | 0 <= i < j < |[x] + rest| ensures ([x] + rest)[i].id != ([x] + rest)[j].id {
      if i == 0 {
        assert ([x] + rest)[j] == rest[j - 1];
        assert rest[j - 1] in rest;
      } else {
        assert ([x] + rest)[i] == rest[i - 1] && ([x] + rest)[j] == rest[j - 1];
      }
    }
  }

  /** A table that does not hold `id` is left as it is by deleting `id`. */
  lemma {:induction false} WithoutAbsentId(ss: seq<Session>, id: string)
    requires !HasId(ss, id)
    ensures WithoutId(ss, id) == ss
    decreases |ss|
  {
    if ss != [] {
      WithoutAbsentId(ss[1..], id);
      assert ss[0].id != id;
      assert ss == [ss[0]] + ss[1..];
    }
  }

  /** Deleting a present primary key removes exactly one row and keeps the
      ids unique. */
  lemma {:induction false} WithoutPresentId(ss: seq<Session>, id: string)
    requires UniqueIds(ss)
    ensures UniqueIds(WithoutId(ss, id))
    ensures HasId(ss, id) ==> |WithoutId(ss, id)| == |ss| - 1
    decreases |ss|
  {
    if ss != [] {
      UniqueTail(ss);
      WithoutPresentId(ss[1..], id);
      var rest := WithoutId(ss[1..], id);
      if ss[0].id == id {
        assert !HasId(ss[1..], id) by {
          forall k | 0 <= k < |ss[1..]| ensures ss[1..][k].id != id {
            assert ss[1..][k] in ss[1..];
          }
        }
        WithoutAbsentId(ss[1..], id);
      } else {
        UniqueCons(ss[0], rest);
        assert HasId(ss, id) ==> HasId(ss[1..], id) by {
          if HasId(ss, id) {
            var k :| 0 <= k < |ss| && ss[k].id == id;
            assert ss[1..][k - 1].id == id;
          }
        }
      }
    }
  }

  /** Deleting the pending rows keeps the ids unique. */
  lemma {:induction false} WithoutPendingUnique(ss: seq<Session>)
    requires UniqueIds(ss)
    ensures UniqueIds(WithoutPending(ss))
    decreases |ss|
  {
    if ss != [] {
      UniqueTail(ss);
      WithoutPendingUnique(ss[1..]);
      if ss[0].classification != Pending {
        UniqueCons(ss[0], WithoutPending(ss[1..]));
      }
    }
  }
}
