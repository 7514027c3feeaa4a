/** The records the server keeps about sessions: a session reported by a
    honeypot, or a session reported by a bait client, with its
    authentication attempts and transcript. Timestamps are integers counting
    microseconds, the precision of the payload's timestamp format. */
module Entities {

  datatype Option<T> = None | Some(value: T)

  /** One microsecond is the unit of every timestamp below. */
  const MicrosPerSecond: int := 1000000

  /** The discriminator: which observation point reported the session. */
  datatype Kind = Honeypot | Bait

  /** The rows of the classification table that the core uses. */
  datatype Classification =
    | Pending           // newly ingested, not yet resolved
    | BaitSession       // matched with its counterpart: expected traffic
    | Mitm              // a completed bait session nobody matched
    | CredentialsReuse  // a honeypot session using leaked bait credentials
    | Probe             // a honeypot session without any login attempt
    | Bruteforce        // a honeypot session with never-leaked credentials

  datatype Authentication = Authentication(
    id: string,
    username: string,
    password: string,
    successful: bool,
    timestamp: int)

  datatype TranscriptEntry = TranscriptEntry(timestamp: int, direction: string, data: string)

  /** A stored session. For a honeypot session `clientId` is None and the
      three bait flags are false (the columns exist only on bait sessions). */
  datatype Session = Session(
    id: string,
    kind: Kind,
    protocol: string,
    honeypotId: string,
    timestamp: int,
    received: int,
    classification: Classification,
    authentication: seq<Authentication>,
    transcript: seq<TranscriptEntry>,
    sessionData: Option<string>,
    sourceIp: string,
    sourcePort: int,
    destinationIp: string,
    destinationPort: int,
    didConnect: bool,
    didLogin: bool,
    didComplete: bool,
    clientId: Option<string>)

  /** The session id is the primary key of the session table. */
  predicate UniqueIds(ss: seq<Session>) {
    forall i, j :: 0 <= i < j < |ss| ==> ss[i].id != ss[j].id
  }

  predicate HasId(ss: seq<Session>, id: string) {
    exists k :: 0 <= k < |ss| && ss[k].id == id
  }

  /** The whole database as a value: sessions in query enumeration order,
      the client table (client id to last activity) and the known honeypots. */
  datatype Db = Db(sessions: seq<Session>, clients: map<string, int>, honeypots: set<string>)
}
