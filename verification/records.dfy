/** The rows of the bot's four tables (users, giveaways, participants,
    winners) as immutable records, and the store that holds them. */
module Records {
  import opened Wrappers

  /** The values the `status` column takes. */
  datatype Status = Created | Scheduled | Published | Finished

  /** A value read from a Python dict with `.get`: the key may be absent,
      present with `None`, or present with a value. */
  datatype Field<T> = Missing | Null | Value(v: T)

  /** Column defaults of the giveaways table for the two referral
      multipliers, which `create_giveaway` never sets. */
  const DefaultReferralMultiplier: real := 1.5
  const DefaultMaxReferralMultiplier: real := 5.0

  datatype Giveaway = Giveaway(
    id: string,
    name: string,
    description: string,
    adminId: int,
    status: Status,
    prizesCount: int,
    maxParticipants: int,
    /** Channel names decoded from the JSON text column; empty when the
        column is NULL or empty. */
    requiredChannels: seq<string>,
    referralEnabled: bool,
    referralMultiplier: real,
    maxReferralMultiplier: real,
    captchaEnabled: bool,
    buttonText: string,
    showParticipantsCount: bool,
    scheduledPublish: Option<int>,
    createdAt: int,
    publishedAt: Option<int>,
    finishedAt: Option<int>
  )

  datatype Participant = Participant(
    giveawayId: string,
    userId: int,
    username: Option<string>,
    firstName: Option<string>,
    lastName: Option<string>,
    referredBy: Option<int>,
    referralCount: int,
    joinedAt: int
  )

  datatype WinnerRow = WinnerRow(
    giveawayId: string,
    userId: int,
    place: int,
    dataCollected: bool,
    prizeSent: bool,
    selectedAt: int
  )

  datatype User = User(
    username: Option<string>,
    firstName: Option<string>,
    lastName: Option<string>,
    isAdmin: bool,
    languageCode: Option<string>,
    createdAt: int
  )

  /** One drawn winner as the draw hands it on: the participant's user id
      and display fields, and the place won. */
  datatype WinnerEntry = WinnerEntry(
    userId: int,
    username: Option<string>,
    firstName: Option<string>,
    place: int
  )

  /** The whole database. Participant and winner rows are kept in insertion
      order (their AUTOINCREMENT ids); users and giveaways are keyed by their
      primary keys. */
  datatype Db = Db(
    users: map<int, User>,
    giveaways: map<string, Giveaway>,
    participants: seq<Participant>,
    winners: seq<WinnerRow>
  )

  const EmptyDb: Db := Db(map[], map[], [], [])

  /** The elements of `s` that satisfy `f`, in their original order. */
  function Filter<T(!new)>(s: seq<T>, f: T -> bool): (r: seq<T>)
    ensures |r| <= |s|
    ensures forall x :: x in r <==> x in s && f(x)
    ensures forall i :: 0 <= i < |r| ==> f(r[i])
  {
    if |s| == 0 then []
    else if f(s[0]) then [s[0]] + Filter(s[1..], f)
    else Filter(s[1..], f)
  }

  lemma {:induction false} FilterAppend<T(!new)>(a: seq<T>, b: seq<T>, f: T -> bool)
    ensures Filter(a + b, f) == Filter(a, f) + Filter(b, f)
  {
    if |a| > 0 {
      assert (a + b)[1..] == a[1..] + b;
      FilterAppend(a[1..], b, f);
    } else {
      assert a + b == b;
    }
  }

  /** The rows of giveaway `g`, in insertion order. */
  function ParticipantsOf(ps: seq<Participant>, g: string): (r: seq<Participant>)
    ensures forall p :: p in r <==> p in ps && p.giveawayId == g
  {
    Filter(ps, (p: Participant) => p.giveawayId == g)
  }

  /** The UNIQUE(giveaway_id, user_id) constraint of the participants table. */
  ghost predicate UniqueParticipants(ps: seq<Participant>) {
    forall i, j :: 0 <= i < j < |ps| ==>
      ps[i].giveawayId != ps[j].giveawayId || ps[i].userId != ps[j].userId
  }

  /** Rows were inserted with a clock that never went back. */
  ghost predicate JoinOrdered(ps: seq<Participant>) {
    forall i, j :: 0 <= i < j < |ps| ==> ps[i].joinedAt <= ps[j].joinedAt
  }

  /** The user ids occurring in `ps`. */
  function UserIds(ps: seq<Participant>): (r: set<int>)
    ensures forall u :: u in r <==> exists i :: 0 <= i < |ps| && ps[i].userId == u
  {
    set i | 0 <= i < |ps| :: ps[i].userId
  }
}
