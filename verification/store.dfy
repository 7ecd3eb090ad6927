/** The record-store operations of `DatabaseManager`: users and the admin
    flag, giveaway creation / update / deletion, and participant insertion
    with its referral counter. Every operation is all-or-nothing: it either
    returns the new store or leaves the old one as it was. */
module Store {
  import opened Wrappers
  import opened Records

  /** The user fields the handlers pass to `add_user` / `add_participant`. */
  datatype UserData = UserData(
    userId: int,
    username: Option<string>,
    firstName: Option<string>,
    lastName: Option<string>,
    languageCode: Field<string>
  )

  /** The giveaway fields a caller may pass to `create_giveaway`; `None`
      means the key is absent from the dict. */
  datatype NewGiveaway = NewGiveaway(
    name: string,
    description: Option<string>,
    adminId: int,
    prizesCount: Option<int>,
    maxParticipants: Option<int>,
    referralEnabled: Option<bool>,
    captchaEnabled: Option<bool>,
    buttonText: Option<string>,
    showParticipantsCount: Option<bool>
  )

  /** `is_admin`: a row exists and its flag is set. */
  predicate IsAdmin(db: Db, u: int) {
    u in db.users && db.users[u].isAdmin
  }

  /** The language code `add_user` stores: `'ru'` only when the key is absent. */
  function StoredLanguage(f: Field<string>): Option<string> {
    match f
    case Missing => Some("ru")
    case Null => None
    case Value(v) => Some(v)
  }

  /** The first administrator inserted by `init_database` with
      INSERT OR IGNORE: an existing row is left as it is. */
  function SeedAdmin(db: Db, adminId: int, now: int): (r: Db)
    ensures adminId in r.users
    ensures adminId !in db.users ==> IsAdmin(r, adminId)
    ensures adminId in db.users ==> r == db
    ensures forall u :: u in db.users ==> u in r.users && r.users[u] == db.users[u]
  {
    if adminId in db.users then db
    else db.(users := db.users[adminId := User(Some("admin"), Some("Администратор"), None, true, Some("ru"), now)])
  }

  /** `add_user`: INSERT OR REPLACE of the whole row. The columns it does not
      list fall back to their defaults, so `is_admin` becomes FALSE. */
  function AddUser(db: Db, d: UserData, now: int): (r: Db)
    ensures d.userId in r.users && !IsAdmin(r, d.userId)
    ensures r.users[d.userId].username == d.username
    ensures r.users[d.userId].firstName == d.firstName && r.users[d.userId].lastName == d.lastName
    ensures r.users[d.userId].languageCode == (if d.languageCode.Missing? then Some("ru") else if d.languageCode.Null? then None else Some(d.languageCode.v))
    ensures r.users.Keys == db.users.Keys + {d.userId}
    ensures forall u :: u in db.users && u != d.userId ==> r.users[u] == db.users[u]
    ensures r.giveaways == db.giveaways && r.participants == db.participants && r.winners == db.winners
  {
    db.(users := db.users[d.userId := User(d.username, d.firstName, d.lastName, false, StoredLanguage(d.languageCode), now)])
  }

  /** `add_user` demotes an administrator who registers again. */
  lemma AddUserDemotes(db: Db, d: UserData, now: int)
    requires IsAdmin(db, d.userId)
    ensures !IsAdmin(AddUser(db, d, now), d.userId)
    ensures forall u :: u != d.userId ==> (IsAdmin(AddUser(db, d, now), u) <==> IsAdmin(db, u))
  {
  }

  /** The registration `add_user` evidently intends: the profile columns are
      refreshed but the administrator flag and the creation time survive. */
  function AddUserKeepingRole(db: Db, d: UserData, now: int): (r: Db)
    ensures d.userId in r.users
    ensures forall u :: IsAdmin(r, u) <==> IsAdmin(db, u)
    ensures r.users[d.userId].username == d.username
    ensures r.users[d.userId].firstName == d.firstName && r.users[d.userId].lastName == d.lastName
    ensures r.users.Keys == db.users.Keys + {d.userId}
    ensures forall u :: u in db.users && u != d.userId ==> r.users[u] == db.users[u]
    ensures r.giveaways == db.giveaways && r.participants == db.participants && r.winners == db.winners
  {
    var keep := d.userId in db.users && db.users[d.userId].isAdmin;
    var created := if d.userId in db.users then db.users[d.userId].createdAt else now;
    db.(users := db.users[d.userId := User(d.username, d.firstName, d.lastName, keep, StoredLanguage(d.languageCode), created)])
  }

  /** The ids of the giveaways owned by administrator `a`. */
  function GiveawaysOfAdmin(db: Db, a: int): (r: set<string>)
    ensures forall id :: id in r <==> id in db.giveaways && db.giveaways[id].adminId == a
  {
    set id | id in db.giveaways && db.giveaways[id].adminId == a
  }

  /** `create_giveaway` with the freshly generated id `id`. A clash with an
      existing primary key raises in the source and is `None` here. */
  function CreateGiveaway(db: Db, id: string, d: NewGiveaway, now: int): (r: Option<Db>)
    ensures r.None? <==> id in db.giveaways
    ensures r.Some? ==>
      && r.value.giveaways.Keys == db.giveaways.Keys + {id}
      && (forall k :: k in db.giveaways ==> r.value.giveaways[k] == db.giveaways[k])
      && r.value.users == db.users && r.value.participants == db.participants && r.value.winners == db.winners
    ensures r.Some? ==>
      var gv := r.value.giveaways[id];
      && gv.id == id && gv.name == d.name && gv.adminId == d.adminId
      && gv.status == Created
      && gv.prizesCount == d.prizesCount.GetOr(1)
      && gv.maxParticipants == d.maxParticipants.GetOr(0)
      && gv.referralEnabled == d.referralEnabled.GetOr(false)
      && gv.referralMultiplier == 1.5 && gv.maxReferralMultiplier == 5.0
      && gv.captchaEnabled == d.captchaEnabled.GetOr(false)
      && gv.scheduledPublish.None? && gv.publishedAt.None? && gv.finishedAt.None?
      && gv.requiredChannels == []
  {
    if id in db.giveaways then None
    else
      var gv := Giveaway(
        id, d.name, d.description.GetOr(""), d.adminId, Created,
        d.prizesCount.GetOr(1), d.maxParticipants.GetOr(0), [],
        d.referralEnabled.GetOr(false), DefaultReferralMultiplier, DefaultMaxReferralMultiplier,
        d.captchaEnabled.GetOr(false), d.buttonText.GetOr("Участвовать"),
        d.showParticipantsCount.GetOr(true), None, now, None, None);
      Some(db.(giveaways := db.giveaways[id := gv]))
  }

  /** `is_participating`: some row has this (giveaway, user) pair. */
  predicate IsParticipating(db: Db, g: string, u: int) {
    exists i :: 0 <= i < |db.participants| && db.participants[i].giveawayId == g && db.participants[i].userId == u
  }

  /** `get_participants_count`. */
  function ParticipantsCount(db: Db, g: string): nat {
    |ParticipantsOf(db.participants, g)|
  }

  /** The row an `add_participant` call inserts, before any referral update. */
  function NewRow(g: string, d: UserData, referredBy: Option<int>, now: int): Participant {
    Participant(g, d.userId, d.username, d.firstName, d.lastName, referredBy, 0, now)
  }

  /** Python truthiness of `referred_by`: `None` and `0` are false. */
  predicate Truthy(referredBy: Option<int>) {
    referredBy.Some? && referredBy.value != 0
  }

  /** Whether the referral UPDATE matches row `p`. */
  predicate IsReferrerRow(p: Participant, g: string, referredBy: Option<int>) {
    Truthy(referredBy) && p.giveawayId == g && p.userId == referredBy.value
  }

  /** `referral_count = referral_count + 1` on every row the UPDATE matches. */
  function BumpReferrer(ps: seq<Participant>, g: string, referredBy: Option<int>): (r: seq<Participant>)
    ensures |r| == |ps|
    ensures forall i :: 0 <= i < |ps| ==>
      r[i] == ps[i].(referralCount := ps[i].referralCount + if IsReferrerRow(ps[i], g, referredBy) then 1 else 0)
  {
    if |ps| == 0 then []
    else
      var p := ps[0];
      [p.(referralCount := p.referralCount + if IsReferrerRow(p, g, referredBy) then 1 else 0)]
        + BumpReferrer(ps[1..], g, referredBy)
  }

  /** `add_participant`: the INSERT fails on the UNIQUE(giveaway_id, user_id)
      constraint, and then nothing is committed; otherwise the row is
      appended and the referrer's row in the same giveaway, if any, gains one
      referral. The giveaway itself need not exist (SQLite does not enforce
      the foreign key by default). */
  function AddParticipant(db: Db, g: string, d: UserData, referredBy: Option<int>, now: int): (r: (bool, Db))
    ensures IsParticipating(db, g, d.userId) <==> !r.0
    ensures !r.0 ==> r.1 == db
    ensures r.0 ==>
      && |r.1.participants| == |db.participants| + 1
      && r.1.participants[|db.participants|].userId == d.userId
      && r.1.participants[|db.participants|].giveawayId == g
      && r.1.participants[|db.participants|].referredBy == referredBy
      && r.1.participants[|db.participants|].referralCount ==
           (if Truthy(referredBy) && referredBy.value == d.userId then 1 else 0)
      && (forall i :: 0 <= i < |db.participants| ==>
            r.1.participants[i] == db.participants[i].(referralCount :=
              db.participants[i].referralCount + if IsReferrerRow(db.participants[i], g, referredBy) then 1 else 0))
      && r.1.users == db.users && r.1.giveaways == db.giveaways && r.1.winners == db.winners
  {
    if IsParticipating(db, g, d.userId) then (false, db)
    else
      var ps := BumpReferrer(db.participants + [NewRow(g, d, referredBy, now)], g, referredBy);
      (true, db.(participants := ps))
  }

  /** Per-index updates that keep every row's giveaway keep each giveaway's
      row count. */
  lemma {:induction false} CountKeptBySameGiveaways(a: seq<Participant>, b: seq<Participant>, g: string)
    requires |a| == |b|
    requires forall i :: 0 <= i < |a| ==> a[i].giveawayId == b[i].giveawayId
    ensures |ParticipantsOf(a, g)| == |ParticipantsOf(b, g)|
  {
    if |a| > 0 {
      CountKeptBySameGiveaways(a[1..], b[1..], g);
    }
  }

  /** A successful `add_participant` grows the giveaway's count by exactly
      one, leaves every other giveaway's count alone, and makes the user a
      participant. */
  lemma AddParticipantCount(db: Db, g: string, d: UserData, referredBy: Option<int>, now: int, h: string)
    requires !IsParticipating(db, g, d.userId)
    ensures var r := AddParticipant(db, g, d, referredBy, now).1;
      && ParticipantsCount(r, g) == ParticipantsCount(db, g) + 1
      && (h != g ==> ParticipantsCount(r, h) == ParticipantsCount(db, h))
      && IsParticipating(r, g, d.userId)
  {
    var row := NewRow(g, d, referredBy, now);
    var appended := db.participants + [row];
    var r := AddParticipant(db, g, d, referredBy, now).1;
    CountKeptBySameGiveaways(appended, r.participants, g);
    CountKeptBySameGiveaways(appended, r.participants, h);
    FilterAppend(db.participants, [row], (p: Participant) => p.giveawayId == g);
    FilterAppend(db.participants, [row], (p: Participant) => p.giveawayId == h);
    assert r.participants[|db.participants|].giveawayId == g;
  }

  /** `add_participant` keeps the UNIQUE(giveaway_id, user_id) invariant and
      never lowers a referral counter. */
  lemma AddParticipantKeepsInvariants(db: Db, g: string, d: UserData, referredBy: Option<int>, now: int)
    requires UniqueParticipants(db.participants)
    ensures var r := AddParticipant(db, g, d, referredBy, now).1;
      && UniqueParticipants(r.participants)
      && |r.participants| >= |db.participants|
      && forall i :: 0 <= i < |db.participants| ==>
           r.participants[i].referralCount >= db.participants[i].referralCount
  {
    var res := AddParticipant(db, g, d, referredBy, now);
    if res.0 {
      var r := res.1;
      var n := |db.participants|;
      forall i, j | 0 <= i < j < |r.participants|
        ensures r.participants[i].giveawayId != r.participants[j].giveawayId || r.participants[i].userId != r.participants[j].userId
      {
        if j == n {
          assert db.participants[i].giveawayId != g || db.participants[i].userId != d.userId;
        }
      }
    }
  }

  /** A clock that never goes back keeps the rows ordered by join time. */
  lemma AddParticipantKeepsJoinOrder(db: Db, g: string, d: UserData, referredBy: Option<int>, now: int)
    requires JoinOrdered(db.participants)
    requires forall i :: 0 <= i < |db.participants| ==> db.participants[i].joinedAt <= now
    ensures JoinOrdered(AddParticipant(db, g, d, referredBy, now).1.participants)
  {
  }

  /** The columns `update_giveaway` may be asked to set. */
  datatype FieldName =
    | NameField | DescriptionField | StatusField | PrizesCountField | MaxParticipantsField
    | RequiredChannelsField | ReferralEnabledField | ReferralMultiplierField
    | MaxReferralMultiplierField | CaptchaEnabledField | ButtonTextField
    | ShowParticipantsCountField | ScheduledPublishField | PublishedAtField | FinishedAtField

  /** One `column: value` entry of the `updates` dict. */
  datatype GiveawayUpdate =
    | SetName(name: string)
    | SetDescription(description: string)
    | SetStatus(status: Status)
    | SetPrizesCount(prizesCount: int)
    | SetMaxParticipants(maxParticipants: int)
    | SetRequiredChannels(channels: seq<string>)
    | SetReferralEnabled(referralEnabled: bool)
    | SetReferralMultiplier(multiplier: real)
    | SetMaxReferralMultiplier(maxMultiplier: real)
    | SetCaptchaEnabled(captchaEnabled: bool)
    | SetButtonText(buttonText: string)
    | SetShowParticipantsCount(show: bool)
    | SetScheduledPublish(scheduledPublish: Option<int>)
    | SetPublishedAt(publishedAt: Option<int>)
    | SetFinishedAt(finishedAt: Option<int>)
  {
    function Column(): FieldName {
      match this
      case SetName(_) => NameField
      case SetDescription(_) => DescriptionField
      case SetStatus(_) => StatusField
      case SetPrizesCount(_) => PrizesCountField
      case SetMaxParticipants(_) => MaxParticipantsField
      case SetRequiredChannels(_) => RequiredChannelsField
      case SetReferralEnabled(_) => ReferralEnabledField
      case SetReferralMultiplier(_) => ReferralMultiplierField
      case SetMaxReferralMultiplier(_) => MaxReferralMultiplierField
      case SetCaptchaEnabled(_) => CaptchaEnabledField
      case SetButtonText(_) => ButtonTextField
      case SetShowParticipantsCount(_) => ShowParticipantsCountField
      case SetScheduledPublish(_) => ScheduledPublishField
      case SetPublishedAt(_) => PublishedAtField
      case SetFinishedAt(_) => FinishedAtField
    }
  }

  /** `a` and `b` hold the same value in column `f`. */
  predicate Agree(a: Giveaway, b: Giveaway, f: FieldName) {
    match f
    case NameField => a.name == b.name
    case DescriptionField => a.description == b.description
    case StatusField => a.status == b.status
    case PrizesCountField => a.prizesCount == b.prizesCount
    case MaxParticipantsField => a.maxParticipants == b.maxParticipants
    case RequiredChannelsField => a.requiredChannels == b.requiredChannels
    case ReferralEnabledField => a.referralEnabled == b.referralEnabled
    case ReferralMultiplierField => a.referralMultiplier == b.referralMultiplier
    case MaxReferralMultiplierField => a.maxReferralMultiplier == b.maxReferralMultiplier
    case CaptchaEnabledField => a.captchaEnabled == b.captchaEnabled
    case ButtonTextField => a.buttonText == b.buttonText
    case ShowParticipantsCountField => a.showParticipantsCount == b.showParticipantsCount
    case ScheduledPublishField => a.scheduledPublish == b.scheduledPublish
    case PublishedAtField => a.publishedAt == b.publishedAt
    case FinishedAtField => a.finishedAt == b.finishedAt
  }

  /** Giveaway `gv` holds the value that update `u` writes. */
  predicate Holds(gv: Giveaway, u: GiveawayUpdate) {
    match u
    case SetName(v) => gv.name == v
    case SetDescription(v) => gv.description == v
    case SetStatus(v) => gv.status == v
    case SetPrizesCount(v) => gv.prizesCount == v
    case SetMaxParticipants(v) => gv.maxParticipants == v
    case SetRequiredChannels(v) => gv.requiredChannels == v
    case SetReferralEnabled(v) => gv.referralEnabled == v
    case SetReferralMultiplier(v) => gv.referralMultiplier == v
    case SetMaxReferralMultiplier(v) => gv.maxReferralMultiplier == v
    case SetCaptchaEnabled(v) => gv.captchaEnabled == v
    case SetButtonText(v) => gv.buttonText == v
    case SetShowParticipantsCount(v) => gv.showParticipantsCount == v
    case SetScheduledPublish(v) => gv.scheduledPublish == v
    case SetPublishedAt(v) => gv.publishedAt == v
    case SetFinishedAt(v) => gv.finishedAt == v
  }

  /** Writing one column: that column holds the value, the others agree. */
  function Apply(gv: Giveaway, u: GiveawayUpdate): (r: Giveaway)
    ensures Holds(r, u)
    ensures r.id == gv.id && r.adminId == gv.adminId && r.createdAt == gv.createdAt
  {
    match u
    case SetName(v) => gv.(name := v)
    case SetDescription(v) => gv.(description := v)
    case SetStatus(v) => gv.(status := v)
    case SetPrizesCount(v) => gv.(prizesCount := v)
    case SetMaxParticipants(v) => gv.(maxParticipants := v)
    case SetRequiredChannels(v) => gv.(requiredChannels := v)
    case SetReferralEnabled(v) => gv.(referralEnabled := v)
    case SetReferralMultiplier(v) => gv.(referralMultiplier := v)
    case SetMaxReferralMultiplier(v) => gv.(maxReferralMultiplier := v)
    case SetCaptchaEnabled(v) => gv.(captchaEnabled := v)
    case SetButtonText(v) => gv.(buttonText := v)
    case SetShowParticipantsCount(v) => gv.(showParticipantsCount := v)
    case SetScheduledPublish(v) => gv.(scheduledPublish := v)
    case SetPublishedAt(v) => gv.(publishedAt := v)
    case SetFinishedAt(v) => gv.(finishedAt := v)
  }

  /** Writing one column leaves every other column as it was. */
  lemma ApplyKeepsOthers(gv: Giveaway, u: GiveawayUpdate, f: FieldName)
    requires f != u.Column()
    ensures Agree(gv, Apply(gv, u), f)
  {
  }

  /** The keys of a Python dict are distinct. */
  predicate DistinctColumns(us: seq<GiveawayUpdate>) {
    forall i, j :: 0 <= i < j < |us| ==> us[i].Column() != us[j].Column()
  }

  /** Writing every column of `us`: each written column holds its value and
      every column no update names keeps its old value. */
  function ApplyAll(gv: Giveaway, us: seq<GiveawayUpdate>): (r: Giveaway)
    requires DistinctColumns(us)
    ensures forall i :: 0 <= i < |us| ==> Holds(r, us[i])
    ensures forall f :: (forall i :: 0 <= i < |us| ==> us[i].Column() != f) ==> Agree(gv, r, f)
    ensures r.id == gv.id && r.adminId == gv.adminId && r.createdAt == gv.createdAt
    decreases |us|
  {
    if |us| == 0 then gv
    else
      var mid := Apply(gv, us[0]);
      var tail := us[1..];
      assert forall i :: 0 <= i < |tail| ==> tail[i] == us[i + 1];
      var r := ApplyAll(mid, tail);
      assert Agree(mid, r, us[0].Column()) by {
        assert forall i :: 0 <= i < |tail| ==> tail[i].Column() != us[0].Column();
      }
      HoldsKept(mid, r, us[0]);
      forall f | (forall i :: 0 <= i < |us| ==> us[i].Column() != f)
        ensures Agree(gv, r, f)
      {
        assert us[0].Column() != f;
        ApplyKeepsOthers(gv, us[0], f);
        AgreeTransitive(gv, mid, r, f);
      }
      r
  }

  lemma AgreeTransitive(a: Giveaway, b: Giveaway, c: Giveaway, f: FieldName)
    requires Agree(a, b, f) && Agree(b, c, f)
    ensures Agree(a, c, f)
  {
  }

  lemma HoldsKept(a: Giveaway, b: Giveaway, u: GiveawayUpdate)
    requires Holds(a, u) && Agree(a, b, u.Column())
    ensures Holds(b, u)
  {
  }

  /** `update_giveaway`: an empty dict is refused; otherwise the UPDATE runs
      and reports success, also when no giveaway has id `g`. */
  function UpdateGiveaway(db: Db, g: string, us: seq<GiveawayUpdate>): (r: (bool, Db))
    requires DistinctColumns(us)
    ensures r.0 <==> |us| > 0
    ensures (|us| == 0 || g !in db.giveaways) ==> r.1 == db
    ensures r.1.giveaways.Keys == db.giveaways.Keys
    ensures forall k :: k in db.giveaways && k != g ==> r.1.giveaways[k] == db.giveaways[k]
    ensures g in db.giveaways ==>
      && (forall i :: 0 <= i < |us| ==> Holds(r.1.giveaways[g], us[i]))
      && (forall f :: (forall i :: 0 <= i < |us| ==> us[i].Column() != f) ==> Agree(db.giveaways[g], r.1.giveaways[g], f))
    ensures r.1.users == db.users && r.1.participants == db.participants && r.1.winners == db.winners
  {
    if |us| == 0 then (false, db)
    else if g !in db.giveaways then (true, db)
    else (true, db.(giveaways := db.giveaways[g := ApplyAll(db.giveaways[g], us)]))
  }

  /** `delete_giveaway`: the giveaway, its participant rows and its winner
      rows go; every other row stays, in order. */
  function DeleteGiveaway(db: Db, g: string): (r: (bool, Db))
    ensures r.0
    ensures r.1.giveaways == db.giveaways - {g}
    ensures forall p :: p in r.1.participants <==> p in db.participants && p.giveawayId != g
    ensures forall w :: w in r.1.winners <==> w in db.winners && w.giveawayId != g
    ensures forall h :: h != g ==> ParticipantsOf(r.1.participants, h) == ParticipantsOf(db.participants, h)
    ensures r.1.users == db.users
  {
    var ps := Filter(db.participants, (p: Participant) => p.giveawayId != g);
    var ws := Filter(db.winners, (w: WinnerRow) => w.giveawayId != g);
    forall h | h != g
      ensures ParticipantsOf(ps, h) == ParticipantsOf(db.participants, h)
    {
      FilterOfFilter(db.participants, g, h);
    }
    (true, Db(db.users, db.giveaways - {g}, ps, ws))
  }

  /** Removing giveaway `g`'s rows does not change which rows giveaway `h`
      has. */
  lemma {:induction false} FilterOfFilter(ps: seq<Participant>, g: string, h: string)
    requires h != g
    ensures ParticipantsOf(Filter(ps, (p: Participant) => p.giveawayId != g), h) == ParticipantsOf(ps, h)
  {
    if |ps| > 0 {
      FilterOfFilter(ps[1..], g, h);
    }
  }
}
