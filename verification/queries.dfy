/** The read and batch-write queries of `DatabaseQueries`: the ordered
    participant list, the winners batch, the status update, the pending
    winner lookup, the export's Status column and the integer statistics. */
module Queries {
  import opened Wrappers
  import opened Records
  import Store

  /** Rows sorted by `joined_at`, earliest first. */
  ghost predicate SortedByJoin(ps: seq<Participant>) {
    forall i, j :: 0 <= i < j < |ps| ==> ps[i].joinedAt <= ps[j].joinedAt
  }

  /** Inserts `p` before the first row that joined no earlier than it. */
  function InsertByJoin(p: Participant, s: seq<Participant>): (r: seq<Participant>)
    ensures |r| == |s| + 1
    ensures r[0] == p || (|s| > 0 && r[0] == s[0])
  {
    if |s| == 0 || p.joinedAt <= s[0].joinedAt then [p] + s
    else [s[0]] + InsertByJoin(p, s[1..])
  }

  /** Insertion into sorted rows keeps them sorted. */
  lemma {:induction false} InsertByJoinSorted(p: Participant, s: seq<Participant>)
    requires SortedByJoin(s)
    ensures SortedByJoin(InsertByJoin(p, s))
  {
    if |s| > 0 && p.joinedAt > s[0].joinedAt {
      var rest := InsertByJoin(p, s[1..]);
      InsertByJoinSorted(p, s[1..]);
      var r := [s[0]] + rest;
      assert s[0].joinedAt <= rest[0].joinedAt;
      assert forall j :: 0 < j < |r| ==> r[j] == rest[j - 1];
    }
  }

  /** Insertion adds exactly `p` to the rows. */
  lemma {:induction false} InsertByJoinPermutes(p: Participant, s: seq<Participant>)
    ensures multiset(InsertByJoin(p, s)) == multiset(s) + multiset{p}
  {
    if |s| > 0 && p.joinedAt > s[0].joinedAt {
      InsertByJoinPermutes(p, s[1..]);
      HeadTailMultiset(s);
    }
  }

  /** A stable sort on `joined_at`: insertion sort, each row going before
      the later rows that joined no earlier. */
  function SortByJoin(s: seq<Participant>): (r: seq<Participant>)
    ensures |r| == |s|
  {
    if |s| == 0 then [] else InsertByJoin(s[0], SortByJoin(s[1..]))
  }

  /** The sort's result is in join order. */
  lemma {:induction false} SortByJoinSorted(s: seq<Participant>)
    ensures SortedByJoin(SortByJoin(s))
  {
    if |s| > 0 {
      SortByJoinSorted(s[1..]);
      InsertByJoinSorted(s[0], SortByJoin(s[1..]));
    }
  }

  /** Sorting keeps exactly the rows it was given. */
  lemma {:induction false} SortByJoinPermutes(s: seq<Participant>)
    ensures multiset(SortByJoin(s)) == multiset(s)
  {
    if |s| > 0 {
      var t := SortByJoin(s[1..]);
      SortByJoinPermutes(s[1..]);
      InsertByJoinPermutes(s[0], t);
      HeadTailMultiset(s);
    }
  }

  lemma HeadTailMultiset<T>(s: seq<T>)
    requires |s| > 0
    ensures multiset(s) == multiset(s[1..]) + multiset{s[0]}
  {
    assert s == [s[0]] + s[1..];
  }

  /** `get_participants`: exactly the giveaway's rows, ordered by
      `joined_at` ascending. */
  function GetParticipants(db: Db, g: string): (r: seq<Participant>)
    ensures SortedByJoin(r)
    ensures multiset(r) == multiset(ParticipantsOf(db.participants, g))
    ensures forall p :: p in r <==> p in db.participants && p.giveawayId == g
    ensures |r| == Store.ParticipantsCount(db, g)
  {
    var r := SortByJoin(ParticipantsOf(db.participants, g));
    SortByJoinSorted(ParticipantsOf(db.participants, g));
    SortByJoinPermutes(ParticipantsOf(db.participants, g));
    assert forall p :: p in r <==> p in multiset(r);
    r
  }

  /** Sorting rows that are already in join order changes nothing. */
  lemma {:induction false} SortSortedIsIdentity(s: seq<Participant>)
    requires SortedByJoin(s)
    ensures SortByJoin(s) == s
  {
    if |s| > 0 {
      SortSortedIsIdentity(s[1..]);
    }
  }

  lemma {:induction false} FilterKeepsJoinOrder(ps: seq<Participant>, g: string)
    requires JoinOrdered(ps)
    ensures SortedByJoin(ParticipantsOf(ps, g))
  {
    if |ps| > 0 {
      FilterKeepsJoinOrder(ps[1..], g);
      var rest := ParticipantsOf(ps[1..], g);
      assert forall x :: x in rest ==> x in ps[1..];
    }
  }

  /** When rows were inserted with a clock that never went back,
      `get_participants` returns them in insertion order. */
  lemma GetParticipantsInInsertionOrder(db: Db, g: string)
    requires JoinOrdered(db.participants)
    ensures GetParticipants(db, g) == ParticipantsOf(db.participants, g)
  {
    FilterKeepsJoinOrder(db.participants, g);
    SortSortedIsIdentity(ParticipantsOf(db.participants, g));
  }

  /** The winner row `save_winners` inserts for `w`. */
  function RowFor(g: string, w: WinnerEntry, now: int): WinnerRow {
    WinnerRow(g, w.userId, w.place, false, false, now)
  }

  /** `save_winners`: one row per winner, with its user id and place, in
      list order, all made visible by a single commit. */
  function SaveWinners(db: Db, g: string, ws: seq<WinnerEntry>, now: int): (r: Db)
    ensures |r.winners| == |db.winners| + |ws|
    ensures r.winners[..|db.winners|] == db.winners
    ensures forall i :: 0 <= i < |ws| ==>
      var row := r.winners[|db.winners| + i];
      row.giveawayId == g && row.userId == ws[i].userId && row.place == ws[i].place
      && !row.dataCollected && !row.prizeSent && row.selectedAt == now
    ensures r.users == db.users && r.giveaways == db.giveaways && r.participants == db.participants
  {
    db.(winners := db.winners + seq(|ws|, i requires 0 <= i < |ws| => RowFor(g, ws[i], now)))
  }

  /** `update_giveaway_status`: sets the status and stamps `finished_at`,
      whatever the previous status and whatever status is written. */
  function UpdateGiveawayStatus(db: Db, g: string, st: Status, now: int): (r: Db)
    ensures r.giveaways.Keys == db.giveaways.Keys
    ensures g in db.giveaways ==>
      && r.giveaways[g].status == st && r.giveaways[g].finishedAt == Some(now)
      && forall f :: f != Store.StatusField && f != Store.FinishedAtField ==>
           Store.Agree(db.giveaways[g], r.giveaways[g], f)
    ensures g !in db.giveaways ==> r == db
    ensures forall k :: k in db.giveaways && k != g ==> r.giveaways[k] == db.giveaways[k]
    ensures r.users == db.users && r.participants == db.participants && r.winners == db.winners
  {
    if g in db.giveaways then
      db.(giveaways := db.giveaways[g := db.giveaways[g].(status := st, finishedAt := Some(now))])
    else db
  }

  /** The status update is the generic `update_giveaway` of the two columns
      it writes. */
  lemma StatusUpdateIsGenericUpdate(db: Db, g: string, st: Status, now: int)
    ensures Store.DistinctColumns([Store.SetStatus(st), Store.SetFinishedAt(Some(now))])
    ensures UpdateGiveawayStatus(db, g, st, now)
         == Store.UpdateGiveaway(db, g, [Store.SetStatus(st), Store.SetFinishedAt(Some(now))]).1
  {
    var us := [Store.SetStatus(st), Store.SetFinishedAt(Some(now))];
    if g in db.giveaways {
      var gv := db.giveaways[g];
      var once := Store.Apply(gv, us[0]);
      assert us[1..][1..] == [];
      assert Store.ApplyAll(gv, us) == Store.ApplyAll(once, us[1..]);
      assert Store.ApplyAll(once, us[1..]) == Store.ApplyAll(Store.Apply(once, us[1]), []);
    }
  }

  /** A winner row joined with its giveaway's name. */
  datatype WinnerInfo = WinnerInfo(row: WinnerRow, giveawayName: string)

  /** Rows `get_winner_info` may return for user `u`: uncollected and
      belonging to an existing giveaway (the JOIN). */
  predicate Pending(db: Db, w: WinnerRow, u: int) {
    w.userId == u && !w.dataCollected && w.giveawayId in db.giveaways
  }

  /** The latest pending row among `ws`; ties go to the later row. */
  function LatestPending(db: Db, ws: seq<WinnerRow>, u: int): (r: Option<WinnerRow>)
    ensures r.Some? ==> r.value in ws && Pending(db, r.value, u)
    ensures r.Some? ==> forall w :: w in ws && Pending(db, w, u) ==> w.selectedAt <= r.value.selectedAt
    ensures r.None? <==> forall w :: w in ws ==> !Pending(db, w, u)
  {
    if |ws| == 0 then None
    else
      var last := ws[|ws| - 1];
      var best := LatestPending(db, ws[..|ws| - 1], u);
      assert forall w :: w in ws ==> w in ws[..|ws| - 1] || w == last;
      if !Pending(db, last, u) then best
      else if best.Some? && best.value.selectedAt > last.selectedAt then best
      else Some(last)
  }

  /** `get_winner_info`: the most recently selected uncollected winner row
      of the user, with its giveaway's name, or nothing. */
  function GetWinnerInfo(db: Db, u: int): (r: Option<WinnerInfo>)
    ensures r.None? <==> forall w :: w in db.winners ==> !Pending(db, w, u)
    ensures r.Some? ==>
      && r.value.row in db.winners && Pending(db, r.value.row, u)
      && r.value.giveawayName == db.giveaways[r.value.row.giveawayId].name
      && forall w :: w in db.winners && Pending(db, w, u) ==> w.selectedAt <= r.value.row.selectedAt
  {
    match LatestPending(db, db.winners, u)
    case None => None
    case Some(w) => Some(WinnerInfo(w, db.giveaways[w.giveawayId].name))
  }

  /** One row of `export_participants`. */
  datatype ExportRow = ExportRow(id: int, name: string, username: string, status: string, dateRegister: int, referrals: int)

  /** The export's Status column. */
  function ExportStatus(username: Option<string>): string {
    if username.Some? then "Active" else "No Username"
  }

  /** `export_participants`: one row per participant, in `get_participants`
      order; `Status` is 'Active' exactly when a username is stored (an empty
      one included), and NULL names become empty strings. */
  function ExportParticipants(db: Db, g: string): (r: seq<ExportRow>)
    ensures var ps := GetParticipants(db, g);
      && |r| == |ps|
      && forall i :: 0 <= i < |r| ==>
        && r[i].id == ps[i].userId
        && (r[i].status == "Active" <==> ps[i].username.Some?)
        && (r[i].status == "No Username" <==> ps[i].username.None?)
        && r[i].username == ps[i].username.GetOr("")
        && r[i].name == ps[i].firstName.GetOr("")
        && r[i].referrals == ps[i].referralCount
  {
    var ps := GetParticipants(db, g);
    seq(|ps|, i requires 0 <= i < |ps| =>
      ExportRow(ps[i].userId, ps[i].firstName.GetOr(""), ps[i].username.GetOr(""),
                ExportStatus(ps[i].username), ps[i].joinedAt, ps[i].referralCount))
  }

  /** The integer part of `get_statistics`. */
  datatype Stats = Stats(totalGiveaways: nat, finishedGiveaways: nat, activeGiveaways: int, totalParticipants: nat)

  /** The administrator's giveaways whose status is `finished`. */
  function FinishedOfAdmin(db: Db, a: int): (r: set<string>)
    ensures r <= Store.GiveawaysOfAdmin(db, a)
    ensures forall id :: id in r ==> db.giveaways[id].status == Finished
  {
    set id | id in db.giveaways && db.giveaways[id].adminId == a && db.giveaways[id].status == Finished
  }

  /** The administrator's giveaways that are not finished: created,
      scheduled and published ones alike. */
  function ActiveOfAdmin(db: Db, a: int): set<string> {
    set id | id in db.giveaways && db.giveaways[id].adminId == a && db.giveaways[id].status != Finished
  }

  /** A participant row the JOIN keeps for administrator `a`: its giveaway
      still exists and belongs to `a`. */
  predicate JoinedToAdmin(db: Db, p: Participant, a: int) {
    p.giveawayId in db.giveaways && db.giveaways[p.giveawayId].adminId == a
  }

  /** The indices of the participant rows the JOIN keeps. */
  function AdminRows(db: Db, a: int): set<nat> {
    set i: nat | i < |db.participants| && JoinedToAdmin(db, db.participants[i], a)
  }

  /** `COUNT(DISTINCT p.user_id)` over the kept rows. */
  function ParticipantUsersOfAdmin(db: Db, a: int): set<int> {
    set i | i in AdminRows(db, a) :: db.participants[i].userId
  }

  /** The distinct users among giveaway `g`'s rows. */
  function UsersOf(ps: seq<Participant>, g: string): set<int> {
    set i | 0 <= i < |ps| && ps[i].giveawayId == g :: ps[i].userId
  }

  /** `get_statistics` without the average. */
  function Statistics(db: Db, a: int): (r: Stats)
    ensures r.totalGiveaways == |Store.GiveawaysOfAdmin(db, a)|
    ensures r.finishedGiveaways == |FinishedOfAdmin(db, a)| && r.finishedGiveaways <= r.totalGiveaways
    ensures r.activeGiveaways == |ActiveOfAdmin(db, a)|
    ensures r.totalParticipants == |ParticipantUsersOfAdmin(db, a)|
    ensures r.totalParticipants <= |AdminRows(db, a)|
    ensures UniqueParticipants(db.participants) ==>
      forall g :: g in Store.GiveawaysOfAdmin(db, a) ==> Store.ParticipantsCount(db, g) <= r.totalParticipants
  {
    ActiveIsNotFinished(db, a);
    DistinctNoMoreThanRows(db.participants, AdminRows(db, a));
    EachGiveawayCounted(db, a);
    var total := |Store.GiveawaysOfAdmin(db, a)|;
    var finished := |FinishedOfAdmin(db, a)|;
    Stats(total, finished, total - finished, |ParticipantUsersOfAdmin(db, a)|)
  }

  /** Every giveaway of the administrator is either finished or active,
      never both, so "active" is the total less the finished ones. */
  lemma ActiveIsNotFinished(db: Db, a: int)
    ensures |Store.GiveawaysOfAdmin(db, a)| == |FinishedOfAdmin(db, a)| + |ActiveOfAdmin(db, a)|
  {
    var all := Store.GiveawaysOfAdmin(db, a);
    var fin := FinishedOfAdmin(db, a);
    var rest := ActiveOfAdmin(db, a);
    assert all == rest + fin;
    assert rest !! fin;
  }

  /** Counting distinct users over some rows gives at most one per row. */
  lemma {:induction false} DistinctNoMoreThanRows(ps: seq<Participant>, rows: set<nat>)
    requires forall i :: i in rows ==> i < |ps|
    ensures |set i | i in rows :: ps[i].userId| <= |rows|
    decreases |rows|
  {
    if rows != {} {
      var x :| x in rows;
      var rest := rows - {x};
      DistinctNoMoreThanRows(ps, rest);
      assert (set i | i in rows :: ps[i].userId) == (set i | i in rest :: ps[i].userId) + {ps[x].userId};
    }
  }

  /** The users of a giveaway's rows are those of the first row, if it
      belongs to the giveaway, and those of the rest. */
  lemma UsersOfCons(ps: seq<Participant>, g: string)
    requires |ps| > 0
    ensures UsersOf(ps, g) == (if ps[0].giveawayId == g then {ps[0].userId} else {}) + UsersOf(ps[1..], g)
  {
    var t := ps[1..];
    forall u | u in UsersOf(ps, g)
      ensures u in (if ps[0].giveawayId == g then {ps[0].userId} else {}) + UsersOf(t, g)
    {
      var i :| 0 <= i < |ps| && ps[i].giveawayId == g && ps[i].userId == u;
      if i > 0 {
        assert t[i - 1] == ps[i];
      }
    }
    forall u | u in UsersOf(t, g) ensures u in UsersOf(ps, g) {
      var i :| 0 <= i < |t| && t[i].giveawayId == g && t[i].userId == u;
      assert ps[i + 1] == t[i];
    }
  }

  /** Dropping the first row keeps UNIQUE(giveaway_id, user_id). */
  lemma UniqueTail(ps: seq<Participant>)
    requires |ps| > 0 && UniqueParticipants(ps)
    ensures UniqueParticipants(ps[1..])
  {
    var t := ps[1..];
    forall i, j | 0 <= i < j < |t|
      ensures t[i].giveawayId != t[j].giveawayId || t[i].userId != t[j].userId
    {
      assert t[i] == ps[i + 1] && t[j] == ps[j + 1];
    }
  }

  /** Under UNIQUE(giveaway_id, user_id) the first row's user has no other
      row in the same giveaway. */
  lemma FirstUserFresh(ps: seq<Participant>)
    requires |ps| > 0 && UniqueParticipants(ps)
    ensures ps[0].userId !in UsersOf(ps[1..], ps[0].giveawayId)
  {
  }

  /** Under UNIQUE(giveaway_id, user_id) the rows of one giveaway have
      pairwise different users. */
  lemma {:induction false} UniqueRowsDistinctUsers(ps: seq<Participant>, g: string)
    requires UniqueParticipants(ps)
    ensures |UsersOf(ps, g)| == |ParticipantsOf(ps, g)|
  {
    if |ps| > 0 {
      UniqueTail(ps);
      UniqueRowsDistinctUsers(ps[1..], g);
      UsersOfCons(ps, g);
      if ps[0].giveawayId == g {
        FirstUserFresh(ps);
      }
    }
  }

  /** With UNIQUE(giveaway_id, user_id), each of the administrator's
      giveaways alone has no more participants than the distinct count. */
  lemma EachGiveawayCounted(db: Db, a: int)
    ensures UniqueParticipants(db.participants) ==>
      forall g :: g in Store.GiveawaysOfAdmin(db, a) ==>
        Store.ParticipantsCount(db, g) <= |ParticipantUsersOfAdmin(db, a)|
  {
    if UniqueParticipants(db.participants) {
      var ps := db.participants;
      var all := ParticipantUsersOfAdmin(db, a);
      forall g | g in Store.GiveawaysOfAdmin(db, a)
        ensures Store.ParticipantsCount(db, g) <= |all|
      {
        UniqueRowsDistinctUsers(ps, g);
        var mine := UsersOf(ps, g);
        forall u | u in mine ensures u in all {
          var i :| 0 <= i < |ps| && ps[i].giveawayId == g && ps[i].userId == u;
          assert i in AdminRows(db, a);
        }
        assert all == mine + (all - mine);
      }
    }
  }
}
