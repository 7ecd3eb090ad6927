/** The draw of `GiveawayHandlers.draw_winners`: referral weights, the
    ticket pool, selection of distinct winners without replacement, and the
    orchestration that checks, saves the winners and then finishes the
    giveaway. `random.choice` is an injected oracle. */
module Draw {
  import opened Wrappers
  import opened Records
  import Store
  import Queries

  /** The linear referral bonus before the cap: `1 + r * (multiplier - 1)`. */
  function Bonus(gv: Giveaway, r: int): real {
    1.0 + r as real * (gv.referralMultiplier - 1.0)
  }

  /** With a multiplier of at least 1.0 the bonus is at least 1.0 for a
      positive count and grows with the count. */
  lemma BonusMonotone(gv: Giveaway, r: int, s: int)
    requires gv.referralMultiplier >= 1.0
    requires 0 <= r <= s
    ensures 1.0 <= Bonus(gv, r) <= Bonus(gv, s)
  {
    var m := gv.referralMultiplier - 1.0;
    assert s as real * m - r as real * m == (s - r) as real * m;
    assert 0.0 <= r as real * m;
  }

  /** A participant's referral weight. With the referral system off, or no
      referrals, it is exactly 1.0; otherwise it is the smaller of the linear
      bonus and the cap. */
  function Weight(gv: Giveaway, p: Participant): (w: real)
    ensures !gv.referralEnabled || p.referralCount <= 0 ==> w == 1.0
    ensures gv.referralEnabled && p.referralCount > 0 ==>
      && w <= Bonus(gv, p.referralCount) && w <= gv.maxReferralMultiplier
      && (w == Bonus(gv, p.referralCount) || w == gv.maxReferralMultiplier)
  {
    if gv.referralEnabled && p.referralCount > 0 then
      var bonus := Bonus(gv, p.referralCount);
      if bonus <= gv.maxReferralMultiplier then bonus else gv.maxReferralMultiplier
    else 1.0
  }

  /** With a multiplier and a cap of at least 1.0 every weight is at least
      1.0, never above the cap, and grows with the referral count. */
  lemma WeightBounds(gv: Giveaway, p: Participant, q: Participant)
    requires gv.referralMultiplier >= 1.0 && gv.maxReferralMultiplier >= 1.0
    ensures 1.0 <= Weight(gv, p)
    ensures gv.referralEnabled ==> Weight(gv, p) <= gv.maxReferralMultiplier
    ensures p.referralCount <= q.referralCount ==> Weight(gv, p) <= Weight(gv, q)
  {
    if p.referralCount > 0 {
      BonusMonotone(gv, p.referralCount, p.referralCount);
    }
    if q.referralCount > 0 {
      BonusMonotone(gv, q.referralCount, q.referralCount);
    }
    if 0 < p.referralCount <= q.referralCount {
      BonusMonotone(gv, p.referralCount, q.referralCount);
    }
  }

  /** `int(weight * 100)` tickets; `range` of a negative count is empty. */
  function Tickets(w: real): (t: nat)
    ensures w >= 0.0 ==> t as real <= w * 100.0 < t as real + 1.0
    ensures w <= 0.0 ==> t == 0
  {
    if w * 100.0 < 0.0 then 0 else (w * 100.0).Floor
  }

  function TicketsOf(gv: Giveaway, p: Participant): nat {
    Tickets(Weight(gv, p))
  }

  /** `n` copies of `p`. */
  function Repeat(p: Participant, n: nat): (r: seq<Participant>)
    ensures |r| == n
    ensures forall i :: 0 <= i < n ==> r[i] == p
    ensures forall x :: x in r <==> n > 0 && x == p
  {
    var r := seq(n, _ => p);
    assert n > 0 ==> r[0] == p;
    r
  }

  /** The weighted list: every participant repeated by its ticket count, in
      participant order. */
  function BuildPool(gv: Giveaway, ps: seq<Participant>): (r: seq<Participant>)
    ensures forall x :: x in r <==> x in ps && TicketsOf(gv, x) > 0
  {
    if |ps| == 0 then []
    else
      var rest := BuildPool(gv, ps[1..]);
      var head := Repeat(ps[0], TicketsOf(gv, ps[0]));
      assert forall x :: x in ps <==> x == ps[0] || x in ps[1..];
      head + rest
  }

  /** A participant with no referrals (or with the referral system off) holds
      exactly 100 tickets. */
  lemma PlainWeightIsHundredTickets(gv: Giveaway, p: Participant)
    requires !gv.referralEnabled || p.referralCount <= 0
    ensures TicketsOf(gv, p) == 100
  {
  }

  /** The pool of a concatenation is the concatenation of the pools: the pool
      keeps participant order. */
  lemma {:induction false} PoolAppend(gv: Giveaway, a: seq<Participant>, b: seq<Participant>)
    ensures BuildPool(gv, a + b) == BuildPool(gv, a) + BuildPool(gv, b)
  {
    if |a| > 0 {
      assert (a + b)[1..] == a[1..] + b;
      PoolAppend(gv, a[1..], b);
    } else {
      assert a + b == b;
    }
  }

  /** The number of pool entries that belong to user `u`. */
  function CountUser(pool: seq<Participant>, u: int): nat {
    if |pool| == 0 then 0
    else (if pool[0].userId == u then 1 else 0) + CountUser(pool[1..], u)
  }

  lemma {:induction false} CountUserAppend(a: seq<Participant>, b: seq<Participant>, u: int)
    ensures CountUser(a + b, u) == CountUser(a, u) + CountUser(b, u)
  {
    if |a| > 0 {
      assert (a + b)[1..] == a[1..] + b;
      CountUserAppend(a[1..], b, u);
    } else {
      assert a + b == b;
    }
  }

  lemma {:induction false} CountRepeat(p: Participant, n: nat, u: int)
    ensures CountUser(Repeat(p, n), u) == if p.userId == u then n else 0
  {
    if n > 0 {
      assert Repeat(p, n)[1..] == Repeat(p, n - 1);
      CountRepeat(p, n - 1, u);
    }
  }

  /** No two rows share a user id. */
  ghost predicate DistinctUsers(ps: seq<Participant>) {
    forall i, j :: 0 <= i < j < |ps| ==> ps[i].userId != ps[j].userId
  }

  /** Among participants with distinct user ids, each one's user holds
      exactly that participant's ticket count of pool entries. */
  lemma {:induction false} PoolCount(gv: Giveaway, ps: seq<Participant>, k: nat)
    requires DistinctUsers(ps)
    requires k < |ps|
    ensures CountUser(BuildPool(gv, ps), ps[k].userId) == TicketsOf(gv, ps[k])
  {
    var u := ps[k].userId;
    CountRepeat(ps[0], TicketsOf(gv, ps[0]), u);
    CountUserAppend(Repeat(ps[0], TicketsOf(gv, ps[0])), BuildPool(gv, ps[1..]), u);
    if k == 0 {
      AbsentUserHasNoTickets(gv, ps[1..], u);
    } else {
      PoolCount(gv, ps[1..], k - 1);
    }
  }

  lemma {:induction false} AbsentUserHasNoTickets(gv: Giveaway, ps: seq<Participant>, u: int)
    requires forall i :: 0 <= i < |ps| ==> ps[i].userId != u
    ensures CountUser(BuildPool(gv, ps), u) == 0
  {
    if |ps| > 0 {
      CountRepeat(ps[0], TicketsOf(gv, ps[0]), u);
      CountUserAppend(Repeat(ps[0], TicketsOf(gv, ps[0])), BuildPool(gv, ps[1..]), u);
      AbsentUserHasNoTickets(gv, ps[1..], u);
    }
  }

  /** The injected `random.choice`: on its `k`-th call over a list of `n > 0`
      entries it returns an index below `n`. */
  ghost predicate ValidOracle(pick: (nat, nat) -> nat) {
    forall k: nat, n: nat :: 0 < n ==> pick(k, n) < n
  }

  /** `available_participants`: pool entries whose user has not won yet,
      in pool order. */
  function Eligible(pool: seq<Participant>, used: set<int>): seq<Participant> {
    if |pool| == 0 then []
    else (if pool[0].userId in used then [] else [pool[0]]) + Eligible(pool[1..], used)
  }

  lemma {:induction false} EligibleMembers(pool: seq<Participant>, used: set<int>)
    ensures forall x :: x in Eligible(pool, used) <==> x in pool && x.userId !in used
  {
    if |pool| > 0 {
      EligibleMembers(pool[1..], used);
      assert forall x :: x in pool <==> x == pool[0] || x in pool[1..];
    }
  }

  /** `w` copies the user id and display fields of some pool entry. */
  ghost predicate FromPool(pool: seq<Participant>, w: WinnerEntry) {
    exists k :: 0 <= k < |pool| && pool[k].userId == w.userId
      && pool[k].username == w.username && pool[k].firstName == w.firstName
  }

  /** The users of `ps` that hold at least one ticket. */
  function TicketHolders(gv: Giveaway, ps: seq<Participant>): (r: set<int>)
    ensures forall u :: u in r <==> exists p :: p in ps && p.userId == u && TicketsOf(gv, p) > 0
  {
    set p | p in ps && TicketsOf(gv, p) > 0 :: p.userId
  }

  /** The count of winners `draw_winners` asks for: `range(prizes_count)`
      is empty for a non-positive count. */
  function Places(prizesCount: int): nat {
    if prizesCount < 0 then 0 else prizesCount
  }

  /** The entry `random.choice` returns in the round for place `place + 1`. */
  function Chosen(pool: seq<Participant>, used: set<int>, place: nat, pick: (nat, nat) -> nat): Participant
    requires ValidOracle(pick)
    requires |Eligible(pool, used)| > 0
  {
    var avail := Eligible(pool, used);
    avail[pick(place, |avail|)]
  }

  /** The chosen entry is a pool entry of a user that has not won yet. */
  lemma ChosenIsEligible(pool: seq<Participant>, used: set<int>, place: nat, pick: (nat, nat) -> nat)
    requires ValidOracle(pick)
    requires |Eligible(pool, used)| > 0
    ensures Chosen(pool, used, place, pick) in pool
    ensures Chosen(pool, used, place, pick).userId !in used
  {
    EligibleMembers(pool, used);
  }

  /** The winner entry made from a pool entry for a given place. */
  function EntryOf(p: Participant, place: nat): WinnerEntry {
    WinnerEntry(p.userId, p.username, p.firstName, place)
  }

  /** The selection loop from place `place + 1` on, with `remaining` places
      left and the users in `used` already chosen. */
  function Draws(pool: seq<Participant>, used: set<int>, place: nat, remaining: int, pick: (nat, nat) -> nat): seq<WinnerEntry>
    requires ValidOracle(pick)
    decreases remaining
  {
    if remaining <= 0 || |Eligible(pool, used)| == 0 then []
    else
      var p := Chosen(pool, used, place, pick);
      [EntryOf(p, place + 1)] + Draws(pool, used + {p.userId}, place + 1, remaining - 1, pick)
  }

  /** A winner copies a pool entry, so its user is a user of the pool. */
  lemma FromPoolUser(pool: seq<Participant>, w: WinnerEntry)
    requires FromPool(pool, w)
    ensures w.userId in UserIds(pool)
  {
    var k :| 0 <= k < |pool| && pool[k].userId == w.userId
      && pool[k].username == w.username && pool[k].firstName == w.firstName;
  }

  /** No eligible entry is left exactly when every user of the pool has
      been chosen. */
  lemma NoneEligible(pool: seq<Participant>, used: set<int>)
    ensures |Eligible(pool, used)| == 0 <==> UserIds(pool) <= used
  {
    var avail := Eligible(pool, used);
    EligibleMembers(pool, used);
    if |avail| == 0 {
      forall u | u in UserIds(pool) ensures u in used {
        var k :| 0 <= k < |pool| && pool[k].userId == u;
        assert pool[k] !in avail;
      }
    } else {
      assert avail[0] in pool;
    }
  }

  /** The users of the pool not chosen yet. */
  function Left(pool: seq<Participant>, used: set<int>): set<int> {
    UserIds(pool) - used
  }

  function Min(a: int, b: int): int {
    if a <= b then a else b
  }

  /** A round removes exactly one user from those not chosen yet. */
  lemma LeftShrinks(pool: seq<Participant>, used: set<int>, p: Participant)
    requires p in pool && p.userId !in used
    ensures |Left(pool, used + {p.userId})| == |Left(pool, used)| - 1
  {
    var k :| 0 <= k < |pool| && pool[k] == p;
    assert Left(pool, used + {p.userId}) == Left(pool, used) - {p.userId};
  }

  /** A round with a place left and an eligible entry adds one winner:
      the one `random.choice` returned. */
  lemma DrawsGrows(pool: seq<Participant>, used: set<int>, place: nat, remaining: int, pick: (nat, nat) -> nat, next: nat, rest: int)
    requires ValidOracle(pick)
    requires remaining > 0 && |Eligible(pool, used)| > 0
    requires next == place + 1 && rest == remaining - 1
    ensures var p := Chosen(pool, used, place, pick);
      Draws(pool, used, place, remaining, pick) == [EntryOf(p, next)] + Draws(pool, used + {p.userId}, next, rest, pick)
  {
  }

  /** Winners are users of the pool not chosen before, pairwise distinct,
      with consecutive places, each copying a pool entry of its user. */
  lemma DrawsShape(pool: seq<Participant>, used: set<int>, place: nat, remaining: int, pick: (nat, nat) -> nat)
    requires ValidOracle(pick)
    ensures var r := Draws(pool, used, place, remaining, pick);
      && (forall i :: 0 <= i < |r| ==> r[i].place == place + i + 1)
      && (forall i :: 0 <= i < |r| ==> r[i].userId !in used && FromPool(pool, r[i]))
      && (forall i, j :: 0 <= i < j < |r| ==> r[i].userId != r[j].userId)
  {
    DrawsPlaces(pool, used, place, remaining, pick);
    DrawsFresh(pool, used, place, remaining, pick);
    DrawsDistinct(pool, used, place, remaining, pick);
  }

  /** Places run on from `place` without gaps. */
  lemma {:induction false} DrawsPlaces(pool: seq<Participant>, used: set<int>, place: nat, remaining: int, pick: (nat, nat) -> nat)
    requires ValidOracle(pick)
    ensures var r := Draws(pool, used, place, remaining, pick);
      forall i :: 0 <= i < |r| ==> r[i].place == place + i + 1
    decreases remaining
  {
    if remaining > 0 && |Eligible(pool, used)| > 0 {
      var p := Chosen(pool, used, place, pick);
      var next: nat := place + 1;
      var rem := remaining - 1;
      var u := used + {p.userId};
      DrawsGrows(pool, used, place, remaining, pick, next, rem);
      DrawsPlaces(pool, u, next, rem, pick);
      var r := Draws(pool, used, place, remaining, pick);
      var rest := Draws(pool, u, next, rem, pick);
      assert forall i :: 0 < i < |r| ==> r[i] == rest[i - 1];
    }
  }

  /** Every winner is an entry of the pool whose user was not chosen yet. */
  lemma {:induction false} DrawsFresh(pool: seq<Participant>, used: set<int>, place: nat, remaining: int, pick: (nat, nat) -> nat)
    requires ValidOracle(pick)
    ensures var r := Draws(pool, used, place, remaining, pick);
      forall i :: 0 <= i < |r| ==> r[i].userId !in used && FromPool(pool, r[i])
    decreases remaining
  {
    if remaining > 0 && |Eligible(pool, used)| > 0 {
      var p := Chosen(pool, used, place, pick);
      var next: nat := place + 1;
      var rem := remaining - 1;
      var u := used + {p.userId};
      ChosenIsEligible(pool, used, place, pick);
      var k :| 0 <= k < |pool| && pool[k] == p;
      DrawsGrows(pool, used, place, remaining, pick, next, rem);
      DrawsFresh(pool, u, next, rem, pick);
      var r := Draws(pool, used, place, remaining, pick);
      var rest := Draws(pool, u, next, rem, pick);
      forall i | 0 <= i < |r|
        ensures r[i].userId !in used && FromPool(pool, r[i])
      {
        if i == 0 {
          assert pool[k].userId == r[0].userId;
        } else {
          assert r[i] == rest[i - 1];
        }
      }
    }
  }

  /** No user wins twice. */
  lemma {:induction false} DrawsDistinct(pool: seq<Participant>, used: set<int>, place: nat, remaining: int, pick: (nat, nat) -> nat)
    requires ValidOracle(pick)
    ensures var r := Draws(pool, used, place, remaining, pick);
      forall i, j :: 0 <= i < j < |r| ==> r[i].userId != r[j].userId
    decreases remaining
  {
    if remaining > 0 && |Eligible(pool, used)| > 0 {
      var p := Chosen(pool, used, place, pick);
      var next: nat := place + 1;
      var rem := remaining - 1;
      var u := used + {p.userId};
      DrawsGrows(pool, used, place, remaining, pick, next, rem);
      DrawsDistinct(pool, u, next, rem, pick);
      DrawsFresh(pool, u, next, rem, pick);
      var r := Draws(pool, used, place, remaining, pick);
      var rest := Draws(pool, u, next, rem, pick);
      forall i, j | 0 <= i < j < |r| ensures r[i].userId != r[j].userId {
        assert r[j] == rest[j - 1];
        if i > 0 {
          assert r[i] == rest[i - 1];
        } else {
          assert r[0].userId == p.userId;
        }
      }
    }
  }

  /** Exactly `min(remaining, number of users not chosen yet)` winners are
      drawn: the loop stops early only when every user of the pool has won. */
  lemma {:induction false} DrawCount(pool: seq<Participant>, used: set<int>, place: nat, remaining: int, pick: (nat, nat) -> nat)
    requires ValidOracle(pick)
    ensures |Draws(pool, used, place, remaining, pick)| == Min(Places(remaining), |Left(pool, used)|)
    decreases remaining
  {
    if remaining > 0 && |Eligible(pool, used)| > 0 {
      var p := Chosen(pool, used, place, pick);
      var next: nat := place + 1;
      var rest := remaining - 1;
      var u := used + {p.userId};
      ChosenIsEligible(pool, used, place, pick);
      LeftShrinks(pool, used, p);
      DrawsGrows(pool, used, place, remaining, pick, next, rest);
      DrawCount(pool, u, next, rest, pick);
    } else if remaining > 0 {
      NoneEligible(pool, used);
      assert Left(pool, used) == {};
    }
  }

  /** The loop's step: appending this round's winner to the winners so
      far leaves the same overall draw. */
  lemma DrawnSoFar(pool: seq<Participant>, used: set<int>, place: nat, remaining: int, pick: (nat, nat) -> nat, next: nat, rest: int, winners: seq<WinnerEntry>)
    requires ValidOracle(pick)
    requires remaining > 0 && |Eligible(pool, used)| > 0
    requires next == place + 1 && rest == remaining - 1
    ensures var p := Eligible(pool, used)[pick(place, |Eligible(pool, used)|)];
      winners + Draws(pool, used, place, remaining, pick)
      == (winners + [WinnerEntry(p.userId, p.username, p.firstName, next)]) + Draws(pool, used + {p.userId}, next, rest, pick)
  {
    var p := Chosen(pool, used, place, pick);
    DrawsGrows(pool, used, place, remaining, pick, next, rest);
    var tail := Draws(pool, used + {p.userId}, next, rest, pick);
    assert winners + ([EntryOf(p, next)] + tail) == (winners + [EntryOf(p, next)]) + tail;
  }

  /** The draw from the start: at most one winner per place, places
      1, 2, ... in order, each a distinct user of the pool. */
  lemma DrawsFromStart(pool: seq<Participant>, n: int, pick: (nat, nat) -> nat)
    requires ValidOracle(pick)
    ensures var r := Draws(pool, {}, 0, n, pick);
      && |r| <= Places(n)
      && (forall i :: 0 <= i < |r| ==> r[i].place == i + 1 && r[i].userId in UserIds(pool))
      && (forall i, j :: 0 <= i < j < |r| ==> r[i].userId != r[j].userId)
  {
    var r := Draws(pool, {}, 0, n, pick);
    DrawsShape(pool, {}, 0, n, pick);
    DrawCount(pool, {}, 0, n, pick);
    forall i | 0 <= i < |r| ensures r[i].userId in UserIds(pool) {
      FromPoolUser(pool, r[i]);
    }
  }

  /** The selection loop of `draw_winners` as written, over the already
      built pool: one `random.choice` per place among the entries whose
      user has not won yet, stopping early when none is left. */
  method SelectionLoop(pool: seq<Participant>, prizesCount: int, pick: (nat, nat) -> nat) returns (winners: seq<WinnerEntry>)
    requires ValidOracle(pick)
    ensures winners == Draws(pool, {}, 0, prizesCount, pick)
  {
    winners := [];
    var used: set<int> := {};
    var place: nat := 0;
    var left := prizesCount;
    ghost var total := Draws(pool, {}, 0, prizesCount, pick);
    while place < prizesCount
      invariant left == prizesCount - place
      invariant winners + Draws(pool, used, place, left, pick) == total
    {
      var available := Eligible(pool, used);
      if |available| == 0 {
        DrawsStop(pool, used, place, left, pick);
        break;
      }
      var winner := available[pick(place, |available|)];
      var next: nat := place + 1;
      var rem := left - 1;
      DrawnSoFar(pool, used, place, left, pick, next, rem, winners);
      winners := winners + [WinnerEntry(winner.userId, winner.username, winner.firstName, next)];
      used := used + {winner.userId};
      place := next;
      left := rem;
    }
    DrawsStop(pool, used, place, left, pick);
  }

  /** The winners of the selection loop: at most one per place, places
      1, 2, ... in order, each a distinct user of the pool. */
  method SelectWinners(pool: seq<Participant>, prizesCount: int, pick: (nat, nat) -> nat) returns (winners: seq<WinnerEntry>)
    requires ValidOracle(pick)
    ensures winners == Draws(pool, {}, 0, prizesCount, pick)
    ensures |winners| <= Places(prizesCount)
    ensures forall i :: 0 <= i < |winners| ==> winners[i].place == i + 1 && winners[i].userId in UserIds(pool)
    ensures forall i, j :: 0 <= i < j < |winners| ==> winners[i].userId != winners[j].userId
  {
    winners := SelectionLoop(pool, prizesCount, pick);
    DrawsFromStart(pool, prizesCount, pick);
  }

  /** The draw is over once the places run out or nobody is eligible. */
  lemma DrawsStop(pool: seq<Participant>, used: set<int>, place: nat, remaining: int, pick: (nat, nat) -> nat)
    requires ValidOracle(pick)
    requires remaining <= 0 || |Eligible(pool, used)| == 0
    ensures Draws(pool, used, place, remaining, pick) == []
  {
  }

  /** The outcome of one `draw_winners` call. `Drawn` carries the store as it
      is once the winners are committed and as it is once the giveaway is
      finished; `FinishFailed` carries the committed store when the status
      update then raised. */
  datatype DrawOutcome =
    | NotFound
    | NoParticipants
    | NotEnough(required: int)
    | SaveFailed
    | FinishFailed(winners: seq<WinnerEntry>, saved: Db)
    | Drawn(winners: seq<WinnerEntry>, saved: Db, finished: Db)

  /** `draw_winners` for giveaway `g`. Only existence is checked, not the
      status; the two participant checks come before any draw. `saveFails`
      stands for an exception inside `save_winners`, which commits nothing
      and skips the status update. `statusFails` stands for an exception
      inside `update_giveaway_status`, raised after `save_winners` has
      committed; nothing in `draw_winners` catches either. */
  function DrawWinners(db: Db, g: string, pick: (nat, nat) -> nat, saveFails: bool, statusFails: bool, now: int): (r: DrawOutcome)
    requires ValidOracle(pick)
    ensures r.NotFound? <==> g !in db.giveaways
    ensures r.NoParticipants? <==> g in db.giveaways && Store.ParticipantsCount(db, g) == 0
    ensures r.NotEnough? <==>
      g in db.giveaways && 0 < Store.ParticipantsCount(db, g) < db.giveaways[g].prizesCount
    ensures r.NotEnough? ==> r.required == db.giveaways[g].prizesCount
    ensures r.SaveFailed? <==>
      && g in db.giveaways && 0 < Store.ParticipantsCount(db, g)
      && Store.ParticipantsCount(db, g) >= db.giveaways[g].prizesCount && saveFails
    ensures r.FinishFailed? <==>
      && g in db.giveaways && 0 < Store.ParticipantsCount(db, g)
      && Store.ParticipantsCount(db, g) >= db.giveaways[g].prizesCount && !saveFails && statusFails
  {
    if g !in db.giveaways then NotFound
    else
      var gv := db.giveaways[g];
      var ps := Queries.GetParticipants(db, g);
      if |ps| == 0 then NoParticipants
      else if |ps| < gv.prizesCount then NotEnough(gv.prizesCount)
      else if saveFails then SaveFailed
      else
        var ws := Draws(BuildPool(gv, ps), {}, 0, gv.prizesCount, pick);
        var saved := Queries.SaveWinners(db, g, ws, now);
        if statusFails then FinishFailed(ws, saved)
        else Drawn(ws, saved, Queries.UpdateGiveawayStatus(saved, g, Finished, now))
  }

  /** The users of the pool are participants of the giveaway holding at
      least one ticket. */
  lemma PoolHolders(db: Db, g: string)
    requires g in db.giveaways
    ensures var gv := db.giveaways[g];
      UserIds(BuildPool(gv, Queries.GetParticipants(db, g))) <= TicketHolders(gv, ParticipantsOf(db.participants, g))
  {
    var gv := db.giveaways[g];
    var ps := Queries.GetParticipants(db, g);
    var pool := BuildPool(gv, ps);
    forall u | u in UserIds(pool) ensures u in TicketHolders(gv, ParticipantsOf(db.participants, g)) {
      var k :| 0 <= k < |pool| && pool[k].userId == u;
      assert pool[k] in ps;
    }
  }

  /** A successful draw commits its winners, then finishes the giveaway
      and touches nothing else; the winners fill places 1, 2, ... with
      distinct ticket holders, at most one per prize. */
  lemma DrawnCommits(db: Db, g: string, pick: (nat, nat) -> nat, saveFails: bool, statusFails: bool, now: int)
    requires ValidOracle(pick)
    ensures var r := DrawWinners(db, g, pick, saveFails, statusFails, now);
      r.Drawn? ==>
      && g in db.giveaways
      && r.saved == Queries.SaveWinners(db, g, r.winners, now)
      && r.saved.giveaways == db.giveaways
      && r.finished.winners == r.saved.winners && r.finished.participants == db.participants
      && r.finished.giveaways.Keys == db.giveaways.Keys
      && r.finished.giveaways[g].status == Finished
      && r.finished.giveaways[g].finishedAt == Some(now)
      && (forall k :: k in db.giveaways && k != g ==> r.finished.giveaways[k] == db.giveaways[k])
      && |r.winners| <= Places(db.giveaways[g].prizesCount)
      && (forall i :: 0 <= i < |r.winners| ==> r.winners[i].place == i + 1)
      && (forall i, j :: 0 <= i < j < |r.winners| ==> r.winners[i].userId != r.winners[j].userId)
      && (forall i :: 0 <= i < |r.winners| ==>
            r.winners[i].userId in TicketHolders(db.giveaways[g], ParticipantsOf(db.participants, g)))
  {
    var r := DrawWinners(db, g, pick, saveFails, statusFails, now);
    if r.Drawn? {
      var gv := db.giveaways[g];
      var pool := BuildPool(gv, Queries.GetParticipants(db, g));
      DrawsFromStart(pool, gv.prizesCount, pick);
      PoolHolders(db, g);
    }
  }

  /** The failing outcomes are decided before the oracle is consulted: they
      do not depend on it. */
  lemma ErrorsBeforeAnyDraw(db: Db, g: string, pick1: (nat, nat) -> nat, pick2: (nat, nat) -> nat, saveFails: bool, statusFails: bool, now: int)
    requires ValidOracle(pick1) && ValidOracle(pick2)
    ensures var r := DrawWinners(db, g, pick1, saveFails, statusFails, now);
      !r.Drawn? && !r.FinishFailed? ==> r == DrawWinners(db, g, pick2, saveFails, statusFails, now)
  {
  }

  /** When the status update raises, the winners stay committed and the
      giveaway keeps its row unchanged, so it is not finished by this call;
      drawing it again succeeds on the same checks and appends a second set
      of winner rows after the first, since nothing makes the winners of a
      giveaway unique. */
  lemma FailedFinishAllowsRedraw(db: Db, g: string, pick: (nat, nat) -> nat, pick2: (nat, nat) -> nat, now: int, later: int)
    requires ValidOracle(pick) && ValidOracle(pick2)
    ensures var r := DrawWinners(db, g, pick, false, true, now);
      r.FinishFailed? ==>
        && r.saved == Queries.SaveWinners(db, g, r.winners, now)
        && r.saved.giveaways == db.giveaways
        && var r2 := DrawWinners(r.saved, g, pick2, false, false, later);
           && r2.Drawn?
           && |r2.saved.winners| == |db.winners| + |r.winners| + |r2.winners|
           && r2.saved.winners[..|r.saved.winners|] == r.saved.winners
  {
    var r := DrawWinners(db, g, pick, false, true, now);
    if r.FinishFailed? {
      assert Store.ParticipantsCount(r.saved, g) == Store.ParticipantsCount(db, g);
    }
  }

  lemma {:induction false} DistinctUsersCard(s: seq<Participant>)
    requires DistinctUsers(s)
    ensures |UserIds(s)| == |s|
  {
    if |s| > 0 {
      var init := s[..|s| - 1];
      DistinctUsersCard(init);
      assert UserIds(s) == UserIds(init) + {s[|s| - 1].userId} by {
        forall u | u in UserIds(s) ensures u in UserIds(init) + {s[|s| - 1].userId} {
          var i :| 0 <= i < |s| && s[i].userId == u;
          if i < |s| - 1 { assert init[i].userId == u; }
        }
      }
      assert s[|s| - 1].userId !in UserIds(init);
    }
  }

  lemma {:induction false} UniqueGivesDistinctUsers(ps: seq<Participant>, g: string)
    requires UniqueParticipants(ps)
    ensures DistinctUsers(ParticipantsOf(ps, g))
  {
    if |ps| > 0 {
      UniqueGivesDistinctUsers(ps[1..], g);
      var rest := ParticipantsOf(ps[1..], g);
      forall x | x in rest ensures x.userId != ps[0].userId || ps[0].giveawayId != g {
        var j :| 0 <= j < |ps[1..]| && ps[1..][j] == x;
        assert ps[j + 1] == x;
      }
    }
  }

  /** Every participant holds at least one ticket. */
  ghost predicate AllHaveTickets(gv: Giveaway, ps: seq<Participant>) {
    forall p :: p in ps ==> TicketsOf(gv, p) > 0
  }

  /** When every participant holds a ticket, the pool has exactly the
      participants' users. */
  lemma PoolUsers(gv: Giveaway, ps: seq<Participant>, f: seq<Participant>)
    requires multiset(ps) == multiset(f)
    requires AllHaveTickets(gv, f)
    ensures UserIds(BuildPool(gv, ps)) == UserIds(f)
  {
    var pool := BuildPool(gv, ps);
    forall u | u in UserIds(f) ensures u in UserIds(pool) {
      var i :| 0 <= i < |f| && f[i].userId == u;
      assert f[i] in multiset(ps);
      assert f[i] in pool;
    }
    forall u | u in UserIds(pool) ensures u in UserIds(f) {
      var i :| 0 <= i < |pool| && pool[i].userId == u;
      assert pool[i] in ps;
      assert pool[i] in multiset(ps);
      assert pool[i] in f;
    }
  }

  /** With the UNIQUE constraint in force and every participant holding a
      ticket, a successful draw fills every prize slot. */
  lemma FullDraw(db: Db, g: string, pick: (nat, nat) -> nat, now: int)
    requires ValidOracle(pick)
    requires UniqueParticipants(db.participants)
    requires g in db.giveaways
    requires AllHaveTickets(db.giveaways[g], ParticipantsOf(db.participants, g))
    ensures var r := DrawWinners(db, g, pick, false, false, now);
      r.Drawn? ==> |r.winners| == Places(db.giveaways[g].prizesCount)
  {
    var gv := db.giveaways[g];
    var ps := Queries.GetParticipants(db, g);
    var f := ParticipantsOf(db.participants, g);
    var r := DrawWinners(db, g, pick, false, false, now);
    if r.Drawn? {
      var pool := BuildPool(gv, ps);
      UniqueGivesDistinctUsers(db.participants, g);
      DistinctUsersCard(f);
      PoolUsers(gv, ps, f);
      assert |ps| == |f| by {
        assert |multiset(ps)| == |multiset(f)|;
      }
      DrawCount(pool, {}, 0, gv.prizesCount, pick);
      assert Left(pool, {}) == UserIds(pool);
    }
  }

  /** End-to-end: two prizes, three participants without referrals — two
      distinct winners, places 1 and 2, and the giveaway finished. */
  lemma TwoOfThree(db: Db, g: string, pick: (nat, nat) -> nat, now: int)
    requires ValidOracle(pick)
    requires UniqueParticipants(db.participants)
    requires g in db.giveaways && db.giveaways[g].prizesCount == 2 && !db.giveaways[g].referralEnabled
    requires Store.ParticipantsCount(db, g) == 3
    ensures var r := DrawWinners(db, g, pick, false, false, now);
      && r.Drawn? && |r.winners| == 2
      && r.winners[0].place == 1 && r.winners[1].place == 2
      && r.winners[0].userId != r.winners[1].userId
      && r.finished.giveaways[g].status == Finished
  {
    var gv := db.giveaways[g];
    forall p | p in ParticipantsOf(db.participants, g) ensures TicketsOf(gv, p) > 0 {
      PlainWeightIsHundredTickets(gv, p);
    }
    FullDraw(db, g, pick, now);
    DrawnCommits(db, g, pick, false, false, now);
  }

  /** The delivery report of `notify_winners`. */
  datatype Delivery = Delivery(sent: seq<int>, failed: seq<int>)

  /** `notify_winners`: every winner is tried in order; a failed send (the
      oracle `delivers`, or a vanished giveaway whose name cannot be read) is
      logged and the loop goes on. */
  function NotifyWinners(ws: seq<WinnerEntry>, giveawayExists: bool, delivers: int -> bool): (r: Delivery)
    ensures |r.sent| + |r.failed| == |ws|
    ensures forall i :: 0 <= i < |ws| ==>
      (giveawayExists && delivers(ws[i].userId) ==> ws[i].userId in r.sent)
    ensures forall i :: 0 <= i < |ws| ==>
      (!(giveawayExists && delivers(ws[i].userId)) ==> ws[i].userId in r.failed)
    ensures forall u :: u in r.failed ==> !(giveawayExists && delivers(u))
    ensures forall u :: u in r.sent ==> giveawayExists && delivers(u)
  {
    if |ws| == 0 then Delivery([], [])
    else
      var rest := NotifyWinners(ws[1..], giveawayExists, delivers);
      var u := ws[0].userId;
      assert forall i :: 1 <= i < |ws| ==> ws[i] == ws[1..][i - 1];
      if giveawayExists && delivers(u) then Delivery([u] + rest.sent, rest.failed)
      else Delivery(rest.sent, [u] + rest.failed)
  }
}
