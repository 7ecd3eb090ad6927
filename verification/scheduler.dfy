/** `GiveawayScheduler`: delayed publication of giveaways. Every asyncio
    task the scheduler creates is a timer in `timers`, identified by its
    index; `table` is the `scheduled_tasks` dict from giveaway id to the
    timer it currently remembers. Time is an integer clock passed in by the
    caller, and a timer fires when the environment calls `Fire` at or after
    its deadline. */
module Scheduler {
  import opened Wrappers
  import opened Records

  datatype TimerState = Pending | Fired | Cancelled

  /** One `publish_giveaway_delayed` task: the giveaway it publishes and
      the time its sleep ends. */
  datatype Timer = Timer(giveawayId: string, fireAt: int, state: TimerState)

  datatype Sched = Sched(db: Db, timers: seq<Timer>, table: map<string, nat>, running: bool)

  /** Every table entry names an existing timer of its own giveaway. */
  ghost predicate WellFormed(s: Sched) {
    forall g :: g in s.table ==> s.table[g] < |s.timers| && s.timers[s.table[g]].giveawayId == g
  }

  /** A freshly constructed scheduler: no tasks, not running. */
  function Init(db: Db): (s: Sched)
    ensures WellFormed(s) && s.table == map[] && s.timers == [] && !s.running
  {
    Sched(db, [], map[], false)
  }

  /** `r` is `db` with at most giveaway `g`'s status and publication time
      rewritten: the same giveaway ids, every other giveaway and every
      other column of `g` as before, and the users, participants and
      winners untouched. A missing `g` means no change at all. */
  predicate RewritesSchedule(db: Db, r: Db, g: string, st: Status, at: Option<int>) {
    && r.giveaways.Keys == db.giveaways.Keys
    && (g in db.giveaways ==> r.giveaways[g] == db.giveaways[g].(status := st, scheduledPublish := at))
    && (forall k :: k in db.giveaways && k != g ==> r.giveaways[k] == db.giveaways[k])
    && r.users == db.users && r.participants == db.participants && r.winners == db.winners
  }

  /** Giveaway `g` with the status and time columns rewritten; nothing else
      in the store changes. */
  function SetSchedule(db: Db, g: string, st: Status, at: Option<int>): (r: Db)
    requires g in db.giveaways
    ensures RewritesSchedule(db, r, g, st, at)
  {
    db.(giveaways := db.giveaways[g := db.giveaways[g].(status := st, scheduledPublish := at)])
  }

  /** The UPDATE of `publish_giveaway`: status `published`, `published_at`
      now; no row changes when the giveaway is gone. */
  function MarkPublished(db: Db, g: string, now: int): (r: Db)
    ensures r.giveaways.Keys == db.giveaways.Keys
    ensures g in db.giveaways ==>
      r.giveaways[g] == db.giveaways[g].(status := Published, publishedAt := Some(now))
    ensures forall k :: k in db.giveaways && k != g ==> r.giveaways[k] == db.giveaways[k]
    ensures g !in db.giveaways ==> r == db
    ensures r.users == db.users && r.participants == db.participants && r.winners == db.winners
  {
    if g in db.giveaways then
      db.(giveaways := db.giveaways[g := db.giveaways[g].(status := Published, publishedAt := Some(now))])
    else db
  }

  /** `task.cancel()`: a pending task is cancelled; cancelling a finished
      task does nothing. */
  function CancelTimer(timers: seq<Timer>, i: nat): (r: seq<Timer>)
    ensures |r| == |timers|
    ensures forall j :: 0 <= j < |r| ==> r[j].giveawayId == timers[j].giveawayId && r[j].fireAt == timers[j].fireAt
    ensures forall j :: 0 <= j < |r| && j != i ==> r[j] == timers[j]
    ensures i < |r| ==> r[i].state != Pending
    ensures i < |r| && timers[i].state != Pending ==> r[i] == timers[i]
  {
    if i < |timers| && timers[i].state == Pending then timers[i := timers[i].(state := Cancelled)]
    else timers
  }

  /** Creates the task for `g` when its deadline is in the future and
      remembers it under `g`, overwriting the entry without cancelling the
      task that was remembered before. */
  function Arm(s: Sched, g: string, t: int, now: int): (r: Sched)
    ensures r.db == s.db && r.running == s.running
    ensures t <= now ==> r == s
    ensures t > now ==>
      && r.timers == s.timers + [Timer(g, t, Pending)]
      && r.table == s.table[g := |s.timers|]
    ensures WellFormed(s) ==> WellFormed(r)
  {
    if t > now then s.(timers := s.timers + [Timer(g, t, Pending)], table := s.table[g := |s.timers|])
    else s
  }

  /** A giveaway `load_scheduled_giveaways` restores: scheduled, with a
      publication time still ahead. */
  predicate Due(db: Db, g: string, now: int) {
    && g in db.giveaways
    && db.giveaways[g].status == Scheduled
    && db.giveaways[g].scheduledPublish.Some?
    && db.giveaways[g].scheduledPublish.value > now
  }

  /** `load_scheduled_giveaways` over the ids the SELECT returns, in order. */
  function Load(s: Sched, rows: seq<string>, now: int): (r: Sched)
    ensures r.db == s.db && r.running == s.running
    ensures forall g :: g in r.table <==> g in s.table || (g in rows && Due(s.db, g, now))
    ensures forall g :: g in r.table && g !in rows ==> r.table[g] == s.table[g]
    decreases |rows|
  {
    if |rows| == 0 then s
    else
      var g := rows[0];
      var next := if Due(s.db, g, now) then Arm(s, g, s.db.giveaways[g].scheduledPublish.value, now) else s;
      assert forall x :: x in rows <==> x == g || x in rows[1..];
      Load(next, rows[1..], now)
  }

  /** Restoring keeps every table entry pointing at a timer of its own
      giveaway. */
  lemma {:induction false} LoadWellFormed(s: Sched, rows: seq<string>, now: int)
    ensures WellFormed(s) ==> WellFormed(Load(s, rows, now))
    decreases |rows|
  {
    if |rows| > 0 {
      var g := rows[0];
      var next := if Due(s.db, g, now) then Arm(s, g, s.db.giveaways[g].scheduledPublish.value, now) else s;
      LoadWellFormed(next, rows[1..], now);
    }
  }

  /** `start`: the scheduler runs and restores the due giveaways. */
  function Start(s: Sched, rows: seq<string>, now: int): (r: Sched)
    ensures r.running && r.db == s.db
    ensures forall g :: g in r.table <==> g in s.table || (g in rows && Due(s.db, g, now))
    ensures WellFormed(s) ==> WellFormed(r)
  {
    LoadWellFormed(s.(running := true), rows, now);
    Load(s.(running := true), rows, now)
  }

  /** Started afresh over a SELECT that lists every giveaway, the scheduler
      holds a task for exactly the due giveaways, each pending with the
      stored publication time as deadline. */
  lemma StartRestoresDue(db: Db, rows: seq<string>, now: int)
    requires forall g :: g in db.giveaways ==> g in rows
    ensures var r := Start(Init(db), rows, now);
      && WellFormed(r)
      && (forall g :: g in r.table <==> Due(db, g, now))
      && (forall g :: g in r.table ==>
            r.timers[r.table[g]].state == Pending
            && Some(r.timers[r.table[g]].fireAt) == db.giveaways[g].scheduledPublish)
  {
    LoadArmsPending(Init(db).(running := true), rows, now);
  }

  /** Every timer `Load` creates is pending with the row's stored time. */
  lemma {:induction false} LoadArmsPending(s: Sched, rows: seq<string>, now: int)
    requires forall g :: g in s.table ==>
      (&& s.table[g] < |s.timers|
       && s.timers[s.table[g]].state == Pending && Due(s.db, g, now)
       && Some(s.timers[s.table[g]].fireAt) == s.db.giveaways[g].scheduledPublish)
    ensures var r := Load(s, rows, now);
      forall g :: g in r.table ==>
        (&& r.table[g] < |r.timers| && Due(s.db, g, now)
         && r.timers[r.table[g]].state == Pending
         && Some(r.timers[r.table[g]].fireAt) == s.db.giveaways[g].scheduledPublish)
    decreases |rows|
  {
    if |rows| > 0 {
      var g := rows[0];
      var next := if Due(s.db, g, now) then Arm(s, g, s.db.giveaways[g].scheduledPublish.value, now) else s;
      if Due(s.db, g, now) {
        forall h | h in next.table
          ensures && next.table[h] < |next.timers|
            && next.timers[next.table[h]].state == Pending && Due(next.db, h, now)
            && Some(next.timers[next.table[h]].fireAt) == next.db.giveaways[h].scheduledPublish
        {
          if h != g {
            assert next.timers[next.table[h]] == s.timers[s.table[h]];
          }
        }
      }
      LoadArmsPending(next, rows[1..], now);
    }
  }

  /** `schedule_giveaway` as written: the row is marked scheduled whatever
      the time, and a task is created only for a future time. */
  function Schedule(s: Sched, g: string, t: int, now: int): (r: Sched)
    ensures r.running == s.running
    ensures RewritesSchedule(s.db, r.db, g, Scheduled, Some(t))
    ensures g !in s.db.giveaways ==> r.db == s.db
    ensures t > now ==> r.timers == s.timers + [Timer(g, t, Pending)] && r.table == s.table[g := |s.timers|]
    ensures t <= now ==> r.timers == s.timers && r.table == s.table
    ensures |r.timers| >= |s.timers| && r.timers[..|s.timers|] == s.timers
    ensures WellFormed(s) ==> WellFormed(r)
  {
    var db := if g in s.db.giveaways then SetSchedule(s.db, g, Scheduled, Some(t)) else s.db;
    Arm(s.(db := db), g, t, now)
  }

  /** The environment wakes timer `i`: enabled once its deadline has come
      while it is still pending. `publish_giveaway` then publishes its
      giveaway whatever the giveaway's current status, and the table entry
      of that giveaway is deleted, whichever task it remembers. */
  function Fire(s: Sched, i: nat, now: int): (r: Option<Sched>)
    ensures r.Some? <==> i < |s.timers| && s.timers[i].state == Pending && s.timers[i].fireAt <= now
    ensures r.Some? ==>
      var g := s.timers[i].giveawayId;
      && r.value.db == MarkPublished(s.db, g, now)
      && r.value.timers == s.timers[i := s.timers[i].(state := Fired)]
      && r.value.table == s.table - {g}
      && r.value.running == s.running
    ensures r.Some? && WellFormed(s) ==> WellFormed(r.value)
  {
    if i < |s.timers| && s.timers[i].state == Pending && s.timers[i].fireAt <= now then
      var g := s.timers[i].giveawayId;
      Some(Sched(MarkPublished(s.db, g, now), s.timers[i := s.timers[i].(state := Fired)], s.table - {g}, s.running))
    else None
  }

  /** `cancel_scheduled_giveaway`: the remembered task, if any, is
      cancelled and forgotten; the row goes back to `created` without a
      publication time, whether or not it was scheduled. */
  function Cancel(s: Sched, g: string): (r: Sched)
    ensures r.running == s.running
    ensures g !in r.table && r.table == s.table - {g}
    ensures RewritesSchedule(s.db, r.db, g, Created, None)
    ensures g !in s.db.giveaways ==> r.db == s.db
    ensures g in s.table ==> r.timers == CancelTimer(s.timers, s.table[g])
    ensures g !in s.table ==> r.timers == s.timers
    ensures WellFormed(s) ==> WellFormed(r)
  {
    var timers := if g in s.table then CancelTimer(s.timers, s.table[g]) else s.timers;
    var db := if g in s.db.giveaways then SetSchedule(s.db, g, Created, None) else s.db;
    Sched(db, timers, s.table - {g}, s.running)
  }

  /** Cancels every timer whose index is in `hs`. */
  function CancelAll(timers: seq<Timer>, hs: set<nat>): (r: seq<Timer>)
    ensures |r| == |timers|
    ensures forall j :: 0 <= j < |r| ==> r[j].giveawayId == timers[j].giveawayId && r[j].fireAt == timers[j].fireAt
    ensures forall j :: 0 <= j < |r| && j in hs ==> r[j].state != Pending
    ensures forall j :: 0 <= j < |r| && j !in hs ==> r[j] == timers[j]
    ensures forall j :: 0 <= j < |r| && timers[j].state != Pending ==> r[j] == timers[j]
  {
    seq(|timers|, j requires 0 <= j < |timers| =>
      if j in hs && timers[j].state == Pending then timers[j].(state := Cancelled) else timers[j])
  }

  /** `stop`: every remembered task is cancelled and the table emptied. */
  function Stop(s: Sched): (r: Sched)
    ensures !r.running && r.table == map[] && r.db == s.db
    ensures |r.timers| == |s.timers|
    ensures forall g :: g in s.table && s.table[g] < |r.timers| ==> r.timers[s.table[g]].state != Pending
    ensures forall j :: 0 <= j < |r.timers| && j !in s.table.Values ==> r.timers[j] == s.timers[j]
    ensures WellFormed(r)
  {
    Sched(s.db, CancelAll(s.timers, s.table.Values), map[], false)
  }

  /** One pass of `scheduler_loop`: while running, entries whose task is
      done are deleted; once stopped the loop has ended. */
  function Reap(s: Sched): (r: Sched)
    ensures r.db == s.db && r.timers == s.timers && r.running == s.running
    ensures !s.running ==> r == s
    ensures s.running && WellFormed(s) ==>
      forall g :: g in r.table <==> g in s.table && s.timers[s.table[g]].state == Pending
    ensures forall g :: g in r.table ==> g in s.table && r.table[g] == s.table[g]
    ensures WellFormed(s) ==> WellFormed(r)
  {
    if s.running then
      s.(table := map g | g in s.table && (s.table[g] >= |s.timers| || s.timers[s.table[g]].state == Pending) :: s.table[g])
    else s
  }

  /** Every pending timer is the one its giveaway's table entry remembers. */
  ghost predicate NoOrphans(s: Sched) {
    forall i :: 0 <= i < |s.timers| && s.timers[i].state == Pending ==>
      s.timers[i].giveawayId in s.table && s.table[s.timers[i].giveawayId] == i
  }

  /** Rescheduling a giveaway twice and then cancelling it leaves the
      first task pending: when its deadline comes it publishes the
      cancelled giveaway. */
  lemma RescheduleThenCancelStillPublishes(gv: Giveaway)
    ensures var db := EmptyDb.(giveaways := map[gv.id := gv]);
      var s1 := Schedule(Init(db), gv.id, 100, 0);
      var s2 := Schedule(s1, gv.id, 200, 0);
      var s3 := Cancel(s2, gv.id);
      && s3.db.giveaways[gv.id].status == Created
      && !NoOrphans(s2)
      && Fire(s3, 0, 100).Some?
      && Fire(s3, 0, 100).value.db.giveaways[gv.id].status == Published
  {
    var db := EmptyDb.(giveaways := map[gv.id := gv]);
    var s1 := Schedule(Init(db), gv.id, 100, 0);
    var s2 := Schedule(s1, gv.id, 200, 0);
    assert s2.timers == [Timer(gv.id, 100, Pending), Timer(gv.id, 200, Pending)];
    assert s2.table[gv.id] == 1;
    var s3 := Cancel(s2, gv.id);
    assert s3.timers[0] == Timer(gv.id, 100, Pending);
  }

  /** The intended `schedule_giveaway`: a task already remembered for the
      giveaway is cancelled before the new one replaces it. */
  function ScheduleFixed(s: Sched, g: string, t: int, now: int): (r: Sched)
    ensures r.running == s.running
    ensures RewritesSchedule(s.db, r.db, g, Scheduled, Some(t))
    ensures |r.timers| >= |s.timers|
    ensures g in s.table && s.table[g] < |s.timers| ==> r.timers[s.table[g]].state != Pending
    ensures forall j :: 0 <= j < |s.timers| && (g !in s.table || j != s.table[g]) ==> r.timers[j] == s.timers[j]
    ensures t > now ==> r.table == (s.table - {g})[g := |s.timers|] && r.timers[|s.timers|..] == [Timer(g, t, Pending)]
    ensures t <= now ==> r.table == s.table - {g} && |r.timers| == |s.timers|
    ensures WellFormed(s) ==> WellFormed(r)
  {
    var c := Cancel(s, g);
    var db := if g in s.db.giveaways then SetSchedule(s.db, g, Scheduled, Some(t)) else s.db;
    Arm(c.(db := db), g, t, now)
  }

  /** Cancelling keeps every pending timer in the table. */
  lemma CancelKeepsNoOrphans(s: Sched, g: string)
    requires WellFormed(s) && NoOrphans(s)
    ensures NoOrphans(Cancel(s, g))
  {
    var r := Cancel(s, g);
    forall i | 0 <= i < |r.timers| && r.timers[i].state == Pending
      ensures r.timers[i].giveawayId in r.table && r.table[r.timers[i].giveawayId] == i
    {
      assert s.timers[i].state == Pending;
    }
  }

  /** Arming a giveaway that has no table entry keeps every pending timer
      in the table. */
  lemma ArmKeepsNoOrphans(s: Sched, g: string, t: int, now: int)
    requires NoOrphans(s) && g !in s.table
    ensures NoOrphans(Arm(s, g, t, now))
  {
    var r := Arm(s, g, t, now);
    if t > now {
      forall i | 0 <= i < |r.timers| && r.timers[i].state == Pending
        ensures r.timers[i].giveawayId in r.table && r.table[r.timers[i].giveawayId] == i
      {
        if i < |s.timers| {
          assert r.timers[i] == s.timers[i];
          assert s.timers[i].giveawayId != g;
        }
      }
    }
  }

  /** The intended scheduling keeps every pending timer in the table. */
  lemma ScheduleFixedKeepsNoOrphans(s: Sched, g: string, t: int, now: int)
    requires WellFormed(s) && NoOrphans(s)
    ensures NoOrphans(ScheduleFixed(s, g, t, now))
  {
    var c := Cancel(s, g);
    CancelKeepsNoOrphans(s, g);
    var db := if g in s.db.giveaways then SetSchedule(s.db, g, Scheduled, Some(t)) else s.db;
    ArmKeepsNoOrphans(c.(db := db), g, t, now);
  }

  /** After `stop` no timer is pending at all. */
  lemma StopLeavesNothingPending(s: Sched)
    requires WellFormed(s) && NoOrphans(s)
    ensures var r := Stop(s);
      forall j :: 0 <= j < |r.timers| ==> r.timers[j].state != Pending
  {
    var r := Stop(s);
    forall j | 0 <= j < |r.timers| ensures r.timers[j].state != Pending {
      if s.timers[j].state == Pending {
        assert s.table[s.timers[j].giveawayId] == j;
        assert j in s.table.Values;
      }
    }
  }

  /** A pass of the loop keeps every pending timer in the table. */
  lemma ReapKeepsNoOrphans(s: Sched)
    requires WellFormed(s) && NoOrphans(s)
    ensures NoOrphans(Reap(s))
  {
  }

  /** A firing keeps every pending timer in the table. */
  lemma FireKeepsNoOrphans(s: Sched, i: nat, now: int)
    requires WellFormed(s) && NoOrphans(s)
    ensures Fire(s, i, now).Some? ==> NoOrphans(Fire(s, i, now).value)
  {
    if Fire(s, i, now).Some? {
      var r := Fire(s, i, now).value;
      var g := s.timers[i].giveawayId;
      forall j | 0 <= j < |r.timers| && r.timers[j].state == Pending
        ensures r.timers[j].giveawayId in r.table && r.table[r.timers[j].giveawayId] == j
      {
        assert s.timers[j].state == Pending && j != i;
        assert s.table[g] == i;
      }
    }
  }

  /** With the intended scheduling, once a giveaway is cancelled no task
      of it is pending, so no later firing can publish it. */
  lemma CancelSilencesGiveaway(s: Sched, g: string)
    requires WellFormed(s) && NoOrphans(s)
    ensures var r := Cancel(s, g);
      forall i :: 0 <= i < |r.timers| && r.timers[i].giveawayId == g ==> r.timers[i].state != Pending
  {
    var r := Cancel(s, g);
    forall i | 0 <= i < |r.timers| && r.timers[i].giveawayId == g
      ensures r.timers[i].state != Pending
    {
      if s.timers[i].state == Pending {
        assert s.table[g] == i;
      }
    }
  }

  /** The scenario of `RescheduleThenCancelStillPublishes` with the
      intended scheduling: after the cancellation no timer of the giveaway
      can fire, at any time. */
  lemma RescheduleFixedThenCancelIsSilent(gv: Giveaway)
    ensures var db := EmptyDb.(giveaways := map[gv.id := gv]);
      var s1 := ScheduleFixed(Init(db), gv.id, 100, 0);
      var s2 := ScheduleFixed(s1, gv.id, 200, 0);
      var s3 := Cancel(s2, gv.id);
      && s3.db.giveaways[gv.id].status == Created
      && NoOrphans(s2)
      && forall i: nat, later :: i < |s3.timers| ==> Fire(s3, i, later).None?
  {
    var db := EmptyDb.(giveaways := map[gv.id := gv]);
    var s0 := Init(db);
    var s1 := ScheduleFixed(s0, gv.id, 100, 0);
    ScheduleFixedKeepsNoOrphans(s0, gv.id, 100, 0);
    var s2 := ScheduleFixed(s1, gv.id, 200, 0);
    ScheduleFixedKeepsNoOrphans(s1, gv.id, 200, 0);
    var s3 := Cancel(s2, gv.id);
    CancelSilencesGiveaway(s2, gv.id);
    assert s1.timers == [Timer(gv.id, 100, Pending)];
    assert |s2.timers| == 2 && s2.timers[1].giveawayId == gv.id;
    assert forall i :: 0 <= i < |s3.timers| ==> s3.timers[i].giveawayId == gv.id;
  }
}
