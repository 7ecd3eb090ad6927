/** `GiveawayBot` in `main.py`: the `/start` command, the quick creation
    of a giveaway, and the callback-query router with its administrator
    gate. Message texts and Telegram calls are left out; the router's
    result names the handler it hands the query to. */
module Bot {
  import opened Wrappers
  import opened Records
  import Store
  import Text

  /** Which menu `/start` shows. */
  datatype Menu = AdminMenu | UserMenu

  /** `start_command`: register the user with `add_user`, then choose the
      menu by `is_admin`. */
  function StartCommand(db: Db, d: Store.UserData, now: int): (r: (Menu, Db))
    ensures r.1 == Store.AddUser(db, d, now)
    ensures r.0 == AdminMenu <==> Store.IsAdmin(r.1, d.userId)
  {
    var db1 := Store.AddUser(db, d, now);
    (if Store.IsAdmin(db1, d.userId) then AdminMenu else UserMenu, db1)
  }

  /** As written, `/start` never shows the administrator menu: registering
      clears the flag it then reads, even for the seeded administrator. */
  lemma StartNeverShowsAdminMenu(db: Db, d: Store.UserData, now: int)
    ensures StartCommand(db, d, now).0 == UserMenu
  {
  }

  /** The seeded administrator sending `/start` first thing. */
  lemma SeededAdminDemoted(adminId: int, d: Store.UserData, now: int, later: int)
    requires d.userId == adminId
    ensures Store.IsAdmin(Store.SeedAdmin(EmptyDb, adminId, now), adminId)
    ensures var r := StartCommand(Store.SeedAdmin(EmptyDb, adminId, now), d, later);
      r.0 == UserMenu && !Store.IsAdmin(r.1, adminId)
  {
  }

  /** `/start` with the registration that keeps the administrator flag. */
  function StartCommandKeepingRole(db: Db, d: Store.UserData, now: int): (r: (Menu, Db))
    ensures r.1 == Store.AddUserKeepingRole(db, d, now)
    ensures r.0 == AdminMenu <==> Store.IsAdmin(db, d.userId)
  {
    var db1 := Store.AddUserKeepingRole(db, d, now);
    (if Store.IsAdmin(db1, d.userId) then AdminMenu else UserMenu, db1)
  }

  /** With the corrected registration, an administrator who sends `/start`
      sees the administrator menu, and nobody else does. */
  lemma SeededAdminKeepsMenu(adminId: int, d: Store.UserData, now: int, later: int)
    requires d.userId == adminId
    ensures StartCommandKeepingRole(Store.SeedAdmin(EmptyDb, adminId, now), d, later).0 == AdminMenu
  {
  }

  datatype QuickCreated = NotAdmin | IdClash | Made(giveawayId: string, db: Db)

  /** The name `simple_create_giveaway` gives: `Розыгрыш #` and one more than
      the number of giveaways the administrator owns. */
  function QuickName(db: Db, adminId: int): string {
    "Розыгрыш #" + Text.IntToString(|Store.GiveawaysOfAdmin(db, adminId)| + 1)
  }

  /** `simple_create_giveaway` with the generated id `id`: only an
      administrator may create; the new giveaway carries just a name, a
      description and its owner, everything else at the defaults. */
  function QuickCreate(db: Db, u: int, id: string, now: int): (r: QuickCreated)
    ensures r.NotAdmin? <==> !Store.IsAdmin(db, u)
    ensures r.IdClash? <==> Store.IsAdmin(db, u) && id in db.giveaways
    ensures r.Made? ==>
      && r.giveawayId == id
      && r.db.giveaways.Keys == db.giveaways.Keys + {id}
      && r.db.giveaways[id].name == QuickName(db, u)
      && r.db.giveaways[id].adminId == u
      && r.db.giveaways[id].status == Status.Created
      && r.db.giveaways[id].prizesCount == 1
      && Store.GiveawaysOfAdmin(r.db, u) == Store.GiveawaysOfAdmin(db, u) + {id}
  {
    if !Store.IsAdmin(db, u) then NotAdmin
    else
      var d := Store.NewGiveaway(QuickName(db, u), Some("Описание можно изменить позже"), u,
                                 None, None, None, None, None, None);
      match Store.CreateGiveaway(db, id, d, now)
      case None => IdClash
      case Some(db1) => Made(id, db1)
  }

  /** Two quick creations in a row are numbered consecutively. */
  lemma QuickNamesCount(db: Db, u: int, id1: string, id2: string, now: int, later: int)
    requires QuickCreate(db, u, id1, now).Made?
    ensures var db1 := QuickCreate(db, u, id1, now).db;
      |Store.GiveawaysOfAdmin(db1, u)| == |Store.GiveawaysOfAdmin(db, u)| + 1
  {
    var db1 := QuickCreate(db, u, id1, now).db;
    assert id1 !in Store.GiveawaysOfAdmin(db, u);
  }

  /** The callback prefixes that need the administrator flag. */
  const AdminPrefixes: seq<string> := [
    "create_giveaway", "my_giveaways", "manage_", "edit_",
    "publish_", "delete_", "draw_", "settings", "statistics",
    "export_", "channels_", "protection_", "schedule_",
    "advanced_", "participants_", "winners_", "redraw_"
  ]

  predicate IsAdminCommand(data: string) {
    exists i :: 0 <= i < |AdminPrefixes| && Text.StartsWith(data, AdminPrefixes[i])
  }

  /** A branch test of the router: equality or `startswith`. */
  datatype Pattern = Exact(text: string) | Prefix(text: string)

  predicate Matches(p: Pattern, data: string) {
    match p
    case Exact(t) => data == t
    case Prefix(t) => Text.StartsWith(data, t)
  }

  /** The handlers the router hands a query to. */
  datatype Handler =
    | ShowAdminMenu | SimpleCreate | MyGiveaways | NavigateGiveaways | ManageGiveaway
    | PublishMenu | InstantPublish | ParticipateInGiveaway | DrawWinners

  /** The `if`/`elif` chain of `callback_query_handler`, in order. */
  const Routes: seq<(Pattern, Handler)> := [
    (Exact("admin_menu"), ShowAdminMenu),
    (Exact("create_giveaway"), SimpleCreate),
    (Exact("my_giveaways"), MyGiveaways),
    (Prefix("giveaway_nav_"), NavigateGiveaways),
    (Prefix("manage_"), ManageGiveaway),
    (Prefix("publish_"), PublishMenu),
    (Prefix("publish_instant_"), InstantPublish),
    (Prefix("participate_"), ParticipateInGiveaway),
    (Prefix("draw_"), DrawWinners)
  ]

  /** Branch `i` tests true on `data` and no earlier branch does. */
  predicate FirstToMatch(routes: seq<(Pattern, Handler)>, data: string, i: nat) {
    && i < |routes| && Matches(routes[i].0, data)
    && forall j :: 0 <= j < i ==> !Matches(routes[j].0, data)
  }

  /** The index of the first branch whose test holds. */
  function FirstMatch(routes: seq<(Pattern, Handler)>, data: string): (r: Option<nat>)
    ensures r.None? <==> forall j :: 0 <= j < |routes| ==> !Matches(routes[j].0, data)
    ensures r.Some? ==> FirstToMatch(routes, data, r.value)
  {
    if |routes| == 0 then None
    else if Matches(routes[0].0, data) then Some(0)
    else match FirstMatch(routes[1..], data)
      case None => None
      case Some(i) => Some(i + 1)
  }

  datatype Reply = Denied | Handled(handler: Handler) | InDevelopment

  /** The handler the first matching branch names, or the "in development"
      reply when none matches. */
  function Dispatch(routes: seq<(Pattern, Handler)>, data: string): (r: Reply)
    ensures r.Denied? == false
    ensures r.InDevelopment? <==> forall j :: 0 <= j < |routes| ==> !Matches(routes[j].0, data)
    ensures r.Handled? ==> exists i: nat :: FirstToMatch(routes, data, i) && routes[i].1 == r.handler
  {
    match FirstMatch(routes, data)
    case None => InDevelopment
    case Some(i) => Handled(routes[i].1)
  }

  /** `callback_query_handler`: queries with an administrator prefix from a
      user without the flag are refused before any routing. */
  function CallbackQuery(routes: seq<(Pattern, Handler)>, db: Db, u: int, data: string): (r: Reply)
    ensures r.Denied? <==> IsAdminCommand(data) && !Store.IsAdmin(db, u)
    ensures !r.Denied? ==> r == Dispatch(routes, data)
  {
    if IsAdminCommand(data) && !Store.IsAdmin(db, u) then Denied
    else Dispatch(routes, data)
  }

  /** Whenever `data` starts with both `a` and `b`, one of them starts with
      the other. */
  lemma PrefixesNest(data: string, a: string, b: string)
    requires Text.StartsWith(data, a) && Text.StartsWith(data, b) && |a| <= |b|
    ensures Text.StartsWith(b, a)
  {
    assert b[..|a|] == data[..|b|][..|a|];
  }

  /** As written, no callback ever reaches `instant_publish`: every
      `publish_instant_` query already starts with `publish_`. */
  lemma InstantPublishUnreachable(db: Db, u: int, data: string)
    ensures CallbackQuery(Routes, db, u, data) != Handled(InstantPublish)
  {
    var m := FirstMatch(Routes, data);
    if m.Some? && Routes[m.value].1 == InstantPublish {
      var k := m.value;
      InstantIsSixth(k);
      assert Text.StartsWith(data, "publish_instant_");
      assert data[..8] == data[..16][..8];
      assert Matches(Routes[5].0, data);
      assert false;
    }
  }

  /** Only the seventh branch names `instant_publish`. */
  lemma InstantIsSixth(k: nat)
    requires k < |Routes| && Routes[k].1 == InstantPublish
    ensures k == 6
  {
  }

  /** The "instant" button of an administrator opens the publishing menu
      again instead. */
  lemma InstantButtonOpensMenu(db: Db, u: int, g: string)
    requires Store.IsAdmin(db, u)
    ensures CallbackQuery(Routes, db, u, "publish_instant_" + g) == Handled(PublishMenu)
  {
    var data := "publish_instant_" + g;
    assert data[..8] == "publish_";
    assert Matches(Routes[5].0, data);
    assert data[0] == 'p';
    assert forall j :: 0 <= j < 5 ==> !Matches(Routes[j].0, data);
  }

  /** The chain with the longer prefix checked first. */
  const RoutesFixed: seq<(Pattern, Handler)> := Routes[..5] + [Routes[6], Routes[5]] + Routes[7..]

  /** With the longer prefix first, the instant button reaches
      `instant_publish`. */
  lemma InstantPublishReachableFixed(db: Db, u: int, g: string)
    requires Store.IsAdmin(db, u)
    ensures CallbackQuery(RoutesFixed, db, u, "publish_instant_" + g) == Handled(InstantPublish)
  {
    var data := "publish_instant_" + g;
    assert data[..16] == "publish_instant_";
    assert RoutesFixed[5] == (Prefix("publish_instant_"), InstantPublish);
    assert Matches(RoutesFixed[5].0, data);
    assert data[0] == 'p';
    assert forall j :: 0 <= j < 5 ==> !Matches(RoutesFixed[j].0, data);
  }

  /** Reordering changes nothing for any other query. */
  lemma FixedAgreesElsewhere(db: Db, u: int, data: string)
    requires !Text.StartsWith(data, "publish_instant_")
    ensures CallbackQuery(RoutesFixed, db, u, data) == CallbackQuery(Routes, db, u, data)
  {
    assert |RoutesFixed| == |Routes|;
    assert forall j :: 0 <= j < |Routes| && j != 5 && j != 6 ==> RoutesFixed[j] == Routes[j];
    assert RoutesFixed[5] == Routes[6] && RoutesFixed[6] == Routes[5];
    assert !Matches(Routes[6].0, data);
    var m := FirstMatch(Routes, data);
    var f := FirstMatch(RoutesFixed, data);
    if m.None? {
      assert forall j :: 0 <= j < |RoutesFixed| ==> !Matches(RoutesFixed[j].0, data);
    } else if m.value == 5 {
      assert f == Some(6);
    } else {
      assert m.value != 6;
      assert forall j :: 0 <= j < m.value ==> !Matches(RoutesFixed[j].0, data);
      assert f == m;
    }
  }

  lemma StartsWithAt(data: string, p: string, k: nat)
    requires Text.StartsWith(data, p) && k < |p|
    ensures data[k] == p[k]
  {
    assert data[..|p|][k] == data[k];
  }

  /** A query starting with `participate_` differs from every other checked
      prefix in its first, second or tenth character. */
  lemma ParticipateExcludes(data: string, p: string)
    requires Text.StartsWith(data, "participate_")
    requires p in AdminPrefixes || p in ["admin_menu", "create_giveaway", "my_giveaways", "giveaway_nav_", "manage_", "publish_", "publish_instant_"]
    ensures !Text.StartsWith(data, p)
  {
    StartsWithAt(data, "participate_", 0);
    StartsWithAt(data, "participate_", 1);
    StartsWithAt(data, "participate_", 9);
    if Text.StartsWith(data, p) {
      StartsWithAt(data, p, 0);
      StartsWithAt(data, p, 1);
      if |p| > 9 {
        StartsWithAt(data, p, 9);
      }
    }
  }

  /** Joining a giveaway is open to every user. */
  lemma ParticipateOpenToAll(db: Db, u: int, g: string)
    ensures CallbackQuery(Routes, db, u, "participate_" + g) == Handled(ParticipateInGiveaway)
  {
    var data := "participate_" + g;
    assert Text.StartsWith(data, "participate_") by {
      assert data[..12] == "participate_";
    }
    forall i | 0 <= i < |AdminPrefixes|
      ensures !Text.StartsWith(data, AdminPrefixes[i])
    {
      ParticipateExcludes(data, AdminPrefixes[i]);
    }
    forall j | 0 <= j < 7
      ensures !Matches(Routes[j].0, data)
    {
      ParticipateExcludes(data, Routes[j].0.text);
    }
    assert Matches(Routes[7].0, data);
  }

  /** A query starting with `giveaway_nav_` differs from every admin prefix
      and every earlier branch in its first character. */
  lemma NavigationExcludes(data: string, p: string)
    requires Text.StartsWith(data, "giveaway_nav_")
    requires p in AdminPrefixes || p in ["admin_menu", "create_giveaway", "my_giveaways"]
    ensures !Text.StartsWith(data, p)
  {
    StartsWithAt(data, "giveaway_nav_", 0);
    if Text.StartsWith(data, p) {
      StartsWithAt(data, p, 0);
    }
  }

  /** Paging through the giveaway list is open to every user. */
  lemma NavigationOpenToAll(db: Db, u: int, g: string)
    ensures CallbackQuery(Routes, db, u, "giveaway_nav_" + g) == Handled(NavigateGiveaways)
  {
    var data := "giveaway_nav_" + g;
    assert Text.StartsWith(data, "giveaway_nav_") by {
      assert data[..13] == "giveaway_nav_";
    }
    forall i | 0 <= i < |AdminPrefixes|
      ensures !Text.StartsWith(data, AdminPrefixes[i])
    {
      NavigationExcludes(data, AdminPrefixes[i]);
    }
    forall j | 0 <= j < 3
      ensures !Matches(Routes[j].0, data)
    {
      NavigationExcludes(data, Routes[j].0.text);
    }
    assert Matches(Routes[3].0, data);
  }

  /** A user without the flag never reaches the draw. */
  lemma DrawNeedsAdmin(db: Db, u: int, g: string)
    requires !Store.IsAdmin(db, u)
    ensures CallbackQuery(Routes, db, u, "draw_" + g) == Denied
  {
    var data := "draw_" + g;
    assert Text.StartsWith(data, AdminPrefixes[6]) by {
      assert data[..5] == "draw_";
    }
  }
}
