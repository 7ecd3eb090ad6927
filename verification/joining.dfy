/** `UserHandlers`: the channel-subscription check and the guards a user
    passes before being added as a participant. The chat-member lookup of
    the Bot API is an injected oracle. */
module Joining {
  import opened Wrappers
  import opened Records
  import Store
  import Text

  /** What `get_chat_member` gives for one channel: a member status, or an
      exception. */
  datatype Lookup = Raised | Member(status: string)

  /** A channel counts as not subscribed when its status is `left` or
      `kicked`, or when the lookup raised. */
  predicate Blocked(l: Lookup) {
    l.Raised? || l.status == "left" || l.status == "kicked"
  }

  /** The channels the user is not subscribed to, in the given order. */
  function Unsubscribed(channels: seq<string>, lookup: string -> Lookup): (r: seq<string>)
    ensures forall ch :: ch in r <==> ch in channels && Blocked(lookup(ch))
  {
    Filter(channels, ch => Blocked(lookup(ch)))
  }

  /** `check_subscriptions`: one lookup per channel, in order. */
  method CheckSubscriptions(channels: seq<string>, lookup: string -> Lookup)
    returns (allSubscribed: bool, unsubscribed: seq<string>)
    ensures unsubscribed == Unsubscribed(channels, lookup)
    ensures allSubscribed <==> forall i :: 0 <= i < |channels| ==> !Blocked(lookup(channels[i]))
    ensures allSubscribed <==> |unsubscribed| == 0
  {
    allSubscribed := true;
    unsubscribed := [];
    var i := 0;
    while i < |channels|
      invariant 0 <= i <= |channels|
      invariant unsubscribed == Filter(channels[..i], ch => Blocked(lookup(ch)))
      invariant allSubscribed <==> forall k :: 0 <= k < i ==> !Blocked(lookup(channels[k]))
      invariant allSubscribed <==> |unsubscribed| == 0
    {
      var channel := channels[i];
      FilterAppend(channels[..i], [channel], ch => Blocked(lookup(ch)));
      assert channels[..i + 1] == channels[..i] + [channel];
      if Blocked(lookup(channel)) {
        allSubscribed := false;
        unsubscribed := unsubscribed + [channel];
      }
      i := i + 1;
    }
    assert channels[..i] == channels;
  }

  datatype JoinOutcome =
    | BadData
    | NotFound
    | NotActive
    | AlreadyParticipating
    | MustSubscribe(channels: seq<string>)
    | RegistrationFailed
    | Joined(participantNumber: nat)

  /** `callback_data.split('_')[1]`; `None` where the index raises. */
  function GiveawayIdOf(data: string): (r: Option<string>)
    ensures r.Some? <==> '_' in data
    ensures r.Some? ==> '_' !in r.value
  {
    var parts := Text.Split(data, '_');
    Text.SplitFields(data, '_');
    if |parts| < 2 then None else Some(parts[1])
  }

  /** `participate_in_giveaway`: the guards in the order the handler checks
      them, each returning before anything is stored; then the insertion
      with the session's `referred_by`. The captcha flag is read and has no
      effect. */
  function Participate(db: Db, data: string, d: Store.UserData, referredBy: Option<int>,
                       lookup: string -> Lookup, now: int): (r: (JoinOutcome, Db))
    ensures r.0.BadData? <==> '_' !in data
    ensures r.0.NotFound? <==> '_' in data && GiveawayIdOf(data).value !in db.giveaways
    ensures r.0.NotActive? <==>
      var g := GiveawayIdOf(data);
      g.Some? && g.value in db.giveaways && db.giveaways[g.value].status != Published
    ensures r.0.AlreadyParticipating? <==>
      var g := GiveawayIdOf(data);
      && g.Some? && g.value in db.giveaways && db.giveaways[g.value].status == Published
      && Store.IsParticipating(db, g.value, d.userId)
    ensures r.0.MustSubscribe? ==>
      var g := GiveawayIdOf(data).value;
      && r.0.channels == Unsubscribed(db.giveaways[g].requiredChannels, lookup)
      && |r.0.channels| > 0
    ensures !r.0.Joined? ==> r.1 == db
    ensures !r.0.RegistrationFailed?
    ensures r.0.Joined? ==>
      var g := GiveawayIdOf(data).value;
      && g in db.giveaways && db.giveaways[g].status == Published
      && !Store.IsParticipating(db, g, d.userId)
      && |Unsubscribed(db.giveaways[g].requiredChannels, lookup)| == 0
      && r.1 == Store.AddParticipant(db, g, d, referredBy, now).1
      && r.0.participantNumber == Store.ParticipantsCount(db, g) + 1
  {
    match GiveawayIdOf(data)
    case None => (BadData, db)
    case Some(g) =>
      if g !in db.giveaways then (NotFound, db)
      else
        var gv := db.giveaways[g];
        if gv.status != Published then (NotActive, db)
        else if Store.IsParticipating(db, g, d.userId) then (AlreadyParticipating, db)
        else
          var missing := Unsubscribed(gv.requiredChannels, lookup);
          if |gv.requiredChannels| > 0 && |missing| > 0 then (MustSubscribe(missing), db)
          else
            var added := Store.AddParticipant(db, g, d, referredBy, now);
            if !added.0 then (RegistrationFailed, db)
            else
              Store.AddParticipantCount(db, g, d, referredBy, now, g);
              (Joined(Store.ParticipantsCount(added.1, g)), added.1)
  }

  /** Turning the captcha flag on or off changes nothing about joining. */
  lemma CaptchaFlagIgnored(db: Db, data: string, d: Store.UserData, referredBy: Option<int>,
                           lookup: string -> Lookup, now: int, g: string, flag: bool)
    requires g in db.giveaways
    ensures var db' := db.(giveaways := db.giveaways[g := db.giveaways[g].(captchaEnabled := flag)]);
      Participate(db', data, d, referredBy, lookup, now).0 == Participate(db, data, d, referredBy, lookup, now).0
  {
    var db' := db.(giveaways := db.giveaways[g := db.giveaways[g].(captchaEnabled := flag)]);
    var id := GiveawayIdOf(data);
    if id.Some? && id.value in db.giveaways {
      var h := id.value;
      assert db'.giveaways[h].status == db.giveaways[h].status;
      assert db'.giveaways[h].requiredChannels == db.giveaways[h].requiredChannels;
      assert Store.ParticipantsCount(db', h) == Store.ParticipantsCount(db, h);
      assert Store.IsParticipating(db', h, d.userId) == Store.IsParticipating(db, h, d.userId);
    }
  }

  /** A successful join makes the user a participant, so pressing the
      button again is turned away. */
  lemma JoinTwice(db: Db, data: string, d: Store.UserData, referredBy: Option<int>,
                  lookup: string -> Lookup, now: int, later: int)
    requires Participate(db, data, d, referredBy, lookup, now).0.Joined?
    ensures var db1 := Participate(db, data, d, referredBy, lookup, now).1;
      Participate(db1, data, d, referredBy, lookup, later) == (AlreadyParticipating, db1)
  {
    var g := GiveawayIdOf(data).value;
    Store.AddParticipantCount(db, g, d, referredBy, now, g);
  }
}
