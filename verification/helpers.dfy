/** `utils/helpers`: the referral deep link and its parser, and the text
    listing the winners of a draw. */
module Helpers {
  import opened Wrappers
  import opened Records
  import Text

  /** The `start` parameter a referral link carries. */
  function ReferralParam(giveawayId: string, userId: int): string {
    "ref_" + giveawayId + "_" + Text.IntToString(userId)
  }

  /** `generate_referral_link`: a `t.me` deep link into the bot whose start
      parameter names the giveaway and the inviting user. */
  function GenerateReferralLink(botUsername: string, giveawayId: string, userId: int): (r: string)
    ensures Text.StartsWith(r, "https://t.me/" + botUsername + "?start=")
    ensures r[|"https://t.me/" + botUsername + "?start="|..] == ReferralParam(giveawayId, userId)
  {
    var prefix := "https://t.me/" + botUsername + "?start=";
    var r := prefix + ReferralParam(giveawayId, userId);
    assert r[..|prefix|] == prefix;
    r
  }

  datatype Referral = Referral(giveawayId: string, referrerId: int)

  /** `parse_referral_link`: `None` for an empty parameter, one without the
      `ref_` prefix, one that does not split into exactly three `_`-fields,
      or one whose third field `int()` rejects. */
  function ParseReferralLink(param: string): (r: Option<Referral>)
    ensures r.Some? <==>
      && Text.StartsWith(param, "ref_")
      && |Text.Split(param, '_')| == 3
      && Text.ParseInt(Text.Split(param, '_')[2]).Some?
    ensures r.Some? ==>
      && r.value.giveawayId == Text.Split(param, '_')[1]
      && Some(r.value.referrerId) == Text.ParseInt(Text.Split(param, '_')[2])
  {
    if |param| == 0 || !Text.StartsWith(param, "ref_") then None
    else
      var parts := Text.Split(param, '_');
      if |parts| != 3 then None
      else match Text.ParseInt(parts[2])
        case None => None
        case Some(u) => Some(Referral(parts[1], u))
  }

  /** Round trip: the parameter of a link for a giveaway id without `_`
      parses back to that giveaway and user. */
  lemma ReferralRoundTrip(giveawayId: string, userId: int)
    requires '_' !in giveawayId
    ensures ParseReferralLink(ReferralParam(giveawayId, userId)) == Some(Referral(giveawayId, userId))
  {
    var us := Text.IntToString(userId);
    Text.IntToStringNoUnderscore(userId);
    var parts := ["ref", giveawayId, us];
    var param := ReferralParam(giveawayId, userId);
    assert Text.Join(parts[2..], '_') == us;
    assert Text.Join(parts[1..], '_') == giveawayId + "_" + us;
    assert Text.Join(parts, '_') == param;
    assert forall k :: 0 <= k < 3 ==> '_' !in parts[k];
    Text.SplitJoin(parts, '_');
    assert param[..4] == "ref_";
    Text.IntRoundTrip(userId);
  }

  const NoWinners: string := "Нет победителей"
  const WinnersHeader: string := "🏆 **Победители:**\n\n"

  /** Python truthiness of the `username` value. */
  predicate HasUsername(w: WinnerEntry) {
    w.username.Some? && |w.username.value| > 0
  }

  /** `str(first_name)`: a missing name prints as `None`. */
  function NameText(w: WinnerEntry): string {
    if w.firstName.Some? then w.firstName.value else "None"
  }

  /** How a winner is identified after the name: the username, else the id. */
  function Handle(w: WinnerEntry): string {
    if HasUsername(w) then " (@" + w.username.value + ")"
    else " (ID: " + Text.IntToString(w.userId) + ")"
  }

  /** One line of the list: place, name and handle, then a newline. */
  function WinnerLine(w: WinnerEntry): (r: string)
    ensures Text.StartsWith(r, Text.IntToString(w.place) + ". " + NameText(w))
    ensures |r| == |Text.IntToString(w.place) + ". " + NameText(w)| + |Handle(w)| + 1
    ensures r[|r| - 1] == '\n'
    ensures r[|Text.IntToString(w.place) + ". " + NameText(w)|..|r| - 1] == Handle(w)
  {
    var head := Text.IntToString(w.place) + ". " + NameText(w);
    var r := head + Handle(w) + "\n";
    assert r[..|head|] == head;
    r
  }

  function WinnerLines(ws: seq<WinnerEntry>): string {
    if |ws| == 0 then "" else WinnerLine(ws[0]) + WinnerLines(ws[1..])
  }

  /** `r` is the winners header followed by one line per winner. */
  predicate ListsWinners(r: string, ws: seq<WinnerEntry>) {
    Text.StartsWith(r, WinnersHeader) && r[|WinnersHeader|..] == WinnerLines(ws)
  }

  /** `format_winners_list`. */
  function FormatWinnersList(ws: seq<WinnerEntry>): (r: string)
    ensures |ws| == 0 <==> r == NoWinners
    ensures |ws| > 0 ==> ListsWinners(r, ws)
  {
    if |ws| == 0 then NoWinners
    else
      var r := WinnersHeader + WinnerLines(ws);
      assert r[..|WinnersHeader|] == WinnersHeader;
      assert r[|WinnersHeader|..] == WinnerLines(ws);
      assert r != NoWinners by {
        assert r[0] == WinnersHeader[0];
      }
      r
  }

  /** The lines come in the order of the winners: the list of a
      concatenation is the concatenation of the lists. */
  lemma {:induction false} WinnerLinesAppend(a: seq<WinnerEntry>, b: seq<WinnerEntry>)
    ensures WinnerLines(a + b) == WinnerLines(a) + WinnerLines(b)
  {
    if |a| > 0 {
      assert (a + b)[1..] == a[1..] + b;
      WinnerLinesAppend(a[1..], b);
    } else {
      assert a + b == b;
    }
  }

  /** The number of newlines in `s`. */
  function Newlines(s: string): nat {
    if |s| == 0 then 0 else (if s[0] == '\n' then 1 else 0) + Newlines(s[1..])
  }

  lemma {:induction false} NewlinesAppend(a: string, b: string)
    ensures Newlines(a + b) == Newlines(a) + Newlines(b)
  {
    if |a| > 0 {
      assert (a + b)[1..] == a[1..] + b;
      NewlinesAppend(a[1..], b);
    } else {
      assert a + b == b;
    }
  }

  /** Newline-free names and usernames. */
  predicate SingleLine(w: WinnerEntry) {
    && (w.firstName.Some? ==> '\n' !in w.firstName.value)
    && (w.username.Some? ==> '\n' !in w.username.value)
  }

  lemma NoNewlines(s: string)
    requires '\n' !in s
    ensures Newlines(s) == 0
  {
  }

  lemma HandleHasNoNewline(w: WinnerEntry)
    requires SingleLine(w)
    ensures Newlines(Handle(w)) == 0
  {
    var (open, middle) := if HasUsername(w) then (" (@", w.username.value) else (" (ID: ", Text.IntToString(w.userId));
    assert Handle(w) == open + middle + ")";
    NewlinesAppend(open + middle, ")");
    NewlinesAppend(open, middle);
    NoNewlines(open);
    NoNewlines(middle);
    NoNewlines(")");
  }

  lemma HeadHasNoNewline(w: WinnerEntry)
    requires SingleLine(w)
    ensures Newlines(Text.IntToString(w.place) + ". " + NameText(w)) == 0
  {
    var place := Text.IntToString(w.place);
    NewlinesAppend(place + ". ", NameText(w));
    NewlinesAppend(place, ". ");
    NoNewlines(place);
    NoNewlines(". ");
    NoNewlines(NameText(w));
  }

  /** A winner with a newline-free name and username takes exactly one line. */
  lemma WinnerLineIsOneLine(w: WinnerEntry)
    requires SingleLine(w)
    ensures Newlines(WinnerLine(w)) == 1
  {
    var head := Text.IntToString(w.place) + ". " + NameText(w);
    HeadHasNoNewline(w);
    HandleHasNoNewline(w);
    NewlinesAppend(head + Handle(w), "\n");
    NewlinesAppend(head, Handle(w));
  }

  /** One line per winner. */
  lemma {:induction false} LineCount(ws: seq<WinnerEntry>)
    requires forall i :: 0 <= i < |ws| ==> SingleLine(ws[i])
    ensures Newlines(WinnerLines(ws)) == |ws|
  {
    if |ws| > 0 {
      LineCount(ws[1..]);
      WinnerLineIsOneLine(ws[0]);
      NewlinesAppend(WinnerLine(ws[0]), WinnerLines(ws[1..]));
    }
  }
}
