/** `CaptchaHandler`: the emoji captcha shown before joining a giveaway.
    A session per user remembers the shuffled images and the position of
    the correct one; an answer arrives as callback data
    `captcha_<user>_<giveaway>_<position>`. `random.choice` and the draws
    of `random.shuffle` are injected oracles. */
module Captcha {
  import opened Wrappers
  import Text

  datatype Category = Category(name: string, images: seq<string>)

  /** The five categories in dict order. The first image is the correct
      one, and it is repeated as the last. */
  const Categories: seq<Category> := [
    Category("пончики", ["🍩", "🥖", "🍞", "🧁", "🍰", "🍩"]),
    Category("животные", ["🐶", "🐱", "🐭", "🐰", "🦊", "🐶"]),
    Category("фрукты", ["🍎", "🍌", "🍊", "🍇", "🍓", "🍎"]),
    Category("транспорт", ["🚗", "✈️", "🚂", "🚲", "🛥️", "🚗"]),
    Category("цветы", ["🌸", "🌼", "🌺", "🌻", "🌷", "🌸"])
  ]

  const MaxAttempts: nat := 3

  /** Six images, the last repeating the first and the four between them
      all different from it. */
  predicate WellShaped(c: Category) {
    && |c.images| == 6
    && c.images[5] == c.images[0]
    && forall j :: 1 <= j < 5 ==> c.images[j] != c.images[0]
  }

  lemma CategoriesWellShaped()
    ensures forall k :: 0 <= k < |Categories| ==> WellShaped(Categories[k])
  {
    assert WellShaped(Categories[0]);
    assert WellShaped(Categories[1]);
    assert WellShaped(Categories[2]);
    assert WellShaped(Categories[3]);
    assert WellShaped(Categories[4]);
  }

  /** A well-shaped category holds its correct image exactly twice. */
  lemma CorrectImageTwice(c: Category)
    requires WellShaped(c)
    ensures multiset(c.images)[c.images[0]] == 2
  {
    var xs := c.images;
    assert xs == [xs[0]] + xs[1..5] + [xs[5]];
    assert xs[0] !in xs[1..5];
  }

  /** One entry of `active_captchas`. */
  datatype Session = Session(giveawayId: string, category: string, images: seq<string>,
                             correctPosition: nat, attempts: nat, maxAttempts: nat)

  /** `xs` with the entries at `i` and `j` exchanged. */
  function Swap<T>(xs: seq<T>, i: nat, j: nat): (r: seq<T>)
    requires i < |xs| && j < |xs|
    ensures |r| == |xs| && r[i] == xs[j] && r[j] == xs[i]
    ensures forall k :: 0 <= k < |xs| && k != i && k != j ==> r[k] == xs[k]
    ensures multiset(r) == multiset(xs)
  {
    xs[i := xs[j]][j := xs[i]]
  }

  /** The draws of `random.shuffle`: at index `i` it swaps with an index
      no larger than `i`. */
  ghost predicate ValidDraws(below: nat -> nat) {
    forall i: nat :: below(i) <= i
  }

  /** The Fisher–Yates passes of `random.shuffle` for indices `i` down to 1. */
  function ShuffleFrom<T>(xs: seq<T>, i: nat, below: nat -> nat): (r: seq<T>)
    requires ValidDraws(below)
    requires i < |xs|
    ensures |r| == |xs|
    ensures multiset(r) == multiset(xs)
    decreases i
  {
    if i == 0 then xs
    else ShuffleFrom(Swap(xs, i, below(i)), i - 1, below)
  }

  /** `random.shuffle`: a permutation of its input. */
  function Shuffle<T>(xs: seq<T>, below: nat -> nat): (r: seq<T>)
    requires ValidDraws(below)
    ensures |r| == |xs|
    ensures multiset(r) == multiset(xs)
  {
    if |xs| == 0 then xs else ShuffleFrom(xs, |xs| - 1, below)
  }

  /** `xs.index(x)`: the first position holding `x`. */
  function IndexOf<T(==)>(xs: seq<T>, x: T): (i: nat)
    requires x in xs
    ensures i < |xs| && xs[i] == x
    ensures forall j :: 0 <= j < i ==> xs[j] != x
  {
    if xs[0] == x then 0 else 1 + IndexOf(xs[1..], x)
  }

  /** `generate_captcha`: category number `choice` (the `random.choice`
      result), its images shuffled, the first position of the correct image
      remembered, and the user's previous session replaced. */
  function GenerateCaptcha(sessions: map<int, Session>, u: int, g: string, choice: nat, below: nat -> nat): (r: (map<int, Session>, Session))
    requires choice < |Categories|
    requires ValidDraws(below)
    ensures r.0 == sessions[u := r.1]
    ensures r.1.giveawayId == g && r.1.category == Categories[choice].name
    ensures r.1.attempts == 0 && r.1.maxAttempts == MaxAttempts
    ensures multiset(r.1.images) == multiset(Categories[choice].images)
    ensures r.1.correctPosition < |r.1.images|
    ensures r.1.images[r.1.correctPosition] == Categories[choice].images[0]
    ensures forall j :: 0 <= j < r.1.correctPosition ==> r.1.images[j] != Categories[choice].images[0]
  {
    var images := Categories[choice].images;
    var shuffled := Shuffle(images, below);
    assert images[0] in multiset(shuffled);
    var s := Session(g, Categories[choice].name, shuffled, IndexOf(shuffled, images[0]), 0, MaxAttempts);
    (sessions[u := s], s)
  }

  /** Whatever the draws, the correct image sits at two positions of a new
      captcha and only the first of them is accepted as the answer. */
  lemma SecondCopyRejected(sessions: map<int, Session>, u: int, g: string, choice: nat, below: nat -> nat)
    requires choice < |Categories|
    requires ValidDraws(below)
    ensures var s := GenerateCaptcha(sessions, u, g, choice, below).1;
      exists k :: s.correctPosition < k < |s.images| && s.images[k] == s.images[s.correctPosition]
  {
    CategoriesWellShaped();
    CorrectImageTwice(Categories[choice]);
    var s := GenerateCaptcha(sessions, u, g, choice, below).1;
    LaterCopy(s.images, s.correctPosition);
  }

  /** A value held twice whose first occurrence is at `p` occurs again
      after `p`. */
  lemma LaterCopy<T>(xs: seq<T>, p: nat)
    requires p < |xs|
    requires multiset(xs)[xs[p]] == 2
    requires forall j :: 0 <= j < p ==> xs[j] != xs[p]
    ensures exists k :: p < k < |xs| && xs[k] == xs[p]
  {
    var c := xs[p];
    assert xs == xs[..p] + [c] + xs[p + 1..];
    assert c !in xs[..p];
    assert multiset(xs[p + 1..])[c] == 1;
    var k :| 0 <= k < |xs[p + 1..]| && xs[p + 1..][k] == c;
    assert xs[p + 1 + k] == c;
  }

  datatype Button = Button(text: string, callbackData: string)

  /** `captcha_{captcha_id}_{i}`. */
  function CallbackData(captchaId: string, i: nat): string {
    "captcha_" + captchaId + "_" + Text.IntToString(i)
  }

  /** The buttons of `images` in order, with their callback data. */
  function Buttons(images: seq<string>, captchaId: string): (r: seq<Button>)
    ensures |r| == |images|
    ensures forall i :: 0 <= i < |r| ==> r[i] == Button(images[i], CallbackData(captchaId, i))
  {
    seq(|images|, i requires 0 <= i < |images| => Button(images[i], CallbackData(captchaId, i)))
  }

  function Flatten<T>(rows: seq<seq<T>>): seq<T> {
    if |rows| == 0 then [] else rows[0] + Flatten(rows[1..])
  }

  /** Buttons laid out three to a row, the last row holding whatever is
      left. */
  function Rows<T>(bs: seq<T>): (r: seq<seq<T>>)
    ensures Flatten(r) == bs
    ensures forall k :: 0 <= k < |r| ==> 1 <= |r[k]| <= 3
    ensures forall k :: 0 <= k < |r| - 1 ==> |r[k]| == 3
    ensures |r| == (|bs| + 2) / 3
    decreases |bs|
  {
    if |bs| == 0 then []
    else if |bs| <= 3 then [bs]
    else
      var rest := Rows(bs[3..]);
      var r := [bs[..3]] + rest;
      assert r[1..] == rest;
      r
  }

  /** `create_captcha_keyboard`: one button per image, in order, three to
      a row. */
  function CaptchaKeyboard(images: seq<string>, captchaId: string): (r: seq<seq<Button>>)
    ensures Flatten(r) == Buttons(images, captchaId)
    ensures forall k :: 0 <= k < |r| ==> 1 <= |r[k]| <= 3
    ensures forall k :: 0 <= k < |r| - 1 ==> |r[k]| == 3
    ensures |r| == (|images| + 2) / 3
  {
    Rows(Buttons(images, captchaId))
  }

  /** The callback data of a captcha answer, taken apart. */
  datatype Answer = BadShape | BadNumber | Answer(userId: int, giveawayId: string, position: int)

  /** The parsing half of `verify_captcha`: four `_`-separated fields, the
      first `captcha`; `int()` raising on the user or the position field. */
  function ParseAnswer(data: string): (r: Answer)
    ensures r.BadShape? <==> |Text.Split(data, '_')| != 4 || Text.Split(data, '_')[0] != "captcha"
    ensures r.Answer? ==>
      var parts := Text.Split(data, '_');
      && Text.ParseInt(parts[1]) == Some(r.userId)
      && r.giveawayId == parts[2]
      && Text.ParseInt(parts[3]) == Some(r.position)
  {
    var parts := Text.Split(data, '_');
    if |parts| != 4 || parts[0] != "captcha" then BadShape
    else match (Text.ParseInt(parts[1]), Text.ParseInt(parts[3]))
      case (Some(u), Some(p)) => Answer(u, parts[2], p)
      case _ => BadNumber
  }

  /** Round trip: the buttons `show_captcha` builds for user `u` and a
      giveaway id without `_` parse back to that user, giveaway and
      position. */
  lemma CallbackRoundTrip(u: int, g: string, i: nat)
    requires '_' !in g
    ensures ParseAnswer(CallbackData(Text.IntToString(u) + "_" + g, i)) == Answer(u, g, i)
  {
    CallbackFields(u, g, i);
    Text.IntRoundTrip(u);
    Text.IntRoundTrip(i);
  }

  /** The callback data splits into its four fields. */
  lemma CallbackFields(u: int, g: string, i: nat)
    requires '_' !in g
    ensures Text.Split(CallbackData(Text.IntToString(u) + "_" + g, i), '_')
         == ["captcha", Text.IntToString(u), g, Text.IntToString(i)]
  {
    var us := Text.IntToString(u);
    var pos := Text.IntToString(i);
    Text.IntToStringNoUnderscore(u);
    Text.IntToStringNoUnderscore(i);
    var parts := ["captcha", us, g, pos];
    JoinFour(parts, '_');
    assert Text.Join(parts, '_') == CallbackData(us + "_" + g, i);
    Text.SplitJoin(parts, '_');
  }

  lemma JoinFour(parts: seq<string>, c: char)
    requires |parts| == 4
    ensures Text.Join(parts, c) == parts[0] + [c] + parts[1] + [c] + parts[2] + [c] + parts[3]
  {
    assert Text.Join(parts[3..], c) == parts[3];
    assert Text.Join(parts[2..], c) == parts[2] + [c] + parts[3];
    assert Text.Join(parts[1..], c) == parts[1] + [c] + (parts[2] + [c] + parts[3]);
  }

  datatype Verdict = Malformed | Raised | Expired | Passed | Wrong(remaining: int) | Exhausted

  /** `verify_captcha`: only `Passed` lets the user in. The session is
      looked up by user alone; the giveaway field is parsed and ignored. */
  function VerifyCaptcha(sessions: map<int, Session>, data: string): (r: (Verdict, map<int, Session>))
    ensures r.0.Malformed? <==> ParseAnswer(data).BadShape?
    ensures r.0.Raised? <==> ParseAnswer(data).BadNumber?
    ensures r.0.Expired? <==> ParseAnswer(data).Answer? && ParseAnswer(data).userId !in sessions
    ensures r.0.Malformed? || r.0.Raised? || r.0.Expired? ==> r.1 == sessions
    ensures r.0.Passed? <==>
      var a := ParseAnswer(data);
      a.Answer? && a.userId in sessions && a.position == sessions[a.userId].correctPosition
    ensures r.0.Passed? || r.0.Exhausted? ==> r.1 == sessions - {ParseAnswer(data).userId}
    ensures r.0.Wrong? ==>
      var u := ParseAnswer(data).userId;
      && u in sessions
      && r.1 == sessions[u := sessions[u].(attempts := sessions[u].attempts + 1)]
      && r.0.remaining == sessions[u].maxAttempts - (sessions[u].attempts + 1) > 0
    ensures r.0.Exhausted? <==>
      var a := ParseAnswer(data);
      && a.Answer? && a.userId in sessions && a.position != sessions[a.userId].correctPosition
      && sessions[a.userId].attempts + 1 >= sessions[a.userId].maxAttempts
  {
    match ParseAnswer(data)
    case BadShape => (Malformed, sessions)
    case BadNumber => (Raised, sessions)
    case Answer(u, _, p) => Judge(sessions, u, p)
  }

  /** The session half of `verify_captcha`: user `u` picked position `p`. */
  function Judge(sessions: map<int, Session>, u: int, p: int): (Verdict, map<int, Session>) {
    if u !in sessions then (Expired, sessions)
    else
      var s := sessions[u];
      if p == s.correctPosition then (Passed, sessions - {u})
      else
        var attempts := s.attempts + 1;
        if attempts >= s.maxAttempts then (Exhausted, sessions - {u})
        else (Wrong(s.maxAttempts - attempts), sessions[u := s.(attempts := attempts)])
  }

  /** The answer's verdict depends on the user and the position only: the
      giveaway field of the callback data plays no part. */
  lemma GiveawayFieldIgnored(sessions: map<int, Session>, u: int, g1: string, g2: string, i: nat)
    requires '_' !in g1 && '_' !in g2
    ensures VerifyCaptcha(sessions, CallbackData(Text.IntToString(u) + "_" + g1, i))
         == VerifyCaptcha(sessions, CallbackData(Text.IntToString(u) + "_" + g2, i))
  {
    var d1 := CallbackData(Text.IntToString(u) + "_" + g1, i);
    var d2 := CallbackData(Text.IntToString(u) + "_" + g2, i);
    CallbackRoundTrip(u, g1, i);
    CallbackRoundTrip(u, g2, i);
  }

  /** Three wrong answers to a new captcha: two warnings counting down,
      then the session is dropped. */
  lemma ThreeStrikes(sessions: map<int, Session>, u: int, g: string, choice: nat, below: nat -> nat, wrong: nat)
    requires choice < |Categories|
    requires ValidDraws(below)
    requires '_' !in g
    ensures var gen := GenerateCaptcha(sessions, u, g, choice, below);
      var data := CallbackData(Text.IntToString(u) + "_" + g, wrong);
      var v1 := VerifyCaptcha(gen.0, data);
      var v2 := VerifyCaptcha(v1.1, data);
      var v3 := VerifyCaptcha(v2.1, data);
      wrong != gen.1.correctPosition ==>
        && v1.0 == Wrong(2) && v2.0 == Wrong(1) && v3.0 == Exhausted
        && u !in v3.1
  {
    var gen := GenerateCaptcha(sessions, u, g, choice, below);
    assert gen.0[u] == gen.1;
    if wrong != gen.1.correctPosition {
      WrongAnswers(gen.0, u, g, wrong);
    }
  }

  /** Three wrong answers against a session with no attempts used. */
  lemma WrongAnswers(s0: map<int, Session>, u: int, g: string, wrong: nat)
    requires u in s0 && s0[u].attempts == 0 && s0[u].maxAttempts == MaxAttempts
    requires wrong != s0[u].correctPosition
    requires '_' !in g
    ensures var data := CallbackData(Text.IntToString(u) + "_" + g, wrong);
      var v1 := VerifyCaptcha(s0, data);
      var v2 := VerifyCaptcha(v1.1, data);
      var v3 := VerifyCaptcha(v2.1, data);
      && v1.0 == Wrong(2) && v2.0 == Wrong(1) && v3.0 == Exhausted
      && u !in v3.1
  {
    var data := CallbackData(Text.IntToString(u) + "_" + g, wrong);
    CallbackRoundTrip(u, g, wrong);
    var sess := s0[u];
    var s1 := s0[u := sess.(attempts := 1)];
    var s2 := s1[u := sess.(attempts := 2)];
    assert VerifyCaptcha(s0, data) == Judge(s0, u, wrong) == (Wrong(2), s1);
    assert VerifyCaptcha(s1, data) == Judge(s1, u, wrong) == (Wrong(1), s2);
    assert VerifyCaptcha(s2, data) == Judge(s2, u, wrong) == (Exhausted, s2 - {u});
  }
}
