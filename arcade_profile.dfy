/** The pilot profile of the arcade: counters kept across games, a rank table
    over XP, and the achievements a game can unlock (the logic half of
    assets/js/arcade-profile.js; the overlay UI and storage are not modelled). */
module ArcadeProfile {
  import opened Strings

  datatype Rank = Rank(name: string, xp: int, color: string)

  /** The rank table: XP thresholds ascending from 0. */
  const Ranks: seq<Rank> := [
    Rank("Cadet", 0, "#888"),
    Rank("Pixel Scout", 500, "#44f580"),
    Rank("Neon Rider", 1500, "#00f0ff"),
    Rank("Cyber Knight", 3000, "#ff003c"),
    Rank("System Breaker", 6000, "#d300ff"),
    Rank("Void Walker", 10000, "#ffd700"),
    Rank("Arcade Legend", 20000, "#fff"),
    Rank("Hyper God", 50000, "#ff9900")
  ]

  /** The games a new profile counts, in the order `playCounts` lists them. */
  const Games: seq<string> := ["cyber-pong", "system-defense", "neon-snake", "cyber-breaker", "void-runner"]

  const FirstBlood := "first_blood"
  const HighRoller := "high_roller"
  const JackOfAll := "jack_of_all"
  const Addict := "addict"
  const VoidMaster := "void_master"
  /** Every achievement id the profile knows. */
  const Achievements: set<string> := {FirstBlood, HighRoller, JackOfAll, Addict, VoidMaster}

  predicate Ascending(table: seq<Rank>) {
    forall i, j :: 0 <= i < j < |table| ==> table[i].xp < table[j].xp
  }

  lemma RanksAscending()
    ensures Ascending(Ranks) && Ranks[0].xp == 0 && |Ranks| == 8
  {
  }

  // ---------------------------------------------------------------------------
  // Specification functions
  // ---------------------------------------------------------------------------

  /** The XP a game awards for `score`: a fifth of the score (rounded down) by
      default and for void-runner, fifty per goal in cyber-pong, two per point
      in neon-snake, a tenth (rounded down) in system-defense. */
  function XpGain(gameId: string, score: int): (gain: int)
    ensures gameId == "cyber-pong" ==> gain == 50 * score
    ensures gameId == "neon-snake" ==> gain == 2 * score
    ensures gameId == "system-defense" ==> 10 * gain <= score < 10 * gain + 10
    ensures gameId !in {"cyber-pong", "neon-snake", "system-defense"} ==> 5 * gain <= score < 5 * gain + 5
  {
    var gain := score / 5;
    var gain := if gameId == "void-runner" then score / 5 else gain;
    var gain := if gameId == "cyber-pong" then score * 50 else gain;
    var gain := if gameId == "neon-snake" then score * 2 else gain;
    if gameId == "system-defense" then score / 10 else gain
  }

  /** The XP computation of `reportGame`: a default, then the per-game
      rules, each overriding the one before. */
  method ComputeXpGain(gameId: string, score: int) returns (gain: int)
    ensures gain == XpGain(gameId, score)
  {
    gain := score / 5;
    if gameId == "void-runner" {
      gain := score / 5;
    }
    if gameId == "cyber-pong" {
      gain := score * 50;
    }
    if gameId == "neon-snake" {
      gain := score * 2;
    }
    if gameId == "system-defense" {
      gain := score / 10;
    }
  }

  /** The best score stored for a game after playing `score`: a missing or
      zero best is replaced, a non-zero one only by a higher score. */
  function NewBest(scores: map<string, int>, gameId: string, score: int): int {
    if gameId !in scores || scores[gameId] == 0 || score > scores[gameId] then score
    else scores[gameId]
  }

  /** The stored best is the maximum of the old best and the new score, except
      that an absent or zero best counts as no best at all. */
  lemma NewBestIsMax(scores: map<string, int>, gameId: string, score: int)
    ensures gameId !in scores || scores[gameId] == 0 ==> NewBest(scores, gameId, score) == score
    ensures gameId in scores && scores[gameId] != 0 ==>
      NewBest(scores, gameId, score) >= scores[gameId] &&
      NewBest(scores, gameId, score) >= score &&
      (NewBest(scores, gameId, score) == score || NewBest(scores, gameId, score) == scores[gameId])
  {
  }

  /** `playCounts[g] || 0` */
  function PlayCount(counts: map<string, int>, g: string): int {
    if g in counts then counts[g] else 0
  }

  /** Index of the first key whose count is maximal, when some count is
      positive; -1 when none is. */
  function FirstMaxIndex(order: seq<string>, counts: map<string, int>): (i: int)
    requires forall k :: 0 <= k < |order| ==> order[k] in counts
    ensures -1 <= i < |order|
    ensures i == -1 ==> forall j :: 0 <= j < |order| ==> counts[order[j]] <= 0
    ensures i >= 0 ==> counts[order[i]] > 0
    ensures i >= 0 ==> forall j :: 0 <= j < |order| ==> counts[order[j]] <= counts[order[i]]
    ensures i >= 0 ==> forall j :: 0 <= j < i ==> counts[order[j]] < counts[order[i]]
    decreases |order|
  {
    if order == [] then -1
    else
      var k := FirstMaxIndex(order[..|order| - 1], counts);
      var last := counts[order[|order| - 1]];
      if last > 0 && (k == -1 || last > counts[order[k]]) then |order| - 1 else k
  }

  /** How the favourite game is shown: its first `-` becomes a space and the
      name is upper-cased. */
  function DisplayName(g: string): string {
    Upper(ReplaceFirst(g, "-", " "))
  }

  /** A game id `a-b` with no dash in `a` shows as `A B`; later dashes stay. */
  lemma {:induction false} DisplayNameSplit(a: string, b: string)
    requires '-' !in a
    ensures DisplayName(a + "-" + b) == Upper(a) + " " + Upper(b)
  {
    ContainsChar(a, '-');
    assert a + "-"[..0] == a;
    ReplaceFirstSplit(a, "-", b, " ");
    UpperAppend(a + " ", b);
    UpperAppend(a, " ");
  }

  /** The favourite after the scan of `playCounts`: the first most-played
      game, or the old favourite when no game has been played. */
  function Favorite(order: seq<string>, counts: map<string, int>, current: string): string
    requires forall k :: 0 <= k < |order| ==> order[k] in counts
  {
    var i := FirstMaxIndex(order, counts);
    if i == -1 then current else DisplayName(order[i])
  }

  /** No game in `playCounts` has a count of 0. */
  predicate AllPlayed(order: seq<string>, counts: map<string, int>)
    requires forall k :: 0 <= k < |order| ==> order[k] in counts
  {
    forall k :: 0 <= k < |order| ==> counts[order[k]] != 0
  }

  /** `unlock(id)`: append `id` unless it is already unlocked. */
  function Unlocked(ach: seq<string>, id: string): (r: seq<string>)
    ensures ach <= r
    ensures Distinct(ach) ==> Distinct(r)
    ensures forall x :: x in r <==> x in ach || x == id
  {
    if id in ach then ach else ach + [id]
  }

  /** One check of `checkUnlockables`: unlock `id` when `cond` holds. */
  function UnlockIf(ach: seq<string>, cond: bool, id: string): (r: seq<string>)
    ensures ach <= r
    ensures Distinct(ach) ==> Distinct(r)
    ensures forall x :: x in r <==> x in ach || (cond && x == id)
  {
    if cond then Unlocked(ach, id) else ach
  }

  /** The achievement list after the checks of `checkUnlockables`, tried in
      the order the source tries them. */
  function AfterChecks(ach: seq<string>, gameId: string, score: int, gamesPlayed: int, allPlayed: bool): seq<string> {
    var a := Unlocked(ach, FirstBlood);
    var a := UnlockIf(a, score >= 1000, HighRoller);
    var a := UnlockIf(a, gamesPlayed >= 50, Addict);
    var a := UnlockIf(a, gameId == "void-runner" && score >= 5000, VoidMaster);
    UnlockIf(a, allPlayed, JackOfAll)
  }

  /** The checks only append to the list, and never add an id twice. */
  lemma {:induction false} AfterChecksGrows(ach: seq<string>, gameId: string, score: int, gamesPlayed: int, allPlayed: bool)
    ensures var r := AfterChecks(ach, gameId, score, gamesPlayed, allPlayed);
      ach <= r && (Distinct(ach) ==> Distinct(r))
  {
    var a1 := Unlocked(ach, FirstBlood);
    var a2 := UnlockIf(a1, score >= 1000, HighRoller);
    var a3 := UnlockIf(a2, gamesPlayed >= 50, Addict);
    var a4 := UnlockIf(a3, gameId == "void-runner" && score >= 5000, VoidMaster);
    var a5 := UnlockIf(a4, allPlayed, JackOfAll);
    PrefixTrans(ach, a1, a2);
    PrefixTrans(ach, a2, a3);
    PrefixTrans(ach, a3, a4);
    PrefixTrans(ach, a4, a5);
  }

  lemma PrefixTrans(a: seq<string>, b: seq<string>, c: seq<string>)
    requires a <= b && b <= c
    ensures a <= c
  {
  }

  /** What the checks unlock: `first_blood` always, each other achievement
      exactly when its condition holds (or it was unlocked before). */
  lemma {:induction false} UnlockConditions(ach: seq<string>, gameId: string, score: int, gamesPlayed: int, allPlayed: bool)
    ensures var r := AfterChecks(ach, gameId, score, gamesPlayed, allPlayed);
      FirstBlood in r &&
      (HighRoller in r <==> HighRoller in ach || score >= 1000) &&
      (Addict in r <==> Addict in ach || gamesPlayed >= 50) &&
      (VoidMaster in r <==> VoidMaster in ach || (gameId == "void-runner" && score >= 5000)) &&
      (JackOfAll in r <==> JackOfAll in ach || allPlayed)
  {
    var a1 := Unlocked(ach, FirstBlood);
    var a2 := UnlockIf(a1, score >= 1000, HighRoller);
    var a3 := UnlockIf(a2, gamesPlayed >= 50, Addict);
    var a4 := UnlockIf(a3, gameId == "void-runner" && score >= 5000, VoidMaster);
    var a5 := UnlockIf(a4, allPlayed, JackOfAll);
    assert FirstBlood in a5;
  }

  /** The checks unlock no id outside the five achievements. */
  lemma {:induction false} AfterChecksKnown(ach: seq<string>, gameId: string, score: int, gamesPlayed: int, allPlayed: bool)
    ensures forall x :: x in AfterChecks(ach, gameId, score, gamesPlayed, allPlayed) ==> x in ach || x in Achievements
  {
    var a1 := Unlocked(ach, FirstBlood);
    var a2 := UnlockIf(a1, score >= 1000, HighRoller);
    var a3 := UnlockIf(a2, gamesPlayed >= 50, Addict);
    var a4 := UnlockIf(a3, gameId == "void-runner" && score >= 5000, VoidMaster);
    var a5 := UnlockIf(a4, allPlayed, JackOfAll);
    forall x | x in a5 && x !in ach ensures x in Achievements {
      assert x == FirstBlood || x == HighRoller || x == Addict || x == VoidMaster || x == JackOfAll;
    }
  }

  /** Index of the last table entry whose threshold `xp` reaches, or -1. */
  function LastReached(xp: int, table: seq<Rank>): (i: int)
    ensures -1 <= i < |table|
    ensures i >= 0 ==> table[i].xp <= xp
    ensures forall j :: i < j < |table| ==> xp < table[j].xp
    decreases |table|
  {
    if table == [] then -1
    else if xp >= table[|table| - 1].xp then |table| - 1
    else LastReached(xp, table[..|table| - 1])
  }

  /** With ascending thresholds starting at 0, every non-negative XP falls in
      exactly one bracket of the table. */
  lemma RankBracket(xp: int)
    requires xp >= 0
    ensures 0 <= LastReached(xp, Ranks) < |Ranks|
    ensures Ranks[LastReached(xp, Ranks)].xp <= xp
    ensures LastReached(xp, Ranks) + 1 < |Ranks| ==> xp < Ranks[LastReached(xp, Ranks) + 1].xp
  {
    RanksAscending();
  }

  /** More XP never gives a lower rank. */
  lemma {:induction false} RankMonotone(x: int, y: int, table: seq<Rank>)
    requires x <= y
    ensures LastReached(x, table) <= LastReached(y, table)
  {
    var i := LastReached(x, table);
    if i >= 0 {
      assert table[i].xp <= y;
    }
  }

  // ---------------------------------------------------------------------------
  // The loops of reportGame, checkUnlockables and updateRank
  // ---------------------------------------------------------------------------

  /** The favourite-game loop of `reportGame`. */
  method ScanFavorite(order: seq<string>, counts: map<string, int>, current: string) returns (fav: string)
    requires forall k :: 0 <= k < |order| ==> order[k] in counts
    ensures fav == Favorite(order, counts, current)
  {
    var maxPlays := 0;
    fav := current;
    ghost var best := -1;
    for k := 0 to |order|
      invariant best == FirstMaxIndex(order[..k], counts)
      invariant best == -1 ==> maxPlays == 0 && fav == current
      invariant best >= 0 ==> maxPlays == counts[order[best]] && fav == DisplayName(order[best])
    {
      assert order[..k + 1][..k] == order[..k];
      var g := order[k];
      if counts[g] > maxPlays {
        maxPlays := counts[g];
        fav := DisplayName(g);
        best := k;
      }
    }
    assert order[..|order|] == order;
  }

  /** The `allPlayed` loop of `checkUnlockables`. */
  method ScanAllPlayed(order: seq<string>, counts: map<string, int>) returns (all: bool)
    requires forall k :: 0 <= k < |order| ==> order[k] in counts
    ensures all == AllPlayed(order, counts)
  {
    all := true;
    for k := 0 to |order|
      invariant all <==> forall j :: 0 <= j < k ==> counts[order[j]] != 0
    {
      if counts[order[k]] == 0 {
        all := false;
      }
    }
  }

  /** The loop of `updateRank`: the last rank whose threshold `xp` reaches,
      or the current index when it reaches none. */
  method ScanRank(xp: int, current: nat) returns (idx: nat)
    ensures LastReached(xp, Ranks) >= 0 ==> idx == LastReached(xp, Ranks)
    ensures LastReached(xp, Ranks) == -1 ==> idx == current
  {
    idx := current;
    for i := 0 to |Ranks|
      invariant LastReached(xp, Ranks[..i]) >= 0 ==> idx == LastReached(xp, Ranks[..i])
      invariant LastReached(xp, Ranks[..i]) == -1 ==> idx == current
    {
      assert Ranks[..i + 1][..i] == Ranks[..i];
      if xp >= Ranks[i].xp {
        idx := i;
      }
    }
    assert Ranks[..|Ranks|] == Ranks;
  }

  // ---------------------------------------------------------------------------
  // The profile record and the steps of reportGame
  // ---------------------------------------------------------------------------

  /** The profile record `data`. `gameOrder` lists the keys of `playCounts`
      in their insertion order, which is the order `for ... in` visits keys
      that are not integer-like. */
  datatype State = State(
    xp: int,
    rankIndex: nat,
    gamesPlayed: nat,
    totalScore: int,
    favoriteGame: string,
    scores: map<string, int>,
    gameOrder: seq<string>,
    playCounts: map<string, int>,
    achievements: seq<string>)

  /** The invariant the profile keeps: a valid rank index, the play-count
      keys listed once each in `gameOrder`, and no achievement twice. */
  predicate ValidState(s: State) {
    s.rankIndex < |Ranks| &&
    Distinct(s.gameOrder) &&
    (forall g :: g in s.playCounts ==> g in s.gameOrder) &&
    (forall g :: g in s.gameOrder ==> g in s.playCounts) &&
    Distinct(s.achievements)
  }

  /** The profile a new pilot starts with. */
  function Initial(): (s: State)
    ensures ValidState(s)
  {
    State(0, 0, 0, 0, "None", map g | g in Games :: 0, Games, map g | g in Games :: 0, [])
  }

  /** The bookkeeping at the start of `reportGame`: one more game, the score
      added to the total, the best score and the play count of `gameId`
      updated, a game seen for the first time appended to the key order. */
  function RecordGame(s: State, gameId: string, score: int): (r: State)
    ensures ValidState(s) ==> ValidState(r)
  {
    s.(gamesPlayed := s.gamesPlayed + 1,
       totalScore := s.totalScore + score,
       scores := s.scores[gameId := NewBest(s.scores, gameId, score)],
       gameOrder := if gameId in s.playCounts then s.gameOrder else s.gameOrder + [gameId],
       playCounts := s.playCounts[gameId := PlayCount(s.playCounts, gameId) + 1])
  }

  /** The favourite-game step: the most played game (first among equals),
      when some game has been played. */
  function WithFavorite(s: State): (r: State)
    requires ValidState(s)
    ensures ValidState(r)
  {
    s.(favoriteGame := Favorite(s.gameOrder, s.playCounts, s.favoriteGame))
  }

  function WithXp(s: State, gameId: string, score: int): (r: State)
    ensures ValidState(s) ==> ValidState(r)
  {
    s.(xp := s.xp + XpGain(gameId, score))
  }

  /** `checkUnlockables(gameId, score)` */
  function WithChecks(s: State, gameId: string, score: int): (r: State)
    requires ValidState(s)
    ensures ValidState(r)
  {
    AfterChecksGrows(s.achievements, gameId, score, s.gamesPlayed, AllPlayed(s.gameOrder, s.playCounts));
    s.(achievements := AfterChecks(s.achievements, gameId, score, s.gamesPlayed, AllPlayed(s.gameOrder, s.playCounts)))
  }

  /** `updateRank()`: the last rank reached, or the old index if none is. */
  function WithRank(s: State): (r: State)
    ensures ValidState(s) ==> ValidState(r)
  {
    var i := LastReached(s.xp, Ranks);
    s.(rankIndex := if i >= 0 then i else s.rankIndex)
  }

  /** `reportGame(gameId, score)` as a whole, up to `save`. */
  function Reported(s: State, gameId: string, score: int): (r: State)
    requires ValidState(s)
    ensures ValidState(r)
  {
    WithRank(WithChecks(WithXp(WithFavorite(RecordGame(s, gameId, score)), gameId, score), gameId, score))
  }

  /** What one reported game does to the counters: one more game, the score
      added, one more play of `gameId`, which is now a known key, and the XP
      of the game added. */
  lemma ReportedCounters(s: State, gameId: string, score: int)
    requires ValidState(s)
    ensures var r := Reported(s, gameId, score);
      r.gamesPlayed == s.gamesPlayed + 1 &&
      r.totalScore == s.totalScore + score &&
      r.playCounts == s.playCounts[gameId := PlayCount(s.playCounts, gameId) + 1] &&
      gameId in r.gameOrder &&
      r.xp == s.xp + XpGain(gameId, score)
  {
    var s1 := RecordGame(s, gameId, score);
    var s2 := WithFavorite(s1);
    var s3 := WithXp(s2, gameId, score);
    var s4 := WithChecks(s3, gameId, score);
    assert s2.gamesPlayed == s1.gamesPlayed && s2.totalScore == s1.totalScore;
    assert s2.playCounts == s1.playCounts && s2.gameOrder == s1.gameOrder && s2.xp == s.xp;
    assert s4.gamesPlayed == s1.gamesPlayed && s4.totalScore == s1.totalScore;
    assert s4.playCounts == s1.playCounts && s4.gameOrder == s1.gameOrder && s4.xp == s3.xp;
  }

  /** After a reported game the rank matches the XP, every old achievement is
      kept and `first_blood` is unlocked. */
  lemma {:induction false} ReportedRankAndAchievements(s: State, gameId: string, score: int)
    requires ValidState(s)
    ensures var r := Reported(s, gameId, score);
      (r.xp >= 0 ==> r.rankIndex == LastReached(r.xp, Ranks) && Ranks[r.rankIndex].xp <= r.xp) &&
      s.achievements <= r.achievements &&
      FirstBlood in r.achievements
  {
    var s3 := WithXp(WithFavorite(RecordGame(s, gameId, score)), gameId, score);
    var allPlayed := AllPlayed(s3.gameOrder, s3.playCounts);
    var s4 := WithChecks(s3, gameId, score);
    var r := WithRank(s4);
    assert r == Reported(s, gameId, score);
    assert s4.xp == s3.xp && r.xp == s3.xp && r.achievements == s4.achievements;
    assert s.achievements <= s3.achievements;
    AfterChecksGrows(s3.achievements, gameId, score, s3.gamesPlayed, allPlayed);
    UnlockConditions(s3.achievements, gameId, score, s3.gamesPlayed, allPlayed);
    if s3.xp >= 0 {
      RankBracket(s3.xp);
    }
  }

  /** A higher score never lowers the stored best, and the best is at least
      the score just played. */
  lemma ReportedBest(s: State, gameId: string, score: int)
    requires ValidState(s)
    ensures var r := Reported(s, gameId, score);
      gameId in r.scores && r.scores[gameId] >= score &&
      (gameId in s.scores && s.scores[gameId] != 0 ==> r.scores[gameId] >= s.scores[gameId]) &&
      (forall g :: g in s.scores && g != gameId ==> g in r.scores && r.scores[g] == s.scores[g])
  {
  }

  /** What `getHitRate` returns: the number 0 before any game, else a whole
      percentage shown with a `%` sign. */
  datatype HitRate = Zero | Percent(value: int)

  /** The `ArcadeProfile` object: its `data` record is updated in place by
      the game hooks. */
  class Profile {
    var data: State

    ghost predicate Valid()
      reads this
    {
      ValidState(data)
    }

    constructor ()
      ensures Valid()
      ensures data == Initial()
    {
      data := Initial();
    }

    /** `getHitRate`: the average score per game over ten, rounded down and
        capped at 100. */
    function GetHitRate(): (h: HitRate)
      reads this
      ensures h == Zero <==> data.gamesPlayed == 0
      ensures h.Percent? ==> h.value <= 100 && (data.totalScore >= 0 ==> h.value >= 0)
      ensures h.Percent? && h.value < 100 ==>
        h.value * (10 * data.gamesPlayed) <= data.totalScore < (h.value + 1) * (10 * data.gamesPlayed)
      ensures h.Percent? && h.value == 100 ==> 100 * (10 * data.gamesPlayed) <= data.totalScore
    {
      if data.gamesPlayed == 0 then Zero
      else
        var skill := data.totalScore / data.gamesPlayed / 10;
        FloorOfQuotient(data.totalScore, data.gamesPlayed);
        Percent(if skill < 100 then skill else 100)
    }

    /** `unlock(id)` inside `checkUnlockables`. */
    method Unlock(id: string)
      modifies this
      ensures data == old(data).(achievements := Unlocked(old(data).achievements, id))
    {
      if id !in data.achievements {
        data := data.(achievements := data.achievements + [id]);
      }
    }

    /** `if (cond) unlock(id);` */
    method UnlockWhen(cond: bool, id: string)
      modifies this
      ensures data == old(data).(achievements := UnlockIf(old(data).achievements, cond, id))
    {
      if cond {
        Unlock(id);
      }
    }

    /** `checkUnlockables(gameId, score)` */
    method CheckUnlockables(gameId: string, score: int)
      requires Valid()
      modifies this
      ensures data == WithChecks(old(data), gameId, score)
    {
      Unlock(FirstBlood);
      UnlockWhen(score >= 1000, HighRoller);
      UnlockWhen(data.gamesPlayed >= 50, Addict);
      UnlockWhen(gameId == "void-runner" && score >= 5000, VoidMaster);
      var allPlayed := ScanAllPlayed(data.gameOrder, data.playCounts);
      UnlockWhen(allPlayed, JackOfAll);
    }

    /** `updateRank`, also run by `save`. */
    method UpdateRank()
      modifies this
      ensures data == WithRank(old(data))
    {
      var idx := ScanRank(data.xp, data.rankIndex);
      data := data.(rankIndex := idx);
    }

    /** The bookkeeping at the start of `reportGame`. */
    method Record(gameId: string, score: int)
      modifies this
      ensures data == RecordGame(old(data), gameId, score)
    {
      data := data.(gamesPlayed := data.gamesPlayed + 1);
      data := data.(totalScore := data.totalScore + score);
      if gameId !in data.scores || data.scores[gameId] == 0 || score > data.scores[gameId] {
        data := data.(scores := data.scores[gameId := score]);
      }
      if gameId !in data.playCounts {
        data := data.(gameOrder := data.gameOrder + [gameId]);
      }
      data := data.(playCounts := data.playCounts[gameId := PlayCount(data.playCounts, gameId) + 1]);
    }

    /** The favourite-game loop of `reportGame`. */
    method UpdateFavorite()
      requires Valid()
      modifies this
      ensures data == WithFavorite(old(data))
    {
      var fav := ScanFavorite(data.gameOrder, data.playCounts, data.favoriteGame);
      data := data.(favoriteGame := fav);
    }

    /** The XP step of `reportGame`. */
    method AddXp(gameId: string, score: int)
      modifies this
      ensures data == WithXp(old(data), gameId, score)
    {
      var gain := ComputeXpGain(gameId, score);
      data := data.(xp := data.xp + gain);
    }

    /** `reportGame(gameId, score)`: record the game, recompute the favourite,
        add the XP, check the achievements and save, which updates the rank. */
    method ReportGame(gameId: string, score: int)
      requires Valid()
      modifies this
      ensures Valid()
      ensures data == Reported(old(data), gameId, score)
    {
      Record(gameId, score);
      UpdateFavorite();
      AddXp(gameId, score);
      CheckUnlockables(gameId, score);
      UpdateRank();
    }
  }

  /** Rounding `t / g / 10` down twice is rounding `t / (10 * g)` down once. */
  lemma FloorOfQuotient(t: int, g: int)
    requires g > 0
    ensures (t / g / 10) * (10 * g) <= t < (t / g / 10 + 1) * (10 * g)
  {
    var q1, r1 := t / g, t % g;
    var q2, r2 := q1 / 10, q1 % 10;
    assert t == g * q1 + r1 && 0 <= r1 < g;
    assert q1 == 10 * q2 + r2 && 0 <= r2 <= 9;
    MulBound(g, r2);
    calc {
      t;
    ==
      g * (10 * q2 + r2) + r1;
    ==
      q2 * (10 * g) + (g * r2 + r1);
    }
    assert 0 <= g * r2 + r1 < 10 * g;
    assert (q2 + 1) * (10 * g) == q2 * (10 * g) + 10 * g;
  }

  lemma MulBound(g: int, r: int)
    requires g > 0 && 0 <= r <= 9
    ensures 0 <= g * r <= 9 * g
  {
  }
}
