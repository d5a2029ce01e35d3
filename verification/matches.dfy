/**
 The match registry of the live-score ticker (`MatchDataManager`): a map from
 string keys to match records, kept together with the insertion order of its
 keys, as a JavaScript `Map` keeps it.

 The two `Math.random()` draws of a score simulation are explicit arguments.
 */
module MatchData {
  import opened Wrappers

  /** One match record. `status` is free text: the ticker only reacts to "live". */
  datatype Match = Match(
    home: string,
    away: string,
    homeScore: int,
    awayScore: int,
    status: string,
    minute: int,
    competition: string)

  /** The fields a caller hands to `updateMatch`; `None` means the field is absent
      from the update object, so `Object.assign` leaves it alone. */
  datatype MatchUpdate = MatchUpdate(
    home: Option<string>,
    away: Option<string>,
    homeScore: Option<int>,
    awayScore: Option<int>,
    status: Option<string>,
    minute: Option<int>,
    competition: Option<string>)

  /** The empty update object `{}`. */
  const NoChange: MatchUpdate := MatchUpdate(None, None, None, None, None, None, None)

  /** The update object that carries every field of `m` (passing a record to `updateMatch`). */
  function FullUpdate(m: Match): MatchUpdate {
    MatchUpdate(Some(m.home), Some(m.away), Some(m.homeScore), Some(m.awayScore),
                Some(m.status), Some(m.minute), Some(m.competition))
  }

  /** `Object.assign(m, u)`: every supplied field overwrites, every other field is kept. */
  function Merge(m: Match, u: MatchUpdate): (r: Match)
    ensures r.home == u.home.GetOr(m.home)
    ensures r.away == u.away.GetOr(m.away)
    ensures r.homeScore == u.homeScore.GetOr(m.homeScore)
    ensures r.awayScore == u.awayScore.GetOr(m.awayScore)
    ensures r.status == u.status.GetOr(m.status)
    ensures r.minute == u.minute.GetOr(m.minute)
    ensures r.competition == u.competition.GetOr(m.competition)
  {
    Match(u.home.GetOr(m.home), u.away.GetOr(m.away),
          u.homeScore.GetOr(m.homeScore), u.awayScore.GetOr(m.awayScore),
          u.status.GetOr(m.status), u.minute.GetOr(m.minute),
          u.competition.GetOr(m.competition))
  }

  /** Two successive `Object.assign` calls as one: the later update wins field by field. */
  function Then(first: MatchUpdate, second: MatchUpdate): MatchUpdate {
    MatchUpdate(
      if second.home.Some? then second.home else first.home,
      if second.away.Some? then second.away else first.away,
      if second.homeScore.Some? then second.homeScore else first.homeScore,
      if second.awayScore.Some? then second.awayScore else first.awayScore,
      if second.status.Some? then second.status else first.status,
      if second.minute.Some? then second.minute else first.minute,
      if second.competition.Some? then second.competition else first.competition)
  }

  /** The empty update changes nothing; a full update replaces the record;
      merging a record into itself is the identity. */
  lemma MergeUnits(m: Match, n: Match)
    ensures Merge(m, NoChange) == m
    ensures Merge(m, FullUpdate(n)) == n
    ensures Merge(m, FullUpdate(m)) == m
  {
  }

  /** Merging is associative with `Then`, and merging the same update twice is merging it once. */
  lemma MergeThen(m: Match, first: MatchUpdate, second: MatchUpdate)
    ensures Merge(Merge(m, first), second) == Merge(m, Then(first, second))
    ensures Merge(Merge(m, first), first) == Merge(m, first)
  {
  }

  /** The registry: records by key, and the keys in insertion order. */
  datatype Registry = Registry(matches: map<string, Match>, order: seq<string>)

  /** Representation invariant: `order` lists every key of `matches` exactly once. */
  ghost predicate Valid(reg: Registry) {
    && (forall i, j :: 0 <= i < j < |reg.order| ==> reg.order[i] != reg.order[j])
    && (forall k :: k in reg.matches <==> k in reg.order)
  }

  /** What a registry operation leaves behind and what it hands back (`null` is `None`). */
  datatype Outcome = Outcome(registry: Registry, result: Option<Match>)

  /** The two seed fixtures, with placeholder team and competition names. */
  function InitializeMatches(): (reg: Registry)
    ensures Valid(reg)
    ensures |reg.matches| == 2
    ensures reg.order == ["liverpool-city", "saudi-egypt"]
    ensures "liverpool-city" in reg.matches
    ensures var m := reg.matches["liverpool-city"];
      m.homeScore == 1 && m.awayScore == 1 && m.status == "live" && m.minute == 67
    ensures "saudi-egypt" in reg.matches
    ensures var m := reg.matches["saudi-egypt"];
      m.homeScore == 0 && m.awayScore == 0 && m.status == "scheduled" && m.minute == 0
  {
    var liverpoolCity := Match("Liverpool", "Manchester City", 1, 1, "live", 67, "Premier League");
    var saudiEgypt := Match("Saudi Arabia", "Egypt", 0, 0, "scheduled", 0, "Arab Cup");
    var reg := Registry(map["liverpool-city" := liverpoolCity, "saudi-egypt" := saudiEgypt],
                        ["liverpool-city", "saudi-egypt"]);
    assert reg.matches.Keys == {"liverpool-city", "saudi-egypt"};
    reg
  }

  /** `getMatch`: the record under `key`, or `undefined`. */
  function GetMatch(reg: Registry, key: string): (r: Option<Match>)
    ensures r.Some? <==> key in reg.matches
    ensures r.Some? ==> r.value == reg.matches[key]
  {
    if key in reg.matches then Some(reg.matches[key]) else None
  }

  /** A sequence without repetitions has as many distinct elements as it is long. */
  lemma {:induction false} DistinctCardinality<T>(s: seq<T>)
    requires forall i, j :: 0 <= i < j < |s| ==> s[i] != s[j]
    ensures |set x | x in s| == |s|
  {
    if s != [] {
      var tail := s[1..];
      assert forall i, j :: 0 <= i < j < |tail| ==> tail[i] != tail[j] by {
        forall i, j | 0 <= i < j < |tail| ensures tail[i] != tail[j] {
          assert tail[i] == s[i + 1] && tail[j] == s[j + 1];
        }
      }
      DistinctCardinality(tail);
      assert s[0] !in tail by {
        forall j | 0 <= j < |tail| ensures tail[j] != s[0] {
          assert tail[j] == s[j + 1];
        }
      }
      assert (set x | x in s) == {s[0]} + (set x | x in tail) by {
        assert s == [s[0]] + tail;
      }
    }
  }

  /** `getAllMatches`: every record once, in the insertion order of the keys. */
  function GetAllMatches(reg: Registry): (r: seq<Match>)
    requires Valid(reg)
    ensures |r| == |reg.order| == |reg.matches|
    ensures forall i :: 0 <= i < |reg.order| ==> reg.order[i] in reg.matches && r[i] == reg.matches[reg.order[i]]
    ensures forall k :: k in reg.matches ==> reg.matches[k] in r
  {
    DistinctCardinality(reg.order);
    assert reg.matches.Keys == set x | x in reg.order;
    var r := seq(|reg.order|, i requires 0 <= i < |reg.order| => reg.matches[reg.order[i]]);
    assert forall k :: k in reg.matches ==> reg.matches[k] in r by {
      forall k | k in reg.matches ensures reg.matches[k] in r {
        var i :| 0 <= i < |reg.order| && reg.order[i] == k;
        assert r[i] == reg.matches[k];
      }
    }
    r
  }

  /** `updateMatch`: merge `u` into the record under `key`, or report `null` and change nothing. */
  function UpdateMatch(reg: Registry, key: string, u: MatchUpdate): (out: Outcome)
    ensures key !in reg.matches ==> out == Outcome(reg, None)
    ensures key in reg.matches ==>
      && out.result == Some(Merge(reg.matches[key], u))
      && out.registry.order == reg.order
      && out.registry.matches.Keys == reg.matches.Keys
      && out.registry.matches[key] == out.result.value
      && (forall k :: k in reg.matches && k != key ==> out.registry.matches[k] == reg.matches[k])
    ensures Valid(reg) ==> Valid(out.registry)
  {
    if key in reg.matches then
      var merged := Merge(reg.matches[key], u);
      Outcome(reg.(matches := reg.matches[key := merged]), Some(merged))
    else
      Outcome(reg, None)
  }

  /** Reading after `updateMatch`: the updated key yields the merged record, every other
      key yields what it yielded before. */
  lemma GetAfterUpdate(reg: Registry, key: string, other: string, u: MatchUpdate)
    ensures GetMatch(UpdateMatch(reg, key, u).registry, other)
      == if other == key && key in reg.matches then Some(Merge(reg.matches[key], u))
         else GetMatch(reg, other)
  {
  }

  /** The first draw: `Math.random() > 0.5` gives the goal to the home side. */
  predicate HomeScores(sideDraw: real) {
    sideDraw > 0.5
  }

  /** The second draw: `Math.floor(Math.random() * 5) + 1` minutes elapse. */
  function MinuteAdvance(minuteDraw: real): (d: int)
    requires 0.0 <= minuteDraw < 1.0
    ensures 1 <= d <= 5
  {
    (minuteDraw * 5.0).Floor + 1
  }

  /** Every advance from 1 to 5 minutes is produced by some draw. */
  lemma MinuteAdvanceCovers(d: int)
    requires 1 <= d <= 5
    ensures var draw := (d - 1) as real / 5.0; 0.0 <= draw < 1.0 && MinuteAdvance(draw) == d
  {
    var draw := (d - 1) as real / 5.0;
    assert draw * 5.0 == (d - 1) as real;
  }

  /** The simulation applies only to a present record whose status is "live". */
  predicate IsLive(reg: Registry, key: string) {
    key in reg.matches && reg.matches[key].status == "live"
  }

  /** `simulateScoreUpdate`: one goal to one side and 1 to 5 more minutes for a live match,
      written back through `updateMatch`; otherwise `null` and no change. */
  function SimulateScoreUpdate(reg: Registry, key: string, sideDraw: real, minuteDraw: real): (out: Outcome)
    requires 0.0 <= sideDraw < 1.0 && 0.0 <= minuteDraw < 1.0
    ensures !IsLive(reg, key) ==> out == Outcome(reg, None)
    ensures IsLive(reg, key) ==>
      var before := reg.matches[key];
      && out.result.Some?
      && var after := out.result.value;
      && out.registry == Registry(reg.matches[key := after], reg.order)
      && after.homeScore + after.awayScore == before.homeScore + before.awayScore + 1
      && (if HomeScores(sideDraw)
          then after.homeScore == before.homeScore + 1 && after.awayScore == before.awayScore
          else after.awayScore == before.awayScore + 1 && after.homeScore == before.homeScore)
      && before.minute + 1 <= after.minute <= before.minute + 5
      && after.home == before.home && after.away == before.away
      && after.status == before.status && after.competition == before.competition
    ensures Valid(reg) ==> Valid(out.registry)
  {
    if IsLive(reg, key) then
      var current := reg.matches[key];
      var scored :=
        if HomeScores(sideDraw) then current.(homeScore := current.homeScore + 1)
        else current.(awayScore := current.awayScore + 1);
      var advanced := scored.(minute := scored.minute + MinuteAdvance(minuteDraw));
      var written := UpdateMatch(reg, key, FullUpdate(advanced));
      Outcome(written.registry, Some(advanced))
    else
      Outcome(reg, None)
  }

  /** The pair of random draws behind one simulation step. */
  datatype Draw = Draw(side: real, minute: real)

  predicate IsDraw(d: Draw) {
    0.0 <= d.side < 1.0 && 0.0 <= d.minute < 1.0
  }

  /** The ticker calling `simulateScoreUpdate(key)` once per draw, in order. */
  function SimulateMany(reg: Registry, key: string, draws: seq<Draw>): Registry
    requires forall i :: 0 <= i < |draws| ==> IsDraw(draws[i])
    decreases |draws|
  {
    if |draws| == 0 then reg
    else
      assert IsDraw(draws[0]);
      var step := SimulateScoreUpdate(reg, key, draws[0].side, draws[0].minute);
      SimulateMany(step.registry, key, draws[1..])
  }

  /** Repeated simulation of a live match: it stays live, the goal total grows by exactly
      the number of calls, the clock by between one and five minutes per call, and no
      other record and no key changes. */
  lemma {:induction false} SimulateManyLive(reg: Registry, key: string, draws: seq<Draw>)
    requires IsLive(reg, key)
    requires forall i :: 0 <= i < |draws| ==> IsDraw(draws[i])
    ensures var after := SimulateMany(reg, key, draws);
      && IsLive(after, key)
      && after.order == reg.order
      && after.matches.Keys == reg.matches.Keys
      && (forall k :: k in reg.matches && k != key ==> after.matches[k] == reg.matches[k])
      && after.matches[key].homeScore + after.matches[key].awayScore
         == reg.matches[key].homeScore + reg.matches[key].awayScore + |draws|
      && after.matches[key].homeScore >= reg.matches[key].homeScore
      && after.matches[key].awayScore >= reg.matches[key].awayScore
      && reg.matches[key].minute + |draws| <= after.matches[key].minute
      && after.matches[key].minute <= reg.matches[key].minute + 5 * |draws|
    decreases |draws|
  {
    if draws != [] {
      var step := SimulateScoreUpdate(reg, key, draws[0].side, draws[0].minute);
      SimulateManyLive(step.registry, key, draws[1..]);
    }
  }

  /** A match that is not live is never touched, however often the ticker fires. */
  lemma {:induction false} SimulateManyNotLive(reg: Registry, key: string, draws: seq<Draw>)
    requires !IsLive(reg, key)
    requires forall i :: 0 <= i < |draws| ==> IsDraw(draws[i])
    ensures SimulateMany(reg, key, draws) == reg
    decreases |draws|
  {
    if draws != [] {
      SimulateManyNotLive(reg, key, draws[1..]);
    }
  }

  /** A live fixture at 0-0 in minute 0. */
  const KickOff: Match := Match("Home", "Away", 0, 0, "live", 0, "Cup")

  /** Ten simulations of a fresh live fixture at 0-0, minute 0: ten goals, at most fifty minutes. */
  lemma TenSimulations(draws: seq<Draw>)
    requires |draws| == 10
    requires forall i :: 0 <= i < |draws| ==> IsDraw(draws[i])
    ensures var after := SimulateMany(Registry(map["a" := KickOff], ["a"]), "a", draws);
      && "a" in after.matches
      && after.matches["a"].homeScore + after.matches["a"].awayScore == 10
      && 10 <= after.matches["a"].minute <= 50
  {
    SimulateManyLive(Registry(map["a" := KickOff], ["a"]), "a", draws);
  }

  /** Of the two seed fixtures only the live one reacts to the ticker. */
  lemma SeedSimulation(sideDraw: real, minuteDraw: real)
    requires 0.0 <= sideDraw < 1.0 && 0.0 <= minuteDraw < 1.0
    ensures SimulateScoreUpdate(InitializeMatches(), "saudi-egypt", sideDraw, minuteDraw).result == None
    ensures SimulateScoreUpdate(InitializeMatches(), "liverpool-city", sideDraw, minuteDraw).result.Some?
  {
  }
}
