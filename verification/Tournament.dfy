/**
 The tournament engine: single-elimination fixtures and the first Swiss round for any number of
 teams, the recording of results, the Buchholz tie-break, and the standings.
 */
module Tournament {
  import opened Prelude

  /** A fixture; later rounds have no teams yet. */
  datatype Match = Match(round: nat, matchNum: nat, team1: string, team2: string)

  // ---------------------------------------------------------------------------------------
  // Fixtures
  // ---------------------------------------------------------------------------------------

  /** Half of `n`, rounded up. */
  function HalfUp(n: nat): nat {
    (n + 1) / 2
  }

  /** `Math.ceil(Math.log2(n))`, with no round at all below two teams. */
  function CeilLog2(n: nat): nat {
    if n <= 1 then 0 else 1 + CeilLog2(HalfUp(n))
  }

  lemma {:induction false} CeilLog2IsLogarithm(n: nat)
    requires n >= 1
    ensures n <= Pow2(CeilLog2(n))
    ensures n >= 2 ==> Pow2(CeilLog2(n) - 1) < n
  {
    if n < 2 {
    } else {
      CeilLog2IsLogarithm(HalfUp(n));
    }
  }

  function RoundOne(ids: seq<string>): seq<Match> {
    seq(HalfUp(|ids|), i requires 0 <= i < HalfUp(|ids|) => Match(1, i + 1, ids[i], ids[|ids| - 1 - i]))
  }

  function Block(round: nat, from: nat, size: nat): seq<Match> {
    seq(size, m requires 0 <= m < size => Match(round, from + m, "", ""))
  }

  /** The rounds after one of `s` matches. */
  function Later(s: nat, round: nat, from: nat): seq<Match>
    decreases s
  {
    if s <= 1 then []
    else Block(round, from, HalfUp(s)) + Later(HalfUp(s), round + 1, from + HalfUp(s))
  }

  function Fixtures(ids: seq<string>): seq<Match> {
    RoundOne(ids) + Later(HalfUp(|ids|), 2, HalfUp(|ids|) + 1)
  }

  /** A whole number of loop turns for a fractional bound. */
  predicate IsCeiling(c: nat, x: real) {
    c as real - 1.0 < x <= c as real
  }

  lemma HalfOfCeiling(s: nat, x: real)
    requires IsCeiling(s, 2.0 * x)
    ensures IsCeiling(HalfUp(s), x)
  {
    assert 2 * HalfUp(s) == s || 2 * HalfUp(s) == s + 1;
    assert (2 * HalfUp(s)) as real == 2.0 * HalfUp(s) as real;
  }

  lemma BlockSteps(round: nat, from: nat, size: nat, m: nat)
    requires m < size
    ensures Block(round, from, size)[..m + 1] == Block(round, from, size)[..m] + [Match(round, from + m, "", "")]
  {
  }

  /** The fixtures of round one: position `i` meets position `n - 1 - i`. */
  method PushRoundOne(ids: seq<string>) returns (matches: seq<Match>, matchIdx: nat)
    ensures matches == RoundOne(ids) && matchIdx == HalfUp(|ids|) + 1
  {
    var count := |ids|;
    matchIdx := 1;
    matches := [];
    var i := 0;
    while (i as real) < count as real / 2.0
      invariant 0 <= i <= HalfUp(count)
      invariant matchIdx == i + 1 && matches == RoundOne(ids)[..i]
      decreases count - i
    {
      matches := matches + [Match(1, matchIdx, ids[i], ids[count - 1 - i])];
      matchIdx := matchIdx + 1;
      i := i + 1;
    }
  }

  /** The placeholders of a later round, for a bound that need not be whole. */
  method PushPlaceholders(before: seq<Match>, round: nat, from: nat, bound: real, ghost size: nat)
    returns (matches: seq<Match>, matchIdx: nat)
    requires IsCeiling(size, bound)
    ensures matches == before + Block(round, from, size) && matchIdx == from + size
  {
    matches, matchIdx := before, from;
    var m := 0;
    while (m as real) < bound
      invariant 0 <= m <= size
      invariant matchIdx == from + m && matches == before + Block(round, from, size)[..m]
      decreases size - m
    {
      BlockSteps(round, from, size, m);
      matches := matches + [Match(round, matchIdx, "", "")];
      matchIdx := matchIdx + 1;
      m := m + 1;
    }
    assert m == size;
  }

  lemma CeilLog2Steps(s: nat, left: int)
    requires if left >= 0 then CeilLog2(s) == left else s <= 1
    ensures if left >= 1 then CeilLog2(HalfUp(s)) == left - 1 else HalfUp(s) <= 1
    ensures left >= 1 <==> s > 1
  {
  }

  lemma LaterSteps(before: seq<Match>, s: nat, r: nat, from: nat)
    requires s > 1
    ensures before + Later(s, r, from) == before + Block(r, from, HalfUp(s)) + Later(HalfUp(s), r + 1, from + HalfUp(s))
  {
  }

  /** The single-elimination branch: the number of matches of a round is halved as a fraction, and
      the match number runs on through all rounds. */
  method GenerateSingleElimination(ids: seq<string>) returns (matches: seq<Match>)
    ensures matches == Fixtures(ids)
  {
    var count := |ids|;
    var numRounds: int := CeilLog2(count);
    var matchIdx;
    matches, matchIdx := PushRoundOne(ids);
    ghost var s: nat := HalfUp(count);
    CeilLog2Steps(count, numRounds);
    var currentRoundMatches := count as real / 4.0;
    var r := 2;
    assert matches + Later(s, r, matchIdx) == Fixtures(ids);
    assert IsCeiling(s, 2.0 * currentRoundMatches);
    hide Fixtures, CeilLog2, IsCeiling, Later, Block, HalfUp;
    while r <= numRounds
      invariant r >= 2 && matches + Later(s, r, matchIdx) == Fixtures(ids)
      invariant IsCeiling(s, 2.0 * currentRoundMatches)
      invariant if numRounds >= r - 1 then CeilLog2(s) == numRounds - (r - 1) else s <= 1
    {
      HalfOfCeiling(s, currentRoundMatches);
      CeilLog2Steps(s, numRounds - (r - 1));
      ghost var before, from := matches, matchIdx;
      matches, matchIdx := PushPlaceholders(matches, r, matchIdx, currentRoundMatches, HalfUp(s));
      LaterSteps(before, s, r, from);
      s := HalfUp(s);
      currentRoundMatches := currentRoundMatches / 2.0;
      r := r + 1;
    }
    CeilLog2Steps(s, numRounds - (r - 1));
  }

  /** Match numbers run from one, without gaps, through all rounds. */
  lemma {:induction false} LaterIsNumbered(s: nat, round: nat, from: nat)
    ensures forall j :: 0 <= j < |Later(s, round, from)| ==> Later(s, round, from)[j].matchNum == from + j
    decreases s
  {
    if s <= 1 {
    } else {
      LaterIsNumbered(HalfUp(s), round + 1, from + HalfUp(s));
    }
  }

  lemma FixturesAreNumbered(ids: seq<string>)
    ensures forall j :: 0 <= j < |Fixtures(ids)| ==> Fixtures(ids)[j].matchNum == j + 1
  {
    LaterIsNumbered(HalfUp(|ids|), 2, HalfUp(|ids|) + 1);
  }

  /** How many matches of a list belong to a round. */
  function CountRound(matches: seq<Match>, round: nat): nat {
    if matches == [] then 0 else (if matches[0].round == round then 1 else 0) + CountRound(matches[1..], round)
  }

  lemma {:induction false} CountRoundConcat(a: seq<Match>, b: seq<Match>, round: nat)
    ensures CountRound(a + b, round) == CountRound(a, round) + CountRound(b, round)
  {
    if a == [] {
      assert a + b == b;
    } else {
      assert (a + b)[1..] == a[1..] + b;
      CountRoundConcat(a[1..], b, round);
    }
  }

  lemma {:induction false} CountUniform(matches: seq<Match>, own: nat, round: nat)
    requires forall m :: m in matches ==> m.round == own
    ensures CountRound(matches, round) == if round == own then |matches| else 0
  {
    if matches == [] {
    } else {
      CountUniform(matches[1..], own, round);
    }
  }

  /** The number of teams left when `r` rounds have been played, rounding up. */
  function Remaining(n: nat, r: nat): nat {
    if r == 0 then n else HalfUp(Remaining(n, r - 1))
  }

  lemma {:induction false} RemainingFromHalf(n: nat, r: nat)
    ensures Remaining(n, r + 1) == Remaining(HalfUp(n), r)
  {
    if r == 0 {
    } else {
      RemainingFromHalf(n, r - 1);
    }
  }

  lemma {:induction false} LaterRoundSizes(s: nat, round: nat, from: nat, r: nat)
    ensures CountRound(Later(s, round, from), round + r) == if r < CeilLog2(s) then Remaining(s, r + 1) else 0
    ensures forall q: nat :: q < round ==> CountRound(Later(s, round, from), q) == 0
    decreases s
  {
    if s <= 1 {
    } else {
      var block, rest := Block(round, from, HalfUp(s)), Later(HalfUp(s), round + 1, from + HalfUp(s));
      CountRoundConcat(block, rest, round + r);
      CountUniform(block, round, round + r);
      LaterRoundSizes(HalfUp(s), round + 1, from + HalfUp(s), if r > 0 then r - 1 else 0);
      RemainingFromHalf(s, r);
      forall q: nat | q < round ensures CountRound(Later(s, round, from), q) == 0 {
        CountRoundConcat(block, rest, q);
        CountUniform(block, round, q);
      }
    }
  }

  /** Round `r` has as many matches as there are teams left after it. */
  lemma RoundSizes(ids: seq<string>, r: nat)
    requires 1 <= r <= CeilLog2(|ids|)
    ensures CountRound(Fixtures(ids), r) == Remaining(|ids|, r)
  {
    var s := HalfUp(|ids|);
    assert forall m :: m in RoundOne(ids) ==> m.round == 1;
    CeilLog2Steps(|ids|, CeilLog2(|ids|));
    hide RoundOne, Later, CeilLog2, CountRound;
    CountRoundConcat(RoundOne(ids), Later(s, 2, s + 1), r);
    CountUniform(RoundOne(ids), 1, r);
    LaterRoundSizes(s, 2, s + 1, if r >= 2 then r - 2 else 0);
    RemainingFromHalf(|ids|, r - 1);
  }

  lemma {:induction false} RemainingOfPowerOfTwo(k: nat, r: nat)
    requires r <= k
    ensures Remaining(Pow2(k), r) == Pow2(k - r)
  {
    if r == 0 {
    } else {
      RemainingOfPowerOfTwo(k, r - 1);
    }
  }

  lemma {:induction false} CeilLog2OfPowerOfTwo(k: nat)
    ensures CeilLog2(Pow2(k)) == k
  {
    if k == 0 {
    } else {
      CeilLog2OfPowerOfTwo(k - 1);
    }
  }

  ghost predicate IsPowerOfTwo(n: nat) {
    exists k: nat :: n == Pow2(k)
  }

  lemma DoubleOfPower(n: nat)
    requires n > 1
    ensures IsPowerOfTwo(n) <==> n % 2 == 0 && IsPowerOfTwo(n / 2)
  {
    if IsPowerOfTwo(n) {
      var k: nat :| n == Pow2(k);
      assert n / 2 == Pow2(k - 1);
    }
    if n % 2 == 0 && IsPowerOfTwo(n / 2) {
      var k: nat :| n / 2 == Pow2(k);
      assert n == Pow2(k + 1);
    }
  }

  lemma {:induction false} LaterLength(s: nat, round: nat, from: nat)
    requires s >= 1
    ensures |Later(s, round, from)| >= s - 1
    ensures |Later(s, round, from)| == s - 1 <==> IsPowerOfTwo(s)
    decreases s
  {
    if s > 1 {
      LaterLength(HalfUp(s), round + 1, from + HalfUp(s));
      DoubleOfPower(s);
    } else {
      assert s == Pow2(0);
    }
  }

  /** A full bracket, one match fewer than teams, comes out exactly for powers of two from two on;
      any other number of teams gives extra matches. */
  lemma BracketSizeIff(ids: seq<string>)
    ensures |Fixtures(ids)| == |ids| - 1 <==> |ids| >= 2 && IsPowerOfTwo(|ids|)
    ensures |Fixtures(ids)| >= |ids| - 1
  {
    if |ids| >= 2 {
      LaterLength(|ids|, 1, 1);
      assert |Later(|ids|, 1, 1)| == HalfUp(|ids|) + |Later(HalfUp(|ids|), 2, 1 + HalfUp(|ids|))|;
    }
  }

  /** For 2^k teams, k at least one: 2^k - 1 matches over k rounds, 2^(k-r) of them in round r. */
  lemma PowerOfTwoBracket(ids: seq<string>, k: nat, r: nat)
    requires k >= 1 && |ids| == Pow2(k) && 1 <= r <= k
    ensures |Fixtures(ids)| == Pow2(k) - 1
    ensures CountRound(Fixtures(ids), r) == Pow2(k - r)
  {
    assert |ids| >= 2 && IsPowerOfTwo(|ids|);
    BracketSizeIff(ids);
    CeilLog2OfPowerOfTwo(k);
    RoundSizes(ids, r);
    RemainingOfPowerOfTwo(k, r);
  }

  function Firsts(matches: seq<Match>): (s: seq<string>)
    ensures |s| == |matches| && forall i :: 0 <= i < |s| ==> s[i] == matches[i].team1
  {
    if matches == [] then [] else [matches[0].team1] + Firsts(matches[1..])
  }

  function Seconds(matches: seq<Match>): (s: seq<string>)
    ensures |s| == |matches| && forall i :: 0 <= i < |s| ==> s[i] == matches[i].team2
  {
    if matches == [] then [] else [matches[0].team2] + Seconds(matches[1..])
  }

  lemma {:induction false} ReversedSameElements<T>(s: seq<T>)
    ensures multiset(Reversed(s)) == multiset(s)
  {
    if s == [] {
    } else {
      ReversedSameElements(s[1..]);
      assert s == [s[0]] + s[1..];
      assert multiset(Reversed(s)) == multiset(Reversed(s[1..])) + multiset([s[0]]);
    }
  }

  /** In round one position `i`, from the front, meets position `i` from the back, with match number
      `i + 1`, counting from zero. */
  lemma RoundOnePairs(ids: seq<string>, i: nat)
    requires i < (|ids| + 1) / 2
    ensures |RoundOne(ids)| == (|ids| + 1) / 2
    ensures RoundOne(ids)[i] == Match(1, i + 1, ids[i], ids[|ids| - 1 - i])
  {
  }

  lemma PairsOfEven(ids: seq<string>)
    requires |ids| % 2 == 0
    ensures multiset(Firsts(RoundOne(ids))) + multiset(Seconds(RoundOne(ids))) == multiset(ids)
  {
    hide Firsts, Seconds, Reversed;
    var c := HalfUp(|ids|);
    assert Firsts(RoundOne(ids)) == ids[..c];
    assert Seconds(RoundOne(ids)) == Reversed(ids[c..]);
    hide RoundOne;
    ReversedSameElements(ids[c..]);
    assert multiset(ids[..c]) + multiset(ids[c..]) == multiset(ids) by { assert ids == ids[..c] + ids[c..]; }
  }

  lemma SizesDiffer(a: seq<string>, b: seq<string>, c: seq<string>)
    requires |a| + |b| != |c|
    ensures multiset(a) + multiset(b) != multiset(c)
  {
    assert |multiset(a) + multiset(b)| == |a| + |b|;
  }

  lemma PairsOfOdd(ids: seq<string>)
    requires |ids| % 2 == 1
    ensures multiset(Firsts(RoundOne(ids))) + multiset(Seconds(RoundOne(ids))) != multiset(ids)
  {
    assert |RoundOne(ids)| == HalfUp(|ids|);
    hide RoundOne, Firsts, Seconds;
    SizesDiffer(Firsts(RoundOne(ids)), Seconds(RoundOne(ids)), ids);
  }

  /** Round one uses every team exactly once exactly when their number is even. */
  lemma RoundOneUsesEachTeamOnceIff(ids: seq<string>)
    ensures multiset(Firsts(RoundOne(ids))) + multiset(Seconds(RoundOne(ids))) == multiset(ids) <==> |ids| % 2 == 0
  {
    if |ids| % 2 == 0 {
      PairsOfEven(ids);
    } else {
      PairsOfOdd(ids);
    }
  }

  /** With an odd number of teams the middle one is drawn against itself, and it alone. */
  lemma SelfPairIff(ids: seq<string>, i: nat)
    requires forall j, k :: 0 <= j < k < |ids| ==> ids[j] != ids[k]
    requires i < |RoundOne(ids)|
    ensures RoundOne(ids)[i].team1 == RoundOne(ids)[i].team2 <==> |ids| % 2 == 1 && i == |ids| / 2
  {
    var j := |ids| - 1 - i;
    assert RoundOne(ids)[i] == Match(1, i + 1, ids[i], ids[j]);
    assert i == j || ids[i] != ids[j];
  }

  /** Round one of a Swiss event: position `i` meets position `i + n / 2`. */
  function SwissRoundOne(ids: seq<string>): (matches: seq<Match>)
    requires |ids| % 2 == 0
    ensures |matches| == |ids| / 2
  {
    seq(|ids| / 2, i requires 0 <= i < |ids| / 2 => Match(1, i + 1, ids[i], ids[i + |ids| / 2]))
  }

  lemma HalfIsWhole(count: nat, i: nat)
    ensures var opponent := i as real + count as real / 2.0;
            (opponent.Floor as real == opponent <==> count % 2 == 0)
            && (count % 2 == 0 ==> opponent.Floor == i + count / 2)
  {
    var q := count / 2;
    var opponent := i as real + count as real / 2.0;
    if count % 2 == 0 {
      assert count == 2 * q && opponent == (i + q) as real;
    } else {
      assert count == 2 * q + 1 && opponent == (i + q) as real + 0.5;
    }
  }

  /** The Swiss branch. Half of an odd number is no position in the list: reading a team there gives
      nothing, and reading its id is an error. */
  method GenerateSwissRoundOne(ids: seq<string>) returns (matches: Option<seq<Match>>)
    ensures matches.None? <==> |ids| % 2 == 1
    ensures matches.Some? ==> matches.value == SwissRoundOne(ids)
  {
    var count := |ids|;
    var half := count as real / 2.0;
    var pushed: seq<Match> := [];
    var i := 0;
    while (i as real) < half
      invariant 0 <= i <= HalfUp(count) && (i > 0 ==> count % 2 == 0)
      invariant count % 2 == 0 ==> i <= count / 2 && pushed == SwissRoundOne(ids)[..i]
      decreases count - i
    {
      var opponent := i as real + half;
      var position := opponent.Floor;
      if position as real != opponent || position >= count {
        HalfIsWhole(count, i);
        return None;
      }
      HalfIsWhole(count, i);
      pushed := pushed + [Match(1, i + 1, ids[i], ids[position])];
      i := i + 1;
    }
    return Some(pushed);
  }

  /** Where it is drawn, it uses every team exactly once, and with unique ids none against itself. */
  lemma SwissUsesEachTeamOnce(ids: seq<string>)
    requires |ids| % 2 == 0
    ensures Firsts(SwissRoundOne(ids)) == ids[..|ids| / 2] && Seconds(SwissRoundOne(ids)) == ids[|ids| / 2..]
    ensures multiset(Firsts(SwissRoundOne(ids))) + multiset(Seconds(SwissRoundOne(ids))) == multiset(ids)
    ensures (forall i, j :: 0 <= i < j < |ids| ==> ids[i] != ids[j]) ==>
              forall m :: m in SwissRoundOne(ids) ==> m.team1 != m.team2
  {
    hide Firsts, Seconds;
    var c := |ids| / 2;
    assert Firsts(SwissRoundOne(ids)) == ids[..c] && Seconds(SwissRoundOne(ids)) == ids[c..];
    assert multiset(ids[..c]) + multiset(ids[c..]) == multiset(ids) by { assert ids == ids[..c] + ids[c..]; }
  }

  // ---------------------------------------------------------------------------------------
  // Results
  // ---------------------------------------------------------------------------------------

  datatype Team = Team(
    id: string, matchWins: nat, matchLosses: nat, gameWins: nat, gameLosses: nat, opponentsPlayed: seq<string>,
    buchholz: nat)

  /** A played match, by team ids, with the games each side took. */
  datatype Result = Result(winner: string, loser: string, gamesWon: nat, gamesLost: nat)

  /** `teams.find(t => t.id === id)`, as an index. */
  function FindTeam(teams: seq<Team>, id: string): (i: Option<nat>)
    ensures i.Some? ==> i.value < |teams| && teams[i.value].id == id
    ensures i.None? ==> forall j :: 0 <= j < |teams| ==> teams[j].id != id
  {
    if teams == [] then None
    else if teams[0].id == id then Some(0)
    else
      var rest := FindTeam(teams[1..], id);
      assert forall j :: 0 < j < |teams| ==> teams[j] == teams[1..][j - 1];
      if rest.None? then None else Some(rest.value + 1)
  }

  method FindTeamLoop(teams: array<Team>, id: string) returns (i: Option<nat>)
    ensures i == FindTeam(teams[..], id)
  {
    ghost var all := teams[..];
    for j := 0 to teams.Length
      invariant FindTeam(all, id)
        == var rest := FindTeam(all[j..], id); if rest.None? then None else Some(j + rest.value)
    {
      assert all[j..][1..] == all[j + 1..];
      if teams[j].id == id { return Some(j); }
    }
    i := None;
  }

  function Won(t: Team, opponent: string, r: Result): Team {
    t.(matchWins := t.matchWins + 1, gameWins := t.gameWins + r.gamesWon, gameLosses := t.gameLosses + r.gamesLost,
       opponentsPlayed := t.opponentsPlayed + [opponent])
  }

  function Lost(t: Team, opponent: string, r: Result): Team {
    t.(matchLosses := t.matchLosses + 1, gameWins := t.gameWins + r.gamesLost, gameLosses := t.gameLosses + r.gamesWon,
       opponentsPlayed := t.opponentsPlayed + [opponent])
  }

  /** One result: both teams are updated, one after the other, if both are known. */
  function Record(teams: seq<Team>, r: Result): (after: seq<Team>)
    ensures |after| == |teams| && forall i :: 0 <= i < |teams| ==> after[i].id == teams[i].id
  {
    var a, b := FindTeam(teams, r.winner), FindTeam(teams, r.loser);
    if a.None? || b.None? then teams
    else
      var half := teams[a.value := Won(teams[a.value], r.loser, r)];
      half[b.value := Lost(half[b.value], r.winner, r)]
  }

  function RecordAll(teams: seq<Team>, results: seq<Result>): (after: seq<Team>)
    ensures |after| == |teams| && forall i :: 0 <= i < |teams| ==> after[i].id == teams[i].id
    decreases |results|
  {
    if results == [] then teams else Record(RecordAll(teams, results[..|results| - 1]), results[|results| - 1])
  }

  method RecordResult(teams: array<Team>, r: Result)
    modifies teams
    ensures teams[..] == Record(old(teams[..]), r)
  {
    var a := FindTeamLoop(teams, r.winner);
    var b := FindTeamLoop(teams, r.loser);
    if a.Some? && b.Some? {
      teams[a.value] := Won(teams[a.value], r.loser, r);
      teams[b.value] := Lost(teams[b.value], r.winner, r);
    }
  }

  /** The scores of round one: team one wins, with a closer score in every other match. */
  function RoundOneResult(m: Match, idx: nat, winsRequired: nat): Result
    requires winsRequired >= 1
  {
    Result(m.team1, m.team2, winsRequired, if idx % 2 == 0 then winsRequired - 1 else 0)
  }

  function RoundOneResults(matches: seq<Match>, winsRequired: nat): (results: seq<Result>)
    requires winsRequired >= 1
    ensures |results| == |matches|
  {
    seq(|matches|, i requires 0 <= i < |matches| => RoundOneResult(matches[i], i, winsRequired))
  }

  function OfRound(matches: seq<Match>, round: nat): seq<Match> {
    if matches == [] then []
    else
      var last := matches[|matches| - 1];
      OfRound(matches[..|matches| - 1], round) + if last.round == round then [last] else []
  }

  /** Plays the matches of round one in order. */
  method PlayRoundOne(matches: seq<Match>, teams: array<Team>, winsRequired: nat)
    requires winsRequired >= 1
    modifies teams
    ensures teams[..] == RecordAll(old(teams[..]), RoundOneResults(OfRound(matches, 1), winsRequired))
  {
    ghost var start := teams[..];
    var idx := 0;
    for i := 0 to |matches|
      invariant idx == |OfRound(matches[..i], 1)|
      invariant teams[..] == RecordAll(start, RoundOneResults(OfRound(matches[..i], 1), winsRequired))
    {
      assert matches[..i + 1][..i] == matches[..i];
      ghost var before := RoundOneResults(OfRound(matches[..i], 1), winsRequired);
      if matches[i].round == 1 {
        var result := RoundOneResult(matches[i], idx, winsRequired);
        RecordResult(teams, result);
        var after := RoundOneResults(OfRound(matches[..i + 1], 1), winsRequired);
        assert after == before + [result];
        assert after[..|after| - 1] == before;
        idx := idx + 1;
      } else {
        assert OfRound(matches[..i + 1], 1) == OfRound(matches[..i], 1);
      }
    }
    assert matches[..|matches|] == matches;
  }

  function Ids(teams: seq<Team>): set<string> {
    set t | t in teams :: t.id
  }

  /** How many results a team of some ids won, against one of these ids, and the games of both sides. */
  function WonBy(results: seq<Result>, id: string, ids: set<string>): (nat, nat, nat) {
    if results == [] then (0, 0, 0)
    else
      var (won, games, against) := WonBy(results[..|results| - 1], id, ids);
      var r := results[|results| - 1];
      if r.winner == id && r.loser in ids then (won + 1, games + r.gamesWon, against + r.gamesLost)
        else (won, games, against)
  }

  function LostBy(results: seq<Result>, id: string, ids: set<string>): (nat, nat, nat) {
    if results == [] then (0, 0, 0)
    else
      var (lost, games, against) := LostBy(results[..|results| - 1], id, ids);
      var r := results[|results| - 1];
      if r.loser == id && r.winner in ids then (lost + 1, games + r.gamesLost, against + r.gamesWon)
        else (lost, games, against)
  }

  /** The opponents a team of some ids met in these results, first to last. */
  function Opponents(results: seq<Result>, id: string, ids: set<string>): seq<string> {
    if results == [] then []
    else
      var r := results[|results| - 1];
      Opponents(results[..|results| - 1], id, ids)
      + (if r.winner == id && r.loser in ids then [r.loser] else [])
      + (if r.loser == id && r.winner in ids then [r.winner] else [])
  }

  ghost predicate UniqueTeams(teams: seq<Team>) {
    forall i, j :: 0 <= i < j < |teams| ==> teams[i].id != teams[j].id
  }

  lemma FoundById(teams: seq<Team>, id: string)
    ensures FindTeam(teams, id).Some? <==> id in Ids(teams)
  {
    if id in Ids(teams) {
      var t :| t in teams && t.id == id;
      var i :| 0 <= i < |teams| && teams[i] == t;
    }
    if FindTeam(teams, id).Some? { assert teams[FindTeam(teams, id).value] in teams; }
  }

  lemma SameIdsSet(a: seq<Team>, b: seq<Team>)
    requires |a| == |b| && forall i :: 0 <= i < |a| ==> a[i].id == b[i].id
    ensures Ids(a) == Ids(b)
  {
    forall id ensures id in Ids(a) <==> id in Ids(b) {
      if id in Ids(a) {
        var i :| 0 <= i < |a| && a[i].id == id;
        assert b[i] in b;
      }
      if id in Ids(b) {
        var i :| 0 <= i < |b| && b[i].id == id;
        assert a[i] in a;
      }
    }
  }

  /** One result counts for its winner and its loser, once each, if both are known teams. */
  lemma RecordCounts(teams: seq<Team>, r: Result, i: nat)
    requires UniqueTeams(teams) && i < |teams|
    ensures var t, t' := teams[i], Record(teams, r)[i];
            var wins, loses := t.id == r.winner && r.loser in Ids(teams), t.id == r.loser && r.winner in Ids(teams);
            && t'.matchWins == t.matchWins + (if wins then 1 else 0)
            && t'.matchLosses == t.matchLosses + (if loses then 1 else 0)
            && t'.gameWins == t.gameWins + (if wins then r.gamesWon else 0) + (if loses then r.gamesLost else 0)
            && t'.gameLosses == t.gameLosses + (if wins then r.gamesLost else 0) + (if loses then r.gamesWon else 0)
            && t'.opponentsPlayed
                 == t.opponentsPlayed + (if wins then [r.loser] else []) + (if loses then [r.winner] else [])
  {
    FoundById(teams, r.winner);
    FoundById(teams, r.loser);
    var a, b := FindTeam(teams, r.winner), FindTeam(teams, r.loser);
    assert a.Some? ==> (a.value == i <==> teams[i].id == r.winner);
    assert b.Some? ==> (b.value == i <==> teams[i].id == r.loser);
    hide FindTeam, Ids, UniqueTeams;
  }

  /** After any results a team's wins, losses and games are those it had and those of the results it
      won and lost against known teams. */
  lemma {:induction false} ResultsAreCounted(teams: seq<Team>, results: seq<Result>, i: nat)
    requires UniqueTeams(teams) && i < |teams|
    ensures var t, t' := teams[i], RecordAll(teams, results)[i];
            var won, lost := WonBy(results, t.id, Ids(teams)), LostBy(results, t.id, Ids(teams));
            && t'.matchWins == t.matchWins + won.0 && t'.matchLosses == t.matchLosses + lost.0
            && t'.gameWins == t.gameWins + won.1 + lost.1 && t'.gameLosses == t.gameLosses + won.2 + lost.2
    decreases |results|
  {
    if results == [] {
    } else {
      var before := RecordAll(teams, results[..|results| - 1]);
      ResultsAreCounted(teams, results[..|results| - 1], i);
      SameIdsSet(teams, before);
      assert UniqueTeams(before);
      hide UniqueTeams, Ids, Record;
      RecordCounts(before, results[|results| - 1], i);
    }
  }

  lemma AddBehind(a: seq<string>, b: seq<string>, c: seq<string>, d: seq<string>)
    ensures a + b + c + d == a + (b + c + d)
  {
  }

  /** Its opponents are those it had and then those of the results, in their order. */
  lemma {:induction false} OpponentsAreListed(teams: seq<Team>, results: seq<Result>, i: nat)
    requires UniqueTeams(teams) && i < |teams|
    ensures RecordAll(teams, results)[i].opponentsPlayed
            == teams[i].opponentsPlayed + Opponents(results, teams[i].id, Ids(teams))
    decreases |results|
  {
    if results == [] {
    } else {
      var init, r := results[..|results| - 1], results[|results| - 1];
      var before := RecordAll(teams, init);
      OpponentsAreListed(teams, init, i);
      SameIdsSet(teams, before);
      assert UniqueTeams(before);
      hide UniqueTeams, Ids, Record;
      RecordCounts(before, r, i);
      var id, ids := teams[i].id, Ids(teams);
      var wins, loses := r.winner == id && r.loser in ids, r.loser == id && r.winner in ids;
      AddBehind(teams[i].opponentsPlayed, Opponents(init, id, ids),
                if wins then [r.loser] else [], if loses then [r.winner] else []);
      hide *;
    }
  }

  lemma {:induction false} OfRoundConcat(a: seq<Match>, b: seq<Match>, round: nat)
    ensures OfRound(a + b, round) == OfRound(a, round) + OfRound(b, round)
  {
    if b == [] {
      assert a + b == a;
    } else {
      assert (a + b)[..|a + b| - 1] == a + b[..|b| - 1];
      OfRoundConcat(a, b[..|b| - 1], round);
    }
  }

  lemma {:induction false} OfRoundUniform(matches: seq<Match>, own: nat, round: nat)
    requires forall m :: m in matches ==> m.round == own
    ensures OfRound(matches, round) == if round == own then matches else []
  {
    if matches == [] {
    } else {
      var n := |matches| - 1;
      OfRoundUniform(matches[..n], own, round);
      assert matches == matches[..n] + [matches[n]];
    }
  }

  lemma {:induction false} LaterIsNotFirst(s: nat, round: nat, from: nat)
    requires round > 1
    ensures OfRound(Later(s, round, from), 1) == []
    decreases s
  {
    if s > 1 {
      var half := HalfUp(s);
      assert half < s;
      LaterIsNotFirst(half, round + 1, from + half);
      OfRoundUniform(Block(round, from, half), round, 1);
      OfRoundConcat(Block(round, from, half), Later(half, round + 1, from + half), 1);
      hide OfRound, Block, HalfUp;
    }
  }

  /** What is played in round one are the drawn matches of round one, in the order of the draw. */
  lemma RoundOneIsPlayed(ids: seq<string>)
    ensures OfRound(Fixtures(ids), 1) == RoundOne(ids)
  {
    OfRoundUniform(RoundOne(ids), 1, 1);
    LaterIsNotFirst(HalfUp(|ids|), 2, HalfUp(|ids|) + 1);
    OfRoundConcat(RoundOne(ids), Later(HalfUp(|ids|), 2, HalfUp(|ids|) + 1), 1);
  }

  /** In round one the first-named team of every match wins with the games required, the other one
      takes one game less in the first, third, fifth ... match and none in the others. */
  lemma RoundOneScores(matches: seq<Match>, winsRequired: nat, i: nat)
    requires winsRequired >= 1 && i < |matches|
    ensures var r := RoundOneResults(matches, winsRequired)[i];
            && r.winner == matches[i].team1 && r.loser == matches[i].team2 && r.gamesWon == winsRequired
            && (i % 2 == 0 ==> r.gamesLost == winsRequired - 1) && (i % 2 == 1 ==> r.gamesLost == 0)
  {
  }

  // ---------------------------------------------------------------------------------------
  // Buchholz scores
  // ---------------------------------------------------------------------------------------

  /** The weight of a team id: that of the first team with it, or nothing. */
  function WeightOf(teams: seq<Team>, w: seq<nat>, id: string): nat
    requires |w| == |teams|
  {
    var i := FindTeam(teams, id);
    if i.None? then 0 else w[i.value]
  }

  function Score(teams: seq<Team>, w: seq<nat>, opponents: seq<string>): nat
    requires |w| == |teams|
  {
    if opponents == [] then 0
    else Score(teams, w, opponents[..|opponents| - 1]) + WeightOf(teams, w, opponents[|opponents| - 1])
  }

  function Wins(teams: seq<Team>): (w: seq<nat>)
    ensures |w| == |teams|
  {
    seq(|teams|, i requires 0 <= i < |teams| => teams[i].matchWins)
  }

  /** Every team with the sum of the wins of the opponents it played. */
  function WithScores(teams: seq<Team>): (after: seq<Team>)
    ensures |after| == |teams|
  {
    seq(|teams|, i requires 0 <= i < |teams| =>
      teams[i].(buchholz := Score(teams, Wins(teams), teams[i].opponentsPlayed)))
  }

  lemma {:induction false} SameTeamsSameFind(a: seq<Team>, b: seq<Team>, id: string)
    requires |a| == |b| && forall i :: 0 <= i < |a| ==> a[i].id == b[i].id
    ensures FindTeam(a, id) == FindTeam(b, id)
  {
    if a == [] {
    } else {
      assert forall i :: 0 <= i < |a[1..]| ==> a[1..][i] == a[i + 1] && b[1..][i] == b[i + 1];
      SameTeamsSameFind(a[1..], b[1..], id);
    }
  }

  /** The inner loop of the tie-break; a score already stored does not influence it. */
  method SumOfWins(teams: array<Team>, ghost start: seq<Team>, opponents: seq<string>) returns (score: nat)
    requires teams.Length == |start|
    requires forall i :: 0 <= i < |start| ==> teams[i].id == start[i].id && teams[i].matchWins == start[i].matchWins
    ensures score == Score(start, Wins(start), opponents)
  {
    score := 0;
    for j := 0 to |opponents|
      invariant score == Score(start, Wins(start), opponents[..j])
    {
      SameTeamsSameFind(start, teams[..], opponents[j]);
      var opponent := FindTeamLoop(teams, opponents[j]);
      if opponent.Some? {
        score := score + teams[opponent.value].matchWins;
      }
      assert opponents[..j + 1][..j] == opponents[..j];
    }
    assert opponents[..|opponents|] == opponents;
  }

  /** The tie-break of every team, in place. */
  method ComputeBuchholz(teams: array<Team>)
    modifies teams
    ensures teams[..] == WithScores(old(teams[..]))
  {
    hide Score, Wins;
    ghost var start := teams[..];
    for i := 0 to teams.Length
      invariant forall j :: 0 <= j < i ==> teams[j] == WithScores(start)[j]
      invariant forall j :: i <= j < teams.Length ==> teams[j] == start[j]
    {
      assert forall j :: 0 <= j < i ==> teams[j].id == start[j].id && teams[j].matchWins == start[j].matchWins;
      var score := SumOfWins(teams, start, teams[i].opponentsPlayed);
      teams[i] := teams[i].(buchholz := score);
    }
  }

  /** Being an opponent is mutual, counting repetitions. */
  ghost predicate Symmetric(teams: seq<Team>) {
    forall i, j :: 0 <= i < |teams| && 0 <= j < |teams| ==>
      multiset(teams[i].opponentsPlayed)[teams[j].id] == multiset(teams[j].opponentsPlayed)[teams[i].id]
  }

  /** How often `a[i]` lists the id of `a[j]`. */
  ghost function Meetings(a: seq<Team>, i: nat, j: nat): nat
    requires i < |a| && j < |a|
  {
    multiset(a[i].opponentsPlayed)[a[j].id]
  }

  /** Team `i` has been given team `k` as one more opponent. */
  ghost predicate Pushed(a: seq<Team>, b: seq<Team>, i: nat, k: nat) {
    && |b| == |a| && i < |a| && k < |a|
    && (forall j :: 0 <= j < |a| ==> b[j].id == a[j].id)
    && (forall j :: 0 <= j < |a| && j != i ==> b[j].opponentsPlayed == a[j].opponentsPlayed)
    && b[i].opponentsPlayed == a[i].opponentsPlayed + [a[k].id]
  }

  lemma OneMoreMeeting(a: seq<Team>, b: seq<Team>, i: nat, k: nat, p: nat, q: nat)
    requires UniqueTeams(a) && Pushed(a, b, i, k) && p < |a| && q < |a|
    ensures Meetings(b, p, q) == Meetings(a, p, q) + if p == i && q == k then 1 else 0
  {
    if p == i {
      assert multiset(b[i].opponentsPlayed) == multiset(a[i].opponentsPlayed) + multiset{a[k].id};
      assert q != k ==> a[q].id != a[k].id;
    }
  }

  lemma RecordPushes(teams: seq<Team>, r: Result, half: seq<Team>, a: nat, b: nat)
    requires UniqueTeams(teams) && FindTeam(teams, r.winner) == Some(a) && FindTeam(teams, r.loser) == Some(b)
    requires half == teams[a := Won(teams[a], r.loser, r)]
    ensures UniqueTeams(half) && Pushed(teams, half, a, b) && Pushed(half, Record(teams, r), b, a)
  {
    assert Record(teams, r) == half[b := Lost(half[b], r.winner, r)];
    hide Record, FindTeam;
  }

  lemma MeetingsAfter(teams: seq<Team>, r: Result, half: seq<Team>, a: nat, b: nat, p: nat, q: nat)
    requires UniqueTeams(teams) && FindTeam(teams, r.winner) == Some(a) && FindTeam(teams, r.loser) == Some(b)
    requires half == teams[a := Won(teams[a], r.loser, r)] && p < |teams| && q < |teams|
    ensures Meetings(Record(teams, r), p, q)
         == Meetings(teams, p, q) + (if p == a && q == b then 1 else 0) + (if p == b && q == a then 1 else 0)
  {
    RecordPushes(teams, r, half, a, b);
    hide *;
    OneMoreMeeting(teams, half, a, b, p, q);
    OneMoreMeeting(half, Record(teams, r), b, a, p, q);
  }

  lemma RecordKeepsSymmetry(teams: seq<Team>, r: Result)
    requires UniqueTeams(teams) && Symmetric(teams)
    ensures Symmetric(Record(teams, r))
  {
    var a, b := FindTeam(teams, r.winner), FindTeam(teams, r.loser);
    if a.Some? && b.Some? {
      var half := teams[a.value := Won(teams[a.value], r.loser, r)];
      var after := Record(teams, r);
      forall i, j | 0 <= i < |teams| && 0 <= j < |teams|
        ensures multiset(after[i].opponentsPlayed)[after[j].id] == multiset(after[j].opponentsPlayed)[after[i].id]
      {
        MeetingsAfter(teams, r, half, a.value, b.value, i, j);
        MeetingsAfter(teams, r, half, a.value, b.value, j, i);
        assert Meetings(teams, i, j) == Meetings(teams, j, i);
        assert Meetings(after, i, j) == Meetings(after, j, i);
      }
    }
  }

  /** Scores of all the lists, under one weighting. */
  function ScoreSum(teams: seq<Team>, w: seq<nat>, n: nat): nat
    requires |w| == |teams| && n <= |teams|
  {
    if n == 0 then 0 else ScoreSum(teams, w, n - 1) + Score(teams, w, teams[n - 1].opponentsPlayed)
  }

  /** Weights times list lengths. */
  function WeightSum(teams: seq<Team>, w: seq<nat>, n: nat): nat
    requires |w| == |teams| && n <= |teams|
  {
    if n == 0 then 0 else WeightSum(teams, w, n - 1) + w[n - 1] * |teams[n - 1].opponentsPlayed|
  }

  lemma {:induction false} ScoreByIds(a: seq<Team>, b: seq<Team>, w: seq<nat>, opponents: seq<string>)
    requires |w| == |a| == |b| && forall i :: 0 <= i < |a| ==> a[i].id == b[i].id
    ensures Score(a, w, opponents) == Score(b, w, opponents)
  {
    if opponents == [] {
    } else {
      ScoreByIds(a, b, w, opponents[..|opponents| - 1]);
      SameTeamsSameFind(a, b, opponents[|opponents| - 1]);
    }
  }

  lemma ScoreOfPush(teams: seq<Team>, w: seq<nat>, opponents: seq<string>, opponent: string)
    requires |w| == |teams|
    ensures Score(teams, w, opponents + [opponent]) == Score(teams, w, opponents) + WeightOf(teams, w, opponent)
  {
    assert (opponents + [opponent])[..|opponents|] == opponents;
  }

  lemma Distribute(x: nat, y: nat)
    ensures x * (y + 1) == x * y + x
  {
  }

  lemma {:induction false} PushOpponent(a: seq<Team>, b: seq<Team>, w: seq<nat>, i: nat, opponent: string, n: nat)
    requires |w| == |a| == |b| && i < |a| && n <= |a|
    requires forall j :: 0 <= j < |a| ==> a[j].id == b[j].id
    requires forall j :: 0 <= j < |a| && j != i ==> b[j].opponentsPlayed == a[j].opponentsPlayed
    requires b[i].opponentsPlayed == a[i].opponentsPlayed + [opponent]
    ensures ScoreSum(b, w, n) == ScoreSum(a, w, n) + if i < n then WeightOf(a, w, opponent) else 0
    ensures WeightSum(b, w, n) == WeightSum(a, w, n) + if i < n then w[i] else 0
  {
    if n == 0 {
    } else {
      PushOpponent(a, b, w, i, opponent, n - 1);
      ScoreByIds(a, b, w, b[n - 1].opponentsPlayed);
      if i == n - 1 {
        ScoreOfPush(a, w, a[i].opponentsPlayed, opponent);
        Distribute(w[i], |a[i].opponentsPlayed|);
      }
      hide Score, WeightOf;
    }
  }

  /** Under every weighting of the teams, all scores together weigh what the teams weigh, each as
      often as it played. */
  ghost predicate Balanced(teams: seq<Team>) {
    forall w: seq<nat> :: |w| == |teams| ==> ScoreSum(teams, w, |teams|) == WeightSum(teams, w, |teams|)
  }

  lemma RecordKeepsBalance(teams: seq<Team>, r: Result)
    requires UniqueTeams(teams) && Balanced(teams)
    ensures Balanced(Record(teams, r))
  {
    var a, b := FindTeam(teams, r.winner), FindTeam(teams, r.loser);
    if a.Some? && b.Some? {
      var half := teams[a.value := Won(teams[a.value], r.loser, r)];
      var after := Record(teams, r);
      var n := |teams|;
      forall w: seq<nat> | |w| == n ensures ScoreSum(after, w, n) == WeightSum(after, w, n) {
        PushOpponent(teams, half, w, a.value, r.loser, n);
        PushOpponent(half, after, w, b.value, r.winner, n);
        SameTeamsSameFind(teams, half, r.winner);
      }
    }
  }

  /** Teams before any match. */
  ghost predicate Fresh(teams: seq<Team>) {
    forall i :: 0 <= i < |teams| ==> teams[i].opponentsPlayed == []
  }

  lemma {:induction false} FreshSums(teams: seq<Team>, w: seq<nat>, n: nat)
    requires Fresh(teams) && |w| == |teams| && n <= |teams|
    ensures ScoreSum(teams, w, n) == 0 && WeightSum(teams, w, n) == 0
  {
    if n == 0 {
    } else {
      FreshSums(teams, w, n - 1);
    }
  }

  lemma {:induction false} RunKeepsBalance(teams: seq<Team>, results: seq<Result>)
    requires UniqueTeams(teams) && Fresh(teams)
    ensures Balanced(RecordAll(teams, results)) && Symmetric(RecordAll(teams, results))
    ensures UniqueTeams(RecordAll(teams, results))
    decreases |results|
  {
    if results == [] {
      forall w: seq<nat> | |w| == |teams| ensures ScoreSum(teams, w, |teams|) == WeightSum(teams, w, |teams|) {
        FreshSums(teams, w, |teams|);
      }
    } else {
      RunKeepsBalance(teams, results[..|results| - 1]);
      RecordKeepsBalance(RecordAll(teams, results[..|results| - 1]), results[|results| - 1]);
      RecordKeepsSymmetry(RecordAll(teams, results[..|results| - 1]), results[|results| - 1]);
    }
  }

  function BuchholzTotal(teams: seq<Team>, n: nat): nat
    requires n <= |teams|
  {
    if n == 0 then 0 else BuchholzTotal(teams, n - 1) + teams[n - 1].buchholz
  }

  lemma {:induction false} TotalIsScoreSum(teams: seq<Team>, n: nat)
    requires n <= |teams|
    ensures BuchholzTotal(WithScores(teams), n) == ScoreSum(teams, Wins(teams), n)
  {
    if n == 0 {
    } else {
      TotalIsScoreSum(teams, n - 1);
    }
  }

  /** For any number of teams and any results: the Buchholz scores add up to the sum, over the
      teams, of match wins times matches played. */
  lemma BuchholzConservation(teams: seq<Team>, results: seq<Result>)
    requires UniqueTeams(teams) && Fresh(teams)
    ensures var after := RecordAll(teams, results);
            BuchholzTotal(WithScores(after), |teams|) == WeightSum(after, Wins(after), |teams|)
  {
    RunKeepsBalance(teams, results);
    TotalIsScoreSum(RecordAll(teams, results), |teams|);
  }

  // ---------------------------------------------------------------------------------------
  // Standings
  // ---------------------------------------------------------------------------------------

  /** The comparator of the standings: more wins first, then the higher Buchholz score, then the
      better game difference. */
  function Compare(a: Team, b: Team): int {
    if b.matchWins != a.matchWins then b.matchWins - a.matchWins
    else if b.buchholz != a.buchholz then b.buchholz - a.buchholz
    else (b.gameWins - b.gameLosses) - (a.gameWins - a.gameLosses)
  }

  /** A sort may rely on the comparator: it is antisymmetric, and transitive also in its ties. */
  lemma CompareIsConsistent(a: Team, b: Team, c: Team)
    ensures Compare(a, b) == -Compare(b, a)
    ensures Compare(a, b) <= 0 && Compare(b, c) <= 0 ==>
              Compare(a, c) <= 0 && (Compare(a, c) == 0 <==> Compare(a, b) == 0 && Compare(b, c) == 0)
  {
  }

  ghost predicate ComesFirst(teams: seq<Team>, a: Team, b: Team) {
    exists i, j :: 0 <= i < j < |teams| && teams[i] == a && teams[j] == b
  }

  /** The order a stable sort establishes: by the comparator, ties in the order of the list. */
  ghost predicate Precedes(teams: seq<Team>, a: Team, b: Team) {
    Compare(a, b) < 0 || (Compare(a, b) == 0 && ComesFirst(teams, a, b))
  }

  ghost predicate InOrder(teams: seq<Team>, standings: seq<Team>) {
    forall i, j :: 0 <= i < j < |standings| ==> Precedes(teams, standings[i], standings[j])
  }

  /** What sorting the teams has to return. */
  ghost predicate AreStandings(teams: seq<Team>, standings: seq<Team>) {
    multiset(standings) == multiset(teams) && InOrder(teams, standings)
  }

  function Insert(sorted: seq<Team>, t: Team): seq<Team> {
    if sorted == [] || Compare(sorted[|sorted| - 1], t) <= 0 then sorted + [t]
    else Insert(sorted[..|sorted| - 1], t) + [sorted[|sorted| - 1]]
  }

  /** A stable sort: every team goes behind those before it that it does not beat. */
  function Standings(teams: seq<Team>): seq<Team> {
    if teams == [] then [] else Insert(Standings(teams[..|teams| - 1]), teams[|teams| - 1])
  }

  lemma {:induction false} InsertKeepsElements(sorted: seq<Team>, t: Team)
    ensures multiset(Insert(sorted, t)) == multiset(sorted) + multiset{t}
  {
    if sorted == [] {
      assert sorted + [t] == [t];
    } else if Compare(sorted[|sorted| - 1], t) > 0 {
      InsertKeepsElements(sorted[..|sorted| - 1], t);
      assert sorted == sorted[..|sorted| - 1] + [sorted[|sorted| - 1]];
    }
  }

  /** Inserting the last team of a list into an ordered rest. */
  lemma {:induction false} InsertKeepsOrder(teams: seq<Team>, sorted: seq<Team>, t: Team)
    requires InOrder(teams, sorted) && forall s :: s in sorted ==> ComesFirst(teams, s, t)
    ensures InOrder(teams, Insert(sorted, t))
  {
    hide ComesFirst;
    if sorted == [] {
    } else {
      var init, last := sorted[..|sorted| - 1], sorted[|sorted| - 1];
      assert last in sorted;
      if Compare(last, t) <= 0 {
        forall i | 0 <= i < |sorted| ensures Precedes(teams, sorted[i], t) {
          assert sorted[i] in sorted;
          if i < |sorted| - 1 { CompareIsConsistent(sorted[i], last, t); }
        }
      } else {
        InsertKeepsOrder(teams, init, t);
        InsertKeepsElements(init, t);
        CompareIsConsistent(t, last, t);
        var before := Insert(init, t);
        forall i | 0 <= i < |before| ensures Precedes(teams, before[i], last) {
          assert before[i] in multiset(before);
          if before[i] != t {
            assert before[i] in init;
            var j :| 0 <= j < |init| && init[j] == before[i];
            assert Precedes(teams, sorted[j], last);
          }
        }
      }
    }
  }

  /** Elements keep their order in a longer list. */
  lemma OrderInLongerList(teams: seq<Team>, t: Team, standings: seq<Team>)
    requires InOrder(teams, standings)
    ensures InOrder(teams + [t], standings)
  {
    forall i, j | 0 <= i < j < |standings| ensures Precedes(teams + [t], standings[i], standings[j]) {
      assert Precedes(teams, standings[i], standings[j]);
      if ComesFirst(teams, standings[i], standings[j]) {
        var k, l :| 0 <= k < l < |teams| && teams[k] == standings[i] && teams[l] == standings[j];
        assert (teams + [t])[k] == standings[i] && (teams + [t])[l] == standings[j];
      }
    }
  }

  lemma StandingsStep(teams: seq<Team>)
    requires teams != []
    ensures Standings(teams) == Insert(Standings(teams[..|teams| - 1]), teams[|teams| - 1])
  {
  }

  lemma EarlierComeFirst(init: seq<Team>, t: Team, sorted: seq<Team>)
    requires multiset(sorted) == multiset(init)
    ensures forall s :: s in sorted ==> ComesFirst(init + [t], s, t)
  {
    forall s | s in sorted ensures ComesFirst(init + [t], s, t) {
      assert s in multiset(sorted) && s in init;
      var k :| 0 <= k < |init| && init[k] == s;
      assert (init + [t])[k] == s && (init + [t])[|init|] == t;
    }
  }

  /** The standings are the teams, ordered by wins, Buchholz score and game difference, ties in the
      order of the list. */
  lemma {:induction false} StandingsAreSorted(teams: seq<Team>)
    ensures AreStandings(teams, Standings(teams))
  {
    if teams == [] {
    } else {
      var init, t := teams[..|teams| - 1], teams[|teams| - 1];
      var sorted := Standings(init);
      StandingsAreSorted(init);
      assert teams == init + [t];
      hide Standings, Insert, InOrder, Precedes, ComesFirst;
      OrderInLongerList(init, t, sorted);
      InsertKeepsElements(sorted, t);
      EarlierComeFirst(init, t, sorted);
      InsertKeepsOrder(teams, sorted, t);
      assert Standings(teams) == Insert(sorted, t) by { StandingsStep(teams); }
    }
  }

  /** In the standings nobody has fewer wins than one behind, at equal wins nobody a lower Buchholz
      score, and at equal scores nobody a smaller game difference; who is level in all three stands
      in the order of the list. */
  lemma StandingsByResults(teams: seq<Team>, i: nat, j: nat)
    requires i < j < |Standings(teams)|
    ensures var a, b := Standings(teams)[i], Standings(teams)[j];
            && a.matchWins >= b.matchWins
            && (a.matchWins == b.matchWins ==> a.buchholz >= b.buchholz)
            && (a.matchWins == b.matchWins && a.buchholz == b.buchholz ==>
                  a.gameWins - a.gameLosses >= b.gameWins - b.gameLosses)
            && (a.matchWins == b.matchWins && a.buchholz == b.buchholz
                && a.gameWins - a.gameLosses == b.gameWins - b.gameLosses ==>
                  exists k, l :: 0 <= k < l < |teams| && teams[k] == a && teams[l] == b)
  {
    StandingsAreSorted(teams);
    assert Precedes(teams, Standings(teams)[i], Standings(teams)[j]);
    hide Standings;
  }

  lemma PrecedesIsAsymmetric(teams: seq<Team>, a: Team, b: Team)
    requires UniqueTeams(teams) && Precedes(teams, a, b)
    ensures !Precedes(teams, b, a)
  {
    CompareIsConsistent(a, b, a);
  }

  lemma HeadsAgree(teams: seq<Team>, a: seq<Team>, b: seq<Team>)
    requires UniqueTeams(teams) && InOrder(teams, a) && InOrder(teams, b) && multiset(a) == multiset(b) && a != []
    requires b != []
    ensures a[0] == b[0]
  {
    hide Precedes;
    assert a[0] in multiset(b) && b[0] in multiset(a);
    var i :| 0 <= i < |b| && b[i] == a[0];
    var j :| 0 <= j < |a| && a[j] == b[0];
    if i > 0 && j > 0 {
      assert Precedes(teams, b[0], b[i]) && Precedes(teams, a[0], a[j]);
      PrecedesIsAsymmetric(teams, a[0], b[0]);
    }
  }

  lemma MultisetOfRest(s: seq<Team>)
    requires s != []
    ensures multiset(s[1..]) == multiset(s) - multiset{s[0]}
  {
    assert s == [s[0]] + s[1..];
  }

  lemma InOrderRest(teams: seq<Team>, s: seq<Team>)
    requires s != [] && InOrder(teams, s)
    ensures InOrder(teams, s[1..])
  {
    hide Precedes;
    forall i, j | 0 <= i < j < |s[1..]| ensures Precedes(teams, s[1..][i], s[1..][j]) {
      assert Precedes(teams, s[i + 1], s[j + 1]);
    }
  }

  lemma {:induction false} SameOrderSameList(teams: seq<Team>, a: seq<Team>, b: seq<Team>)
    requires UniqueTeams(teams) && InOrder(teams, a) && InOrder(teams, b) && multiset(a) == multiset(b)
    ensures a == b
    decreases |a|
  {
    hide Precedes;
    assert |a| == |multiset(a)| == |multiset(b)| == |b|;
    if a == [] {
    } else {
      HeadsAgree(teams, a, b);
      MultisetOfRest(a);
      MultisetOfRest(b);
      InOrderRest(teams, a);
      InOrderRest(teams, b);
      hide InOrder;
      SameOrderSameList(teams, a[1..], b[1..]);
      assert a == [a[0]] + a[1..] && b == [b[0]] + b[1..];
    }
  }

  /** And nothing else is: whatever stable sort is used, with unique ids the standings are these. */
  lemma StandingsAreUnique(teams: seq<Team>, a: seq<Team>, b: seq<Team>)
    requires UniqueTeams(teams) && AreStandings(teams, a) && AreStandings(teams, b)
    ensures a == b
  {
    SameOrderSameList(teams, a, b);
  }
}
