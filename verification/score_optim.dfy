/** The score optimizer of the ComplX app: assigns an arbiter and a team to each
    of the `num_teams / 2` matches by backtracking over a preference matrix
    indexed `[team][arbiter]`, keeping the first complete assignment with the
    greatest total preference.

    `Build` produces the pending phase; only `FindOptimalAssignment` produces
    the ready phase. The assignment vector `curr_assigned` that the source
    mutates in place is threaded through the search as a value: every function
    of the search returns the optimizer together with the vector as it leaves
    it, and their contracts state that the vector comes back as it went in.

    Match `i` occupies slots `2i` (the arbiter) and `2i + 1` (the team). The
    arbiter test is modelled as written in the source, including its operator
    precedence and the lookup of a team index as an arbiter column. */
module ScoreOptim {
  import opened Wrappers

  const ISIZE_MAX: int := 0x7FFF_FFFF_FFFF_FFFF
  const ISIZE_MIN: int := -0x8000_0000_0000_0000

  /** The refusal sentinel: `-isize::MAX`, one above `isize::MIN`. */
  const REFUSED: int := -ISIZE_MAX

  datatype BuildError = OddTeams | RaggedRows | TooFewArbiters

  /** The read-only part of the optimizer: the matrix and its two counts. */
  datatype Problem = Problem(preferences: seq<seq<int>>, numTeams: nat, numArbiters: nat)

  datatype PendingScoreOptimizer = PendingScoreOptimizer(maxAssigned: seq<nat>, maxScore: int, problem: Problem)

  datatype ReadyScoreOptimizer = ReadyScoreOptimizer(maxAssigned: seq<nat>, maxScore: int, problem: Problem)

  /** Which report text is chosen, and the figures it shows. */
  datatype ScoreMessage = NoneAssigned | Assigned(maxScore: int, arbiters: seq<nat>)

  /** The search state: the optimizer and the assignment vector as it stands. */
  datatype Search = Search(opt: PendingScoreOptimizer, vector: seq<nat>)

  function Zeros(n: nat): (z: seq<nat>)
    ensures |z| == n && forall k :: 0 <= k < n ==> z[k] == 0
  {
    seq(n, _ => 0)
  }

  predicate Rectangular(prefs: seq<seq<int>>, width: nat)
  {
    forall t :: 0 <= t < |prefs| ==> |prefs[t]| == width
  }

  /** `build`: the three configuration errors, checked in the source's order,
      and on success the `isize::MIN` score with an all-zero assignment of
      length `num_arbiters`. The source panics on an empty matrix, indexing
      `preferences[0]`. */
  function Build(prefs: seq<seq<int>>): (r: Result<PendingScoreOptimizer, BuildError>)
    requires |prefs| > 0
    ensures r == Err(OddTeams) <==> |prefs| % 2 != 0
    ensures r == Err(RaggedRows) <==> |prefs| % 2 == 0 && !Rectangular(prefs, |prefs[0]|)
    ensures r == Err(TooFewArbiters) <==>
              |prefs| % 2 == 0 && Rectangular(prefs, |prefs[0]|) && |prefs| / 2 > |prefs[0]|
    ensures r.Ok? ==> && r.value.problem == Problem(prefs, |prefs|, |prefs[0]|)
                      && r.value.maxScore == ISIZE_MIN
                      && r.value.maxAssigned == Zeros(|prefs[0]|)
  {
    var numTeams := |prefs|;
    var numArbiters := |prefs[0]|;
    if numTeams % 2 != 0 then Err(OddTeams)
    else if exists t :: 0 <= t < numTeams && |prefs[t]| != numArbiters then Err(RaggedRows)
    else if numTeams / 2 > numArbiters then Err(TooFewArbiters)
    else Ok(PendingScoreOptimizer(Zeros(numArbiters), ISIZE_MIN, Problem(prefs, numTeams, numArbiters)))
  }

  /** What the search needs of the optimizer so that every index it uses is in
      range: the matrix is `numTeams` rows of `numArbiters` entries, the team
      count is even, and there are at least as many arbiters as teams. The last
      condition is stronger than `build` checks: slot `2 * curr_match + 1` of a
      vector of length `num_arbiters` is written, and a team index is used as
      an arbiter column. */
  predicate WellFormed(p: Problem)
  {
    && |p.preferences| == p.numTeams
    && Rectangular(p.preferences, p.numArbiters)
    && p.numTeams % 2 == 0
    && p.numTeams <= p.numArbiters
  }

  /** Every slot holds an index below `numArbiters`. */
  predicate SlotsInRange(p: Problem, cur: seq<nat>)
  {
    |cur| == p.numArbiters && forall k :: 0 <= k < |cur| ==> cur[k] < p.numArbiters
  }

  /** The inner test of the source for one team against the filled match `i`.
      It parses as `a || (b && c) || d`, and `d` looks the team in slot
      `2i + 1` up as an arbiter column. */
  predicate Clash(p: Problem, cur: seq<nat>, i: nat, team: nat, arbiter: nat)
    requires WellFormed(p) && SlotsInRange(p, cur)
    requires 2 * i + 1 < |cur| && team < p.numTeams && arbiter < p.numArbiters
  {
    var row := p.preferences[team];
    || cur[2 * i] == team
    || (cur[2 * i + 1] == team && row[arbiter] > row[cur[2 * i]])
    || row[arbiter] > row[cur[2 * i + 1]]
  }

  /** `valid_assignment` after the two nested loops: no team refuses the
      arbiter, and no team clashes with any filled match. Both loops only ever
      turn the flag to false and then stop, so the order of the checks does not
      change the outcome. */
  predicate Acceptable(p: Problem, cur: seq<nat>, m: nat, arbiter: nat)
    requires WellFormed(p) && SlotsInRange(p, cur)
    requires 2 * m <= p.numTeams && arbiter < p.numArbiters
  {
    forall team :: 0 <= team < p.numTeams ==>
      && p.preferences[team][arbiter] != REFUSED
      && forall i :: 0 <= i < m ==> !Clash(p, cur, i, team, arbiter)
  }

  /** The best-pair update at a complete assignment: only a strictly greater
      score replaces the recorded one. */
  function Record(p: PendingScoreOptimizer, cur: seq<nat>, score: int): (q: PendingScoreOptimizer)
    ensures p.problem == q.problem
    ensures q.maxScore >= p.maxScore
    ensures q == p || (q.maxScore == score && q.maxAssigned == cur && score > p.maxScore)
  {
    if score > p.maxScore then p.(maxScore := score, maxAssigned := cur) else p
  }

  /** `backtrack`. */
  function Backtrack(p: PendingScoreOptimizer, cur: seq<nat>, score: int, m: nat): (r: Search)
    requires WellFormed(p.problem) && SlotsInRange(p.problem, cur)
    requires 2 * m <= p.problem.numTeams
    ensures p.problem == r.opt.problem && SlotsInRange(p.problem, r.vector)
    ensures r.opt.maxScore >= p.maxScore
    decreases p.problem.numTeams - 2 * m, 2, 0
  {
    if 2 * m == p.problem.numTeams then
      Search(Record(p, cur, score), cur)
    else
      ArbiterLoop(p, cur, score, m, 0)
  }

  /** The loop over arbiters of `backtrack`: an acceptable arbiter goes into
      slot `2m`, every team that does not refuse it is tried in slot `2m + 1`,
      and both slots are reset to 0 afterwards. */
  function ArbiterLoop(p: PendingScoreOptimizer, cur: seq<nat>, score: int, m: nat, arbiter: nat): (r: Search)
    requires WellFormed(p.problem) && SlotsInRange(p.problem, cur)
    requires 2 * m < p.problem.numTeams && arbiter <= p.problem.numArbiters
    ensures p.problem == r.opt.problem && SlotsInRange(p.problem, r.vector)
    ensures r.opt.maxScore >= p.maxScore
    decreases p.problem.numTeams - 2 * m, 1, p.problem.numArbiters - arbiter
  {
    if arbiter == p.problem.numArbiters then Search(p, cur)
    else if Acceptable(p.problem, cur, m, arbiter) then
      var s := TeamLoop(p, cur[2 * m := arbiter], score, m, arbiter, 0);
      var cur' := s.vector[2 * m := 0][2 * m + 1 := 0];
      ArbiterLoop(s.opt, cur', score, m, arbiter + 1)
    else
      ArbiterLoop(p, cur, score, m, arbiter + 1)
  }

  /** The loop over teams for the arbiter in slot `2m`. */
  function TeamLoop(p: PendingScoreOptimizer, cur: seq<nat>, score: int, m: nat, arbiter: nat, team: nat): (r: Search)
    requires WellFormed(p.problem) && SlotsInRange(p.problem, cur)
    requires 2 * m < p.problem.numTeams && arbiter < p.problem.numArbiters && team <= p.problem.numTeams
    ensures p.problem == r.opt.problem && SlotsInRange(p.problem, r.vector)
    ensures r.opt.maxScore >= p.maxScore
    decreases p.problem.numTeams - 2 * m, 0, p.problem.numTeams - team
  {
    var pr := p.problem;
    if team == pr.numTeams then Search(p, cur)
    else if pr.preferences[team][arbiter] != REFUSED then
      var s := Backtrack(p, cur[2 * m + 1 := team], score + pr.preferences[team][arbiter], m + 1);
      TeamLoop(s.opt, s.vector, score, m, arbiter, team + 1)
    else
      TeamLoop(p, cur, score, m, arbiter, team + 1)
  }

  /** `find_optimal_assigment`: the search from match 0 on an all-zero vector,
      moved into the ready phase. It starts from the pair `build` leaves. The
      result is the best score over every assignment the search can make, and
      the recorded pair is either still the initial one or such an assignment
      with its own score. */
  function FindOptimalAssignment(p: PendingScoreOptimizer): (r: ReadyScoreOptimizer)
    requires WellFormed(p.problem)
    requires p.maxScore == ISIZE_MIN && p.maxAssigned == Zeros(p.problem.numArbiters)
    ensures r.problem == p.problem
    ensures Recorded(r.problem, r.maxAssigned, r.maxScore)
    ensures forall a :: Explorable(p.problem, a) ==> Score(p.problem, a) <= r.maxScore
  {
    var cur := Zeros(p.problem.numArbiters);
    BacktrackSound(p, cur, 0, 0);
    BacktrackOptimal(p, cur, 0, 0);
    var s := Backtrack(p, cur, 0, 0);
    ReadyScoreOptimizer(s.opt.maxAssigned, s.opt.maxScore, s.opt.problem)
  }

  /** An arbiter that some team refuses never reaches a recorded slot. */
  lemma NoRefusedArbiterRecorded(p: PendingScoreOptimizer)
    requires WellFormed(p.problem)
    requires p.maxScore == ISIZE_MIN && p.maxAssigned == Zeros(p.problem.numArbiters)
    ensures var r := FindOptimalAssignment(p);
      r.maxScore > ISIZE_MIN ==>
        forall i, team :: 0 <= i < p.problem.numTeams / 2 && 0 <= team < p.problem.numTeams ==>
          p.problem.preferences[team][r.maxAssigned[2 * i]] != REFUSED
  {
    var r := FindOptimalAssignment(p);
    if r.maxScore > ISIZE_MIN {
      forall i, team | 0 <= i < p.problem.numTeams / 2 && 0 <= team < p.problem.numTeams
        ensures p.problem.preferences[team][r.maxAssigned[2 * i]] != REFUSED
      {
        assert MatchOk(p.problem, r.maxAssigned, i);
      }
    }
  }

  /** The report as written: the "none assigned" text is chosen only for an
      empty vector. */
  function ReportAsWritten(r: ReadyScoreOptimizer): (msg: ScoreMessage)
    ensures msg.NoneAssigned? <==> |r.maxAssigned| == 0
    ensures msg.Assigned? ==> msg.maxScore == r.maxScore && msg.arbiters == r.maxAssigned
  {
    if |r.maxAssigned| == 0 then NoneAssigned else Assigned(r.maxScore, r.maxAssigned)
  }

  /** The report as evidently intended: "none assigned" exactly when the
      search recorded nothing, which leaves the score at `isize::MIN`. */
  function Report(r: ReadyScoreOptimizer): (msg: ScoreMessage)
    ensures msg.NoneAssigned? <==> r.maxScore == ISIZE_MIN
    ensures msg.Assigned? ==> msg.maxScore == r.maxScore && msg.arbiters == r.maxAssigned
  {
    if r.maxScore == ISIZE_MIN then NoneAssigned else Assigned(r.maxScore, r.maxAssigned)
  }

  // ---------------------------------------------------------------------------
  // What the search explores, stated independently of its control flow.
  // ---------------------------------------------------------------------------

  /** Match `i` of `a` is one the search can make once matches `0..i` are as in
      `a`: an acceptable arbiter, and a team that does not refuse it. */
  predicate MatchOk(p: Problem, a: seq<nat>, i: nat)
    requires WellFormed(p) && SlotsInRange(p, a)
    requires 2 * i < p.numTeams
  {
    && a[2 * i + 1] < p.numTeams
    && Acceptable(p, a, i, a[2 * i])
    && p.preferences[a[2 * i + 1]][a[2 * i]] != REFUSED
  }

  /** The team slots of the first `m` matches hold team indices. */
  predicate TeamsBelow(p: Problem, a: seq<nat>, m: nat)
    requires 2 * m <= |a|
  {
    forall i :: 0 <= i < m ==> a[2 * i + 1] < p.numTeams
  }

  /** A complete assignment the search visits: every match is one it can make
      and the slots beyond the matches were never written. */
  predicate Explorable(p: Problem, a: seq<nat>)
    requires WellFormed(p)
  {
    && SlotsInRange(p, a)
    && TeamsBelow(p, a, p.numTeams / 2)
    && (forall i :: 0 <= i < p.numTeams / 2 ==> MatchOk(p, a, i))
    && (forall k :: p.numTeams <= k < |a| ==> a[k] == 0)
  }

  /** Total preference of the first `m` matches of `a`. */
  function ScoreUpTo(p: Problem, a: seq<nat>, m: nat): int
    requires WellFormed(p) && SlotsInRange(p, a)
    requires 2 * m <= p.numTeams && TeamsBelow(p, a, m)
  {
    if m == 0 then 0
    else ScoreUpTo(p, a, m - 1) + p.preferences[a[2 * (m - 1) + 1]][a[2 * (m - 1)]]
  }

  function Score(p: Problem, a: seq<nat>): int
    requires WellFormed(p) && SlotsInRange(p, a) && TeamsBelow(p, a, p.numTeams / 2)
  {
    ScoreUpTo(p, a, p.numTeams / 2)
  }

  /** The recorded pair is the initial one, or a complete explorable assignment
      together with its own score. */
  predicate Recorded(p: Problem, best: seq<nat>, maxScore: int)
    requires WellFormed(p)
  {
    || (maxScore == ISIZE_MIN && best == Zeros(p.numArbiters))
    || (Explorable(p, best) && maxScore == Score(p, best) && maxScore > ISIZE_MIN)
  }

  /** `Recorded` of the optimizer's own pair. */
  predicate Holds(q: PendingScoreOptimizer)
    requires WellFormed(q.problem)
  {
    Recorded(q.problem, q.maxAssigned, q.maxScore)
  }

  predicate AgreeBelow(a: seq<nat>, b: seq<nat>, n: nat)
  {
    n <= |a| && n <= |b| && forall k :: 0 <= k < n ==> a[k] == b[k]
  }

  lemma AcceptableReadsPrefix(p: Problem, a: seq<nat>, b: seq<nat>, m: nat, arbiter: nat)
    requires WellFormed(p) && SlotsInRange(p, a) && SlotsInRange(p, b)
    requires 2 * m <= p.numTeams && arbiter < p.numArbiters
    requires AgreeBelow(a, b, 2 * m)
    ensures Acceptable(p, a, m, arbiter) == Acceptable(p, b, m, arbiter)
  {
    forall team, i | 0 <= team < p.numTeams && 0 <= i < m
      ensures Clash(p, a, i, team, arbiter) == Clash(p, b, i, team, arbiter)
    {
      assert a[2 * i] == b[2 * i] && a[2 * i + 1] == b[2 * i + 1];
    }
  }

  lemma {:induction false} ScoreReadsPrefix(p: Problem, a: seq<nat>, b: seq<nat>, m: nat)
    requires WellFormed(p) && SlotsInRange(p, a) && SlotsInRange(p, b)
    requires 2 * m <= p.numTeams && TeamsBelow(p, a, m)
    requires AgreeBelow(a, b, 2 * m)
    ensures TeamsBelow(p, b, m) && ScoreUpTo(p, a, m) == ScoreUpTo(p, b, m)
  {
    if m > 0 {
      ScoreReadsPrefix(p, a, b, m - 1);
      assert a[2 * (m - 1)] == b[2 * (m - 1)] && a[2 * (m - 1) + 1] == b[2 * (m - 1) + 1];
    }
  }

  /** One match can be made by the search regardless of the later slots. */
  lemma MatchOkReadsPrefix(p: Problem, a: seq<nat>, b: seq<nat>, i: nat)
    requires WellFormed(p) && SlotsInRange(p, a) && SlotsInRange(p, b)
    requires 2 * i < p.numTeams
    requires AgreeBelow(a, b, 2 * i + 2)
    ensures MatchOk(p, a, i) == MatchOk(p, b, i)
  {
    AcceptableReadsPrefix(p, a, b, i, a[2 * i]);
  }

  /** The entry condition of `backtrack` at match `m`: matches `0..m` are ones
      the search can make, later slots are zero, and `score` is their total. */
  predicate PartialOk(p: Problem, cur: seq<nat>, score: int, m: nat)
    requires WellFormed(p) && SlotsInRange(p, cur)
    requires 2 * m <= p.numTeams
  {
    && TeamsBelow(p, cur, m)
    && (forall i :: 0 <= i < m ==> MatchOk(p, cur, i))
    && (forall k :: 2 * m <= k < |cur| ==> cur[k] == 0)
    && score == ScoreUpTo(p, cur, m)
  }

  /** The entry condition of the team loop: slot `2m` holds an acceptable
      arbiter, matches `0..m` are ones the search can make, the slots after
      match `m` are zero and `score` is the total of matches `0..m`. */
  predicate ArbiterPlaced(p: Problem, cur: seq<nat>, score: int, m: nat, arbiter: nat)
    requires WellFormed(p) && SlotsInRange(p, cur)
    requires 2 * m < p.numTeams && arbiter < p.numArbiters
  {
    && cur[2 * m] == arbiter && Acceptable(p, cur, m, arbiter)
    && TeamsBelow(p, cur, m) && (forall i :: 0 <= i < m ==> MatchOk(p, cur, i))
    && (forall k :: 2 * m + 2 <= k < |cur| ==> cur[k] == 0)
    && score == ScoreUpTo(p, cur, m)
  }

  /** Putting an acceptable arbiter into slot `2m` keeps matches `0..m` and
      their score. */
  lemma PlaceArbiter(p: Problem, cur: seq<nat>, score: int, m: nat, arbiter: nat)
    requires WellFormed(p) && SlotsInRange(p, cur)
    requires 2 * m < p.numTeams && arbiter < p.numArbiters
    requires PartialOk(p, cur, score, m) && Acceptable(p, cur, m, arbiter)
    ensures SlotsInRange(p, cur[2 * m := arbiter])
    ensures ArbiterPlaced(p, cur[2 * m := arbiter], score, m, arbiter)
  {
    var c1 := cur[2 * m := arbiter];
    assert AgreeBelow(c1, cur, 2 * m);
    AcceptableReadsPrefix(p, c1, cur, m, arbiter);
    forall i | 0 <= i < m
      ensures MatchOk(p, c1, i)
    {
      MatchOkReadsPrefix(p, c1, cur, i);
    }
    ScoreReadsPrefix(p, cur, c1, m);
  }

  /** Putting a team that does not refuse the arbiter into slot `2m + 1`
      completes match `m`, and the score grows by that team's preference. */
  lemma PlaceTeam(p: Problem, cur: seq<nat>, score: int, m: nat, arbiter: nat, team: nat)
    requires WellFormed(p) && SlotsInRange(p, cur)
    requires 2 * m < p.numTeams && arbiter < p.numArbiters && team < p.numTeams
    requires ArbiterPlaced(p, cur, score, m, arbiter)
    requires p.preferences[team][arbiter] != REFUSED
    ensures SlotsInRange(p, cur[2 * m + 1 := team])
    ensures PartialOk(p, cur[2 * m + 1 := team], score + p.preferences[team][arbiter], m + 1)
    ensures ArbiterPlaced(p, cur[2 * m + 1 := team], score, m, arbiter)
  {
    var c2 := cur[2 * m + 1 := team];
    assert AgreeBelow(c2, cur, 2 * m + 1);
    AcceptableReadsPrefix(p, c2, cur, m, arbiter);
    forall i | 0 <= i < m
      ensures MatchOk(p, c2, i)
    {
      MatchOkReadsPrefix(p, c2, cur, i);
    }
    ScoreReadsPrefix(p, cur, c2, m);
    assert TeamsBelow(p, c2, m + 1);
    assert MatchOk(p, c2, m);
  }

  /** Zeroing both slots of match `m` undoes the search's writes to them. */
  lemma ResetRestores(cur: seq<nat>, v: seq<nat>, m: nat)
    requires 2 * m + 1 < |cur| && cur[2 * m] == 0 && cur[2 * m + 1] == 0
    requires |v| == |cur| && forall k :: 0 <= k < |cur| && k != 2 * m && k != 2 * m + 1 ==> v[k] == cur[k]
    ensures v[2 * m := 0][2 * m + 1 := 0] == cur
  {
  }

  /** When every slot from `2 * m` on is zero on entry, as the source always
      arranges, `backtrack` hands the vector back unchanged. */
  lemma {:induction false} BacktrackRestores(p: PendingScoreOptimizer, cur: seq<nat>, score: int, m: nat)
    requires WellFormed(p.problem) && SlotsInRange(p.problem, cur)
    requires 2 * m <= p.problem.numTeams
    requires forall k :: 2 * m <= k < |cur| ==> cur[k] == 0
    ensures Backtrack(p, cur, score, m).vector == cur
    decreases p.problem.numTeams - 2 * m, 2, 0
  {
    if 2 * m < p.problem.numTeams {
      ArbiterLoopRestores(p, cur, score, m, 0);
    }
  }

  lemma {:induction false} ArbiterLoopRestores(p: PendingScoreOptimizer, cur: seq<nat>, score: int, m: nat, arbiter: nat)
    requires WellFormed(p.problem) && SlotsInRange(p.problem, cur)
    requires 2 * m < p.problem.numTeams && arbiter <= p.problem.numArbiters
    requires forall k :: 2 * m <= k < |cur| ==> cur[k] == 0
    ensures ArbiterLoop(p, cur, score, m, arbiter).vector == cur
    decreases p.problem.numTeams - 2 * m, 1, p.problem.numArbiters - arbiter
  {
    if arbiter < p.problem.numArbiters {
      if Acceptable(p.problem, cur, m, arbiter) {
        var c1 := cur[2 * m := arbiter];
        TeamLoopRestores(p, c1, score, m, arbiter, 0);
        var s := TeamLoop(p, c1, score, m, arbiter, 0);
        ResetRestores(cur, s.vector, m);
        ArbiterLoopRestores(s.opt, cur, score, m, arbiter + 1);
      } else {
        ArbiterLoopRestores(p, cur, score, m, arbiter + 1);
      }
    }
  }

  /** The team loop leaves every slot but the team slot of match `m` as it
      found it. */
  lemma {:induction false} TeamLoopRestores(p: PendingScoreOptimizer, cur: seq<nat>, score: int, m: nat, arbiter: nat, team: nat)
    requires WellFormed(p.problem) && SlotsInRange(p.problem, cur)
    requires 2 * m < p.problem.numTeams && arbiter < p.problem.numArbiters && team <= p.problem.numTeams
    requires forall k :: 2 * m + 2 <= k < |cur| ==> cur[k] == 0
    ensures var v := TeamLoop(p, cur, score, m, arbiter, team).vector;
      |v| == |cur| && forall k :: 0 <= k < |cur| && k != 2 * m + 1 ==> v[k] == cur[k]
    decreases p.problem.numTeams - 2 * m, 0, p.problem.numTeams - team
  {
    var pr := p.problem;
    if team < pr.numTeams {
      if pr.preferences[team][arbiter] != REFUSED {
        var c2 := cur[2 * m + 1 := team];
        BacktrackRestores(p, c2, score + pr.preferences[team][arbiter], m + 1);
        var s := Backtrack(p, c2, score + pr.preferences[team][arbiter], m + 1);
        TeamLoopRestores(s.opt, s.vector, score, m, arbiter, team + 1);
      } else {
        TeamLoopRestores(p, cur, score, m, arbiter, team + 1);
      }
    }
  }

  /** A vector that agrees with `cur` below the team slot of match `m` and
      holds at least `team` there either has exactly `team` there or agrees
      with `cur` updated to `team` below that slot. */
  lemma TeamSlotCases(a: seq<nat>, cur: seq<nat>, m: nat, team: nat)
    requires AgreeBelow(a, cur, 2 * m + 1) && 2 * m + 1 < |a| && 2 * m + 1 < |cur| && a[2 * m + 1] >= team
    ensures a[2 * m + 1] == team ==> AgreeBelow(a, cur[2 * m + 1 := team], 2 * m + 2)
    ensures a[2 * m + 1] != team ==> AgreeBelow(a, cur[2 * m + 1 := team], 2 * m + 1) && a[2 * m + 1] >= team + 1
  {
  }

  /** Soundness of `backtrack` from match `m`: the recorded pair stays either
      the initial one or a complete explorable assignment with its own score. */
  lemma {:induction false} BacktrackSound(p: PendingScoreOptimizer, cur: seq<nat>, score: int, m: nat)
    requires WellFormed(p.problem) && SlotsInRange(p.problem, cur)
    requires 2 * m <= p.problem.numTeams
    requires PartialOk(p.problem, cur, score, m) && Holds(p)
    ensures Holds(Backtrack(p, cur, score, m).opt)
    decreases p.problem.numTeams - 2 * m, 2, 0
  {
    var pr := p.problem;
    if 2 * m == pr.numTeams {
      if score > p.maxScore {
        assert m == pr.numTeams / 2;
        assert Explorable(pr, cur);
      }
    } else {
      ArbiterLoopSound(p, cur, score, m, 0);
    }
  }

  lemma {:induction false} ArbiterLoopSound(p: PendingScoreOptimizer, cur: seq<nat>, score: int, m: nat, arbiter: nat)
    requires WellFormed(p.problem) && SlotsInRange(p.problem, cur)
    requires 2 * m < p.problem.numTeams && arbiter <= p.problem.numArbiters
    requires PartialOk(p.problem, cur, score, m) && Holds(p)
    ensures Holds(ArbiterLoop(p, cur, score, m, arbiter).opt)
    decreases p.problem.numTeams - 2 * m, 1, p.problem.numArbiters - arbiter
  {
    var pr := p.problem;
    if arbiter < pr.numArbiters {
      if Acceptable(pr, cur, m, arbiter) {
        var c1 := cur[2 * m := arbiter];
        ArbiterStep(p, cur, score, m, arbiter);
        TeamLoopSound(p, c1, score, m, arbiter, 0);
        var s := TeamLoop(p, c1, score, m, arbiter, 0);
        ArbiterLoopSound(s.opt, cur, score, m, arbiter + 1);
      } else {
        ArbiterLoopSound(p, cur, score, m, arbiter + 1);
      }
    }
  }

  lemma {:induction false} TeamLoopSound(p: PendingScoreOptimizer, cur: seq<nat>, score: int, m: nat, arbiter: nat, team: nat)
    requires WellFormed(p.problem) && SlotsInRange(p.problem, cur)
    requires 2 * m < p.problem.numTeams && arbiter < p.problem.numArbiters && team <= p.problem.numTeams
    requires ArbiterPlaced(p.problem, cur, score, m, arbiter) && Holds(p)
    ensures Holds(TeamLoop(p, cur, score, m, arbiter, team).opt)
    decreases p.problem.numTeams - 2 * m, 0, p.problem.numTeams - team, 1
  {
    var pr := p.problem;
    if team < pr.numTeams {
      var c2 := cur[2 * m + 1 := team];
      var score' := score + pr.preferences[team][arbiter];
      TeamStep(p, cur, score, m, arbiter, team, c2, score');
      TeamLoopSoundAfter(p, score, m, arbiter, team, c2, score');
      var s := Backtrack(p, c2, score', m + 1);
      assert TeamLoop(p, cur, score, m, arbiter, team).opt == TeamLoop(s.opt, c2, score, m, arbiter, team + 1).opt;
    } else {
      assert TeamLoop(p, cur, score, m, arbiter, team).opt == p;
    }
  }

  /** The rest of the team loop once team `team` has been placed in `c2`:
      the search from match `m + 1`, then the next team. */
  lemma {:induction false} TeamLoopSoundAfter(p: PendingScoreOptimizer, score: int, m: nat, arbiter: nat, team: nat, c2: seq<nat>, score': int)
    requires WellFormed(p.problem) && SlotsInRange(p.problem, c2)
    requires 2 * m < p.problem.numTeams && arbiter < p.problem.numArbiters && team < p.problem.numTeams
    requires PartialOk(p.problem, c2, score', m + 1) && Backtrack(p, c2, score', m + 1).vector == c2
    requires ArbiterPlaced(p.problem, c2, score, m, arbiter) && Holds(p)
    ensures Holds(TeamLoop(Backtrack(p, c2, score', m + 1).opt, c2, score, m, arbiter, team + 1).opt)
    decreases p.problem.numTeams - 2 * m, 0, p.problem.numTeams - team, 0
  {
    BacktrackSound(p, c2, score', m + 1);
    var s := Backtrack(p, c2, score', m + 1);
    TeamLoopSound(s.opt, c2, score, m, arbiter, team + 1);
  }

  /** One turn of the arbiter loop for an acceptable arbiter: the team loop
      starts with the arbiter placed, and once both slots are reset the loop
      goes on with the next arbiter from the vector it started with. */
  lemma ArbiterStep(p: PendingScoreOptimizer, cur: seq<nat>, score: int, m: nat, arbiter: nat)
    requires WellFormed(p.problem) && SlotsInRange(p.problem, cur)
    requires 2 * m < p.problem.numTeams && arbiter < p.problem.numArbiters
    requires PartialOk(p.problem, cur, score, m) && Acceptable(p.problem, cur, m, arbiter)
    ensures var c1 := cur[2 * m := arbiter];
      && SlotsInRange(p.problem, c1)
      && ArbiterPlaced(p.problem, c1, score, m, arbiter)
      && var s := TeamLoop(p, c1, score, m, arbiter, 0);
      && ArbiterLoop(p, cur, score, m, arbiter) == ArbiterLoop(s.opt, cur, score, m, arbiter + 1)
  {
    var c1 := cur[2 * m := arbiter];
    PlaceArbiter(p.problem, cur, score, m, arbiter);
    TeamLoopRestores(p, c1, score, m, arbiter, 0);
    var s := TeamLoop(p, c1, score, m, arbiter, 0);
    ResetRestores(cur, s.vector, m);
  }

  /** One turn of the team loop: the arbiter is acceptable, so the team does
      not refuse it; the search from match `m + 1` hands the vector back as it
      got it, and the loop goes on with the next team from there. */
  lemma TeamStep(p: PendingScoreOptimizer, cur: seq<nat>, score: int, m: nat, arbiter: nat, team: nat, c2: seq<nat>, score': int)
    requires WellFormed(p.problem) && SlotsInRange(p.problem, cur)
    requires 2 * m < p.problem.numTeams && arbiter < p.problem.numArbiters && team < p.problem.numTeams
    requires ArbiterPlaced(p.problem, cur, score, m, arbiter)
    requires c2 == cur[2 * m + 1 := team] && score' == score + p.problem.preferences[team][arbiter]
    ensures p.problem.preferences[team][arbiter] != REFUSED
    ensures SlotsInRange(p.problem, c2) && PartialOk(p.problem, c2, score', m + 1)
    ensures Backtrack(p, c2, score', m + 1).vector == c2
    ensures ArbiterPlaced(p.problem, c2, score, m, arbiter)
    ensures TeamLoop(p, cur, score, m, arbiter, team) == TeamLoop(Backtrack(p, c2, score', m + 1).opt, c2, score, m, arbiter, team + 1)
  {
    assert p.problem.preferences[team][arbiter] != REFUSED;
    PlaceTeam(p.problem, cur, score, m, arbiter, team);
    BacktrackRestores(p, c2, score', m + 1);
  }

  /** Optimality of `backtrack` from match `m`: the result is at least the
      score of every explorable completion of the matches already made. */
  lemma {:induction false} BacktrackOptimal(p: PendingScoreOptimizer, cur: seq<nat>, score: int, m: nat)
    requires WellFormed(p.problem) && SlotsInRange(p.problem, cur)
    requires 2 * m <= p.problem.numTeams
    requires PartialOk(p.problem, cur, score, m)
    ensures forall a :: Explorable(p.problem, a) && AgreeBelow(a, cur, 2 * m) ==>
              Score(p.problem, a) <= Backtrack(p, cur, score, m).opt.maxScore
    decreases p.problem.numTeams - 2 * m, 2, 0
  {
    var pr := p.problem;
    if 2 * m == pr.numTeams {
      forall a | Explorable(pr, a) && AgreeBelow(a, cur, 2 * m)
        ensures Score(pr, a) <= Backtrack(p, cur, score, m).opt.maxScore
      {
        ScoreReadsPrefix(pr, a, cur, m);
      }
    } else {
      ArbiterLoopOptimal(p, cur, score, m, 0);
    }
  }

  lemma {:induction false} ArbiterLoopOptimal(p: PendingScoreOptimizer, cur: seq<nat>, score: int, m: nat, arbiter: nat)
    requires WellFormed(p.problem) && SlotsInRange(p.problem, cur)
    requires 2 * m < p.problem.numTeams && arbiter <= p.problem.numArbiters
    requires PartialOk(p.problem, cur, score, m)
    ensures forall a :: Explorable(p.problem, a) && AgreeBelow(a, cur, 2 * m) && a[2 * m] >= arbiter ==>
              Score(p.problem, a) <= ArbiterLoop(p, cur, score, m, arbiter).opt.maxScore
    decreases p.problem.numTeams - 2 * m, 1, p.problem.numArbiters - arbiter, 1
  {
    var pr := p.problem;
    if arbiter < pr.numArbiters {
      if Acceptable(pr, cur, m, arbiter) {
        ArbiterStep(p, cur, score, m, arbiter);
        var c1 := cur[2 * m := arbiter];
        ArbiterLoopOptimalAfter(p, cur, score, m, arbiter, c1);
        var s := TeamLoop(p, c1, score, m, arbiter, 0);
        assert ArbiterLoop(p, cur, score, m, arbiter).opt == ArbiterLoop(s.opt, cur, score, m, arbiter + 1).opt;
      } else {
        ArbiterLoopOptimal(p, cur, score, m, arbiter + 1);
        forall a | Explorable(pr, a) && AgreeBelow(a, cur, 2 * m) && a[2 * m] >= arbiter
          ensures a[2 * m] > arbiter
        {
          assert MatchOk(pr, a, m);
          AcceptableReadsPrefix(pr, a, cur, m, a[2 * m]);
        }
      }
    }
  }

  /** The rest of the arbiter loop once an acceptable `arbiter` has been
      placed: the team loop for it, then the next arbiter. */
  lemma {:induction false} ArbiterLoopOptimalAfter(p: PendingScoreOptimizer, cur: seq<nat>, score: int, m: nat, arbiter: nat, c1: seq<nat>)
    requires WellFormed(p.problem) && 2 * m < p.problem.numTeams && arbiter < p.problem.numArbiters
    requires SlotsInRange(p.problem, cur) && c1 == cur[2 * m := arbiter] && SlotsInRange(p.problem, c1)
    requires PartialOk(p.problem, cur, score, m) && ArbiterPlaced(p.problem, c1, score, m, arbiter)
    ensures forall a :: Explorable(p.problem, a) && AgreeBelow(a, cur, 2 * m) && a[2 * m] >= arbiter ==>
              Score(p.problem, a) <= ArbiterLoop(TeamLoop(p, c1, score, m, arbiter, 0).opt, cur, score, m, arbiter + 1).opt.maxScore
    decreases p.problem.numTeams - 2 * m, 1, p.problem.numArbiters - arbiter, 0
  {
    TeamLoopOptimal(p, c1, score, m, arbiter, 0);
    var s := TeamLoop(p, c1, score, m, arbiter, 0);
    ArbiterLoopOptimal(s.opt, cur, score, m, arbiter + 1);
    var r := ArbiterLoop(s.opt, cur, score, m, arbiter + 1);
    ArbiterCases(p.problem, cur, c1, m, arbiter, s.opt.maxScore, r.opt.maxScore);
  }

  /** The two cases of the arbiter loop's optimality: an assignment with the
      current arbiter in slot `2m` is bounded by its team loop, one with a
      later arbiter by the rest of the loop. */
  lemma ArbiterCases(pr: Problem, cur: seq<nat>, c1: seq<nat>, m: nat, arbiter: nat, sMax: int, rMax: int)
    requires WellFormed(pr) && SlotsInRange(pr, cur) && 2 * m < pr.numTeams
    requires c1 == cur[2 * m := arbiter] && sMax <= rMax
    requires forall a :: Explorable(pr, a) && AgreeBelow(a, c1, 2 * m + 1) && a[2 * m + 1] >= 0 ==> Score(pr, a) <= sMax
    requires forall a :: Explorable(pr, a) && AgreeBelow(a, cur, 2 * m) && a[2 * m] >= arbiter + 1 ==> Score(pr, a) <= rMax
    ensures forall a :: Explorable(pr, a) && AgreeBelow(a, cur, 2 * m) && a[2 * m] >= arbiter ==> Score(pr, a) <= rMax
  {
    forall a | Explorable(pr, a) && AgreeBelow(a, cur, 2 * m) && a[2 * m] == arbiter
      ensures Score(pr, a) <= rMax
    {
      assert AgreeBelow(a, c1, 2 * m + 1);
    }
  }

  lemma {:induction false} TeamLoopOptimal(p: PendingScoreOptimizer, cur: seq<nat>, score: int, m: nat, arbiter: nat, team: nat)
    requires WellFormed(p.problem) && SlotsInRange(p.problem, cur)
    requires 2 * m < p.problem.numTeams && arbiter < p.problem.numArbiters && team <= p.problem.numTeams
    requires ArbiterPlaced(p.problem, cur, score, m, arbiter)
    ensures forall a :: Explorable(p.problem, a) && AgreeBelow(a, cur, 2 * m + 1) && a[2 * m + 1] >= team ==>
              Score(p.problem, a) <= TeamLoop(p, cur, score, m, arbiter, team).opt.maxScore
    decreases p.problem.numTeams - 2 * m, 0, p.problem.numTeams - team, 1
  {
    var pr := p.problem;
    if team < pr.numTeams {
      var c2 := cur[2 * m + 1 := team];
      var score' := score + pr.preferences[team][arbiter];
      TeamStep(p, cur, score, m, arbiter, team, c2, score');
      TeamLoopOptimalAfter(p, cur, score, m, arbiter, team, c2, score');
      var s := Backtrack(p, c2, score', m + 1);
      assert TeamLoop(p, cur, score, m, arbiter, team).opt == TeamLoop(s.opt, c2, score, m, arbiter, team + 1).opt;
    }
  }

  /** The rest of the team loop once team `team` has been placed in `c2`:
      the search from match `m + 1`, then the next team. */
  lemma {:induction false} TeamLoopOptimalAfter(p: PendingScoreOptimizer, cur: seq<nat>, score: int, m: nat, arbiter: nat, team: nat, c2: seq<nat>, score': int)
    requires WellFormed(p.problem) && SlotsInRange(p.problem, cur) && SlotsInRange(p.problem, c2)
    requires 2 * m < p.problem.numTeams && arbiter < p.problem.numArbiters && team < p.problem.numTeams
    requires c2 == cur[2 * m + 1 := team]
    requires PartialOk(p.problem, c2, score', m + 1) && Backtrack(p, c2, score', m + 1).vector == c2
    requires ArbiterPlaced(p.problem, c2, score, m, arbiter)
    ensures forall a :: Explorable(p.problem, a) && AgreeBelow(a, cur, 2 * m + 1) && a[2 * m + 1] >= team ==>
              Score(p.problem, a) <= TeamLoop(Backtrack(p, c2, score', m + 1).opt, c2, score, m, arbiter, team + 1).opt.maxScore
    decreases p.problem.numTeams - 2 * m, 0, p.problem.numTeams - team, 0
  {
    BacktrackOptimal(p, c2, score', m + 1);
    var s := Backtrack(p, c2, score', m + 1);
    TeamLoopOptimal(s.opt, c2, score, m, arbiter, team + 1);
    var r := TeamLoop(s.opt, c2, score, m, arbiter, team + 1);
    TeamCases(p.problem, cur, c2, m, team, s.opt.maxScore, r.opt.maxScore);
  }

  /** The two cases of the team loop's optimality: an assignment with the
      current team in slot `2m + 1` is bounded by the search below it, one
      with a later team by the rest of the loop. */
  lemma TeamCases(pr: Problem, cur: seq<nat>, c2: seq<nat>, m: nat, team: nat, sMax: int, rMax: int)
    requires WellFormed(pr) && SlotsInRange(pr, cur) && 2 * m < pr.numTeams && team < pr.numTeams
    requires c2 == cur[2 * m + 1 := team] && sMax <= rMax
    requires forall a :: Explorable(pr, a) && AgreeBelow(a, c2, 2 * (m + 1)) ==> Score(pr, a) <= sMax
    requires forall a :: Explorable(pr, a) && AgreeBelow(a, c2, 2 * m + 1) && a[2 * m + 1] >= team + 1 ==>
               Score(pr, a) <= rMax
    ensures forall a :: Explorable(pr, a) && AgreeBelow(a, cur, 2 * m + 1) && a[2 * m + 1] >= team ==>
              Score(pr, a) <= rMax
  {
    forall a | Explorable(pr, a) && AgreeBelow(a, cur, 2 * m + 1) && a[2 * m + 1] >= team
      ensures Score(pr, a) <= rMax
    {
      TeamSlotCases(a, cur, m, team);
    }
  }

  // ---------------------------------------------------------------------------
  // The report, and the unit test of the source.
  // ---------------------------------------------------------------------------

  /** The corrected report says "none assigned" exactly when no assignment the
      search can make scores above `isize::MIN`. */
  lemma ReportNoneIffNothingExplorable(p: PendingScoreOptimizer)
    requires WellFormed(p.problem)
    requires p.maxScore == ISIZE_MIN && p.maxAssigned == Zeros(p.problem.numArbiters)
    ensures Report(FindOptimalAssignment(p)).NoneAssigned? <==>
              forall a :: Explorable(p.problem, a) ==> Score(p.problem, a) <= ISIZE_MIN
  {
    var r := FindOptimalAssignment(p);
    if forall a :: Explorable(p.problem, a) ==> Score(p.problem, a) <= ISIZE_MIN {
      if Explorable(r.problem, r.maxAssigned) {
        assert Score(p.problem, r.maxAssigned) <= ISIZE_MIN;
      }
    }
  }

  /** The report as written never chooses the "none assigned" text after
      the search on a problem with at least one team and at least as many
      arbiters as teams: the vector it tests always has `num_arbiters`
      entries, and there is at least one arbiter. */
  lemma ReportAsWrittenAlwaysAssigned(p: PendingScoreOptimizer)
    requires WellFormed(p.problem) && p.problem.numTeams > 0
    requires p.maxScore == ISIZE_MIN && p.maxAssigned == Zeros(p.problem.numArbiters)
    ensures ReportAsWritten(FindOptimalAssignment(p)).Assigned?
  {
  }

  /** Two teams that refuse both arbiters. */
  function AllRefused(): seq<seq<int>>
  {
    [[REFUSED, REFUSED], [REFUSED, REFUSED]]
  }

  /** With every arbiter refused the search records nothing, yet the report as
      written still presents an assignment with score `isize::MIN`, where the
      corrected report says that none was made. */
  lemma ReportAsWrittenMisreports(prefs: seq<seq<int>>)
    requires prefs == AllRefused()
    ensures Build(prefs).Ok?
    ensures var r := FindOptimalAssignment(Build(prefs).value);
      && r.maxScore == ISIZE_MIN
      && ReportAsWritten(r) == Assigned(ISIZE_MIN, [0, 0])
      && Report(r) == NoneAssigned
  {
    var p := Build(prefs).value;
    var pr := p.problem;
    assert WellFormed(pr);
    NothingExplorableWhenAllRefused(pr, FindOptimalAssignment(p).maxAssigned);
  }

  /** When every team refuses every arbiter, no assignment can be made: match 0
      would need an arbiter that team 0 does not refuse. */
  lemma NothingExplorableWhenAllRefused(p: Problem, a: seq<nat>)
    requires WellFormed(p) && p.numTeams > 0
    requires forall t, j :: 0 <= t < p.numTeams && 0 <= j < p.numArbiters ==> p.preferences[t][j] == REFUSED
    ensures !Explorable(p, a)
  {
    if SlotsInRange(p, a) {
      assert !MatchOk(p, a, 0);
    }
  }

  /** Every match scores at most `bound` when no entry exceeds it. */
  lemma {:induction false} ScoreAtMost(p: Problem, a: seq<nat>, m: nat, bound: int)
    requires WellFormed(p) && SlotsInRange(p, a)
    requires 2 * m <= p.numTeams && TeamsBelow(p, a, m)
    requires forall t, j :: 0 <= t < p.numTeams && 0 <= j < p.numArbiters ==> p.preferences[t][j] <= bound
    ensures ScoreUpTo(p, a, m) <= m * bound
  {
    if m > 0 {
      ScoreAtMost(p, a, m - 1, bound);
    }
  }

  function TestPreferences(): seq<seq<int>>
  {
    [ [10, 8, 6, 4, 2],
      [2, 4, 6, 8, 10],
      [4, 6, 2, 10, 8],
      [8, 10, 4, 6, 2] ]
  }

  /** Arbiter 4 with team 1, then arbiter 1 with team 3, is an assignment the
      search makes on the test matrix, and it scores 20. */
  lemma TestWitness()
    ensures WellFormed(Problem(TestPreferences(), 4, 5))
    ensures Explorable(Problem(TestPreferences(), 4, 5), [4, 1, 1, 3, 0])
    ensures Score(Problem(TestPreferences(), 4, 5), [4, 1, 1, 3, 0]) == 20
  {
    var pr := Problem(TestPreferences(), 4, 5);
    var w: seq<nat> := [4, 1, 1, 3, 0];
    assert WellFormed(pr);
    assert Acceptable(pr, w, 0, 4);
    assert Acceptable(pr, w, 1, 1) by {
      forall team | 0 <= team < 4
        ensures !Clash(pr, w, 0, team, 1)
      {
      }
    }
    assert MatchOk(pr, w, 0) && MatchOk(pr, w, 1);
  }

  /** The source's unit test: four teams and five arbiters give a maximum
      score of 20. The matrix is a parameter so that the search is reasoned
      about through its contract rather than unfolded. */
  lemma TestOptimalAssignment(prefs: seq<seq<int>>)
    requires prefs == TestPreferences()
    ensures Build(prefs).Ok?
    ensures FindOptimalAssignment(Build(prefs).value).maxScore == 20
  {
    var p := Build(prefs).value;
    var pr := p.problem;
    TestWitness();
    var r := FindOptimalAssignment(p);
    if Explorable(pr, r.maxAssigned) {
      ScoreAtMost(pr, r.maxAssigned, 2, 10);
    }
  }
}
