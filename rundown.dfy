/** The rundown of one game as a fold over its rows: the running state, the
    effect of one row on it, and the narrative and box scores after the last
    row. */
module Rundown {
  import opened Types
  import opened Rules

  /** The state threaded through the pass: the running minute, both running
      scores, the last actor, the narrative so far, and both teams' counters
      (one per roster row). */
  datatype State = State(minute: nat, scoreA: nat, scoreB: nat, actor: Option<Actor>,
                         lines: seq<Line>, statsA: seq<Stat>, statsB: seq<Stat>)
  {
    function Score(side: Side): nat {
      if side == A then scoreA else scoreB
    }
    function Stats(side: Side): seq<Stat> {
      if side == A then statsA else statsB
    }
  }

  /** The counters are row for row with the rosters. */
  predicate Shaped(g: Game, st: State) {
    |st.statsA| == |g.rosterA| && |st.statsB| == |g.rosterB|
  }

  /** The state before the first row: minute 0, no score, no actor, the
      header line, and zero counters. */
  function Start(g: Game): (st: State)
    ensures Shaped(g, st) && st.lines == [Header(g.teamA, g.teamB)]
    ensures st.minute == 0 && st.scoreA == 0 && st.scoreB == 0 && st.actor.None?
    ensures st.statsA == Zeros(|g.rosterA|) && st.statsB == Zeros(|g.rosterB|)
  {
    State(0, 0, 0, None, [Header(g.teamA, g.teamB)], Zeros(|g.rosterA|), Zeros(|g.rosterB|))
  }

  /** `st` with the player `name` of `side` credited. */
  function CreditSide(g: Game, st: State, side: Side, name: string, c: Credit): (r: State)
    requires Shaped(g, st)
    ensures Shaped(g, r)
  {
    if side == A then st.(statsA := CreditByName(g.rosterA, st.statsA, name, c))
    else st.(statsB := CreditByName(g.rosterB, st.statsB, name, c))
  }

  /** The foul scan for the running minute: the foul line of that minute is
      appended, and the fouling player charged a personal foul, unless the
      narrative already holds that line. */
  function Foul(g: Game, st: State): (r: State)
    requires Shaped(g, st)
    ensures Shaped(g, r)
  {
    match DetectFoul(g, st.minute)
    case None => st
    case Some(f) =>
      var line := FoulLine(st.minute, g.Team(f.side), g.Roster(f.side)[f.k].name);
      if line in st.lines then st
      else CreditSide(g, st, f.side, g.Roster(f.side)[f.k].name, PersonalFoul).(lines := st.lines + [line])
  }

  /** The play of `actor`: the running score and the player's counters move
      by the play's points, and the score line is appended. */
  function Score(g: Game, st: State, actor: Actor, play: Play): (r: State)
    requires Shaped(g, st)
    ensures Shaped(g, r)
  {
    var credited := CreditSide(g, st, actor.side, actor.name, Scored(play));
    var scored := if actor.side == A then credited.(scoreA := st.scoreA + Points(play))
                  else credited.(scoreB := st.scoreB + Points(play));
    scored.(actor := Some(actor),
            lines := st.lines + [ScoreLine(st.minute, scored.scoreA, scored.scoreB, g.Team(actor.side), actor.name, play)])
  }

  /** After row `i`: a quarter line when the running minute is 10, 20 or 30
      and the next row's minute is later. The quarter suffix is looked up
      for every multiple of 10 below 40, which fails for minute 0, and the
      next row is read even when row `i` is the last. */
  function Quarter(g: Game, st: State, i: nat): (r: Result<State>)
    requires i < |g.rows|
  {
    if st.minute % 10 == 0 && st.minute < 40 then
      if st.minute == 0 then Err(NoQuarterSuffix(st.minute))
      else if i + 1 == |g.rows| then Err(PeekPastEnd(st.minute))
      else
        var next := g.rows[i + 1].minute;
        if next.Some? && next.value > st.minute
        then Ok(st.(lines := st.lines + [QuarterLine(st.minute / 10, st.scoreA, st.scoreB)]))
        else Ok(st)
    else Ok(st)
  }

  /** Row `i` applied to the state after the rows before it. */
  function Step(g: Game, st: State, i: nat): (r: Result<State>)
    requires i < |g.rows| && Shaped(g, st)
    ensures r.Ok? ==> Shaped(g, r.value)
  {
    var row := g.rows[i];
    var fouled := Fouled(g, st, i);
    match Resolve(g, fouled.actor, row, fouled.minute)
    case Err(e) => Err(e)
    case Ok(actor) =>
      match Classify(row.Cell(actor.side), fouled.Score(actor.side))
      case None => Err(InvalidScore(fouled.minute, actor.side))
      case Some(play) => Quarter(g, Score(g, fouled, actor, play), i)
  }

  /** The state after the first `n` rows, or the first error. */
  function Run(g: Game, n: nat): (r: Result<State>)
    requires n <= |g.rows|
    ensures r.Ok? ==> Shaped(g, r.value)
    decreases n, 0
  {
    if n == 0 then Ok(Start(g)) else After(g, n - 1)
  }

  /** The state after row `i`, or the first error up to it. */
  function After(g: Game, i: nat): (r: Result<State>)
    requires i < |g.rows|
    ensures r.Ok? ==> Shaped(g, r.value)
    decreases i, 1
  {
    match Run(g, i)
    case Err(e) => Err(e)
    case Ok(st) => Step(g, st, i)
  }

  /** The two closing lines: the end of the fourth quarter and the winner,
      team A only with a strictly higher score. */
  function Trailer(g: Game, scoreA: nat, scoreB: nat): (t: seq<Line>)
    ensures |t| == 2 && t[0] == EndOfFourth(scoreA, scoreB)
    ensures t[1].EndOfGame? && t[1].scoreA == scoreA && t[1].scoreB == scoreB
    ensures scoreA > scoreB ==> t[1].winner == g.teamA
    ensures scoreA <= scoreB ==> t[1].winner == g.teamB
  {
    var winner := if scoreA > scoreB then g.teamA else g.teamB;
    [EndOfFourth(scoreA, scoreB), EndOfGame(winner, scoreA, scoreB)]
  }

  /** The rundown of a game: every row in order, then the trailer and the
      finished box scores. Without rows there is no final score. */
  function Build(g: Game): Result<Report>
  {
    if |g.rows| == 0 then Err(EmptyRundown)
    else match Run(g, |g.rows|)
      case Err(e) => Err(e)
      case Ok(st) =>
        Ok(Report(st.lines + Trailer(g, st.scoreA, st.scoreB),
                   Finish(g.rosterA, st.statsA), Finish(g.rosterB, st.statsB)))
  }

  // ---------------------------------------------------------------- one row, phase by phase

  /** The state after the foul scan of row `i`. */
  function Fouled(g: Game, st: State, i: nat): (r: State)
    requires i < |g.rows| && Shaped(g, st)
    ensures Shaped(g, r)
  {
    Foul(g, st.(minute := Carry(st.minute, g.rows[i].minute)))
  }

  // ---------------------------------------------------------------- prefixes of the rows

  /** `st` is the state after the first `n` rows. */
  ghost predicate Reached(g: Game, n: nat, st: State) {
    n <= |g.rows| && Run(g, n) == Ok(st)
  }

  /** The rows up to `i + 1` are the rows up to `i` and then row `i`. */
  lemma RunNext(g: Game, i: nat, st: State)
    requires i < |g.rows| && Reached(g, i, st)
    ensures Shaped(g, st) && Run(g, i + 1) == Step(g, st, i)
  {
    assert Run(g, i + 1) == After(g, i);
  }

  /** Once a prefix of the rows fails, every longer prefix fails the same
      way. */
  lemma {:induction false} ErrorPersists(g: Game, m: nat, n: nat)
    requires m <= n <= |g.rows| && Run(g, m).Err?
    ensures Run(g, n) == Run(g, m)
    decreases n - m
  {
    if m < n {
      ErrorPersists(g, m, n - 1);
      assert Run(g, n) == After(g, n - 1) == Err(Run(g, n - 1).error);
    }
  }

  /** A row that fails fails the whole game. */
  lemma GameFails(g: Game, i: nat, e: Error)
    requires i < |g.rows| && Run(g, i + 1) == Err(e)
    ensures Build(g) == Err(e)
  {
    ErrorPersists(g, i + 1, |g.rows|);
  }
}
