/** The rundown builder as the single pass it is: one loop over the rundown
    rows that updates the running minute, the running scores, the last
    actor, the narrative and both teams' counters in place. The running
    state is an object whose methods are the blocks of the loop body. */
module Builder {
  import opened Types
  import opened Rules
  import opened Rundown

  /** The running state of one pass over a game's rows. */
  class Pass {
    const g: Game
    var minute: nat
    var scoreA: nat
    var scoreB: nat
    var actor: Option<Actor>
    var lines: seq<Line>
    var statsA: seq<Stat>
    var statsB: seq<Stat>

    /** The fields as a value of the fold's state. */
    function View(): State
      reads this
    {
      State(minute, scoreA, scoreB, actor, lines, statsA, statsB)
    }

    /** Minute 0, no score, no actor, the header line and zero counters. */
    constructor (g: Game)
      ensures this.g == g && View() == Start(g)
    {
      this.g := g;
      minute, scoreA, scoreB, actor := 0, 0, 0, None;
      lines := [Header(g.teamA, g.teamB)];
      statsA, statsB := Zeros(|g.rosterA|), Zeros(|g.rosterB|);
    }

    /** The minute of row `i` and the foul scan for it: the foul line of the
        running minute is appended, and the player charged, only if the
        narrative does not hold it yet. */
    method ScanFoul(i: nat)
      requires i < |g.rows| && Shaped(g, View())
      modifies this
      ensures View() == Fouled(g, old(View()), i)
    {
      var row := g.rows[i];
      if row.minute.Some? && row.minute.value >= 0 {
        minute := row.minute.value;
      }
      var foul := DetectFoul(g, minute);
      if foul.Some? {
        var f := foul.value;
        var player := g.Roster(f.side)[f.k].name;
        var line := FoulLine(minute, g.Team(f.side), player);
        if line !in lines {
          lines := lines + [line];
          if f.side == A {
            statsA := CreditByName(g.rosterA, statsA, player, PersonalFoul);
          } else {
            statsB := CreditByName(g.rosterB, statsB, player, PersonalFoul);
          }
        }
      }
    }

    /** The acting team and player of row `i`: the number under "# A", else
        the number under "# B", else the previous actor. */
    method ResolveActor(i: nat) returns (err: Option<Error>)
      requires i < |g.rows|
      modifies this`actor
      ensures err.None? ==> actor.Some?
      ensures Resolve(g, old(actor), g.rows[i], minute) == if err.None? then Ok(actor.value) else Err(err.value)
    {
      var row := g.rows[i];
      if Names(row.numA) {
        var k := FirstWithNumber(g.rosterA, row.numA.value);
        if k.None? {
          return Some(UnknownPlayer(minute, A));
        }
        actor := Some(Actor(A, g.rosterA[k.value].name));
      } else if Names(row.numB) {
        var k := FirstWithNumber(g.rosterB, row.numB.value);
        if k.None? {
          return Some(UnknownPlayer(minute, B));
        }
        actor := Some(Actor(B, g.rosterB[k.value].name));
      }
      if actor.None? {
        return Some(NoActor(minute));
      }
      err := None;
    }

    /** The play of row `i`, read off the change in the acting team's score:
        the running score and the player's counters move by its points and
        the score line is appended. */
    method ScorePlay(i: nat) returns (err: Option<Error>)
      requires i < |g.rows| && Shaped(g, View()) && actor.Some?
      modifies this
      ensures var play := Classify(g.rows[i].Cell(old(actor).value.side), old(View()).Score(old(actor).value.side));
        if play.None? then err == Some(InvalidScore(old(minute), old(actor).value.side))
        else err.None? && View() == Score(g, old(View()), old(actor).value, play.value)
    {
      var side, name := actor.value.side, actor.value.name;
      var cell := g.rows[i].Cell(side);
      var running := if side == A then scoreA else scoreB;
      var points := if cell.Num? && cell.n >= 0 then cell.n - running else 0;
      var play;
      if points == 3 {
        play := Three;
      } else if points == 2 {
        play := Bucket;
      } else if points == 1 {
        play := FreeThrowMade;
      } else {
        if !IsMissMarker(cell) {
          return Some(InvalidScore(minute, side));
        }
        play, points := FreeThrowMissed, 0;
      }
      if side == A {
        scoreA := scoreA + points;
        statsA := CreditByName(g.rosterA, statsA, name, Scored(play));
      } else {
        scoreB := scoreB + points;
        statsB := CreditByName(g.rosterB, statsB, name, Scored(play));
      }
      lines := lines + [ScoreLine(minute, scoreA, scoreB, g.Team(side), name, play)];
      err := None;
    }

    /** The end of a quarter after row `i`, once the next row moves past the
        running minute. */
    method CloseQuarter(i: nat) returns (err: Option<Error>)
      requires i < |g.rows|
      modifies this`lines
      ensures Quarter(g, old(View()), i) == if err.None? then Ok(View()) else Err(err.value)
    {
      if minute % 10 == 0 && minute < 40 {
        if minute == 0 {
          return Some(NoQuarterSuffix(minute));
        }
        if i + 1 == |g.rows| {
          return Some(PeekPastEnd(minute));
        }
        var next := g.rows[i + 1].minute;
        if next.Some? && next.value > minute {
          lines := lines + [QuarterLine(minute / 10, scoreA, scoreB)];
        }
      }
      err := None;
    }

    /** One iteration of the loop over the rows: row `i` applied to the
        running state, or the error that aborts the game. */
    method ProcessRow(i: nat) returns (err: Option<Error>)
      requires i < |g.rows| && Shaped(g, View())
      modifies this
      ensures Step(g, old(View()), i) == if err.None? then Ok(View()) else Err(err.value)
    {
      ghost var before := View();
      ScanFoul(i);
      ghost var fouled := View();
      err := ResolveActor(i);
      if err.Some? {
        return;
      }
      ghost var actor := actor.value;
      ghost var play := Classify(g.rows[i].Cell(actor.side), fouled.Score(actor.side));
      err := ScorePlay(i);
      if err.Some? {
        return;
      }
      assert View() == Score(g, fouled, actor, play.value);
      err := CloseQuarter(i);
    }

    /** The narrative with its trailer, and the box scores with FT%. */
    method Close() returns (r: Report)
      requires Shaped(g, View())
      ensures r == Report(lines + Trailer(g, scoreA, scoreB), Finish(g.rosterA, statsA), Finish(g.rosterB, statsB))
    {
      var winner := if scoreA > scoreB then g.teamA else g.teamB;
      var narrative := lines + [EndOfFourth(scoreA, scoreB), EndOfGame(winner, scoreA, scoreB)];
      r := Report(narrative, Finish(g.rosterA, statsA), Finish(g.rosterB, statsB));
    }
  }

  /** Builds the narrative and the box scores of game `g` in one pass over
      its rows; the result is the fold `Build(g)`, so every property proved
      of `Build` holds of it. */
  method BuildRundown(g: Game) returns (r: Result<Report>)
    ensures r == Build(g)
  {
    var p := new Pass(g);
    var i := 0;
    while i < |g.rows|
      invariant i <= |g.rows| && p.g == g && fresh(p)
      invariant Reached(g, i, p.View())
    {
      ghost var before := p.View();
      var err := p.ProcessRow(i);
      RunNext(g, i, before);
      if err.Some? {
        GameFails(g, i, err.value);
        return Err(err.value);
      }
      i := i + 1;
    }
    if |g.rows| == 0 {
      return Err(EmptyRundown);
    }
    var report := p.Close();
    r := Ok(report);
  }
}
