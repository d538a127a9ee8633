/** The tables one game's rundown is built from, and the values it produces.

    A game has two teams, A and B. Each team has a roster (jersey number,
    player name and the minutes at which the player committed fouls) and the
    game has a "Rundown" sheet: one row per scoring event or free throw, in
    the order they happened, carrying the cumulative score of both teams. */
module Types {

  datatype Option<+T> = None | Some(value: T)

  datatype Side = A | B

  /** One score cell of the rundown sheet: a number, a text (a dash marks a
      missed free throw), or an empty cell. */
  datatype Cell = Num(n: int) | Text(s: string) | Blank

  /** A roster row. `foulMinutes` holds the filled foul-minute columns of the
      row, in column order; an empty column never matches a minute and is
      left out. */
  datatype Player = Player(number: int, name: string, foulMinutes: seq<int>)

  /** A rundown row: the minute (absent when the row continues the previous
      minute), the jersey number under "# A" or "# B", and the two
      cumulative score cells "Score A" and "Score B". */
  datatype Row = Row(minute: Option<int>, numA: Option<int>, numB: Option<int>, scoreA: Cell, scoreB: Cell)
  {
    function Cell(side: Side): Cell {
      if side == A then scoreA else scoreB
    }
  }

  /** The four sheets of one game: the team names from "Basics", the two
      rosters "TeamA" and "TeamB", and the "Rundown". */
  datatype Game = Game(teamA: string, teamB: string, rosterA: seq<Player>, rosterB: seq<Player>, rows: seq<Row>)
  {
    function Team(side: Side): string {
      if side == A then teamA else teamB
    }
    function Roster(side: Side): seq<Player> {
      if side == A then rosterA else rosterB
    }
  }

  /** The play a row records, read off the change in the acting team's score. */
  datatype Play = Three | Bucket | FreeThrowMade | FreeThrowMissed

  /** A line of the narrative. Each constructor stands for one formatted
      markdown line; two lines are equal exactly when their fields are. */
  datatype Line =
    | Header(teamA: string, teamB: string)
    | FoulLine(minute: int, team: string, player: string)
    | ScoreLine(minute: int, scoreA: int, scoreB: int, team: string, player: string, play: Play)
    | QuarterLine(quarter: int, scoreA: int, scoreB: int)
    | EndOfFourth(scoreA: int, scoreB: int)
    | EndOfGame(winner: string, scoreA: int, scoreB: int)

  /** One player's box-score counters: PF, FGM, 3PM, FTM, FTA and PTS. */
  datatype Stat = Stat(pf: nat, fgm: nat, tpm: nat, ftm: nat, fta: nat, pts: nat)

  /** A finished box-score row: jersey number, player, counters and FT%
      (absent when the player attempted no free throw). */
  datatype BoxLine = BoxLine(number: int, player: string, stat: Stat, ftPct: Option<real>)

  /** The two results of one game: the narrative and both teams' box scores. */
  datatype Report = Report(lines: seq<Line>, boxA: seq<BoxLine>, boxB: seq<BoxLine>)

  /** Why a rundown could not be built; every error aborts the whole game. */
  datatype Error =
    | UnknownPlayer(minute: int, side: Side)  // a jersey number not on that team's roster
    | NoActor(minute: int)                    // a row before any row that names a player
    | InvalidScore(minute: int, side: Side)   // neither 1-3 new points nor the miss marker
    | NoQuarterSuffix(minute: int)            // a row processed while the running minute is 0
    | PeekPastEnd(minute: int)                // the last row sits on a quarter boundary
    | EmptyRundown                            // no rows: no final score to report

  datatype Result<+T> = Ok(value: T) | Err(error: Error)
}
