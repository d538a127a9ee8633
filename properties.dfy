/** What the rundown promises, proved of the fold: for one row (the states
    after `i` and after `i + 1` rows), for every prefix of the rows, and for
    the finished rundown. */
module Properties {
  import opened Types
  import opened Rules
  import opened Rundown

  // ---------------------------------------------------------------- one row

  /** The state before the last of `n` rows. */
  lemma RunBack(g: Game, n: nat, st: State) returns (prev: State)
    requires 0 < n && Reached(g, n, st)
    ensures Reached(g, n - 1, prev)
  {
    assert Run(g, n) == After(g, n - 1);
    prev := Run(g, n - 1).value;
  }

  /** The actor and the play of a row that succeeds, and the phases it went
      through. */
  lemma RowParts(g: Game, i: nat, prev: State, st: State) returns (actor: Actor, play: Play)
    requires Reached(g, i, prev) && Reached(g, i + 1, st)
    ensures Shaped(g, prev) && Shaped(g, st)
    ensures Resolve(g, Fouled(g, prev, i).actor, g.rows[i], Fouled(g, prev, i).minute) == Ok(actor)
    ensures Classify(g.rows[i].Cell(actor.side), Fouled(g, prev, i).Score(actor.side)) == Some(play)
    ensures Quarter(g, Score(g, Fouled(g, prev, i), actor, play), i) == Ok(st)
  {
    RunNext(g, i, prev);
    var f := Fouled(g, prev, i);
    actor := Resolve(g, f.actor, g.rows[i], f.minute).value;
    play := Classify(g.rows[i].Cell(actor.side), f.Score(actor.side)).value;
  }

  /** The counters after a successful row: those after the foul scan, with
      the actor credited the play. */
  lemma RowCredits(g: Game, i: nat, prev: State, st: State) returns (actor: Actor, play: Play)
    requires Reached(g, i, prev) && Reached(g, i + 1, st)
    ensures Shaped(g, prev) && i < |g.rows|
    ensures st.minute == Carry(prev.minute, g.rows[i].minute)
    ensures var credited := CreditSide(g, Fouled(g, prev, i), actor.side, actor.name, Scored(play));
      st.statsA == credited.statsA && st.statsB == credited.statsB
    ensures Resolve(g, prev.actor, g.rows[i], st.minute) == Ok(actor) && st.actor == Some(actor)
    ensures st.Score(actor.side) == prev.Score(actor.side) + Points(play)
    ensures st.Score(Other(actor.side)) == prev.Score(Other(actor.side))
  {
    actor, play := RowParts(g, i, prev, st);
  }

  /** The lines a successful row appends, in order: the foul line of the
      running minute when some player fouled then and the narrative does
      not hold that line yet, then exactly one score line with the new
      running scores, then a quarter line exactly when the running minute is
      10, 20 or 30 and the next row's minute is later. */
  lemma RowLines(g: Game, i: nat, prev: State, st: State) returns (foul: seq<Line>, score: Line, quarter: seq<Line>)
    requires Reached(g, i, prev) && Reached(g, i + 1, st)
    ensures st.lines == prev.lines + foul + [score] + quarter
    ensures st.minute == Carry(prev.minute, g.rows[i].minute)
    ensures var m := st.minute;
      foul == (if FoulLineAt(g, m).Some? && FoulLineAt(g, m).value !in prev.lines then [FoulLineAt(g, m).value] else [])
    ensures st.actor.Some? && score.ScoreLine? &&
      score == ScoreLine(st.minute, st.scoreA, st.scoreB, g.Team(st.actor.value.side), st.actor.value.name, score.play)
    ensures i < |g.rows| &&
      Classify(g.rows[i].Cell(st.actor.value.side), prev.Score(st.actor.value.side)) == Some(score.play)
    ensures var m := st.minute;
      var closes := m % 10 == 0 && m < 40 && i + 1 < |g.rows| &&
                    g.rows[i + 1].minute.Some? && g.rows[i + 1].minute.value > m;
      quarter == (if closes then [QuarterLine(m / 10, st.scoreA, st.scoreB)] else []) &&
      (closes ==> 0 < m)
  {
    var actor, play := RowParts(g, i, prev, st);
    var f := Fouled(g, prev, i);
    var s := Score(g, f, actor, play);
    foul := f.lines[|prev.lines|..];
    score := s.lines[|f.lines|];
    quarter := st.lines[|s.lines|..];
  }

  // ---------------------------------------------------------------- the running minute

  /** The minute of the last of `rows` that carries one, or 0. */
  function LastStamp(rows: seq<Row>): nat {
    if |rows| == 0 then 0
    else if Stamped(rows[|rows| - 1]) then rows[|rows| - 1].minute.value
    else LastStamp(rows[..|rows| - 1])
  }

  /** The running minute after `n` rows is the minute of the last of them
      that carries one: a row without a minute continues the one before. */
  lemma {:induction false} RunMinute(g: Game, n: nat, st: State)
    requires Reached(g, n, st)
    ensures st.minute == LastStamp(g.rows[..n])
  {
    if n == 0 {
      assert Run(g, 0) == Ok(Start(g));
    } else {
      var prev := RunBack(g, n, st);
      RunMinute(g, n - 1, prev);
      var foul, score, quarter := RowLines(g, n - 1, prev, st);
      assert g.rows[..n][..n - 1] == g.rows[..n - 1];
    }
  }

  // ---------------------------------------------------------------- the running scores

  function Other(side: Side): Side {
    if side == A then B else A
  }

  /** A row that succeeds moves only the acting team's score: to the number
      in its score cell, 1 to 3 points up, or not at all with the miss
      marker. */
  lemma RowScores(g: Game, i: nat, prev: State, st: State)
    requires Reached(g, i, prev) && Reached(g, i + 1, st)
    ensures st.actor.Some?
    ensures var side := st.actor.value.side;
      var c := g.rows[i].Cell(side);
      (c.Num? ==> st.Score(side) == c.n && 1 <= c.n - prev.Score(side) <= 3) &&
      (!c.Num? ==> IsMissMarker(c) && st.Score(side) == prev.Score(side)) &&
      st.Score(Other(side)) == prev.Score(Other(side))
  {
    var actor, play := RowParts(g, i, prev, st);
  }

  /** Every earlier prefix of the rows succeeds too; its running scores are
      no higher and its narrative is a prefix of the later one. */
  lemma {:induction false} Earlier(g: Game, m: nat, n: nat, st: State) returns (early: State)
    requires m <= n && Reached(g, n, st)
    ensures Reached(g, m, early)
    ensures early.scoreA <= st.scoreA && early.scoreB <= st.scoreB
    ensures early.lines <= st.lines
    decreases n
  {
    if m == n {
      early := st;
    } else {
      var prev := RunBack(g, n, st);
      early := Earlier(g, m, n - 1, prev);
      RowExtends(g, n - 1, prev, st);
      RowScores(g, n - 1, prev, st);
    }
  }

  /** A row only appends to the narrative. */
  lemma RowExtends(g: Game, i: nat, prev: State, st: State)
    requires Reached(g, i, prev) && Reached(g, i + 1, st)
    ensures prev.lines <= st.lines
  {
    var foul, score, quarter := RowLines(g, i, prev, st);
    assert st.lines == prev.lines + (foul + [score] + quarter);
  }

  // ---------------------------------------------------------------- box-score identities

  /** Every counter set of both teams keeps the box-score identities. */
  ghost predicate StatsOk(st: State) {
    (forall k :: 0 <= k < |st.statsA| ==> StatOk(st.statsA[k])) &&
    (forall k :: 0 <= k < |st.statsB| ==> StatOk(st.statsB[k]))
  }

  lemma CreditKeepsStatOk(roster: seq<Player>, stats: seq<Stat>, name: string, c: Credit)
    requires |stats| == |roster| && forall k :: 0 <= k < |stats| ==> StatOk(stats[k])
    ensures forall k :: 0 <= k < |stats| ==> StatOk(CreditByName(roster, stats, name, c)[k])
  {
    forall k | 0 <= k < |stats|
      ensures StatOk(CreditByName(roster, stats, name, c)[k])
    {
      CreditByNameAt(roster, stats, name, c, k);
    }
  }

  lemma CreditSideOk(g: Game, st: State, side: Side, name: string, c: Credit)
    requires Shaped(g, st) && StatsOk(st)
    ensures StatsOk(CreditSide(g, st, side, name, c))
  {
    if side == A {
      CreditKeepsStatOk(g.rosterA, st.statsA, name, c);
    } else {
      CreditKeepsStatOk(g.rosterB, st.statsB, name, c);
    }
  }

  /** A row keeps the box-score identities of every player. */
  lemma RowStatsOk(g: Game, i: nat, prev: State, st: State)
    requires Reached(g, i, prev) && Reached(g, i + 1, st) && StatsOk(prev)
    ensures StatsOk(st)
  {
    var actor, play := RowParts(g, i, prev, st);
    var carried := prev.(minute := Carry(prev.minute, g.rows[i].minute));
    match DetectFoul(g, carried.minute) {
      case None =>
      case Some(f) =>
        CreditSideOk(g, carried, f.side, g.Roster(f.side)[f.k].name, PersonalFoul);
    }
    CreditSideOk(g, Fouled(g, prev, i), actor.side, actor.name, Scored(play));
  }

  /** After any prefix of the rows every player's points are three per
      three-pointer, two per field goal and one per free throw made, and no
      player made more free throws than attempted. */
  lemma {:induction false} RunStatsOk(g: Game, n: nat, st: State)
    requires Reached(g, n, st)
    ensures StatsOk(st)
  {
    if n == 0 {
      assert Run(g, 0) == Ok(Start(g));
    } else {
      var prev := RunBack(g, n, st);
      RunStatsOk(g, n - 1, prev);
      RowStatsOk(g, n - 1, prev, st);
    }
  }

  // ---------------------------------------------------------------- team totals

  function SumPts(stats: seq<Stat>): nat {
    if |stats| == 0 then 0 else stats[0].pts + SumPts(stats[1..])
  }

  function SumPf(stats: seq<Stat>): nat {
    if |stats| == 0 then 0 else stats[0].pf + SumPf(stats[1..])
  }

  /** No two rows of the roster carry the same name. */
  ghost predicate DistinctNames(roster: seq<Player>) {
    forall i, j :: 0 <= i < j < |roster| ==> roster[i].name != roster[j].name
  }

  /** Crediting a name the roster does not hold changes nothing. */
  lemma {:induction false} CreditElsewhere(roster: seq<Player>, stats: seq<Stat>, name: string, c: Credit)
    requires |stats| == |roster| && forall k :: 0 <= k < |roster| ==> roster[k].name != name
    ensures CreditByName(roster, stats, name, c) == stats
  {
    if |stats| > 0 {
      assert forall k :: 0 <= k < |roster[1..]| ==> roster[1..][k].name == roster[k + 1].name;
      CreditElsewhere(roster[1..], stats[1..], name, c);
      assert stats == [stats[0]] + stats[1..];
    }
  }

  /** A credit that adds no points (no fouls) leaves the team's points
      (fouls) as they were, whoever is credited. */
  lemma {:induction false} CreditNeutral(roster: seq<Player>, stats: seq<Stat>, name: string, c: Credit)
    requires |stats| == |roster|
    ensures PtsGain(c) == 0 ==> SumPts(CreditByName(roster, stats, name, c)) == SumPts(stats)
    ensures PfGain(c) == 0 ==> SumPf(CreditByName(roster, stats, name, c)) == SumPf(stats)
  {
    if |stats| > 0 {
      var r := CreditByName(roster, stats, name, c);
      assert r[1..] == CreditByName(roster[1..], stats[1..], name, c);
      CreditNeutral(roster[1..], stats[1..], name, c);
    }
  }

  /** With distinct names, crediting a player of the roster adds the
      credit's points and fouls to the team's totals exactly once. */
  lemma {:induction false} CreditSums(roster: seq<Player>, stats: seq<Stat>, name: string, c: Credit)
    requires |stats| == |roster| && DistinctNames(roster) && Listed(roster, name)
    ensures SumPts(CreditByName(roster, stats, name, c)) == SumPts(stats) + PtsGain(c)
    ensures SumPf(CreditByName(roster, stats, name, c)) == SumPf(stats) + PfGain(c)
  {
    var r := CreditByName(roster, stats, name, c);
    assert r[1..] == CreditByName(roster[1..], stats[1..], name, c);
    assert forall k :: 0 <= k < |roster[1..]| ==> roster[1..][k].name == roster[k + 1].name;
    if roster[0].name == name {
      CreditElsewhere(roster[1..], stats[1..], name, c);
    } else {
      var k :| 0 <= k < |roster| && roster[k].name == name;
      assert roster[1..][k - 1].name == name;
      CreditSums(roster[1..], stats[1..], name, c);
    }
  }

  lemma {:induction false} ZerosSum(n: nat)
    ensures SumPts(Zeros(n)) == 0 && SumPf(Zeros(n)) == 0
  {
    if n > 0 {
      assert Zeros(n)[1..] == Zeros(n - 1);
      ZerosSum(n - 1);
    }
  }

  lemma CreditSideNeutral(g: Game, st: State, side: Side, name: string, c: Credit)
    requires Shaped(g, st)
    ensures var r := CreditSide(g, st, side, name, c);
      (PtsGain(c) == 0 ==> SumPts(r.statsA) == SumPts(st.statsA) && SumPts(r.statsB) == SumPts(st.statsB)) &&
      (PfGain(c) == 0 ==> SumPf(r.statsA) == SumPf(st.statsA) && SumPf(r.statsB) == SumPf(st.statsB))
  {
    if side == A {
      CreditNeutral(g.rosterA, st.statsA, name, c);
    } else {
      CreditNeutral(g.rosterB, st.statsB, name, c);
    }
  }

  lemma CreditSideSums(g: Game, st: State, side: Side, name: string, c: Credit)
    requires Shaped(g, st) && DistinctNames(g.Roster(side)) && Listed(g.Roster(side), name)
    ensures var r := CreditSide(g, st, side, name, c);
      SumPts(r.Stats(side)) == SumPts(st.Stats(side)) + PtsGain(c) &&
      SumPf(r.Stats(side)) == SumPf(st.Stats(side)) + PfGain(c) &&
      r.Stats(Other(side)) == st.Stats(Other(side))
  {
    if side == A {
      CreditSums(g.rosterA, st.statsA, name, c);
    } else {
      CreditSums(g.rosterB, st.statsB, name, c);
    }
  }

  /** The players' points of each team add up to its running score, and the
      last actor is a player of the actor's roster. */
  ghost predicate Tallied(g: Game, st: State) {
    SumPts(st.statsA) == st.scoreA && SumPts(st.statsB) == st.scoreB &&
    (st.actor.Some? ==> Listed(g.Roster(st.actor.value.side), st.actor.value.name))
  }

  /** A row keeps each team's points equal to its running score. */
  lemma RowTallied(g: Game, i: nat, prev: State, st: State)
    requires Reached(g, i, prev) && Reached(g, i + 1, st)
    requires DistinctNames(g.rosterA) && DistinctNames(g.rosterB) && Tallied(g, prev)
    ensures Tallied(g, st)
  {
    var actor, play := RowCredits(g, i, prev, st);
    var carried := prev.(minute := st.minute);
    match DetectFoul(g, carried.minute) {
      case None =>
      case Some(f) =>
        CreditSideNeutral(g, carried, f.side, g.Roster(f.side)[f.k].name, PersonalFoul);
    }
    ResolveListed(g, prev.actor, g.rows[i], st.minute);
    CreditSideSums(g, Fouled(g, prev, i), actor.side, actor.name, Scored(play));
  }

  /** With distinct names on each roster, after any prefix of the rows each
      team's players' points add up to the team's running score. */
  lemma {:induction false} RunTallied(g: Game, n: nat, st: State)
    requires Reached(g, n, st) && DistinctNames(g.rosterA) && DistinctNames(g.rosterB)
    ensures Tallied(g, st)
  {
    if n == 0 {
      assert Run(g, 0) == Ok(Start(g));
      ZerosSum(|g.rosterA|);
      ZerosSum(|g.rosterB|);
    } else {
      var prev := RunBack(g, n, st);
      RunTallied(g, n - 1, prev);
      RowTallied(g, n - 1, prev, st);
    }
  }

  // ---------------------------------------------------------------- counting lines

  /** The number of score lines among `lines`. */
  function CountScores(lines: seq<Line>): nat {
    if |lines| == 0 then 0
    else CountScores(lines[..|lines| - 1]) + (if lines[|lines| - 1].ScoreLine? then 1 else 0)
  }

  /** The number of foul lines of team `team` among `lines`. */
  function CountFouls(lines: seq<Line>, team: string): nat {
    if |lines| == 0 then 0
    else CountFouls(lines[..|lines| - 1], team) +
         (if lines[|lines| - 1].FoulLine? && lines[|lines| - 1].team == team then 1 else 0)
  }

  lemma {:induction false} CountConcat(a: seq<Line>, b: seq<Line>, team: string)
    ensures CountScores(a + b) == CountScores(a) + CountScores(b)
    ensures CountFouls(a + b, team) == CountFouls(a, team) + CountFouls(b, team)
    decreases |b|
  {
    if |b| == 0 {
      assert a + b == a;
    } else {
      assert (a + b)[..|a + b| - 1] == a + b[..|b| - 1];
      CountConcat(a, b[..|b| - 1], team);
    }
  }

  /** A row adds one score line, and a foul line of `team` exactly when the
      foul line it appends is that team's. */
  lemma RowCounts(g: Game, i: nat, prev: State, st: State, team: string)
    requires Reached(g, i, prev) && Reached(g, i + 1, st)
    ensures CountScores(st.lines) == CountScores(prev.lines) + 1
    ensures prev.lines <= st.lines
    ensures var m := st.minute;
      CountFouls(st.lines, team) == CountFouls(prev.lines, team) +
        (if FoulLineAt(g, m).Some? && FoulLineAt(g, m).value !in prev.lines && FoulLineAt(g, m).value.team == team
         then 1 else 0)
  {
    var foul, score, quarter := RowLines(g, i, prev, st);
    CountConcat(prev.lines, foul, team);
    CountConcat(prev.lines + foul, [score], team);
    CountConcat(prev.lines + foul + [score], quarter, team);
    assert CountScores([score]) == 1 && CountFouls([score], team) == 0;
    if quarter != [] {
      assert CountScores(quarter) == 0 && CountFouls(quarter, team) == 0;
    }
    if foul != [] {
      assert CountScores(foul) == 0;
    }
  }

  /** The narrative starts with the header and holds one score line per
      row. */
  lemma {:induction false} RunNarrative(g: Game, n: nat, st: State)
    requires Reached(g, n, st)
    ensures |st.lines| > 0 && st.lines[0] == Header(g.teamA, g.teamB)
    ensures CountScores(st.lines) == n
  {
    if n == 0 {
      assert Run(g, 0) == Ok(Start(g));
    } else {
      var prev := RunBack(g, n, st);
      RunNarrative(g, n - 1, prev);
      RowCounts(g, n - 1, prev, st, g.teamA);
    }
  }

  // ---------------------------------------------------------------- foul lines

  /** Every foul line is the one its minute gives, and none is repeated. */
  ghost predicate FoulsOnce(g: Game, lines: seq<Line>) {
    (forall i, j :: 0 <= i < j < |lines| && lines[i].FoulLine? ==> lines[i] != lines[j]) &&
    (forall i :: 0 <= i < |lines| && lines[i].FoulLine? ==> FoulLineAt(g, lines[i].minute) == Some(lines[i]))
  }

  lemma FoulsOnceAppend(g: Game, lines: seq<Line>, x: Line)
    requires FoulsOnce(g, lines)
    requires x.FoulLine? ==> x !in lines && FoulLineAt(g, x.minute) == Some(x)
    ensures FoulsOnce(g, lines + [x])
  {
    var l := lines + [x];
    forall i, j | 0 <= i < j < |l| && l[i].FoulLine?
      ensures l[i] != l[j]
    {
      if j == |lines| && x.FoulLine? {
        assert l[i] == lines[i];
      }
    }
  }

  /** A row keeps every foul line unique and the one of its minute. */
  lemma RowFoulsOnce(g: Game, i: nat, prev: State, st: State)
    requires Reached(g, i, prev) && Reached(g, i + 1, st) && FoulsOnce(g, prev.lines)
    ensures FoulsOnce(g, st.lines)
  {
    var foul, score, quarter := RowLines(g, i, prev, st);
    var l1 := prev.lines + foul;
    if foul != [] {
      FoulsOnceAppend(g, prev.lines, foul[0]);
      assert l1 == prev.lines + [foul[0]];
    }
    FoulsOnceAppend(g, l1, score);
    var l2 := l1 + [score];
    if quarter != [] {
      FoulsOnceAppend(g, l2, quarter[0]);
      assert st.lines == l2 + [quarter[0]];
    } else {
      assert st.lines == l2;
    }
  }

  lemma {:induction false} RunFoulsOnce(g: Game, n: nat, st: State)
    requires Reached(g, n, st)
    ensures FoulsOnce(g, st.lines)
  {
    if n == 0 {
      assert Run(g, 0) == Ok(Start(g));
    } else {
      var prev := RunBack(g, n, st);
      RunFoulsOnce(g, n - 1, prev);
      RowFoulsOnce(g, n - 1, prev, st);
    }
  }

  /** Each team's personal fouls add up to its foul lines. */
  ghost predicate Charged(g: Game, st: State) {
    SumPf(st.statsA) == CountFouls(st.lines, g.teamA) && SumPf(st.statsB) == CountFouls(st.lines, g.teamB)
  }

  /** The foul scan of the running minute: when the foul line of that
      minute is new, it is appended and every roster row of the fouler's
      team named like the fouler is charged one personal foul; otherwise
      nothing changes. The minute, the scores and the actor never change. */
  lemma FoulScan(g: Game, st: State)
    requires Shaped(g, st)
    ensures var r := Foul(g, st); var f := DetectFoul(g, st.minute); var line := FoulLineAt(g, st.minute);
      var added := line.Some? && line.value !in st.lines;
      r.lines == st.lines + (if added then [line.value] else []) &&
      r.minute == st.minute && r.scoreA == st.scoreA && r.scoreB == st.scoreB && r.actor == st.actor &&
      forall side: Side, k :: 0 <= k < |g.Roster(side)| ==>
        r.Stats(side)[k] ==
          if added && side == f.value.side && g.Roster(side)[k].name == line.value.player
          then Tally(st.Stats(side)[k], PersonalFoul) else st.Stats(side)[k]
  {
    match DetectFoul(g, st.minute) {
      case None =>
      case Some(f) =>
        var name := g.Roster(f.side)[f.k].name;
        forall side: Side, k | 0 <= k < |g.Roster(side)|
          ensures Foul(g, st).Stats(side)[k] ==
            if FoulLine(st.minute, g.Team(f.side), name) !in st.lines && side == f.side && g.Roster(side)[k].name == name
            then Tally(st.Stats(side)[k], PersonalFoul) else st.Stats(side)[k]
        {
          if side == f.side {
            CreditByNameAt(g.Roster(side), st.Stats(side), name, PersonalFoul, k);
          }
        }
    }
  }

  /** The foul scan charges a personal foul to the team of the foul line it
      appends, and to no one when it appends none. */
  lemma FoulCharged(g: Game, st: State)
    requires Shaped(g, st) && DistinctNames(g.rosterA) && DistinctNames(g.rosterB) && g.teamA != g.teamB
    ensures var r := Foul(g, st); var line := FoulLineAt(g, st.minute);
      var added := line.Some? && line.value !in st.lines;
      SumPts(r.statsA) == SumPts(st.statsA) && SumPts(r.statsB) == SumPts(st.statsB) &&
      SumPf(r.statsA) == SumPf(st.statsA) + (if added && line.value.team == g.teamA then 1 else 0) &&
      SumPf(r.statsB) == SumPf(st.statsB) + (if added && line.value.team == g.teamB then 1 else 0)
  {
    match DetectFoul(g, st.minute) {
      case None =>
      case Some(f) =>
        var name := g.Roster(f.side)[f.k].name;
        CreditSideNeutral(g, st, f.side, name, PersonalFoul);
        if FoulLine(st.minute, g.Team(f.side), name) !in st.lines {
          assert Listed(g.Roster(f.side), g.Roster(f.side)[f.k].name);
          CreditSideSums(g, st, f.side, name, PersonalFoul);
        }
    }
  }

  /** With distinct names and distinct team names, a row keeps each team's
      personal fouls equal to its foul lines. */
  lemma RowCharged(g: Game, i: nat, prev: State, st: State)
    requires Reached(g, i, prev) && Reached(g, i + 1, st) && Charged(g, prev)
    requires DistinctNames(g.rosterA) && DistinctNames(g.rosterB) && g.teamA != g.teamB
    ensures Charged(g, st)
  {
    var actor, play := RowCredits(g, i, prev, st);
    RowCounts(g, i, prev, st, g.teamA);
    RowCounts(g, i, prev, st, g.teamB);
    FoulCharged(g, prev.(minute := st.minute));
    CreditSideNeutral(g, Fouled(g, prev, i), actor.side, actor.name, Scored(play));
  }

  lemma {:induction false} RunCharged(g: Game, n: nat, st: State)
    requires Reached(g, n, st)
    requires DistinctNames(g.rosterA) && DistinctNames(g.rosterB) && g.teamA != g.teamB
    ensures Charged(g, st)
  {
    if n == 0 {
      assert Run(g, 0) == Ok(Start(g));
      ZerosSum(|g.rosterA|);
      ZerosSum(|g.rosterB|);
    } else {
      var prev := RunBack(g, n, st);
      RunCharged(g, n - 1, prev);
      RowCharged(g, n - 1, prev, st);
    }
  }

  // ---------------------------------------------------------------- quarter lines

  /** The rows' minutes never go back. */
  ghost predicate Chronological(rows: seq<Row>) {
    forall i, j :: 0 <= i < j < |rows| && Stamped(rows[i]) && Stamped(rows[j]) ==>
      rows[i].minute.value <= rows[j].minute.value
  }

  /** Quarter lines name quarters 1 to 3, each later one a later quarter. */
  ghost predicate QuartersInOrder(lines: seq<Line>) {
    (forall i, j :: 0 <= i < j < |lines| && lines[i].QuarterLine? && lines[j].QuarterLine? ==>
      lines[i].quarter < lines[j].quarter) &&
    (forall i :: 0 <= i < |lines| && lines[i].QuarterLine? ==> 1 <= lines[i].quarter <= 3)
  }

  /** Every quarter line closes a quarter that ended before minute `m`. */
  ghost predicate QuartersBefore(lines: seq<Line>, m: int) {
    forall i :: 0 <= i < |lines| && lines[i].QuarterLine? ==> 10 * lines[i].quarter < m
  }

  /** No row from `n` on carries a minute before `m`. */
  ghost predicate Ahead(g: Game, n: nat, m: int) {
    forall j :: n <= j < |g.rows| && Stamped(g.rows[j]) ==> m <= g.rows[j].minute.value
  }

  /** What the quarter lines after `n` rows keep: their order, and that the
      running minute of row `n` is past every quarter they close. */
  ghost predicate QuarterInv(g: Game, n: nat, st: State) {
    QuartersInOrder(st.lines) && Ahead(g, n, st.minute) &&
    (n < |g.rows| ==> QuartersBefore(st.lines, Carry(st.minute, g.rows[n].minute)))
  }

  lemma QuarterAppend(lines: seq<Line>, x: Line, m: int)
    requires QuartersInOrder(lines) && QuartersBefore(lines, m)
    requires x.QuarterLine? ==> 10 * x.quarter == m && 1 <= x.quarter <= 3
    ensures QuartersInOrder(lines + [x])
    ensures QuartersBefore(lines + [x], if x.QuarterLine? then m + 1 else m)
  {
    var l := lines + [x];
    forall i | 0 <= i < |l| && l[i].QuarterLine?
      ensures 10 * l[i].quarter < (if x.QuarterLine? then m + 1 else m)
    {
      if i < |lines| {
        assert l[i] == lines[i];
      }
    }
    forall i, j | 0 <= i < j < |l| && l[i].QuarterLine? && l[j].QuarterLine?
      ensures l[i].quarter < l[j].quarter
    {
      assert l[i] == lines[i];
    }
  }

  lemma QuartersLater(lines: seq<Line>, m: int, m': int)
    requires QuartersBefore(lines, m) && m <= m'
    ensures QuartersBefore(lines, m')
  {
  }

  /** Over chronological rows, a row keeps the quarter lines in order. */
  lemma RowQuarters(g: Game, i: nat, prev: State, st: State)
    requires Reached(g, i, prev) && Reached(g, i + 1, st)
    requires Chronological(g.rows) && QuarterInv(g, i, prev)
    ensures QuarterInv(g, i + 1, st)
  {
    var foul, score, quarter := RowLines(g, i, prev, st);
    var m := st.minute;
    var l1 := prev.lines + foul;
    if foul != [] {
      QuarterAppend(prev.lines, foul[0], m);
      assert l1 == prev.lines + [foul[0]];
    }
    QuarterAppend(l1, score, m);
    var l2 := l1 + [score];
    if quarter != [] {
      QuarterAppend(l2, quarter[0], m);
      assert st.lines == l2 + [quarter[0]];
    } else {
      assert st.lines == l2;
    }
    assert Ahead(g, i + 1, m);
    if i + 1 < |g.rows| {
      var next := Carry(m, g.rows[i + 1].minute);
      QuartersLater(st.lines, if quarter != [] then m + 1 else m, next);
    }
  }

  lemma {:induction false} RunQuarters(g: Game, n: nat, st: State)
    requires Reached(g, n, st) && Chronological(g.rows)
    ensures QuarterInv(g, n, st)
  {
    if n == 0 {
      assert Run(g, 0) == Ok(Start(g));
    } else {
      var prev := RunBack(g, n, st);
      RunQuarters(g, n - 1, prev);
      RowQuarters(g, n - 1, prev, st);
    }
  }

  // ---------------------------------------------------------------- the finished rundown

  /** The state after the last row, when the rundown succeeds. */
  lemma Final(g: Game) returns (st: State)
    requires Build(g).Ok?
    ensures 0 < |g.rows| && Reached(g, |g.rows|, st)
    ensures Build(g).value == Report(st.lines + Trailer(g, st.scoreA, st.scoreB),
                                     Finish(g.rosterA, st.statsA), Finish(g.rosterB, st.statsB))
  {
    st := Run(g, |g.rows|).value;
  }

  /** The trailer holds neither score lines nor foul lines. */
  lemma TrailerCounts(g: Game, scoreA: nat, scoreB: nat, team: string)
    ensures CountScores(Trailer(g, scoreA, scoreB)) == 0
    ensures CountFouls(Trailer(g, scoreA, scoreB), team) == 0
  {
    var t := Trailer(g, scoreA, scoreB);
    assert t == [t[0]] + [t[1]];
    CountConcat([t[0]], [t[1]], team);
    assert [t[0]][..0] == [] && [t[1]][..0] == [];
  }

  /** The narrative: the header, one score line per row, then the end of the
      fourth quarter and the winner, both with the scores of the last row's
      score line; team A wins only with the strictly higher score. */
  lemma BuildNarrative(g: Game)
    requires Build(g).Ok?
    ensures var L := Build(g).value.lines;
      |L| >= 4 && L[0] == Header(g.teamA, g.teamB) && CountScores(L) == |g.rows| &&
      L[|L| - 3].ScoreLine? &&
      L[|L| - 2] == EndOfFourth(L[|L| - 3].scoreA, L[|L| - 3].scoreB) &&
      L[|L| - 1].EndOfGame? &&
      L[|L| - 1].scoreA == L[|L| - 3].scoreA && L[|L| - 1].scoreB == L[|L| - 3].scoreB &&
      (L[|L| - 1].scoreA > L[|L| - 1].scoreB ==> L[|L| - 1].winner == g.teamA) &&
      (L[|L| - 1].scoreA <= L[|L| - 1].scoreB ==> L[|L| - 1].winner == g.teamB)
  {
    var st := Final(g);
    var n := |g.rows|;
    RunNarrative(g, n, st);
    var prev := RunBack(g, n, st);
    RunNarrative(g, n - 1, prev);
    var foul, score, quarter := RowLines(g, n - 1, prev, st);
    var t := Trailer(g, st.scoreA, st.scoreB);
    CountConcat(st.lines, t, g.teamA);
    TrailerCounts(g, st.scoreA, st.scoreB, g.teamA);
    assert st.lines[|st.lines| - 1] == score;
  }

  /** The stats column of a box score. */
  function StatsOf(box: seq<BoxLine>): (r: seq<Stat>)
    ensures |r| == |box| && forall k :: 0 <= k < |box| ==> r[k] == box[k].stat
  {
    seq(|box|, k requires 0 <= k < |box| => box[k].stat)
  }

  /** A box-score row for roster row `p`: its number and name, the box-score
      identities, and FT% as 100 * FTM / FTA within 0 to 100, absent exactly
      when the player attempted no free throw. */
  ghost predicate BoxLineOk(b: BoxLine, p: Player) {
    b.number == p.number && b.player == p.name && StatOk(b.stat) &&
    (b.ftPct.None? <==> b.stat.fta == 0) &&
    (b.ftPct.Some? ==>
      0.0 <= b.ftPct.value <= 100.0 && b.ftPct.value * (b.stat.fta as real) == 100.0 * (b.stat.ftm as real))
  }

  /** Both box scores have one row per roster row, each of them sound. */
  lemma BuildBoxScores(g: Game)
    requires Build(g).Ok?
    ensures var R := Build(g).value;
      |R.boxA| == |g.rosterA| && |R.boxB| == |g.rosterB| &&
      (forall k :: 0 <= k < |R.boxA| ==> BoxLineOk(R.boxA[k], g.rosterA[k])) &&
      (forall k :: 0 <= k < |R.boxB| ==> BoxLineOk(R.boxB[k], g.rosterB[k]))
  {
    var st := Final(g);
    RunStatsOk(g, |g.rows|, st);
  }

  /** With distinct names on each roster, each team's box-score points add
      up to its final score. */
  lemma BuildPoints(g: Game)
    requires Build(g).Ok? && DistinctNames(g.rosterA) && DistinctNames(g.rosterB)
    ensures var R := Build(g).value; var L := R.lines;
      |L| > 0 && L[|L| - 1].EndOfGame? &&
      SumPts(StatsOf(R.boxA)) == L[|L| - 1].scoreA && SumPts(StatsOf(R.boxB)) == L[|L| - 1].scoreB
  {
    var st := Final(g);
    RunTallied(g, |g.rows|, st);
    assert StatsOf(Build(g).value.boxA) == st.statsA;
    assert StatsOf(Build(g).value.boxB) == st.statsB;
  }

  /** Every foul line of the narrative is the one its minute gives (the
      first player, team A before team B, with a foul column equal to that
      minute), and no two foul lines share a minute. With distinct names
      and distinct team names, each team's box-score fouls add up to its
      foul lines. */
  lemma BuildFouls(g: Game)
    requires Build(g).Ok?
    ensures var L := Build(g).value.lines;
      (forall i :: 0 <= i < |L| && L[i].FoulLine? ==> FoulLineAt(g, L[i].minute) == Some(L[i])) &&
      (forall i, j :: 0 <= i < j < |L| && L[i].FoulLine? && L[j].FoulLine? ==> L[i].minute != L[j].minute)
    ensures var R := Build(g).value;
      DistinctNames(g.rosterA) && DistinctNames(g.rosterB) && g.teamA != g.teamB ==>
        SumPf(StatsOf(R.boxA)) == CountFouls(R.lines, g.teamA) &&
        SumPf(StatsOf(R.boxB)) == CountFouls(R.lines, g.teamB)
  {
    var st := Final(g);
    var L := Build(g).value.lines;
    var t := Trailer(g, st.scoreA, st.scoreB);
    RunFoulsOnce(g, |g.rows|, st);
    FoulsOnceAppend(g, st.lines, t[0]);
    FoulsOnceAppend(g, st.lines + [t[0]], t[1]);
    assert L == st.lines + [t[0]] + [t[1]];
    forall i, j | 0 <= i < j < |L| && L[i].FoulLine? && L[j].FoulLine?
      ensures L[i].minute != L[j].minute
    {
      assert FoulLineAt(g, L[i].minute) == Some(L[i]) && FoulLineAt(g, L[j].minute) == Some(L[j]);
    }
    if DistinctNames(g.rosterA) && DistinctNames(g.rosterB) && g.teamA != g.teamB {
      RunCharged(g, |g.rows|, st);
      CountConcat(st.lines, t, g.teamA);
      CountConcat(st.lines, t, g.teamB);
      TrailerCounts(g, st.scoreA, st.scoreB, g.teamA);
      TrailerCounts(g, st.scoreA, st.scoreB, g.teamB);
      assert StatsOf(Build(g).value.boxA) == st.statsA;
      assert StatsOf(Build(g).value.boxB) == st.statsB;
    }
  }

  /** Over chronological rows, the quarter lines name quarters 1 to 3, each
      later one a later quarter. */
  lemma BuildQuarters(g: Game)
    requires Build(g).Ok? && Chronological(g.rows)
    ensures QuartersInOrder(Build(g).value.lines)
  {
    var st := Final(g);
    RunQuarters(g, |g.rows|, st);
    var t := Trailer(g, st.scoreA, st.scoreB);
    assert QuartersBefore(st.lines, 40);
    QuarterAppend(st.lines, t[0], 40);
    QuarterAppend(st.lines + [t[0]], t[1], 40);
    assert Build(g).value.lines == st.lines + [t[0]] + [t[1]];
  }

  // ---------------------------------------------------------------- games that fail

  /** The errors a row raises before its quarter check. */
  predicate RowError(e: Error) {
    e.UnknownPlayer? || e.NoActor? || e.InvalidScore?
  }

  /** When a row succeeds and, if it fails, why: the actor lookup fails
      first, then the score cell, then the quarter suffix of minute 0, then
      the look past the last row; every other row succeeds. */
  lemma RowOutcome(g: Game, i: nat, prev: State)
    requires i < |g.rows| && Reached(g, i, prev)
    ensures var m := Carry(prev.minute, g.rows[i].minute);
      var res := Resolve(g, prev.actor, g.rows[i], m);
      var play := if res.Ok? then Classify(g.rows[i].Cell(res.value.side), prev.Score(res.value.side)) else None;
      var boundary := m % 10 == 0 && m < 40;
      (Run(g, i + 1).Ok? <==> res.Ok? && play.Some? && !(boundary && (m == 0 || i + 1 == |g.rows|))) &&
      (res.Err? ==> Run(g, i + 1) == Err(res.error)) &&
      (res.Ok? && play.None? ==> Run(g, i + 1) == Err(InvalidScore(m, res.value.side))) &&
      (res.Ok? && play.Some? && boundary && m == 0 ==> Run(g, i + 1) == Err(NoQuarterSuffix(0))) &&
      (res.Ok? && play.Some? && boundary && m != 0 && i + 1 == |g.rows| ==> Run(g, i + 1) == Err(PeekPastEnd(m)))
  {
    RunNext(g, i, prev);
    FoulScan(g, prev.(minute := Carry(prev.minute, g.rows[i].minute)));
  }

  /** Every error of a prefix of the rows is one a row raises. */
  lemma {:induction false} RunErrors(g: Game, n: nat)
    requires n <= |g.rows| && Run(g, n).Err?
    ensures RowError(Run(g, n).error) || Run(g, n).error.NoQuarterSuffix? || Run(g, n).error.PeekPastEnd?
  {
    assert n > 0;
    if Run(g, n - 1).Err? {
      ErrorPersists(g, n - 1, n);
      RunErrors(g, n - 1);
    } else {
      var prev := Run(g, n - 1).value;
      RowOutcome(g, n - 1, prev);
      var m := Carry(prev.minute, g.rows[n - 1].minute);
      var res := Resolve(g, prev.actor, g.rows[n - 1], m);
      ResolveSpec(g, prev.actor, g.rows[n - 1], m);
    }
  }

  /** A game is built exactly when it has rows and every row succeeds; it
      fails for want of rows exactly when it has none. */
  lemma BuildOutcome(g: Game)
    ensures Build(g) == Err(EmptyRundown) <==> |g.rows| == 0
    ensures |g.rows| > 0 ==> (Build(g).Ok? <==> Run(g, |g.rows|).Ok?)
  {
    if |g.rows| > 0 && Run(g, |g.rows|).Err? {
      RunErrors(g, |g.rows|);
    }
  }

  /** A first row that names no player has no one to credit: the game
      fails at that row's minute. */
  lemma FirstRowWithoutActor(g: Game)
    requires 0 < |g.rows| && !Names(g.rows[0].numA) && !Names(g.rows[0].numB)
    ensures Build(g) == Err(NoActor(Carry(0, g.rows[0].minute)))
  {
    assert Run(g, 0) == Ok(Start(g));
    RunNext(g, 0, Start(g));
    GameFails(g, 0, NoActor(Carry(0, g.rows[0].minute)));
  }

  /** A row that names a jersey number its team's roster does not have
      fails the game. */
  lemma UnknownNumber(g: Game, i: nat, prev: State, side: Side)
    requires i < |g.rows| && Reached(g, i, prev)
    requires side == A ==>
      Names(g.rows[i].numA) && forall k :: 0 <= k < |g.rosterA| ==> g.rosterA[k].number != g.rows[i].numA.value
    requires side == B ==>
      !Names(g.rows[i].numA) && Names(g.rows[i].numB) &&
      forall k :: 0 <= k < |g.rosterB| ==> g.rosterB[k].number != g.rows[i].numB.value
    ensures Build(g) == Err(UnknownPlayer(Carry(prev.minute, g.rows[i].minute), side))
  {
    RunNext(g, i, prev);
    var f := Fouled(g, prev, i);
    ResolveSpec(g, f.actor, g.rows[i], f.minute);
    GameFails(g, i, UnknownPlayer(f.minute, side));
  }

  /** A row processed while the running minute is 0 fails the game: the
      quarter check looks up a suffix for quarter 0, which does not exist. */
  lemma MinuteZeroFails(g: Game, i: nat, prev: State)
    requires i < |g.rows| && Reached(g, i, prev) && Carry(prev.minute, g.rows[i].minute) == 0
    ensures Build(g).Err? && (RowError(Build(g).error) || Build(g).error == NoQuarterSuffix(0))
  {
    RunNext(g, i, prev);
    GameFails(g, i, Run(g, i + 1).error);
  }

  /** A game whose last row ends on minute 10, 20 or 30 fails: the quarter
      check reads the row after the last one. */
  lemma LastRowOnBoundaryFails(g: Game, prev: State)
    requires 0 < |g.rows| && Reached(g, |g.rows| - 1, prev)
    requires Carry(prev.minute, g.rows[|g.rows| - 1].minute) in {10, 20, 30}
    ensures Build(g).Err?
    ensures RowError(Build(g).error) || Build(g).error == PeekPastEnd(Carry(prev.minute, g.rows[|g.rows| - 1].minute))
  {
    var i := |g.rows| - 1;
    RunNext(g, i, prev);
    var m := Carry(prev.minute, g.rows[i].minute);
    assert m % 10 == 0 && 0 < m < 40 && i + 1 == |g.rows|;
    var r := Step(g, prev, i);
    assert r.Err? && (RowError(r.error) || r.error == PeekPastEnd(m));
    GameFails(g, i, r.error);
  }
}
