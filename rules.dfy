/** The rules applied to a single rundown row: the minute carry-forward, the
    foul scan over the rosters, the lookup of the acting player, the
    classification of the play from the score change, and the box-score
    counters each play and foul adds to. */
module Rules {
  import opened Types

  /** A row carries a minute when its minute cell is filled and not negative. */
  predicate Stamped(r: Row) {
    r.minute.Some? && r.minute.value >= 0
  }

  /** The running minute after a row whose minute cell is `stamp`. */
  function Carry(current: nat, stamp: Option<int>): (m: nat)
    ensures stamp.Some? && stamp.value >= 0 ==> m == stamp.value
    ensures !(stamp.Some? && stamp.value >= 0) ==> m == current
  {
    if stamp.Some? && stamp.value >= 0 then stamp.value else current
  }

  // ---------------------------------------------------------------- fouls

  /** The first roster row with a foul-minute column equal to `minute`. */
  function FirstFouler(roster: seq<Player>, minute: int): (k: Option<nat>)
    ensures k.Some? ==> k.value < |roster|
  {
    if |roster| == 0 then None
    else if minute in roster[0].foulMinutes then Some(0)
    else match FirstFouler(roster[1..], minute)
      case None => None
      case Some(k) => Some(k + 1)
  }

  /** `FirstFouler` finds the first row listing the minute, and finds none
      exactly when no row lists it. */
  lemma {:induction false} FirstFoulerSpec(roster: seq<Player>, minute: int)
    ensures var k := FirstFouler(roster, minute);
      (k.Some? ==> minute in roster[k.value].foulMinutes &&
                   forall j :: 0 <= j < k.value ==> minute !in roster[j].foulMinutes) &&
      (k.None? <==> forall j :: 0 <= j < |roster| ==> minute !in roster[j].foulMinutes)
  {
    if |roster| > 0 && minute !in roster[0].foulMinutes {
      FirstFoulerSpec(roster[1..], minute);
      var k := FirstFouler(roster[1..], minute);
      if k.None? {
        forall j | 0 <= j < |roster| ensures minute !in roster[j].foulMinutes {
          if j > 0 { assert roster[j] == roster[1..][j - 1]; }
        }
      } else {
        forall j | 0 <= j < k.value + 1 ensures minute !in roster[j].foulMinutes {
          if j > 0 { assert roster[j] == roster[1..][j - 1]; }
        }
      }
    }
  }

  /** Who is charged with the foul of a minute: a side and a roster index. */
  datatype Fouler = Fouler(side: Side, k: nat)

  /** The foul of `minute`: the first matching player of team A, otherwise
      the first matching player of team B, otherwise none. */
  function DetectFoul(g: Game, minute: int): (f: Option<Fouler>)
    ensures f.Some? ==> f.value.k < |g.Roster(f.value.side)|
  {
    match FirstFouler(g.rosterA, minute)
    case Some(k) => Some(Fouler(A, k))
    case None =>
      match FirstFouler(g.rosterB, minute)
      case Some(k) => Some(Fouler(B, k))
      case None => None
  }

  /** A foul is found exactly when some player of either team lists the
      minute; team A takes precedence, and within a team the first listing
      row is charged. */
  lemma DetectFoulSpec(g: Game, minute: int)
    ensures var f := DetectFoul(g, minute);
      (f.None? <==>
        (forall j :: 0 <= j < |g.rosterA| ==> minute !in g.rosterA[j].foulMinutes) &&
        (forall j :: 0 <= j < |g.rosterB| ==> minute !in g.rosterB[j].foulMinutes)) &&
      (f.Some? ==> minute in g.Roster(f.value.side)[f.value.k].foulMinutes &&
                   forall j :: 0 <= j < f.value.k ==> minute !in g.Roster(f.value.side)[j].foulMinutes) &&
      (f.Some? && f.value.side == B ==> forall j :: 0 <= j < |g.rosterA| ==> minute !in g.rosterA[j].foulMinutes)
  {
    FirstFoulerSpec(g.rosterA, minute);
    FirstFoulerSpec(g.rosterB, minute);
  }

  /** The name of the first roster row listing `minute` among its fouls. */
  ghost predicate FirstFouling(roster: seq<Player>, minute: int, name: string) {
    exists k :: 0 <= k < |roster| && minute in roster[k].foulMinutes && roster[k].name == name &&
      forall j :: 0 <= j < k ==> minute !in roster[j].foulMinutes
  }

  /** The foul line the narrative gets for `minute`, if any player fouled
      then: it names team A and its first player listing the minute, or,
      when no player of team A lists it, team B and its first such player. */
  function FoulLineAt(g: Game, minute: int): (l: Option<Line>)
    ensures l.Some? <==> DetectFoul(g, minute).Some?
    ensures l.None? <==>
      (forall j :: 0 <= j < |g.rosterA| ==> minute !in g.rosterA[j].foulMinutes) &&
      (forall j :: 0 <= j < |g.rosterB| ==> minute !in g.rosterB[j].foulMinutes)
    ensures l.Some? ==> l.value.FoulLine? && l.value.minute == minute
    ensures l.Some? ==>
      (l.value.team == g.teamA && FirstFouling(g.rosterA, minute, l.value.player)) ||
      (l.value.team == g.teamB && FirstFouling(g.rosterB, minute, l.value.player) &&
       forall j :: 0 <= j < |g.rosterA| ==> minute !in g.rosterA[j].foulMinutes)
  {
    DetectFoulSpec(g, minute);
    match DetectFoul(g, minute)
    case None => None
    case Some(f) => Some(FoulLine(minute, g.Team(f.side), g.Roster(f.side)[f.k].name))
  }

  // ---------------------------------------------------------------- actors

  /** The player that acts in a row: the side and the player's name. */
  datatype Actor = Actor(side: Side, name: string)

  /** The first roster row wearing jersey `number`. */
  function FirstWithNumber(roster: seq<Player>, number: int): (k: Option<nat>)
    ensures k.Some? ==> k.value < |roster|
  {
    if |roster| == 0 then None
    else if roster[0].number == number then Some(0)
    else match FirstWithNumber(roster[1..], number)
      case None => None
      case Some(k) => Some(k + 1)
  }

  /** `FirstWithNumber` finds the first row wearing the number, and finds
      none exactly when no row wears it. */
  lemma {:induction false} FirstWithNumberSpec(roster: seq<Player>, number: int)
    ensures var k := FirstWithNumber(roster, number);
      (k.Some? ==> roster[k.value].number == number &&
                   forall j :: 0 <= j < k.value ==> roster[j].number != number) &&
      (k.None? <==> forall j :: 0 <= j < |roster| ==> roster[j].number != number)
  {
    if |roster| > 0 && roster[0].number != number {
      FirstWithNumberSpec(roster[1..], number);
      var k := FirstWithNumber(roster[1..], number);
      if k.None? {
        forall j | 0 <= j < |roster| ensures roster[j].number != number {
          if j > 0 { assert roster[j] == roster[1..][j - 1]; }
        }
      } else {
        forall j | 0 <= j < k.value + 1 ensures roster[j].number != number {
          if j > 0 { assert roster[j] == roster[1..][j - 1]; }
        }
      }
    }
  }

  /** A jersey-number cell names a player when it is filled and not negative. */
  predicate Names(num: Option<int>) {
    num.Some? && num.value >= 0
  }

  /** `name` is the name of some row of `roster`. */
  ghost predicate Listed(roster: seq<Player>, name: string) {
    exists k :: 0 <= k < |roster| && roster[k].name == name
  }

  /** The name of the first roster row wearing `number`. */
  ghost predicate FirstNamed(roster: seq<Player>, number: int, name: string) {
    exists k :: 0 <= k < |roster| && roster[k].number == number && roster[k].name == name &&
      forall j :: 0 <= j < k ==> roster[j].number != number
  }

  /** The actor of row `r`: the player under "# A" if that cell names one,
      else the player under "# B", else the previous actor. */
  function Resolve(g: Game, prev: Option<Actor>, r: Row, minute: int): (res: Result<Actor>)
    ensures !Names(r.numA) && !Names(r.numB) ==> (res.Ok? <==> prev.Some?)
  {
    if Names(r.numA) then
      match FirstWithNumber(g.rosterA, r.numA.value)
      case None => Err(UnknownPlayer(minute, A))
      case Some(k) => Ok(Actor(A, g.rosterA[k].name))
    else if Names(r.numB) then
      match FirstWithNumber(g.rosterB, r.numB.value)
      case None => Err(UnknownPlayer(minute, B))
      case Some(k) => Ok(Actor(B, g.rosterB[k].name))
    else if prev.Some? then Ok(prev.value)
    else Err(NoActor(minute))
  }

  /** A row that names a number resolves exactly when that team's roster
      has the number, to the first player wearing it; an error names the
      minute and the side. A row that names none continues with the
      previous actor, and fails when there is none. */
  lemma ResolveSpec(g: Game, prev: Option<Actor>, r: Row, minute: int)
    ensures var res := Resolve(g, prev, r, minute);
      (Names(r.numA) ==>
        (res.Ok? <==> exists j :: 0 <= j < |g.rosterA| && g.rosterA[j].number == r.numA.value) &&
        (res.Ok? ==> res.value.side == A && FirstNamed(g.rosterA, r.numA.value, res.value.name)) &&
        (res.Err? ==> res.error == UnknownPlayer(minute, A))) &&
      (!Names(r.numA) && Names(r.numB) ==>
        (res.Ok? <==> exists j :: 0 <= j < |g.rosterB| && g.rosterB[j].number == r.numB.value) &&
        (res.Ok? ==> res.value.side == B && FirstNamed(g.rosterB, r.numB.value, res.value.name)) &&
        (res.Err? ==> res.error == UnknownPlayer(minute, B))) &&
      (!Names(r.numA) && !Names(r.numB) ==>
        res == (if prev.Some? then Ok(prev.value) else Err(NoActor(minute))))
  {
    if Names(r.numA) {
      FirstWithNumberSpec(g.rosterA, r.numA.value);
    } else if Names(r.numB) {
      FirstWithNumberSpec(g.rosterB, r.numB.value);
    }
  }

  /** The actor a row resolves to is a player of the actor's roster, when
      the previous actor was. */
  lemma ResolveListed(g: Game, prev: Option<Actor>, r: Row, minute: int)
    requires prev.Some? ==> Listed(g.Roster(prev.value.side), prev.value.name)
    ensures var res := Resolve(g, prev, r, minute);
      res.Ok? ==> Listed(g.Roster(res.value.side), res.value.name)
  {
    ResolveSpec(g, prev, r, minute);
  }

  // ---------------------------------------------------------------- plays

  /** The miss marker: a text cell that is the dash (or empty text, which
      the membership test in the dash also admits). */
  predicate IsMissMarker(c: Cell) {
    c.Text? && (c.s == "-" || c.s == "")
  }

  function Points(p: Play): (n: nat)
    ensures n <= 3
    ensures n == 0 <==> p == FreeThrowMissed
  {
    match p
    case Three => 3
    case Bucket => 2
    case FreeThrowMade => 1
    case FreeThrowMissed => 0
  }

  /** The play a score cell records, given the team's running score: the
      cumulative score minus the running score when the cell holds a
      non-negative number, otherwise no points, which only the miss marker
      may accompany. */
  function Classify(c: Cell, running: nat): (p: Option<Play>)
    ensures p.Some? <==> IsMissMarker(c) || (c.Num? && c.n - running in {1, 2, 3})
    ensures p.Some? ==> (p.value == FreeThrowMissed <==> IsMissMarker(c))
    ensures p.Some? && c.Num? ==> c.n == running + Points(p.value)
  {
    var points := if c.Num? && c.n >= 0 then c.n - running else 0;
    if points == 3 then Some(Three)
    else if points == 2 then Some(Bucket)
    else if points == 1 then Some(FreeThrowMade)
    else if IsMissMarker(c) then Some(FreeThrowMissed)
    else None
  }

  // ---------------------------------------------------------------- box score

  /** What a row adds to one player's box score. */
  datatype Credit = PersonalFoul | Scored(play: Play)

  /** The box-score identities every counter set keeps: the points are the
      sum of the makes, and no player made more free throws than attempted. */
  predicate StatOk(s: Stat) {
    s.pts == 3 * s.tpm + 2 * s.fgm + s.ftm && s.ftm <= s.fta
  }

  function PtsGain(c: Credit): nat {
    if c.Scored? then Points(c.play) else 0
  }

  function PfGain(c: Credit): nat {
    if c.PersonalFoul? then 1 else 0
  }

  /** One player's counters after a credit. */
  function Tally(s: Stat, c: Credit): (t: Stat)
    ensures t.pts == s.pts + PtsGain(c)
    ensures t.pf == s.pf + PfGain(c)
    ensures t.tpm == s.tpm + (if c == Scored(Three) then 1 else 0)
    ensures t.fgm == s.fgm + (if c == Scored(Bucket) then 1 else 0)
    ensures t.ftm == s.ftm + (if c == Scored(FreeThrowMade) then 1 else 0)
    ensures t.fta == s.fta + (if c == Scored(FreeThrowMade) || c == Scored(FreeThrowMissed) then 1 else 0)
    ensures t.fta - t.ftm == s.fta - s.ftm + (if c == Scored(FreeThrowMissed) then 1 else 0)
    ensures StatOk(s) ==> StatOk(t)
  {
    match c
    case PersonalFoul => s.(pf := s.pf + 1)
    case Scored(Three) => s.(tpm := s.tpm + 1, pts := s.pts + 3)
    case Scored(Bucket) => s.(fgm := s.fgm + 1, pts := s.pts + 2)
    case Scored(FreeThrowMade) => s.(ftm := s.ftm + 1, fta := s.fta + 1, pts := s.pts + 1)
    case Scored(FreeThrowMissed) => s.(fta := s.fta + 1)
  }

  /** The box score after crediting the player `name`: the counters are
      indexed by name, so every roster row with that name is credited. */
  function CreditByName(roster: seq<Player>, stats: seq<Stat>, name: string, c: Credit): (r: seq<Stat>)
    requires |stats| == |roster|
    ensures |r| == |stats|
  {
    if |stats| == 0 then []
    else [if roster[0].name == name then Tally(stats[0], c) else stats[0]]
         + CreditByName(roster[1..], stats[1..], name, c)
  }

  /** Every roster row named `name` is credited and every other row is
      left as it was. */
  lemma {:induction false} CreditByNameAt(roster: seq<Player>, stats: seq<Stat>, name: string, c: Credit, i: nat)
    requires |stats| == |roster| && i < |stats|
    ensures CreditByName(roster, stats, name, c)[i] ==
      if roster[i].name == name then Tally(stats[i], c) else stats[i]
  {
    if i > 0 {
      CreditByNameAt(roster[1..], stats[1..], name, c, i - 1);
    }
  }

  /** The counters of a team before the first row: zero for every roster row. */
  function Zeros(n: nat): (r: seq<Stat>)
    ensures |r| == n
    ensures forall i :: 0 <= i < n ==> r[i] == Stat(0, 0, 0, 0, 0, 0)
  {
    seq(n, _ => Stat(0, 0, 0, 0, 0, 0))
  }

  /** FT% = 100 * FTM / FTA, undefined for a player with no attempt. */
  function FtPct(s: Stat): (p: Option<real>)
    ensures p.None? <==> s.fta == 0
    ensures p.Some? ==> p.value * (s.fta as real) == 100.0 * (s.ftm as real)
    ensures p.Some? && s.ftm <= s.fta ==> 0.0 <= p.value <= 100.0
  {
    if s.fta == 0 then None
    else
      var q := 100.0 * (s.ftm as real) / (s.fta as real);
      assert q * (s.fta as real) == 100.0 * (s.ftm as real);
      Some(q)
  }

  /** The finished box score of one team, row for row with the roster. */
  function Finish(roster: seq<Player>, stats: seq<Stat>): (r: seq<BoxLine>)
    requires |stats| == |roster|
    ensures |r| == |roster|
    ensures forall i :: 0 <= i < |r| ==>
      r[i].number == roster[i].number && r[i].player == roster[i].name &&
      r[i].stat == stats[i] && r[i].ftPct == FtPct(stats[i])
  {
    seq(|stats|, i requires 0 <= i < |stats| => BoxLine(roster[i].number, roster[i].name, stats[i], FtPct(stats[i])))
  }
}
