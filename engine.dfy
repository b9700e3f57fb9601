/** The quiz turn engine as values: the component's state as one `Match`
    record and each handler as a function from the old state to the new one.
    The class in quiz.dfy implements these transitions field by field. */
module Engine {

  datatype Team = Team1 | Team2

  function Other(t: Team): (o: Team)
    ensures o != t
  {
    if t == Team1 then Team2 else Team1
  }

  /** The team that answers question `i` when play starts with team1 and
      alternates on every advance. */
  function TeamAt(i: nat): Team
  {
    if i % 2 == 0 then Team1 else Team2
  }

  /** A value held per team, like the source's `{ team1, team2 }` objects. */
  datatype PerTeam<T> = PerTeam(team1: T, team2: T)
  {
    function Get(t: Team): T
    {
      match t
      case Team1 => team1
      case Team2 => team2
    }

    /** The `{ ...prev, [t]: v }` update. */
    function Set(t: Team, v: T): (r: PerTeam<T>)
      ensures r.Get(t) == v && r.Get(Other(t)) == Get(Other(t))
    {
      match t
      case Team1 => this.(team1 := v)
      case Team2 => this.(team2 := v)
    }
  }

  type Scores = PerTeam<nat>

  /** A question record: `option1`..`option4` and the 1-based index of the
      correct option. */
  datatype Question = Question(id: int, text: string, options: seq<string>, correctAnswer: int)

  /** The record sent to the leaderboard when the game ends. */
  datatype Post = Post(teamName: string, members: seq<string>, score: nat)

  datatype Match = Match(
    questions: seq<Question>,
    currentQuestion: nat,
    scores: Scores,
    timeLeft: int,
    currentTeam: Team,
    gameOver: bool,
    gameStarted: bool,
    teamNames: PerTeam<string>,
    teamMembers: PerTeam<seq<string>>,
    posted: seq<Post>)

  /** Seconds allowed per question. */
  const TimePerQuestion: int := 10

  /** The state when the component mounts. */
  function Initial(): (m: Match)
    ensures Valid(m) && !m.gameStarted && m.questions == []
  {
    Match([], 0, PerTeam(0, 0), TimePerQuestion, Team1, false, false,
          PerTeam("", ""), PerTeam([], []), [])
  }

  /** The answer button with 0-based position `option` is correct. */
  predicate IsCorrect(option: nat, q: Question)
    ensures IsCorrect(option, q) ==> q.correctAnswer >= 1
  {
    option + 1 == q.correctAnswer
  }

  /** Of the four buttons, one is correct exactly when the stored index is in
      1..4, and never more than one. */
  lemma OneCorrectOption(q: Question)
    ensures (exists i :: 0 <= i < 4 && IsCorrect(i, q)) <==> 1 <= q.correctAnswer <= 4
    ensures forall i, j :: 0 <= i < 4 && 0 <= j < 4 && IsCorrect(i, q) && IsCorrect(j, q) ==> i == j
  {
    if 1 <= q.correctAnswer <= 4 {
      assert IsCorrect(q.correctAnswer - 1, q);
    }
  }

  /** Questions answered or timed out so far. */
  function Answered(m: Match): nat
  {
    m.currentQuestion + if m.gameOver then 1 else 0
  }

  /** How many of the first `k` questions team `t` answers. */
  function TurnsOf(t: Team, k: nat): nat
  {
    if k == 0 then 0 else TurnsOf(t, k - 1) + if TeamAt(k - 1) == t then 1 else 0
  }

  /** Team1 takes the even-numbered questions, team2 the odd ones. */
  lemma {:induction false} TurnsSplit(k: nat)
    ensures TurnsOf(Team1, k) == (k + 1) / 2
    ensures TurnsOf(Team2, k) == k / 2
  {
    if k > 0 {
      TurnsSplit(k - 1);
    }
  }

  /** The shape of the state: indices, timer, alternation and the single
      leaderboard post all agree. */
  ghost predicate Wellformed(m: Match)
  {
    && 0 <= m.timeLeft <= TimePerQuestion
    && (m.questions == [] ==> m.currentQuestion == 0)
    && (m.questions != [] ==> m.currentQuestion < |m.questions|)
    && (m.gameStarted ==> m.questions != [])
    && (!m.gameStarted ==> m.currentQuestion == 0)
    && (m.gameOver ==> m.gameStarted && m.currentQuestion == |m.questions| - 1)
    && m.currentTeam == TeamAt(m.currentQuestion)
    && |m.posted| == if m.gameOver then 1 else 0
  }

  /** A team never has more points than questions it has answered. */
  ghost predicate ScoresWithinTurns(m: Match)
  {
    && m.scores.team1 <= TurnsOf(Team1, Answered(m))
    && m.scores.team2 <= TurnsOf(Team2, Answered(m))
  }

  ghost predicate Valid(m: Match)
  {
    Wellformed(m) && ScoresWithinTurns(m)
  }

  /** Together the two teams never score more than there are questions. */
  lemma ScoresBounded(m: Match)
    requires Valid(m)
    ensures m.scores.team1 + m.scores.team2 <= |m.questions|
  {
    TurnsSplit(Answered(m));
  }

  /** The winner rule of `endGame`: team1 only with a strictly greater score,
      so a tie goes to team2. */
  function Winner(s: Scores): (w: Team)
    ensures s.Get(w) >= s.Get(Other(w))
    ensures s.Get(w) == s.Get(Other(w)) ==> w == Team2
  {
    if s.team1 > s.team2 then Team1 else Team2
  }

  /** `Math.max` of the two scores. */
  function WinningScore(s: Scores): (r: nat)
    ensures r >= s.team1 && r >= s.team2
    ensures r == s.team1 || r == s.team2
  {
    if s.team1 >= s.team2 then s.team1 else s.team2
  }

  /** The posted score is the winner's own score. */
  lemma WinningScoreIsWinners(s: Scores)
    ensures WinningScore(s) == s.Get(Winner(s))
  {
  }

  /** The leaderboard record for the winner according to `seen`. */
  function PostFor(m: Match, seen: Scores): (p: Post)
    ensures p.teamName == m.teamNames.Get(Winner(seen))
    ensures p.members == m.teamMembers.Get(Winner(seen))
    ensures p.score == WinningScore(seen)
  {
    var w := Winner(seen);
    Post(m.teamNames.Get(w), m.teamMembers.Get(w), WinningScore(seen))
  }

  /** `endGame`, judged on the scores `seen` by the calling handler. */
  function EndGame(m: Match, seen: Scores): (r: Match)
    ensures r.gameOver
    ensures r.posted == m.posted + [PostFor(m, seen)]
    ensures r.(gameOver := m.gameOver, posted := m.posted) == m
  {
    m.(gameOver := true, posted := m.posted + [PostFor(m, seen)])
  }

  /** `nextQuestion`: move on with the timer reset and the other team, or end
      the game on the last question. Scores are untouched; `seen` is only
      passed on to `EndGame`. */
  function NextQuestion(m: Match, seen: Scores): (r: Match)
    requires Wellformed(m) && m.gameStarted && !m.gameOver
    ensures Wellformed(r) && Answered(r) == Answered(m) + 1
    ensures r.scores == m.scores && r.questions == m.questions && r.gameStarted
    ensures r.teamNames == m.teamNames && r.teamMembers == m.teamMembers
    ensures m.currentQuestion + 1 < |m.questions| ==>
      && r.currentQuestion == m.currentQuestion + 1
      && r.timeLeft == TimePerQuestion
      && r.currentTeam == Other(m.currentTeam)
      && !r.gameOver && r.posted == m.posted
    ensures m.currentQuestion + 1 >= |m.questions| ==>
      && r.gameOver && r.currentQuestion == m.currentQuestion
      && r.timeLeft == m.timeLeft && r.currentTeam == m.currentTeam
      && r.posted == [PostFor(m, seen)]
  {
    if m.currentQuestion + 1 < |m.questions| then
      m.(currentQuestion := m.currentQuestion + 1,
         timeLeft := TimePerQuestion,
         currentTeam := Other(m.currentTeam))
    else
      EndGame(m, seen)
  }

  /** `handleAnswer`: a correct answer gives the answering team one point,
      then play advances. `endGame` reads the scores of the handler's closure,
      which do not yet hold that point, so the post ignores it. */
  function HandleAnswer(m: Match, correct: bool): (r: Match)
    requires Valid(m) && m.gameStarted && !m.gameOver
    ensures Valid(r) && r.gameStarted
    ensures r.scores.Get(m.currentTeam) == m.scores.Get(m.currentTeam) + if correct then 1 else 0
    ensures r.scores.Get(Other(m.currentTeam)) == m.scores.Get(Other(m.currentTeam))
    ensures r.gameOver <==> m.currentQuestion + 1 == |m.questions|
    ensures r.questions == m.questions && r.teamNames == m.teamNames && r.teamMembers == m.teamMembers
    ensures r.gameOver ==> r.posted == [PostFor(m, m.scores)]
    ensures r.gameOver ==> r.currentQuestion == m.currentQuestion && r.timeLeft == m.timeLeft
    ensures !r.gameOver ==> r.currentQuestion == m.currentQuestion + 1 && r.timeLeft == TimePerQuestion
  {
    var credited := if correct then m.scores.Set(m.currentTeam, m.scores.Get(m.currentTeam) + 1) else m.scores;
    var r := NextQuestion(m.(scores := credited), m.scores);
    TurnsOfNext(m.currentQuestion);
    r
  }

  /** Answering question `k` adds a turn for its team and none for the other. */
  lemma TurnsOfNext(k: nat)
    ensures TurnsOf(TeamAt(k), k + 1) == TurnsOf(TeamAt(k), k) + 1
    ensures TurnsOf(Other(TeamAt(k)), k + 1) == TurnsOf(Other(TeamAt(k)), k)
  {
  }

  /** `handleTimeout`: advance without scoring. */
  function HandleTimeout(m: Match): (r: Match)
    requires Valid(m) && m.gameStarted && !m.gameOver
    ensures Valid(r) && r.gameStarted && r.scores == m.scores
    ensures r.questions == m.questions && r.teamNames == m.teamNames && r.teamMembers == m.teamMembers
    ensures r.gameOver <==> m.currentQuestion + 1 == |m.questions|
    ensures r.gameOver ==> r.posted == [PostFor(m, m.scores)]
    ensures r.gameOver ==> r.currentQuestion == m.currentQuestion && r.timeLeft == m.timeLeft
    ensures !r.gameOver ==> r.currentQuestion == m.currentQuestion + 1 && r.timeLeft == TimePerQuestion
  {
    NextQuestion(m, m.scores)
  }

  /** One run of the countdown effect: a second passes while a question is
      open, a timeout fires at zero, and nothing happens before the start or
      after the end. */
  function Tick(m: Match): (r: Match)
    requires Valid(m)
    ensures Valid(r)
    ensures m.gameStarted && !m.gameOver && m.timeLeft > 0 ==>
      r == m.(timeLeft := m.timeLeft - 1)
    ensures m.gameStarted && !m.gameOver && m.timeLeft == 0 ==>
      r == HandleTimeout(m)
    ensures !m.gameStarted || m.gameOver ==> r == m
    ensures r.currentQuestion == m.currentQuestion ==> r.timeLeft <= m.timeLeft
  {
    if m.timeLeft > 0 && m.gameStarted && !m.gameOver then
      m.(timeLeft := m.timeLeft - 1)
    else if m.timeLeft == 0 && m.gameStarted && !m.gameOver then
      HandleTimeout(m)
    else
      m
  }

  /** Both teams are named and have members. */
  predicate TeamsReady(names: PerTeam<string>, members: PerTeam<seq<string>>)
    ensures TeamsReady(names, members) <==> forall t: Team :: names.Get(t) != "" && |members.Get(t)| > 0
  {
    assert names.Get(Team1) == names.team1 && members.Get(Team1) == members.team1;
    assert names.Get(Team2) == names.team2 && members.Get(Team2) == members.team2;
    names.team1 != "" && names.team2 != "" && |members.team1| > 0 && |members.team2| > 0
  }

  /** `startGame`: start play when the setup is complete, else change
      nothing (the source raises an alert). */
  function StartGame(m: Match): (r: Match)
    requires Valid(m) && !m.gameStarted && m.questions != []
    ensures Valid(r)
    ensures r.gameStarted <==> TeamsReady(m.teamNames, m.teamMembers)
    ensures r.(gameStarted := m.gameStarted) == m
  {
    if TeamsReady(m.teamNames, m.teamMembers) then m.(gameStarted := true) else m
  }

  /** What the players can do to an open question. */
  datatype Event = Answer(correct: bool) | Timeout

  function Apply(m: Match, e: Event): (r: Match)
    requires Valid(m) && m.gameStarted && !m.gameOver
    ensures Valid(r) && r.gameStarted
    ensures r.questions == m.questions && r.teamNames == m.teamNames && r.teamMembers == m.teamMembers
  {
    match e
    case Answer(correct) => HandleAnswer(m, correct)
    case Timeout => HandleTimeout(m)
  }

  /** Feed events to the engine; once the game is over none reach it (the
      answer buttons are gone and the countdown has stopped). */
  function Play(m: Match, events: seq<Event>): (r: Match)
    requires Valid(m) && m.gameStarted
    ensures Valid(r) && r.gameStarted
    ensures r.questions == m.questions && r.teamNames == m.teamNames && r.teamMembers == m.teamMembers
    decreases |events|
  {
    if events == [] || m.gameOver then m
    else Play(Apply(m, events[0]), events[1..])
  }

  /** From any open question, the game ends after exactly as many events as
      questions remain, posts to the leaderboard exactly once, and until then
      the team at question `i` is team1 exactly when `i` is even. */
  lemma {:induction false} GameEndsAfterLastQuestion(m: Match, events: seq<Event>)
    requires Valid(m) && m.gameStarted && !m.gameOver
    ensures var r := Play(m, events);
      var remaining := |m.questions| - m.currentQuestion;
      && (r.gameOver <==> |events| >= remaining)
      && |r.posted| == (if |events| >= remaining then 1 else 0)
      && (!r.gameOver ==> r.currentQuestion == m.currentQuestion + |events|)
      && (r.gameOver ==> r.currentQuestion == |m.questions| - 1)
      && (r.currentTeam == Team1 <==> r.currentQuestion % 2 == 0)
    decreases |events|
  {
    if events != [] {
      var next := Apply(m, events[0]);
      if !next.gameOver {
        GameEndsAfterLastQuestion(next, events[1..]);
      }
    }
  }

  /** The record posted at the end of a game carries the name and the
      members that one of the teams entered at setup, paired as entered. */
  lemma {:induction false} PostCarriesSetupTeam(m: Match, events: seq<Event>)
    requires Valid(m) && m.gameStarted && !m.gameOver
    ensures var r := Play(m, events);
      r.gameOver ==> exists w: Team ::
        r.posted[0].teamName == m.teamNames.Get(w) && r.posted[0].members == m.teamMembers.Get(w)
    decreases |events|
  {
    if events != [] {
      var next := Apply(m, events[0]);
      if next.gameOver {
        var w := Winner(m.scores);
        assert next.posted[0] == PostFor(m, m.scores);
        assert next.posted[0].teamName == m.teamNames.Get(w);
      } else {
        PostCarriesSetupTeam(next, events[1..]);
      }
    }
  }

  /** Run the countdown `k` times. */
  function Ticks(m: Match, k: nat): (r: Match)
    requires Valid(m)
    ensures Valid(r)
    decreases k
  {
    if k == 0 then m else Ticks(Tick(m), k - 1)
  }

  /** On an open question the countdown runs down to zero one second at a
      time, leaving everything else as it was, and the next tick times the
      question out. */
  lemma {:induction false} CountdownEndsInTimeout(m: Match)
    requires Valid(m) && m.gameStarted && !m.gameOver
    ensures Ticks(m, m.timeLeft) == m.(timeLeft := 0)
    ensures Ticks(m, m.timeLeft + 1) == HandleTimeout(m.(timeLeft := 0))
    decreases m.timeLeft
  {
    if m.timeLeft > 0 {
      var next := m.(timeLeft := m.timeLeft - 1);
      CountdownEndsInTimeout(next);
      assert next.(timeLeft := 0) == m.(timeLeft := 0);
    }
  }

  /** When the last question is answered correctly, the state holds the new
      point but the leaderboard post is judged without it; with a 0–0 score
      the answering team1 ends up ahead yet the post names team2. */
  lemma LastPointLeftOutOfPost(m: Match)
    requires Valid(m) && m.gameStarted && !m.gameOver
    requires m.currentQuestion + 1 == |m.questions|
    requires m.currentTeam == Team1 && m.scores == PerTeam(0, 0)
    ensures HandleAnswer(m, true).scores == PerTeam(1, 0)
    ensures Winner(HandleAnswer(m, true).scores) == Team1
    ensures HandleAnswer(m, true).posted == [Post(m.teamNames.team2, m.teamMembers.team2, 0)]
  {
  }
}
