/** The `Quiz` component's state and handlers, updated in place. Every game
    handler is proved to take the state exactly where the corresponding
    transition of `Engine` does, so the lemmas proved there hold of it; the
    setup and fetch methods state the one field they change. */
module QuizComponent {
  import opened Engine
  import Shuffle

  class Quiz {
    var questions: seq<Question>
    var currentQuestion: nat
    var scores: Scores
    var timeLeft: int
    var currentTeam: Team
    var gameOver: bool
    var gameStarted: bool
    var teamNames: PerTeam<string>
    var teamMembers: PerTeam<seq<string>>
    /** The leaderboard records sent so far. */
    var posted: seq<Post>

    /** The fields as one `Engine.Match` value. */
    function State(): Match
      reads this
    {
      Match(questions, currentQuestion, scores, timeLeft, currentTeam,
            gameOver, gameStarted, teamNames, teamMembers, posted)
    }

    ghost predicate Valid()
      reads this
    {
      Engine.Valid(State())
    }

    /** The initial `useState` values. */
    constructor ()
      ensures State() == Initial() && Valid()
    {
      questions := [];
      currentQuestion := 0;
      scores := PerTeam(0, 0);
      timeLeft := TimePerQuestion;
      currentTeam := Team1;
      gameOver := false;
      gameStarted := false;
      teamNames := PerTeam("", "");
      teamMembers := PerTeam([], []);
      posted := [];
    }

    /** The response of the question fetch arrives: shuffle it in place and
        store it. */
    method ReceiveQuestions(batch: array<Question>, picks: seq<nat>)
      requires Valid() && !gameStarted
      requires |picks| == batch.Length && Shuffle.ValidPicks(picks)
      modifies this, batch
      ensures Valid()
      ensures State() == old(State()).(questions := Shuffle.FisherYates(old(batch[..]), picks))
      ensures multiset(questions) == multiset(old(batch[..]))
      ensures batch[..] == questions
    {
      Shuffle.ShuffleArray(batch, picks);
      questions := batch[..];
    }

    /** The name input of the setup screen. */
    method SetTeamName(team: Team, name: string)
      requires Valid() && !gameStarted
      modifies this
      ensures Valid()
      ensures State() == old(State()).(teamNames := old(teamNames).Set(team, name))
    {
      teamNames := teamNames.Set(team, name);
    }

    /** The members input of the setup screen, already split into names. */
    method SetTeamMembers(team: Team, members: seq<string>)
      requires Valid() && !gameStarted
      modifies this
      ensures Valid()
      ensures State() == old(State()).(teamMembers := old(teamMembers).Set(team, members))
    {
      teamMembers := teamMembers.Set(team, members);
    }

    /** `startGame`; `started` is false where the source shows its alert. */
    method StartGame() returns (started: bool)
      requires Valid() && !gameStarted && questions != []
      modifies this
      ensures Valid()
      ensures State() == Engine.StartGame(old(State()))
      ensures started == gameStarted
      ensures started <==> TeamsReady(teamNames, teamMembers)
    {
      if TeamsReady(teamNames, teamMembers) {
        gameStarted := true;
      }
      started := gameStarted;
    }

    /** A click on the answer button at 0-based position `option`. */
    method ChooseOption(option: nat)
      requires Valid() && gameStarted && !gameOver && option < 4
      modifies this
      ensures Valid()
      ensures State() == Engine.HandleAnswer(old(State()), IsCorrect(option, old(questions[currentQuestion])))
    {
      HandleAnswer(IsCorrect(option, questions[currentQuestion]));
    }

    /** `handleAnswer`. The point is added through a deferred update, so the
        `scores` that `endGame` sees are the ones before it. */
    method HandleAnswer(correct: bool)
      requires Valid() && gameStarted && !gameOver
      modifies this
      ensures Valid()
      ensures State() == Engine.HandleAnswer(old(State()), correct)
    {
      var seen := scores;
      if correct {
        scores := scores.Set(currentTeam, scores.Get(currentTeam) + 1);
      }
      NextQuestion(seen);
    }

    /** `handleTimeout`. */
    method HandleTimeout()
      requires Valid() && gameStarted && !gameOver
      modifies this
      ensures Valid()
      ensures State() == Engine.HandleTimeout(old(State()))
    {
      NextQuestion(scores);
    }

    /** `nextQuestion`; `seen` are the scores the calling handler sees. */
    method NextQuestion(seen: Scores)
      requires Wellformed(State()) && gameStarted && !gameOver
      modifies this
      ensures State() == Engine.NextQuestion(old(State()), seen)
    {
      if currentQuestion + 1 < |questions| {
        currentQuestion := currentQuestion + 1;
        timeLeft := TimePerQuestion;
        currentTeam := Other(currentTeam);
      } else {
        EndGame(seen);
      }
    }

    /** `endGame`: mark the game over and post the winner of `seen`. */
    method EndGame(seen: Scores)
      modifies this
      ensures State() == Engine.EndGame(old(State()), seen)
    {
      gameOver := true;
      var winningTeam := Winner(seen);
      var winningScore := WinningScore(seen);
      AddScoreToLeaderboard(teamNames.Get(winningTeam), teamMembers.Get(winningTeam), winningScore);
    }

    /** `addScoreToLeaderboard`, reduced to recording what is sent. */
    method AddScoreToLeaderboard(teamName: string, members: seq<string>, score: nat)
      modifies this
      ensures posted == old(posted) + [Post(teamName, members, score)]
      ensures State().(posted := old(posted)) == old(State())
    {
      posted := posted + [Post(teamName, members, score)];
    }

    /** One run of the countdown effect. */
    method Tick()
      requires Valid()
      modifies this
      ensures Valid()
      ensures State() == Engine.Tick(old(State()))
    {
      if timeLeft > 0 && gameStarted && !gameOver {
        timeLeft := timeLeft - 1;
      } else if timeLeft == 0 && gameStarted && !gameOver {
        HandleTimeout();
      }
    }
  }
}
