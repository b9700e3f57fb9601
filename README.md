# Two-team quiz turn engine

This project models the core of a trivia game for two teams, the `Quiz`
component of `frontend/src/components/Quiz.jsx`.

Two teams are set up, each with a name and members. They take turns answering
a batch of questions. Each turn has a ten-second countdown. A correct answer
gives the answering team one point. A wrong answer or a timeout gives no
point. After every turn play moves to the next question and the other team.
After the last question the game ends and one leaderboard record for the
winner is sent.

Files:

- `shuffle.dfy` (module `Shuffle`): `shuffleArray`, the in-place Fisher–Yates
  shuffle applied to each fetched batch. It is a method over an `array`. The
  method is proved against the function `FisherYates`. That function is proved
  to be a permutation. It also reaches every arrangement and, over distinct
  elements, gives different arrangements for different pick sequences.
- `feedback.dfy` (module `Feedback`): `getEmoji`, the three-tier feedback. It is
  written with integer comparisons and proved equal to the source's percentage
  rule, computed on exact reals.
- `engine.dfy` (module `Engine`): the component's state as a `Match` value. Each
  handler is a transition function on it. The lemmas cover the whole game:
  turn alternation, score bounds, the countdown, the winner rule, and the end
  of the game after exactly as many turns as there are questions.
- `quiz.dfy` (module `QuizComponent`): class `Quiz`. Its fields are the state
  variables of the component, and each handler is a method that updates them
  in place, in the source's order. The game handlers (`StartGame`,
  `ChooseOption`, `HandleAnswer`, `HandleTimeout`, `NextQuestion`, `EndGame`
  and `Tick`) each have a postcondition that equates the new state with the
  `Engine` transition of the old state, so every lemma in `Engine` holds of
  them. The setup and fetch methods (`ReceiveQuestions`, `SetTeamName`,
  `SetTeamMembers`) and `AddScoreToLeaderboard` have no `Engine` transition.
  Their postconditions state the one field they change and that the rest of
  the state stays as it was.

Modelling decisions:

- **Randomness.** `Math.random` becomes a caller-supplied pick sequence.
  `picks[c]` is the index swapped into position `c`. The source draws
  `floor(random * currentIndex)` and then decrements `currentIndex` to `c`, so
  a valid pick has `picks[c] <= c`.
- **The timer.** The `setTimeout` effect becomes an explicit `Tick`. Each tick
  is either one elapsed second, or the effect run that fires `handleTimeout`
  once the count is 0.
- **Batched updates.** React's batched `setState` calls become atomic
  transitions, with one exception. `handleAnswer` adds the point through a
  deferred functional update. `endGame`, called in the same handler, reads
  `scores` from the closure. So when the last question is answered correctly,
  the posted winner and score are computed without that point. The model
  passes these "seen" scores to `NextQuestion` and `EndGame` explicitly.
  `Engine.LastPointLeftOutOfPost` shows the effect: team1 answers the only
  question correctly at 0–0, the state then holds 1–0 and the game-over banner
  names team1, but the record sent to the leaderboard names team2 with score 0.
- **Ties go to team2.** The winner rule is `scores.team1 > scores.team2`, at
  `frontend/src/components/Quiz.jsx:100` and again at `:192`. So team1 wins only
  with a strictly greater score, and a tie goes to team2.
- **Preconditions.** The handlers require a started, unfinished game with
  questions present. The answer buttons and the countdown exist only on the
  screen rendered under those conditions (`Quiz.jsx:133`, `:135`, `:166`,
  `:34`). For the same reason, the setup inputs and the start button require
  a game not yet started, and `StartGame` also requires a non-empty batch.
- **`getEmoji` with no questions.** In the source this divides by zero. The
  model follows JavaScript: `0 / 0` is NaN, giving the bottom tier, and a
  positive score over 0 is Infinity, giving the middle tier. This case is
  never rendered, because the quiz screen needs questions.

## Model

| member | source | states |
|---|---|---|
| `Shuffle.Swap` | frontend/src/components/Quiz.jsx:65 | the destructuring swap: the two positions exchange their elements and every other position keeps its own |
| `Shuffle.ShuffleArray` | frontend/src/components/Quiz.jsx:60-68 | the in-place loop leaves the array equal to `FisherYates(old array, picks)` and a permutation of it; `currentIndex` walks from the length down to 0, one swap per position |
| `Shuffle.FisherYates` | frontend/src/components/Quiz.jsx:60-68 | the arrangement produced by a pick sequence, filling the last position first; it has the input's length |
| `Shuffle.FisherYatesPermutes` | frontend/src/components/Quiz.jsx:60-68 | the shuffle's result has the same multiset of elements as its input |
| `Shuffle.FisherYatesKeepsTail` | frontend/src/components/Quiz.jsx:62-65 | once the loop has filled a position, no later swap touches it |
| `Shuffle.EveryArrangementReachable` | frontend/src/components/Quiz.jsx:60-68 | every rearrangement of the input is produced by some valid pick sequence |
| `Shuffle.Reach` | frontend/src/components/Quiz.jsx:62-66 | inductive step of reachability: when the first `c` positions hold the target's elements and the rest already agree, `c` valid picks produce the target |
| `Shuffle.PicksDetermineArrangement` | frontend/src/components/Quiz.jsx:60-68 | over distinct elements, two valid pick sequences giving the same arrangement are equal; with reachability, the shuffle is a bijection from pick sequences onto arrangements, so uniform picks make every arrangement equally likely |
| `Feedback.Percentage` | frontend/src/components/Quiz.jsx:127 | the percentage of correct answers: times the total it gives 100 times the score, and it lies between 0 and 100 while the score does not exceed the total |
| `Feedback.EmojiByPercentage` | frontend/src/components/Quiz.jsx:128-130 | the source's rule on the percentage: the top tier exactly at 100, a tier above the bottom exactly at 50 or more |
| `Feedback.GetEmoji` | frontend/src/components/Quiz.jsx:126-131 | the integer tiers (top iff score = total, else middle iff 2·score ≥ total, else bottom) equal the source's percentage rule for every positive total; with no questions the bottom tier for a score of 0 and the middle tier for a positive score |
| `Feedback.PercentageThresholds` | frontend/src/components/Quiz.jsx:127-129 | the percentage is 100 iff score = total, and at least 50 iff 2·score ≥ total |
| `Feedback.EmojiMonotone` | frontend/src/components/Quiz.jsx:126-131 | a higher score never gets a worse tier |
| `Engine.Other` | frontend/src/components/Quiz.jsx:92 | the flipped team differs from the current one |
| `Engine.PerTeam.Set` | frontend/src/components/Quiz.jsx:72-75 | the `{...prev, [team]: v}` update sets that team's value and keeps the other team's |
| `Engine.Initial` | frontend/src/components/Quiz.jsx:11-21 | the mount-time state is valid, not started, with no questions |
| `Engine.IsCorrect` | frontend/src/components/Quiz.jsx:177 | the `index + 1 === correct_answer` test of a button; a button can be correct only when the stored answer index is positive, as the labels are 1-based |
| `Engine.OneCorrectOption` | frontend/src/components/Quiz.jsx:172-177 | a button is correct iff its 1-based index equals `correct_answer`; some button of the four is correct iff that index is in 1..4, and never two |
| `Engine.TurnsSplit` | frontend/src/components/Quiz.jsx:88-96 | of the first k questions, team1 answers ⌈k/2⌉ and team2 ⌊k/2⌋ |
| `Engine.ScoresBounded` | frontend/src/components/Quiz.jsx:70-96 | in every valid state, the two scores together never exceed the number of questions |
| `Engine.Winner` | frontend/src/components/Quiz.jsx:100 | the winner's score is at least the other team's, and a tie goes to team2, so team1 wins only when strictly ahead |
| `Engine.WinningScore` | frontend/src/components/Quiz.jsx:101 | the posted score is the larger of the two scores |
| `Engine.WinningScoreIsWinners` | frontend/src/components/Quiz.jsx:100-101 | the posted score is the winning team's own score |
| `Engine.PostFor` | frontend/src/components/Quiz.jsx:100-102 | the leaderboard record carries the winner's name, the winner's members and the winning score |
| `Engine.EndGame` | frontend/src/components/Quiz.jsx:98-103 | sets the game over and appends exactly one record for the winner of the scores it is given; nothing else changes |
| `Engine.NextQuestion` | frontend/src/components/Quiz.jsx:88-96 | before the last question: index + 1, timer back to 10, the other team, no record; on the last question: game over with one record, index, timer and team unchanged; scores untouched; the state stays well-formed |
| `Engine.HandleAnswer` | frontend/src/components/Quiz.jsx:70-81 | a correct answer raises the answering team's score by exactly 1, a wrong one by 0, and the other team's score stays; the game ends iff this was the last question, and the record is then judged on the scores before this answer, and index and timer stay where they were; questions, team names and members never change; the state stays valid |
| `Engine.HandleTimeout` | frontend/src/components/Quiz.jsx:83-86 | advances like a wrong answer: no score changes, the game ends iff this was the last question (index and timer then stay, and the record is judged on the current scores); questions, team names and members never change |
| `Engine.Tick` | frontend/src/components/Quiz.jsx:33-40 | on an open question with time left, the timer drops by exactly 1; at 0 it times the question out; before the start or after the end nothing changes; the timer stays within 0..10 and never rises on the same question |
| `Engine.TeamsReady` | frontend/src/components/Quiz.jsx:119 | the truthiness test of `startGame`: it holds exactly when every team has a non-empty name and at least one member |
| `Engine.StartGame` | frontend/src/components/Quiz.jsx:118-124 | play starts iff both names and both member lists are non-empty; otherwise no field changes |
| `Engine.Apply` | frontend/src/components/Quiz.jsx:70-86 | dispatching an answer or a timeout keeps the state valid and leaves the questions, team names and members as they were |
| `Engine.Play` | frontend/src/components/Quiz.jsx:70-96 | any sequence of answers and timeouts keeps the state valid and the game started, and leaves the questions, team names and members as they were |
| `Engine.GameEndsAfterLastQuestion` | frontend/src/components/Quiz.jsx:88-103 | from an open question, the game is over iff at least as many events as remaining questions arrived, exactly one record is posted then and none before, the index advances by one per event until then, and the team on question i is team1 iff i is even |
| `Engine.PostCarriesSetupTeam` | frontend/src/components/Quiz.jsx:98-103 | whatever answers and timeouts arrive, the record posted at the end carries the name and the members of one team as they were entered at setup, paired as entered |
| `Engine.Ticks` | frontend/src/components/Quiz.jsx:33-40 | any number of countdown ticks keeps the state valid |
| `Engine.CountdownEndsInTimeout` | frontend/src/components/Quiz.jsx:33-40 | on an open question, `timeLeft` ticks bring the timer to exactly 0 and change nothing else, and one more tick is a timeout |
| `Engine.LastPointLeftOutOfPost` | frontend/src/components/Quiz.jsx:70-103 | when team1 answers the last question correctly at 0–0, the state holds 1–0 and the banner rule of line 192 names team1, yet the record posted names team2 with score 0 |
| `QuizComponent.Quiz.constructor` | frontend/src/components/Quiz.jsx:11-21 | the fields start at the initial `useState` values |
| `QuizComponent.Quiz.ReceiveQuestions` | frontend/src/components/Quiz.jsx:45 | the fetched batch is shuffled in place and that same arrangement is stored, so the array and `questions` agree afterwards; the stored questions are a permutation of the batch; nothing else changes |
| `QuizComponent.Quiz.SetTeamName` | frontend/src/components/Quiz.jsx:145 | sets one team's name and nothing else |
| `QuizComponent.Quiz.SetTeamMembers` | frontend/src/components/Quiz.jsx:150 | sets one team's member list and nothing else |
| `QuizComponent.Quiz.StartGame` | frontend/src/components/Quiz.jsx:118-124 | moves the fields as `Engine.StartGame` does and reports whether the game started, which happens iff both teams are ready |
| `QuizComponent.Quiz.ChooseOption` | frontend/src/components/Quiz.jsx:177 | a click on a button is `handleAnswer` of whether its 1-based index equals the current question's `correct_answer` |
| `QuizComponent.Quiz.HandleAnswer` | frontend/src/components/Quiz.jsx:70-81 | moves the fields as `Engine.HandleAnswer` does, keeping the closure's scores for `endGame` |
| `QuizComponent.Quiz.HandleTimeout` | frontend/src/components/Quiz.jsx:83-86 | moves the fields as `Engine.HandleTimeout` does |
| `QuizComponent.Quiz.NextQuestion` | frontend/src/components/Quiz.jsx:88-96 | moves the fields as `Engine.NextQuestion` does |
| `QuizComponent.Quiz.EndGame` | frontend/src/components/Quiz.jsx:98-103 | moves the fields as `Engine.EndGame` does |
| `QuizComponent.Quiz.AddScoreToLeaderboard` | frontend/src/components/Quiz.jsx:105-111 | records exactly one post with the given name, members and score; nothing else changes |
| `QuizComponent.Quiz.Tick` | frontend/src/components/Quiz.jsx:33-40 | moves the fields as `Engine.Tick` does |

## Left out

- The HTTP calls `fetchQuestions`, `fetchLeaderboard` and the request of `addScoreToLeaderboard` (`Quiz.jsx:42-58`, `:105-116`). They are asynchronous network I/O. A fetched batch enters the model through `ReceiveQuestions`, and a post is recorded in the `posted` field. The leaderboard list, its refresh after a post, and the logging of failures are not modelled.
- `backend/server.js`, `server.js` and `frontend/src/App.jsx`. They are HTTP routes over a database, a stub server and a static wrapper. None of them is part of this model.
- The `JSON.stringify`/`JSON.parse` round trip of member names. It is a library encoding that only matters for display.
- Audio cues, the mute toggle, the leaderboard toggle, animation and all rendering (`Quiz.jsx:22-26`, `:76`, `:78`, `:84`, `:133-222`). They have no effect on the game state. The rendering conditions appear only as the handlers' preconditions.
- The splitting of the members input on commas (`Quiz.jsx:150`). `SetTeamMembers` receives the list that results. One consequence is not captured: an input typed and then cleared splits into `[""]`, a one-member list, which `startGame` accepts.
- Timer scheduling (`setTimeout`/`clearTimeout`) and React's batching of updates. The model has one `Tick` per elapsed second and atomic handlers. The only batching effect it keeps is the stale `scores` read by `endGame`.
- `Math.random`. It is replaced by caller-supplied picks. For a batch of distinct questions, the model proves that the shuffle is a bijection from valid pick sequences onto arrangements. With repeated elements, different pick sequences can give the same arrangement. That uniform random draws give uniform picks is not modelled.
- Feedback.GetEmoji: it compares exact rationals, while the source uses floating-point division. The two agree for the question counts involved (a score of at most 10 over at most 10 questions), because 100 and 50 are then hit exactly and no rounding crosses them. Rounding for very large counts is not modelled.
