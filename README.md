# RxMvpAndroid core, modelled in Dafny

RxMvpAndroid is a small Model-View-Presenter library for Android plus an
example leaderboard screen. This project models three pieces of it.

- **The activity lifecycle delegate** (`RxMvpActivityDelegate`). It is a
  two-state machine, idle or resumed. `onResume` creates a presentation and
  subscribes to its tasks merged with the view's and the presentation's
  pending-back-action streams. `onPause` disposes that subscription.
  `onBackPressed` runs and clears the view's pending action if there is one,
  else the presentation's, else reports the press as unhandled.
  Module `ActivityDelegate`, file `activity_delegate.dfy`. Client methods in
  `delegate_scenarios.dfy` follow the delegate's unit tests and the
  back-action contract of `BackHandler.java`, and state their outcomes.
- **The leaderboard presenter** (`LeaderboardPresenter`). It ranks the
  repository's players by descending high score and maps them to view models
  (name plus score as decimal text). It maps delete requests back to players
  with `Integer.parseInt`. Module `Leaderboard`, file `leaderboard.dfy`.
  `Integer.toString` and `Integer.parseInt` are modelled in module `Integers`
  (`integers.dfy`).
- **The in-memory player repository** (`InMemoryPlayerRepository`). It is a
  mutable set of players that starts with nine fixed entries. It only shrinks,
  and it sends one update pulse per removal. Module `Repository`, file
  `repository.dfy`. `Player` (module `Players`) is a datatype compared by
  value, as AutoValue's generated `equals` compares both fields.

Back actions are opaque ids. Running one appends its id to the delegate's
ghost log `executed`. The effects that presentation tasks perform (the
tests' `saveText` calls) go to the ghost log `effects`. Disposed
subscriptions go to `disposed`. The presenter's `createPresentation` is a
counter, so every resume gets a presentation id never used before.

`onPause` keeps both pending back actions (RxMvpActivityDelegate.java:98-107),
and so does `OnPause`. An action emitted before a pause is therefore still
pending after the next resume.

## Model

| member | source | states |
|---|---|---|
| `ActivityDelegate.RxMvpActivityDelegate.constructor` | library-components/src/main/java/com/matthewtamlin/rxmvpandroid/RxMvpActivityDelegate.java:68-71 | A new delegate is idle, with no subscription, both pending slots empty and all logs empty. |
| `ActivityDelegate.RxMvpActivityDelegate.OnResume` | library-components/src/main/java/com/matthewtamlin/rxmvpandroid/RxMvpActivityDelegate.java:79-92 | If a presentation or a subscription exists, the call fails with the illegal-state error and nothing changes. Otherwise the delegate holds a never-before-used presentation and a live subscription for it, and the slots and logs are untouched. The validity invariant (presentation present iff subscription present) is kept. |
| `ActivityDelegate.RxMvpActivityDelegate.OnPause` | library-components/src/main/java/com/matthewtamlin/rxmvpandroid/RxMvpActivityDelegate.java:98-107 | Never fails and always ends idle with neither presentation nor subscription. The live subscription, if any, is disposed exactly once. Both pending slots are left as they were. |
| `ActivityDelegate.RxMvpActivityDelegate.OnBackPressed` | library-components/src/main/java/com/matthewtamlin/rxmvpandroid/RxMvpActivityDelegate.java:115-138 | Handled iff resumed and some slot is filled. A filled view slot runs its action exactly once and clears only that slot. Otherwise a filled presentation slot runs and is cleared. When unhandled, nothing changes. |
| `ActivityDelegate.RxMvpActivityDelegate.GetCurrentPresentation` | library-components/src/main/java/com/matthewtamlin/rxmvpandroid/RxMvpActivityDelegate.java:144-146 | Present exactly when the task subscription is live, and then it is the presentation that subscription was started for. |
| `ActivityDelegate.RxMvpActivityDelegate.OnViewBackActionEmitted` | library-components/src/main/java/com/matthewtamlin/rxmvpandroid/RxMvpActivityDelegate.java:149-154 | While subscribed, an emission replaces the view slot wholesale, and an absent one clears it. While idle it changes nothing. |
| `ActivityDelegate.RxMvpActivityDelegate.OnPresentationBackActionEmitted` | library-components/src/main/java/com/matthewtamlin/rxmvpandroid/RxMvpActivityDelegate.java:157-162 | Only the live subscription of the emitting presentation sees an emission. It replaces the presentation slot wholesale. |
| `ActivityDelegate.RxMvpActivityDelegate.OnUpstreamEvent` | library-components/src/main/java/com/matthewtamlin/rxmvpandroid/RxMvpActivityDelegate.java:86-91 | A presentation task's side effect is recorded only while its subscription is live, tagged with that presentation. |
| `DelegateScenarios.ResumeTwice` | library-components/src/test/java/com/matthewtamlin/rxmvpandroid/TestRxMvpActivityDelegate.java:61-65 | The first resume passes and the second fails with the illegal-state error. |
| `DelegateScenarios.PauseIsIdempotent` | library-components/src/test/java/com/matthewtamlin/rxmvpandroid/TestRxMvpActivityDelegate.java:67-77 | A pause without a resume, and a double pause, both leave no current presentation. |
| `DelegateScenarios.TaskEffectsFollowLifecycle` | library-components/src/test/java/com/matthewtamlin/rxmvpandroid/TestRxMvpActivityDelegate.java:79-112 | No task effect happens before the first resume or after a pause. After a second resume an event causes exactly one effect, by the second presentation. |
| `DelegateScenarios.BackPressWhenNeverResumed` | library-components/src/test/java/com/matthewtamlin/rxmvpandroid/TestRxMvpActivityDelegate.java:114-194 | Never resumed: whatever was emitted, a press is unhandled and runs nothing. |
| `DelegateScenarios.BackPressWhenPaused` | library-components/src/test/java/com/matthewtamlin/rxmvpandroid/TestRxMvpActivityDelegate.java:307-409 | After a pause, actions emitted by the view and by the old presentation are not seen: both slots are still empty (`seen`). A press is then unhandled and nothing runs. |
| `DelegateScenarios.BackPressWithNothingPending` | library-components/src/test/java/com/matthewtamlin/rxmvpandroid/TestRxMvpActivityDelegate.java:196-246 | Resumed with nothing emitted, or with only absent actions emitted: the press is unhandled. |
| `DelegateScenarios.BackPressRunsPresentationAction` | library-components/src/test/java/com/matthewtamlin/rxmvpandroid/TestRxMvpActivityDelegate.java:555-572 | The presentation's action runs on the first press and not again: the second press is unhandled. |
| `DelegateScenarios.BackPressRunsViewActionOnce` | library-components/src/test/java/com/matthewtamlin/rxmvpandroid/TestRxMvpActivityDelegate.java:536-553 | The view's action runs exactly once, and the second press is unhandled. |
| `DelegateScenarios.ViewTakesPriority` | library-components/src/test/java/com/matthewtamlin/rxmvpandroid/TestRxMvpActivityDelegate.java:282-305 | With both slots filled, the first press runs only the view action and leaves the presentation action pending. The second press runs the presentation action and the third is unhandled. |
| `DelegateScenarios.LatestEmissionWins` | library-components/src/main/java/com/matthewtamlin/rxmvpandroid/BackHandler.java:30-33 | Of two emissions only the later one runs. An absent emission after a present one leaves nothing to run. |
| `DelegateScenarios.BackPressAfterPauseAndResume` | library-components/src/test/java/com/matthewtamlin/rxmvpandroid/TestRxMvpActivityDelegate.java:456-519 | After pause and resume a new presentation is current. An emission from the old presentation is ignored: the presentation slot is still empty right after it (`staleSeen`). The new presentation's and the view's emissions are handled, the view's first. |
| `DelegateScenarios.DeliverPresentationBackActions` | library-components/src/main/java/com/matthewtamlin/rxmvpandroid/RxMvpActivityDelegate.java:157-162 | Delivering a whole stream of emissions leaves the last one in the presentation slot, or the old value if the stream is empty or not subscribed. |
| `DelegateScenarios.LeaderboardLeavesBackToView` | example/src/main/java/com/matthewtamlin/rxmvpandroid/example/presentation/LeaderboardPresenter.java:39-43 | The leaderboard presentation's pending-action stream (`Leaderboard.PendingBackActions`, the empty sequence standing for `Observable.never()`) emits nothing, so with no view action a press is unhandled. |
| `Integers.NatToString` | example/src/main/java/com/matthewtamlin/rxmvpandroid/example/presentation/LeaderboardPresenter.java:64 | The digits of a natural number are non-empty ASCII digits with no leading zero, and start with '0' only for zero. |
| `Integers.ToString` | example/src/main/java/com/matthewtamlin/rxmvpandroid/example/presentation/LeaderboardPresenter.java:64 | `Integer.toString` gives the canonical form, with a leading '-' exactly for negative values. |
| `Integers.ParseInt` | example/src/main/java/com/matthewtamlin/rxmvpandroid/example/presentation/LeaderboardPresenter.java:68 | `Integer.parseInt` accepts only non-empty strings, and a negative result needs a leading '-'. |
| `Integers.ParseToString` | example/src/main/java/com/matthewtamlin/rxmvpandroid/example/presentation/LeaderboardPresenter.java:63-69 | For every 32-bit int n, parseInt(toString(n)) == n. |
| `Integers.ParseRejectsOutOfRange` | example/src/main/java/com/matthewtamlin/rxmvpandroid/example/presentation/LeaderboardPresenter.java:68 | A value outside the int range is rejected even when written canonically. |
| `Integers.ToStringParse` | example/src/main/java/com/matthewtamlin/rxmvpandroid/example/presentation/LeaderboardPresenter.java:63-69 | For every canonical string that parseInt accepts, toString(parseInt(s)) == s. |
| `Integers.ToStringIff` | example/src/main/java/com/matthewtamlin/rxmvpandroid/example/presentation/LeaderboardPresenter.java:63-69 | toString(n) == s exactly when s is canonical and parses to n. |
| `Leaderboard.ToViewModel` | example/src/main/java/com/matthewtamlin/rxmvpandroid/example/presentation/LeaderboardPresenter.java:63-65 | The view model keeps the name. Its score is a canonical decimal string, negative exactly when the score is. |
| `Leaderboard.ToDataModel` | example/src/main/java/com/matthewtamlin/rxmvpandroid/example/presentation/LeaderboardPresenter.java:67-69 | A player results exactly when parseInt accepts the score text, and it keeps the name. |
| `Leaderboard.ViewModelRoundTrip` | example/src/main/java/com/matthewtamlin/rxmvpandroid/example/presentation/LeaderboardPresenter.java:63-69 | toDataModel(toViewModel(p)) == p for every player. |
| `Leaderboard.DataModelRoundTrip` | example/src/main/java/com/matthewtamlin/rxmvpandroid/example/presentation/LeaderboardPresenter.java:63-69 | toViewModel(toDataModel(vm)) == vm for every view model whose score text is canonical and parses. |
| `Leaderboard.ToViewModelInjective` | example/src/main/java/com/matthewtamlin/rxmvpandroid/example/presentation/LeaderboardPresenter.java:63-65 | Two players have the same view model iff they are the same player. |
| `Leaderboard.InsertByHighscore` | example/src/main/java/com/matthewtamlin/rxmvpandroid/example/presentation/LeaderboardPresenter.java:50 | Inserting into a list ordered by descending score keeps it ordered and adds exactly that player. |
| `Leaderboard.SortByHighscore` | example/src/main/java/com/matthewtamlin/rxmvpandroid/example/presentation/LeaderboardPresenter.java:48-50 | The result is ordered by non-increasing score and is a permutation of the input. |
| `Leaderboard.SortIsStable` | example/src/main/java/com/matthewtamlin/rxmvpandroid/example/presentation/LeaderboardPresenter.java:48-50 | The sort is stable: for every score, the players with that score appear in the output in the same order as in the input, as `Observable.sorted` gives by sorting a list with the JDK's stable sort. |
| `Leaderboard.ToViewModels` | example/src/main/java/com/matthewtamlin/rxmvpandroid/example/presentation/LeaderboardPresenter.java:51-52 | One view model per player, in the same order. |
| `Leaderboard.ToViewModelsCount` | example/src/main/java/com/matthewtamlin/rxmvpandroid/example/presentation/LeaderboardPresenter.java:51-52 | A player's view model occurs in the mapped list as often as the player occurs in the input. |
| `Leaderboard.PlayersToDisplay` | example/src/main/java/com/matthewtamlin/rxmvpandroid/example/presentation/LeaderboardPresenter.java:46-53 | The list passed to setPlayers has one row per player of the emitted set. Each player's view model occurs exactly once, every row maps back to a player of the set, and the rows are ordered by non-increasing score. |
| `Leaderboard.DisplayPlayers` | example/src/main/java/com/matthewtamlin/rxmvpandroid/example/presentation/LeaderboardPresenter.java:45-54 | Each emission of the repository's set yields exactly one setPlayers call, in order. That call shows each player of the emitted set exactly once, highest score first. |
| `Leaderboard.DeletePlayers` | example/src/main/java/com/matthewtamlin/rxmvpandroid/example/presentation/LeaderboardPresenter.java:56-61 | Each delete request up to the first malformed one yields exactly one removal, of toDataModel of that request. A malformed request ends the stream. |
| `Leaderboard.DeleteDisplayedPlayers` | example/src/main/java/com/matthewtamlin/rxmvpandroid/example/presentation/LeaderboardPresenter.java:56-65 | Delete requests for displayed rows remove exactly the players those rows show, in order. |
| `Leaderboard.DeletePlayer` | example/src/main/java/com/matthewtamlin/rxmvpandroid/example/presentation/LeaderboardPresenter.java:56-61 | One delete request makes exactly one removePlayer(toDataModel(vm)) call when the score parses, and none otherwise. |
| `Leaderboard.DeleteDisplayedSpy` | example/src/main/java/com/matthewtamlin/rxmvpandroid/example/presentation/LeaderboardPresenter.java:56-61 | Deleting Spy's displayed row removes Spy and leaves the other eight players. |
| `Repository.InitialPlayersDistinctNames` | example/src/main/java/com/matthewtamlin/rxmvpandroid/example/data/InMemoryPlayerRepository.java:18-27 | The initial roster has nine players with pairwise distinct names. |
| `Repository.SizeNeverIncreases` | example/src/main/java/com/matthewtamlin/rxmvpandroid/example/data/InMemoryPlayerRepository.java:31-50 | In a history where each snapshot is a subset of the one before, every snapshot is a subset of the first and no larger. |
| `Repository.InMemoryPlayerRepository.constructor` | example/src/main/java/com/matthewtamlin/rxmvpandroid/example/data/InMemoryPlayerRepository.java:33-36 | After construction the store holds exactly the nine initial players, and no update has been sent. |
| `Repository.InMemoryPlayerRepository.Observed` | example/src/main/java/com/matthewtamlin/rxmvpandroid/example/data/InMemoryPlayerRepository.java:38-43 | A subscriber gets the contents once on subscription and once per later update. The first emission is the contents at subscription time and the last is the current contents. |
| `Repository.InMemoryPlayerRepository.RemovePlayer` | example/src/main/java/com/matthewtamlin/rxmvpandroid/example/data/InMemoryPlayerRepository.java:45-50 | The new contents are the old contents minus the player, compared by value, so every other player is untouched. Exactly one update is sent, and it carries the new contents. |
| `Repository.InMemoryPlayerRepository.NeverGrows` | example/src/main/java/com/matthewtamlin/rxmvpandroid/example/data/InMemoryPlayerRepository.java:31-50 | The store is always a subset of the initial players and never larger than nine. |
| `Repository.RemoveSpyByValue` | example/src/main/java/com/matthewtamlin/rxmvpandroid/example/data/InMemoryPlayerRepository.java:46-49 | Removing ("Spy", 1) changes nothing. Removing ("Spy", 250) removes Spy and leaves eight players. |

## Left out

- Reactive-stream machinery (merging, `flatMapCompletable`, `subscribe`/`dispose`, `blockingAwait`, subjects, `startWith`) is not modelled as such. A subscription is a `Subscription` value, and each stream emission is a method call.
- Emissions that a stream might deliver synchronously during `onResume`'s subscribe (for example a stream that replays its latest value) are not modelled. Every emission is a separate call after the resume.
- Back actions are assumed to complete normally. An exception propagating out of `blockingAwait`, and an action that itself emits new pending actions, are not modelled.
- `RxMvpActivity.java` only forwards lifecycle calls, and falls back to the platform's back handling when the delegate reports unhandled (RxMvpActivity.java:74-95). `LeaderboardActivity.java` sets the layout and builds the view, the repository and the presenter (LeaderboardActivity.java:23-33). Neither is part of this model.
- `RecyclerLeaderboardView.java` (list adapter, view binding, `DiffUtil`) is not part of this model.
- `checkNotNull` on the constructor arguments of the delegate and the presenter, and null names in `Player`, have no counterpart in the model: its values are never null.
- The iteration order of the repository's `HashSet` is unspecified in the source. It is an input (`iteration`) that lists every player of the set once. The order among players with equal scores therefore follows that input.
- `observePlayers` emits the live `HashSet` object itself. The model emits a snapshot of its value at emission time, so later aliasing through that object is not captured.
- `Integers.ParseInt`: accepts ASCII digits only, whereas `Integer.parseInt` also accepts other Unicode decimal digits through `Character.digit`.
- `Leaderboard.DeletePlayers`: a malformed delete request ends the stream; the error then reaching the subscriber, which has no error handler, is not modelled.
- The delegate's unit tests use an older two-type-parameter API (`createOngoingPresentationTasks`). The model follows `RxMvpActivityDelegate.java` (`createPresentation`, `getTasks`) and uses the tests only as behavioural evidence.
- Threading is not modelled. All calls run on the UI thread in sequence.
