/**
 * Client methods that drive a fresh delegate through sequences of calls that
 * follow the delegate's unit tests and the back-action contract of
 * `BackHandler`, and state what each sequence yields.
 */
module DelegateScenarios {
  import opened Wrappers
  import opened ActivityDelegate
  import Leaderboard

  /** Resuming twice without a pause fails with an illegal-state error. */
  method ResumeTwice() returns (first: Outcome, second: Outcome)
    ensures first == Pass
    ensures second.IllegalState?
  {
    var delegate := new RxMvpActivityDelegate();
    first := delegate.OnResume();
    second := delegate.OnResume();
  }

  /** Pausing without a resume, and pausing twice, are both harmless and end idle. */
  method PauseIsIdempotent() returns (afterLonePause: Option<PresentationId>, afterSecondPause: Option<PresentationId>)
    ensures afterLonePause == None && afterSecondPause == None
  {
    var delegate := new RxMvpActivityDelegate();
    delegate.OnPause();
    afterLonePause := delegate.GetCurrentPresentation();
    var _ := delegate.OnResume();
    delegate.OnPause();
    delegate.OnPause();
    afterSecondPause := delegate.GetCurrentPresentation();
  }

  /** Task side effects happen only while resumed: none before, none after a pause, one after resuming again. */
  method TaskEffectsFollowLifecycle(event: string)
    returns (resumedAgain: Outcome, ghost whileIdle: seq<TaskEffect>, ghost whilePaused: seq<TaskEffect>, ghost all: seq<TaskEffect>)
    ensures resumedAgain == Pass
    ensures whileIdle == [] && whilePaused == []
    ensures all == [TaskEffect(1, event)]
  {
    var delegate := new RxMvpActivityDelegate();
    delegate.OnUpstreamEvent(event);
    whileIdle := delegate.effects;
    var _ := delegate.OnResume();
    delegate.OnPause();
    delegate.OnUpstreamEvent(event);
    whilePaused := delegate.effects;
    resumedAgain := delegate.OnResume();
    delegate.OnUpstreamEvent(event);
    all := delegate.effects;
  }

  /** Never resumed: whatever was emitted, a back press is unhandled and runs nothing. */
  method BackPressWhenNeverResumed(viewAction: BackAction, presentationAction: BackAction)
    returns (handled: bool, ghost ran: seq<BackAction>)
    ensures !handled && ran == []
  {
    var delegate := new RxMvpActivityDelegate();
    delegate.OnViewBackActionEmitted(Some(viewAction));
    delegate.OnPresentationBackActionEmitted(0, Some(presentationAction));
    handled := delegate.OnBackPressed();
    ran := delegate.executed;
  }

  /** Paused: actions emitted after the pause are not seen, and a back press is unhandled. */
  method BackPressWhenPaused(viewAction: BackAction, presentationAction: BackAction)
    returns (seen: (Option<BackAction>, Option<BackAction>), handled: bool, ghost ran: seq<BackAction>)
    ensures seen == (None, None)
    ensures !handled && ran == []
  {
    var delegate := new RxMvpActivityDelegate();
    var _ := delegate.OnResume();
    delegate.OnPause();
    delegate.OnViewBackActionEmitted(Some(viewAction));
    delegate.OnPresentationBackActionEmitted(0, Some(presentationAction));
    seen := (delegate.pendingViewBackAction, delegate.pendingPresentationBackAction);
    handled := delegate.OnBackPressed();
    ran := delegate.executed;
  }

  /** Resumed with nothing pending, or with only absent actions emitted: unhandled. */
  method BackPressWithNothingPending() returns (nothingEmitted: bool, absentEmitted: bool)
    ensures !nothingEmitted && !absentEmitted
  {
    var delegate := new RxMvpActivityDelegate();
    var _ := delegate.OnResume();
    nothingEmitted := delegate.OnBackPressed();
    delegate.OnViewBackActionEmitted(None);
    delegate.OnPresentationBackActionEmitted(0, None);
    absentEmitted := delegate.OnBackPressed();
  }

  /** Resumed with only a presentation action: it runs, once. */
  method BackPressRunsPresentationAction(presentationAction: BackAction)
    returns (first: bool, second: bool, ghost ran: seq<BackAction>)
    ensures first && !second
    ensures ran == [presentationAction]
  {
    var delegate := new RxMvpActivityDelegate();
    var _ := delegate.OnResume();
    delegate.OnPresentationBackActionEmitted(0, Some(presentationAction));
    first := delegate.OnBackPressed();
    second := delegate.OnBackPressed();
    ran := delegate.executed;
  }

  /** Resumed with only a view action: it runs, once. */
  method BackPressRunsViewActionOnce(viewAction: BackAction)
    returns (first: bool, second: bool, ghost ran: seq<BackAction>)
    ensures first && !second
    ensures ran == [viewAction]
  {
    var delegate := new RxMvpActivityDelegate();
    var _ := delegate.OnResume();
    delegate.OnViewBackActionEmitted(Some(viewAction));
    first := delegate.OnBackPressed();
    second := delegate.OnBackPressed();
    ran := delegate.executed;
  }

  /** Both pending: the view's runs first and the presentation's stays pending; a second press runs it. */
  method ViewTakesPriority(viewAction: BackAction, presentationAction: BackAction)
    returns (first: bool, leftPending: Option<BackAction>, second: bool, third: bool, ghost ran: seq<BackAction>)
    ensures first && leftPending == Some(presentationAction)
    ensures second && !third
    ensures ran == [viewAction, presentationAction]
  {
    var delegate := new RxMvpActivityDelegate();
    var _ := delegate.OnResume();
    delegate.OnViewBackActionEmitted(Some(viewAction));
    delegate.OnPresentationBackActionEmitted(0, Some(presentationAction));
    first := delegate.OnBackPressed();
    leftPending := delegate.pendingPresentationBackAction;
    second := delegate.OnBackPressed();
    third := delegate.OnBackPressed();
    ran := delegate.executed;
  }

  /** Latest emission wins, and an absent emission clears the slot. */
  method LatestEmissionWins(older: BackAction, newer: BackAction)
    returns (replaced: bool, cleared: bool, ghost ran: seq<BackAction>)
    ensures replaced && !cleared
    ensures ran == [newer]
  {
    var delegate := new RxMvpActivityDelegate();
    var _ := delegate.OnResume();
    delegate.OnViewBackActionEmitted(Some(older));
    delegate.OnViewBackActionEmitted(Some(newer));
    replaced := delegate.OnBackPressed();
    delegate.OnPresentationBackActionEmitted(0, Some(older));
    delegate.OnPresentationBackActionEmitted(0, None);
    cleared := delegate.OnBackPressed();
    ran := delegate.executed;
  }

  /** After pause and resume, a new presentation is current and emissions are seen again. */
  method BackPressAfterPauseAndResume(viewAction: BackAction, presentationAction: BackAction)
    returns (current: Option<PresentationId>, staleSeen: Option<BackAction>,
             first: bool, second: bool, ghost ran: seq<BackAction>)
    ensures current == Some(1)
    ensures staleSeen == None
    ensures first && second
    ensures ran == [viewAction, presentationAction]
  {
    var delegate := new RxMvpActivityDelegate();
    var _ := delegate.OnResume();
    delegate.OnPause();
    var _ := delegate.OnResume();
    current := delegate.GetCurrentPresentation();
    delegate.OnPresentationBackActionEmitted(0, Some(viewAction));
    staleSeen := delegate.pendingPresentationBackAction;
    delegate.OnViewBackActionEmitted(Some(viewAction));
    delegate.OnPresentationBackActionEmitted(1, Some(presentationAction));
    first := delegate.OnBackPressed();
    second := delegate.OnBackPressed();
    ran := delegate.executed;
  }

  /** The slot value after a stream of emissions: the last one, or the old value if there were none. */
  function Latest(current: Option<BackAction>, emissions: seq<Option<BackAction>>): (r: Option<BackAction>) {
    if emissions == [] then current else emissions[|emissions| - 1]
  }

  /** Delivers a presentation's pending-action stream, one emission after another. */
  method DeliverPresentationBackActions(
    delegate: RxMvpActivityDelegate, source: PresentationId, emissions: seq<Option<BackAction>>)
    requires delegate.Valid()
    modifies delegate
    ensures delegate.Valid()
    ensures delegate.pendingPresentationBackAction ==
              if old(delegate.currentTasks) == Some(Subscription(source))
              then Latest(old(delegate.pendingPresentationBackAction), emissions)
              else old(delegate.pendingPresentationBackAction)
    ensures delegate.pendingViewBackAction == old(delegate.pendingViewBackAction)
    ensures delegate.currentPresentation == old(delegate.currentPresentation)
    ensures delegate.currentTasks == old(delegate.currentTasks)
    ensures delegate.executed == old(delegate.executed) && delegate.effects == old(delegate.effects)
    ensures delegate.disposed == old(delegate.disposed)
    ensures delegate.createdPresentations == old(delegate.createdPresentations)
  {
    for i := 0 to |emissions|
      invariant delegate.Valid()
      invariant delegate.pendingPresentationBackAction ==
                  if old(delegate.currentTasks) == Some(Subscription(source))
                  then Latest(old(delegate.pendingPresentationBackAction), emissions[..i])
                  else old(delegate.pendingPresentationBackAction)
      invariant delegate.pendingViewBackAction == old(delegate.pendingViewBackAction)
      invariant delegate.currentPresentation == old(delegate.currentPresentation)
      invariant delegate.currentTasks == old(delegate.currentTasks)
      invariant delegate.executed == old(delegate.executed) && delegate.effects == old(delegate.effects)
      invariant delegate.disposed == old(delegate.disposed)
      invariant delegate.createdPresentations == old(delegate.createdPresentations)
    {
      delegate.OnPresentationBackActionEmitted(source, emissions[i]);
      assert emissions[..i + 1][i] == emissions[i];
    }
    assert emissions[..|emissions|] == emissions;
  }

  /**
   * With the leaderboard presentation, whose pending-action stream never
   * emits, a back press is left to the view; with no view action it is
   * unhandled.
   */
  method LeaderboardLeavesBackToView() returns (handled: bool)
    ensures !handled
  {
    var delegate := new RxMvpActivityDelegate();
    var _ := delegate.OnResume();
    var presentation := delegate.GetCurrentPresentation();
    DeliverPresentationBackActions(delegate, presentation.value, Leaderboard.PendingBackActions);
    handled := delegate.OnBackPressed();
  }
}
