/**
 * The activity lifecycle delegate: a two-state machine (idle / resumed)
 * that starts and stops a presentation's task subscription and arbitrates
 * back presses between the view's and the presentation's pending back
 * actions, the view first.
 */
module ActivityDelegate {
  import opened Wrappers

  /** A pending back action (a Completable in the source), known only by identity. */
  type BackAction = nat

  /** A presentation, identified by the order in which the presenter created it. */
  type PresentationId = nat

  /** The disposable handle of the merged stream started for one presentation. */
  datatype Subscription = Subscription(presentation: PresentationId)

  /** An observable side effect a presentation's tasks performed in response to an upstream event. */
  datatype TaskEffect = TaskEffect(presentation: PresentationId, event: string)

  /** The outcome of onResume; IllegalState stands for the IllegalStateException it throws. */
  datatype Outcome = Pass | IllegalState(message: string)

  class RxMvpActivityDelegate {
    var currentPresentation: Option<PresentationId>
    var currentTasks: Option<Subscription>
    var pendingViewBackAction: Option<BackAction>
    var pendingPresentationBackAction: Option<BackAction>
    /** How many presentations the presenter has created; the next one gets this id. */
    var createdPresentations: nat
    /** The back actions run so far, in order. */
    ghost var executed: seq<BackAction>
    /** The side effects the presentations' tasks performed so far, in order. */
    ghost var effects: seq<TaskEffect>
    /** The subscriptions disposed so far, in order. */
    ghost var disposed: seq<Subscription>

    ghost predicate Valid()
      reads this
    {
      && (currentPresentation.Some? <==> currentTasks.Some?)
      && (currentTasks.Some? ==>
            && currentTasks.value.presentation == currentPresentation.value
            && currentPresentation.value < createdPresentations
            && forall i :: 0 <= i < |disposed| ==> disposed[i].presentation < currentPresentation.value)
      && (forall i :: 0 <= i < |disposed| ==> disposed[i].presentation < createdPresentations)
      && (forall i, j :: 0 <= i < j < |disposed| ==> disposed[i].presentation < disposed[j].presentation)
      && (forall i :: 0 <= i < |effects| ==> effects[i].presentation < createdPresentations)
    }

    /** Resumed exactly when a presentation is in progress. */
    ghost predicate Resumed()
      reads this
    {
      currentPresentation.Some?
    }

    constructor ()
      ensures Valid() && !Resumed()
      ensures currentTasks == None
      ensures pendingViewBackAction == None && pendingPresentationBackAction == None
      ensures createdPresentations == 0
      ensures executed == [] && effects == [] && disposed == []
    {
      currentPresentation := None;
      currentTasks := None;
      pendingViewBackAction := None;
      pendingPresentationBackAction := None;
      createdPresentations := 0;
      executed := [];
      effects := [];
      disposed := [];
    }

    /**
     * onResume: fails when a presentation or a subscription already exists;
     * otherwise asks the presenter for a new presentation and subscribes to
     * its tasks merged with both back-action streams.
     */
    method OnResume() returns (outcome: Outcome)
      requires Valid()
      modifies this
      ensures Valid()
      ensures old(currentPresentation.Some? || currentTasks.Some?) ==>
                outcome == IllegalState("Attempted to resume from resumed state.") && unchanged(this)
      ensures old(currentPresentation.None? && currentTasks.None?) ==>
                && outcome == Pass
                && currentPresentation == Some(old(createdPresentations))
                && currentTasks == Some(Subscription(old(createdPresentations)))
                && createdPresentations == old(createdPresentations) + 1
                && pendingViewBackAction == old(pendingViewBackAction)
                && pendingPresentationBackAction == old(pendingPresentationBackAction)
                && executed == old(executed) && effects == old(effects) && disposed == old(disposed)
    {
      if currentPresentation.Some? || currentTasks.Some? {
        return IllegalState("Attempted to resume from resumed state.");
      }
      var presentation := createdPresentations;
      createdPresentations := createdPresentations + 1;
      currentPresentation := Some(presentation);
      currentTasks := Some(Subscription(presentation));
      outcome := Pass;
    }

    /**
     * onPause: total. Drops the presentation, disposes the live subscription
     * if there is one, and leaves both pending back actions as they are.
     */
    method OnPause()
      requires Valid()
      modifies this
      ensures Valid() && !Resumed()
      ensures currentTasks == None
      ensures disposed == old(disposed) + if old(currentTasks).Some? then [old(currentTasks).value] else []
      ensures pendingViewBackAction == old(pendingViewBackAction)
      ensures pendingPresentationBackAction == old(pendingPresentationBackAction)
      ensures createdPresentations == old(createdPresentations)
      ensures executed == old(executed) && effects == old(effects)
    {
      if currentPresentation.Some? {
        currentPresentation := None;
      }
      if currentTasks.Some? {
        disposed := disposed + [currentTasks.value];
        currentTasks := None;
      }
    }

    /**
     * onBackPressed: while resumed, runs and clears the view's pending action
     * if there is one, else the presentation's; reports whether one ran.
     */
    method OnBackPressed() returns (handled: bool)
      requires Valid()
      modifies this
      ensures Valid()
      ensures handled <==>
                old(Resumed()) && (old(pendingViewBackAction).Some? || old(pendingPresentationBackAction).Some?)
      ensures !handled ==> unchanged(this)
      ensures handled && old(pendingViewBackAction).Some? ==>
                && executed == old(executed) + [old(pendingViewBackAction).value]
                && pendingViewBackAction == None
                && pendingPresentationBackAction == old(pendingPresentationBackAction)
      ensures handled && old(pendingViewBackAction).None? ==>
                && executed == old(executed) + [old(pendingPresentationBackAction).value]
                && pendingViewBackAction == None
                && pendingPresentationBackAction == None
      ensures currentPresentation == old(currentPresentation) && currentTasks == old(currentTasks)
      ensures createdPresentations == old(createdPresentations)
      ensures effects == old(effects) && disposed == old(disposed)
    {
      if currentPresentation.None? {
        return false;
      }
      var viewAction := pendingViewBackAction;
      var presentationAction := pendingPresentationBackAction;
      if viewAction.Some? {
        pendingViewBackAction := None;
        executed := executed + [viewAction.value];
        handled := true;
      } else if presentationAction.Some? {
        pendingPresentationBackAction := None;
        executed := executed + [presentationAction.value];
        handled := true;
      } else {
        handled := false;
      }
    }

    /** getCurrentPresentation: present exactly while resumed, i.e. while its task stream is subscribed. */
    function GetCurrentPresentation(): (presentation: Option<PresentationId>)
      reads this
      requires Valid()
      ensures presentation.Some? <==> currentTasks.Some?
      ensures presentation.Some? ==> currentTasks == Some(Subscription(presentation.value))
    {
      currentPresentation
    }

    /**
     * The view's pending-action stream emits `action`; only a live
     * subscription sees it, and it replaces the view slot wholesale.
     */
    method OnViewBackActionEmitted(action: Option<BackAction>)
      requires Valid()
      modifies this
      ensures Valid()
      ensures pendingViewBackAction == if old(currentTasks).Some? then action else old(pendingViewBackAction)
      ensures pendingPresentationBackAction == old(pendingPresentationBackAction)
      ensures currentPresentation == old(currentPresentation) && currentTasks == old(currentTasks)
      ensures createdPresentations == old(createdPresentations)
      ensures executed == old(executed) && effects == old(effects) && disposed == old(disposed)
    {
      if currentTasks.Some? {
        pendingViewBackAction := action;
      }
    }

    /**
     * Presentation `source` emits `action` on its pending-action stream;
     * only the subscription started for that presentation sees it, while it
     * is live, and it replaces the presentation slot wholesale.
     */
    method OnPresentationBackActionEmitted(source: PresentationId, action: Option<BackAction>)
      requires Valid()
      modifies this
      ensures Valid()
      ensures pendingPresentationBackAction ==
                if old(currentTasks) == Some(Subscription(source)) then action
                else old(pendingPresentationBackAction)
      ensures pendingViewBackAction == old(pendingViewBackAction)
      ensures currentPresentation == old(currentPresentation) && currentTasks == old(currentTasks)
      ensures createdPresentations == old(createdPresentations)
      ensures executed == old(executed) && effects == old(effects) && disposed == old(disposed)
    {
      if currentTasks == Some(Subscription(source)) {
        pendingPresentationBackAction := action;
      }
    }

    /**
     * An upstream event that presentation tasks react to (the test's label
     * stream): only the live subscription's tasks perform their effect.
     */
    method OnUpstreamEvent(event: string)
      requires Valid()
      modifies this
      ensures Valid()
      ensures effects == old(effects) +
                if old(currentTasks).Some? then [TaskEffect(old(currentTasks).value.presentation, event)] else []
      ensures currentPresentation == old(currentPresentation) && currentTasks == old(currentTasks)
      ensures pendingViewBackAction == old(pendingViewBackAction)
      ensures pendingPresentationBackAction == old(pendingPresentationBackAction)
      ensures createdPresentations == old(createdPresentations)
      ensures executed == old(executed) && disposed == old(disposed)
    {
      if currentTasks.Some? {
        effects := effects + [TaskEffect(currentTasks.value.presentation, event)];
      }
    }
  }
}
