/** The API client's runtime, updated in place and held to ApiModel step by step. */
module ApiClient {
  import opened ApiModel
  import opened Prelude
  import opened Scheduler

  class ApiRuntime {
    const eventQueue: EventQueue
    var pendingStartRecipeId: Option<string>
    var failCount: nat

    ghost function Value(): Api reads this, eventQueue {
      Api(eventQueue.schedule, pendingStartRecipeId, failCount)
    }

    ghost predicate Valid() reads this, eventQueue {
      eventQueue.Valid() && Settled(Value())
    }

    constructor (now: nat)
      ensures Valid() && Value() == Initial(now) && fresh(eventQueue)
    {
      eventQueue := new EventQueue();
      pendingStartRecipeId, failCount := None, 0;
      new;
      InitialSchedule(now);
      Schedule(PollStatus, now);
      Schedule(PollCurrentCook, now + 250);
      Schedule(PollRecipes, now + 500);
    }

    /** Enqueue, dropping the event on overflow, which never happens. */
    method Schedule(kind: EventKind, at: nat)
      requires eventQueue.Valid()
      modifies eventQueue
      ensures eventQueue.Valid() && eventQueue.schedule == Sooner(old(eventQueue.schedule), kind, at)
    {
      var _ := eventQueue.Enqueue(kind, at, PreferEarlier);
    }

    method QueuePostActionRefresh(now: nat)
      requires eventQueue.Valid()
      modifies eventQueue
      ensures eventQueue.Valid() && eventQueue.schedule == PostActionRefresh(old(eventQueue.schedule), now)
    {
      Schedule(PollStatus, now + POST_ACTION_COOK_REFRESH_DELAY);
      Schedule(PollCurrentCook, now + POST_ACTION_COOK_REFRESH_DELAY);
    }

    method PollActionInFlight() returns (b: bool)
      requires eventQueue.Valid()
      ensures b == ActionInFlight(Value())
    {
      if pendingStartRecipeId.Some? {
        return true;
      }
      b := eventQueue.HasPending(ApiStart);
      if !b {
        b := eventQueue.HasPending(ApiStop);
      }
      if !b {
        b := eventQueue.HasPending(ApiNextStage);
      }
    }

    method HandleCommand(command: ApiCommand, now: nat)
      requires Valid()
      modifies this, eventQueue
      ensures Valid() && Value() == Commanded(old(Value()), command, now)
    {
      NextSettled(Value(), Arrive(command, now), Commanded(Value(), command, now));
      match command {
        case Start(recipeId) =>
          pendingStartRecipeId := Some(recipeId);
          Schedule(ApiStart, now);
        case Stop =>
          Schedule(ApiStop, now);
          QueuePostActionRefresh(now);
        case NextStage =>
          Schedule(ApiNextStage, now);
          QueuePostActionRefresh(now);
      }
    }

    /** The staged recipe is taken and posted. */
    method HandleApiStart(end: nat) returns (sent: Option<Request>)
      requires eventQueue.Valid()
      modifies this, eventQueue
      ensures eventQueue.Valid() && Value() == Handled(old(Value()), ApiStart, Answered, end)
      ensures sent == RequestOf(old(Value()), ApiStart)
    {
      if pendingStartRecipeId.None? {
        return None;
      }
      sent := Some(PostStart(pendingStartRecipeId.value));
      pendingStartRecipeId := None;
      Schedule(PollStatus, end + POST_ACTION_COOK_REFRESH_DELAY);
      Schedule(PollCurrentCook, end + POST_START_CURRENT_COOK_REFRESH_DELAY);
    }

    method HandlePollStatus(outcome: Outcome, end: nat) returns (sent: Option<Request>)
      requires eventQueue.Valid()
      modifies this, eventQueue
      ensures eventQueue.Valid() && Value() == Handled(old(Value()), PollStatus, outcome, end)
      ensures sent == RequestOf(old(Value()), PollStatus)
    {
      var busy := PollActionInFlight();
      if busy {
        Schedule(PollStatus, end + POST_ACTION_COOK_REFRESH_DELAY);
        return None;
      }
      sent := Some(GetStatus);
      match outcome {
        case Answered => failCount := 0;
        case NoOven => failCount := 0;
        case _ => failCount := if failCount < U64_MAX then failCount + 1 else failCount;
      }
      var interval := Max(NextPollIntervalSecs(failCount), NORMAL_POLL_INTERVAL_SECS);
      Schedule(PollStatus, end + interval * SECOND);
    }

    method HandlePollCurrentCook(outcome: Outcome, end: nat) returns (sent: Option<Request>)
      requires eventQueue.Valid()
      modifies this, eventQueue
      ensures eventQueue.Valid() && Value() == Handled(old(Value()), PollCurrentCook, outcome, end)
      ensures sent == RequestOf(old(Value()), PollCurrentCook)
    {
      var busy := PollActionInFlight();
      if busy {
        Schedule(PollCurrentCook, end + POST_ACTION_COOK_REFRESH_DELAY);
        return None;
      }
      sent := Some(GetCurrentCook);
      var interval := Max(NextPollIntervalSecs(failCount), COOK_POLL_INTERVAL_SECS);
      Schedule(PollCurrentCook, end + interval * SECOND);
    }

    method HandlePollRecipes(outcome: Outcome, end: nat) returns (sent: Option<Request>)
      requires eventQueue.Valid()
      modifies this, eventQueue
      ensures eventQueue.Valid() && Value() == Handled(old(Value()), PollRecipes, outcome, end)
      ensures sent == RequestOf(old(Value()), PollRecipes)
    {
      sent := Some(GetRecipes);
      var interval := Max(NextPollIntervalSecs(failCount), RECIPE_POLL_INTERVAL_SECS);
      Schedule(PollRecipes, end + interval * SECOND);
    }

    method HandleEvent(kind: EventKind, outcome: Outcome, end: nat) returns (sent: Option<Request>)
      requires eventQueue.Valid()
      modifies this, eventQueue
      ensures eventQueue.Valid() && Value() == Handled(old(Value()), kind, outcome, end)
      ensures sent == RequestOf(old(Value()), kind)
    {
      match kind
      case PollStatus => sent := HandlePollStatus(outcome, end);
      case PollCurrentCook => sent := HandlePollCurrentCook(outcome, end);
      case PollRecipes => sent := HandlePollRecipes(outcome, end);
      case ApiStart => sent := HandleApiStart(end);
      case ApiStop => sent := Some(PostStop);
      case ApiNextStage => sent := Some(PostNextStage);
    }

    /** One turn of the drain loop after the waiting commands were taken: serve the soonest
        due event, or report that nothing is due. `end` is when its handler finishes. */
    method ServeNext(now: nat, outcome: Outcome, end: nat)
      returns (served: Option<EventKind>, sent: Option<Request>)
      requires Valid() && now <= end
      modifies this, eventQueue
      ensures Valid()
      ensures served.Some? ==> Next(old(Value()), Serve(served.value, now, outcome, end), Value())
      ensures sent == if served.Some? then RequestOf(Popped(old(Value()), served.value), served.value) else None
      ensures served.None? ==>
        Value() == old(Value()) && forall k <- old(Value()).schedule :: old(Value()).schedule[k] > now
    {
      ghost var before := Value();
      var popped := eventQueue.PopDue(now);
      if popped.None? {
        return None, None;
      }
      var kind := popped.value.kind;
      assert Value() == Popped(before, kind);
      sent := HandleEvent(kind, outcome, end);
      NextSettled(before, Serve(kind, now, outcome, end), Value());
      served := Some(kind);
    }

    /** The client always has a deadline to wait for. */
    method NextDueAt() returns (at: Option<nat>)
      requires Valid()
      ensures at.Some? && forall k <- Value().schedule :: at.value <= Value().schedule[k]
    {
      at := eventQueue.NextDueAt();
    }
  }
}
