/**
 * The panel indicator of the older extension.js (`Indicator`).  It has no
 * enabled flag and no DISABLED status, starts with `lastResponse: null`,
 * keeps the cached connection after a failed cycle, and its restart shows
 * '...' before it stops and re-arms the timer.
 */
module ExtensionJs {
  import opened Wrappers
  import opened JsRuntime
  import opened PollCycle
  import MumblePingTs

  type MumblePingResult = MumblePingTs.MumblePingResult

  /** `Status`: NEUTRAL = 1, ERROR = 2, WAITING = 3. */
  datatype Status = Neutral | Error | Waiting

  function Code(s: Status): nat
  {
    match s
    case Neutral => 1
    case Error => 2
    case Waiting => 3
  }

  /** The status record (`lastResponse` may be null) together with what the panel shows. */
  datatype View = View(status: Status, lastResponse: Option<MumblePingResult>, text: Label, icon: Icon)

  /** After `_init`: NEUTRAL, no response yet, an empty label and the neutral icon. */
  const INITIAL_VIEW: View := View(Neutral, None, Empty, NeutralIcon)

  /**
   * `_hasStatusChanged`: false for a null result; with no last response the
   * optional chains yield undefined, which no number equals strictly.
   */
  predicate StatusChanged(v: View, result: Option<MumblePingResult>)
  {
    match result
    case None => false
    case Some(r) =>
      match v.lastResponse
      case None => true
      case Some(last) => r.users != last.users || r.maxUsers != last.maxUsers || v.status != Neutral
  }

  /** `_updateIndicator`. */
  function AfterUpdate(v: View, result: Option<MumblePingResult>): View
  {
    if StatusChanged(v, result) then
      View(Neutral, result, Count(result.value.users, result.value.maxUsers),
           if v.status != Neutral then NeutralIcon else v.icon)
    else v
  }

  /** `_setIndicatorToError`; its `!status` guard tests a code that is never 0. */
  function AfterError(v: View): View
  {
    if Code(v.status) == 0 then v
    else if v.status != Error then v.(icon := ErrorIcon, text := Empty, status := Error)
    else v
  }

  /** `_setIndicatorToWaiting`. */
  function AfterWaiting(v: View): View
  {
    if v.status != Waiting then v.(text := Dots, status := Waiting) else v
  }

  /**
   * The panel agrees with the status: ERROR shows the red icon and no count,
   * WAITING shows '...', NEUTRAL the neutral icon and the last count, or
   * nothing while there is no last response.
   */
  ghost predicate Consistent(v: View)
  {
    && (v.status == Error ==> v.text == Empty && v.icon == ErrorIcon)
    && (v.status == Waiting ==> v.text == Dots)
    && (v.status == Neutral ==>
          && v.icon == NeutralIcon
          && match v.lastResponse
             case None => v.text == Empty
             case Some(last) => v.text == Count(last.users, last.maxUsers))
  }

  /** What the panel shows for a reply: NEUTRAL, `users/maxUsers` and the neutral icon. */
  predicate Shows(v: View, r: MumblePingResult)
  {
    v.status == Neutral && v.text == Count(r.users, r.maxUsers) && v.icon == NeutralIcon
  }

  // ----- properties of the display transitions -----

  /** The early return in `_setIndicatorToError` never fires: every status code is truthy. */
  lemma ErrorGuardNeverFires(v: View)
    ensures Code(v.status) != 0
    ensures AfterError(v).status == Error
  {
  }

  /** The first reply is always shown, whatever it holds. */
  lemma FirstReplyAlwaysShown(v: View, r: MumblePingResult)
    requires Consistent(v) && v.lastResponse.None?
    ensures StatusChanged(v, Some(r))
    ensures Shows(AfterUpdate(v, Some(r)), r) && AfterUpdate(v, Some(r)).lastResponse == Some(r)
  {
  }

  /** In every consistent state, a reply counts as a change exactly when it is not already shown. */
  lemma ChangeDetectionExact(v: View, r: MumblePingResult)
    requires Consistent(v)
    ensures StatusChanged(v, Some(r)) <==> !Shows(v, r)
  {
  }

  /** After an update the reply is shown, whether or not the update changed anything. */
  lemma UpdateShowsReply(v: View, r: MumblePingResult)
    requires Consistent(v)
    ensures Shows(AfterUpdate(v, Some(r)), r)
    ensures !StatusChanged(v, Some(r)) ==> AfterUpdate(v, Some(r)) == v
    ensures AfterUpdate(v, None) == v
  {
    ChangeDetectionExact(v, r);
  }

  /** Applying the same reply twice: the second update is a no-op. */
  lemma UpdateIdempotent(v: View, result: Option<MumblePingResult>)
    ensures !StatusChanged(AfterUpdate(v, result), result)
    ensures AfterUpdate(AfterUpdate(v, result), result) == AfterUpdate(v, result)
  {
  }

  /**
   * The error transition always ends in ERROR with the red icon and no
   * count, keeps the last response, and is idempotent.
   */
  lemma ErrorTransition(v: View)
    requires Consistent(v)
    ensures AfterError(v).status == Error && AfterError(v).text == Empty && AfterError(v).icon == ErrorIcon
    ensures AfterError(v).lastResponse == v.lastResponse
    ensures v.status == Error ==> AfterError(v) == v
    ensures AfterError(AfterError(v)) == AfterError(v)
  {
  }

  /** The waiting transition shows '...' and is idempotent. */
  lemma WaitingTransition(v: View)
    requires Consistent(v)
    ensures AfterWaiting(v).status == Waiting && AfterWaiting(v).text == Dots
    ensures v.status == Waiting ==> AfterWaiting(v) == v
    ensures AfterWaiting(AfterWaiting(v)) == AfterWaiting(v)
  {
  }

  /** Every transition keeps the panel in agreement with the status. */
  lemma TransitionsKeepConsistent(v: View, result: Option<MumblePingResult>)
    requires Consistent(v)
    ensures Consistent(AfterUpdate(v, result))
    ensures Consistent(AfterError(v))
    ensures Consistent(AfterWaiting(v))
  {
  }

  // ----- the indicator object -----

  class Indicator {
    // `_indicatorStatus`
    var status: Status
    var lastResponse: Option<MumblePingResult>
    // the text of `_numUsersLabel` and the gicon of `_mumbleIcon`
    var text: Label
    var icon: Icon
    // `_mainLoopTimeout`, `_connection`, `_autoCancel` and the suspended cycles
    var timerArmed: bool
    var connection: Option<Connection>
    var autoCancel: Option<Token>
    var cancelled: set<Token>
    var nextToken: Token
    var pending: map<Token, Stage>

    function Display(): View
      reads this
    {
      View(status, lastResponse, text, icon)
    }

    function Poll(): PollState
      reads this
    {
      PollState(timerArmed, connection, autoCancel, cancelled, nextToken, pending)
    }

    /** The panel agrees with the status and the poll state keeps its invariant. */
    ghost predicate Valid()
      reads this
    {
      Consistent(Display()) && PollValid(Poll())
    }

    /** `_init`: one cycle at once, then the timer. */
    constructor ()
      ensures Valid()
      ensures Display() == INITIAL_VIEW
      ensures Poll() == Started(BeginCycle(INITIAL_POLL))
    {
      status := Neutral;
      lastResponse := None;
      text := Empty;
      icon := NeutralIcon;
      timerArmed := false;
      connection := None;
      autoCancel := None;
      cancelled := {};
      nextToken := 0;
      pending := map[];
      new;
      var _ := MainLoop();
      StartMainLoop();
    }

    method SetIndicatorToWaiting()
      requires Valid()
      modifies this
      ensures Valid()
      ensures Display() == AfterWaiting(old(Display()))
      ensures Poll() == old(Poll())
    {
      TransitionsKeepConsistent(Display(), None);
      if status != Waiting {
        text := Dots;
        status := Waiting;
      }
    }

    method UpdateIndicator(pingResponse: Option<MumblePingResult>)
      requires Valid()
      modifies this
      ensures Valid()
      ensures Display() == AfterUpdate(old(Display()), pingResponse)
      ensures Poll() == old(Poll())
    {
      TransitionsKeepConsistent(Display(), pingResponse);
      if StatusChanged(Display(), pingResponse) {
        text := Count(pingResponse.value.users, pingResponse.value.maxUsers);
        if status != Neutral {
          icon := NeutralIcon;
        }
        lastResponse := pingResponse;
        status := Neutral;
      }
    }

    method SetIndicatorToError()
      requires Valid()
      modifies this
      ensures Valid()
      ensures Display() == AfterError(old(Display()))
      ensures Poll() == old(Poll())
    {
      TransitionsKeepConsistent(Display(), None);
      if Code(status) == 0 {
        return;
      }
      if status != Error {
        icon := ErrorIcon;
        text := Empty;
        status := Error;
      }
    }

    method CancelPreviousIteration()
      requires Valid()
      modifies this
      ensures Valid()
      ensures Poll() == CancelPending(old(Poll()))
      ensures Display() == old(Display())
    {
      CancelPendingKeepsValid(Poll());
      if autoCancel.Some? {
        cancelled := cancelled + {autoCancel.value};
        autoCancel := None;
      }
    }

    method StartMainLoop()
      requires Valid()
      modifies this
      ensures Valid()
      ensures Poll() == Started(old(Poll()))
      ensures Display() == old(Display())
    {
      StopStartKeepValid(Poll());
      timerArmed := true;
    }

    method StopMainLoop()
      requires Valid()
      modifies this
      ensures Valid()
      ensures Poll() == Stopped(old(Poll()))
      ensures Display() == old(Display())
    {
      StopStartKeepValid(Poll());
      if timerArmed {
        timerArmed := false;
      }
      connection := None;
    }

    /**
     * `_mainLoop` up to its first `await`.  Returns the token that names the
     * new cycle; its completion arrives later through ConnectDone or PingDone.
     */
    method MainLoop() returns (cycle: Token)
      requires Valid()
      modifies this
      ensures Valid()
      ensures cycle == old(nextToken)
      ensures Poll() == BeginCycle(old(Poll()))
      ensures Display() == old(Display())
    {
      BeginCycleSupersedes(Poll());
      CancelPreviousIteration();
      cycle := nextToken;
      nextToken := nextToken + 1;
      autoCancel := Some(cycle);
      if connection.None? {
        pending := pending[cycle := AwaitConnect];
      } else {
        pending := pending[cycle := AwaitPing(autoCancel)];
      }
    }

    /** The GLib timer fired: the timeout callback runs one cycle. */
    method TimerFired() returns (cycle: Token)
      requires Valid() && timerArmed
      modifies this
      ensures Valid()
      ensures cycle == old(nextToken)
      ensures Poll() == BeginCycle(old(Poll()))
      ensures Display() == old(Display())
    {
      cycle := MainLoop();
    }

    /**
     * The awaited `createClient` of cycle `cycle` settled.  Every rejection
     * ends in ERROR and none of them clears the cached connection.
     */
    method ConnectDone(cycle: Token, outcome: Outcome<Connection>)
      requires Valid() && cycle in pending && pending[cycle] == AwaitConnect
      requires HonoursCancel(Poll(), cycle, outcome)
      modifies this
      ensures Valid()
      ensures outcome.Done? ==>
                Display() == old(Display()) && Poll() == ConnectResolved(old(Poll()), cycle, outcome.value)
      ensures !outcome.Done? ==>
                Display() == AfterError(old(Display())) && Poll() == Rejected(old(Poll()), cycle, false)
      ensures old(autoCancel) != Some(cycle) ==> Display() == AfterError(old(Display()))
    {
      SupersededCycleIsCancelled(Poll(), cycle, outcome);
      SettlingKeepsValid(Poll(), cycle, outcome, false, if outcome.Done? then outcome.value else 0);
      match outcome {
        case Done(c) =>
          connection := Some(c);
          pending := pending[cycle := AwaitPing(autoCancel)];
        case Cancelled =>
          pending := pending - {cycle};
          SetIndicatorToError();
        case Failed =>
          pending := pending - {cycle};
          SetIndicatorToError();
      }
    }

    /**
     * The awaited `pingMumble` of cycle `cycle` settled; `Done(reply)`
     * carries the bytes the 24-byte read returned, which MumblePingJs.PingMumble
     * hands to the decoder unchanged.
     */
    method PingDone(cycle: Token, outcome: Outcome<seq<Byte>>)
      requires Valid() && cycle in pending && pending[cycle].AwaitPing?
      requires HonoursCancel(Poll(), cycle, outcome)
      modifies this
      ensures Valid()
      ensures outcome.Done? ==>
                Display() == AfterUpdate(old(Display()), Some(MumblePingTs.ParseResponse(outcome.value)))
                && Poll() == PingResolved(old(Poll()), cycle)
      ensures !outcome.Done? ==>
                Display() == AfterError(old(Display())) && Poll() == Rejected(old(Poll()), cycle, false)
      ensures old(autoCancel) != Some(cycle) ==> Display() == AfterError(old(Display()))
    {
      SupersededCycleIsCancelled(Poll(), cycle, outcome);
      SettlingKeepsValid(Poll(), cycle, outcome, false, 0);
      match outcome {
        case Done(reply) =>
          var pingResponse := MumblePingTs.ParseResponseBytes(reply);
          autoCancel := None;
          pending := pending - {cycle};
          UpdateIndicator(Some(pingResponse));
        case Cancelled =>
          pending := pending - {cycle};
          SetIndicatorToError();
        case Failed =>
          pending := pending - {cycle};
          SetIndicatorToError();
      }
    }

    /**
     * The `restart` closure run on a change of host, port or refresh timeout:
     * '...' first, then stop and re-arm the timer, without an immediate cycle
     * and without cancelling a suspended one.
     */
    method SettingsChanged()
      requires Valid()
      modifies this
      ensures Valid()
      ensures Display() == AfterWaiting(old(Display()))
      ensures Poll() == Started(Stopped(old(Poll())))
    {
      SetIndicatorToWaiting();
      StopMainLoop();
      StartMainLoop();
    }
  }
}
