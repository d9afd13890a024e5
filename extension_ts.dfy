/**
 * The panel indicator of extension.ts (`MumbleIndicatorButton`): its status
 * record, label text and icon, the enabled flag, and the poll cycle that feeds
 * them.  The display part is specified by pure transition functions on
 * `View`; the class's methods change the fields in place and are tied to
 * those functions.
 */
module ExtensionTs {
  import opened Wrappers
  import opened JsRuntime
  import opened PollCycle
  import MumblePingTs

  type MumblePingResult = MumblePingTs.MumblePingResult

  /** `const enum Status`: DISABLED = 0, NEUTRAL = 1, ERROR = 2, WAITING = 3. */
  datatype Status = Disabled | Neutral | Error | Waiting

  function Code(s: Status): nat
  {
    match s
    case Disabled => 0
    case Neutral => 1
    case Error => 2
    case Waiting => 3
  }

  /** `lastResponse` before any reply: `{users: 0, maxUsers: 0}`. */
  const INITIAL_RESPONSE: MumblePingResult := MumblePingTs.MumblePingResult(None, 0, 0, None)

  /** The indicator's status record together with what the panel shows. */
  datatype View = View(status: Status, lastResponse: MumblePingResult, text: Label, icon: Icon)

  /** After construction: NEUTRAL, 0 of 0 users, an empty label and the neutral icon. */
  const INITIAL_VIEW: View := View(Neutral, INITIAL_RESPONSE, Empty, NeutralIcon)

  /** `#hasStatusChanged`: false for a null result. */
  predicate StatusChanged(v: View, result: Option<MumblePingResult>)
  {
    match result
    case None => false
    case Some(r) =>
      r.users != v.lastResponse.users || r.maxUsers != v.lastResponse.maxUsers || v.status != Neutral
  }

  /** `#updateIndicator`. */
  function AfterUpdate(v: View, result: Option<MumblePingResult>): View
  {
    if StatusChanged(v, result) then
      View(Neutral, result.value, Count(result.value.users, result.value.maxUsers),
           if v.status != Neutral then NeutralIcon else v.icon)
    else v
  }

  /** `#setIndicatorToError`; the first guard is `!status`, and DISABLED is 0. */
  function AfterError(v: View): View
  {
    if Code(v.status) == 0 then v
    else if v.status != Error then v.(icon := ErrorIcon, text := Empty, status := Error)
    else v
  }

  /** `#setIndicatorToWaiting`. */
  function AfterWaiting(v: View): View
  {
    if v.status != Waiting then v.(text := Dots, status := Waiting) else v
  }

  /** The display part of `toggleEnableDisable` when it disables. */
  function AfterDisable(v: View): View
  {
    v.(text := Empty, status := Disabled)
  }

  /**
   * What the panel shows agrees with the status: ERROR shows the red icon and
   * no count, WAITING shows '...', DISABLED no count, NEUTRAL the neutral
   * icon and the last count (or, before the first update, nothing).
   */
  ghost predicate Consistent(v: View)
  {
    && (v.status == Error ==> v.text == Empty && v.icon == ErrorIcon)
    && (v.status == Waiting ==> v.text == Dots)
    && (v.status == Disabled ==> v.text == Empty)
    && (v.status == Neutral ==>
          && v.icon == NeutralIcon
          && (v.text == Count(v.lastResponse.users, v.lastResponse.maxUsers) ||
              (v.text == Empty && v.lastResponse == INITIAL_RESPONSE)))
  }

  /** What the panel shows for a reply: NEUTRAL, `users/maxUsers` and the neutral icon. */
  predicate Shows(v: View, r: MumblePingResult)
  {
    v.status == Neutral && v.text == Count(r.users, r.maxUsers) && v.icon == NeutralIcon
  }

  // ----- properties of the display transitions -----

  /** Only DISABLED is falsy. */
  lemma FalsyStatusIsDisabled(s: Status)
    ensures Code(s) == 0 <==> s == Disabled
  {
  }

  /**
   * Change detection is exact: once something has been shown, a reply counts
   * as a change exactly when the panel does not already show it.
   */
  lemma ChangeDetectionExact(v: View, r: MumblePingResult)
    requires Consistent(v)
    requires !(v.status == Neutral && v.text == Empty)
    ensures StatusChanged(v, Some(r)) <==> !Shows(v, r)
  {
  }

  /**
   * A changed reply is shown, remembered and makes the status NEUTRAL, with
   * the neutral icon even where the icon was left alone; an unchanged one
   * changes nothing.
   */
  lemma UpdateShowsReply(v: View, r: MumblePingResult)
    requires Consistent(v)
    ensures StatusChanged(v, Some(r)) ==> Shows(AfterUpdate(v, Some(r)), r) && AfterUpdate(v, Some(r)).lastResponse == r
    ensures !StatusChanged(v, Some(r)) ==> AfterUpdate(v, Some(r)) == v
    ensures AfterUpdate(v, None) == v
  {
  }

  /** Applying the same reply twice: the second update is a no-op. */
  lemma UpdateIdempotent(v: View, result: Option<MumblePingResult>)
    ensures !StatusChanged(AfterUpdate(v, result), result)
    ensures AfterUpdate(AfterUpdate(v, result), result) == AfterUpdate(v, result)
  {
  }

  /**
   * A first reply of 0 users of 0 is not a change from the initial state, so
   * the label stays empty although the panel does not show that reply.
   */
  lemma FirstZeroReplyKeepsBlank(r: MumblePingResult)
    requires r.users == 0 && r.maxUsers == 0
    ensures !StatusChanged(INITIAL_VIEW, Some(r))
    ensures AfterUpdate(INITIAL_VIEW, Some(r)) == INITIAL_VIEW
    ensures !Shows(INITIAL_VIEW, r)
  {
  }

  /**
   * The error transition: nothing while DISABLED or already ERROR, otherwise
   * ERROR with the red icon and no count; a second call changes nothing.
   */
  lemma ErrorTransition(v: View)
    ensures v.status == Disabled || v.status == Error ==> AfterError(v) == v
    ensures Consistent(v) && v.status != Disabled ==>
              AfterError(v).status == Error && AfterError(v).text == Empty && AfterError(v).icon == ErrorIcon
    ensures AfterError(v).lastResponse == v.lastResponse
    ensures AfterError(AfterError(v)) == AfterError(v)
  {
  }

  /** The waiting transition shows '...' and is idempotent. */
  lemma WaitingTransition(v: View)
    requires Consistent(v)
    ensures AfterWaiting(v).status == Waiting && AfterWaiting(v).text == Dots
    ensures v.status == Waiting ==> AfterWaiting(v) == v
    ensures AfterWaiting(AfterWaiting(v)) == AfterWaiting(v)
  {
  }

  /** Every transition keeps the panel in agreement with the status. */
  lemma TransitionsKeepConsistent(v: View, result: Option<MumblePingResult>)
    requires Consistent(v)
    ensures Consistent(AfterUpdate(v, result))
    ensures Consistent(AfterError(v))
    ensures Consistent(AfterWaiting(v))
    ensures Consistent(AfterDisable(v))
  {
  }

  // ----- the indicator object -----

  class MumbleIndicatorButton {
    // `#indicatorStatus`
    var status: Status
    var lastResponse: MumblePingResult
    // the text of `#numUsersLabel` and the gicon of `#mumbleIcon`
    var text: Label
    var icon: Icon
    // the 'enabled' setting, which only `toggleEnableDisable` writes
    var enabled: bool
    // `#mainLoopTimeout`, `#connection`, `#autoCancel` and the suspended cycles
    var timerArmed: bool
    var connection: Option<Connection>
    var autoCancel: Option<Token>
    var cancelled: set<Token>
    var nextToken: Token
    var pending: map<Token, Stage>

    function Display(): View
      reads this
    {
      View(status, lastResponse, text, icon)
    }

    function Poll(): PollState
      reads this
    {
      PollState(timerArmed, connection, autoCancel, cancelled, nextToken, pending)
    }

    /** The panel agrees with the status and the poll state keeps its invariant. */
    ghost predicate Coherent()
      reads this
    {
      Consistent(Display()) && PollValid(Poll())
    }

    /**
     * The object invariant: coherent, and while disabled no timer runs and no
     * token is in the slot (so every suspended cycle has been cancelled).
     */
    ghost predicate Valid()
      reads this
    {
      && Coherent()
      && (!enabled ==> !timerArmed && autoCancel.None?)
      && (status == Disabled ==> !enabled)
    }

    /** The constructor: a first cycle and the timer start only when 'enabled' is set. */
    constructor (enabledSetting: bool)
      ensures Valid()
      ensures enabled == enabledSetting
      ensures Display() == INITIAL_VIEW
      ensures Poll() == if enabledSetting then Started(BeginCycle(INITIAL_POLL)) else INITIAL_POLL
    {
      status := Neutral;
      lastResponse := INITIAL_RESPONSE;
      text := Empty;
      icon := NeutralIcon;
      enabled := enabledSetting;
      timerArmed := false;
      connection := None;
      autoCancel := None;
      cancelled := {};
      nextToken := 0;
      pending := map[];
      new;
      if enabled {
        var _ := MainLoop();
        StartMainLoop();
      }
    }

    method SetIndicatorToWaiting()
      requires Coherent()
      modifies this
      ensures Coherent()
      ensures Display() == AfterWaiting(old(Display()))
      ensures Poll() == old(Poll()) && enabled == old(enabled)
    {
      TransitionsKeepConsistent(Display(), None);
      if status != Waiting {
        text := Dots;
        status := Waiting;
      }
    }

    method UpdateIndicator(pingResponse: Option<MumblePingResult>)
      requires Coherent()
      modifies this
      ensures Coherent()
      ensures Display() == AfterUpdate(old(Display()), pingResponse)
      ensures Poll() == old(Poll()) && enabled == old(enabled)
    {
      TransitionsKeepConsistent(Display(), pingResponse);
      if StatusChanged(Display(), pingResponse) {
        text := Count(pingResponse.value.users, pingResponse.value.maxUsers);
        if status != Neutral {
          icon := NeutralIcon;
        }
        lastResponse := pingResponse.value;
        status := Neutral;
      }
    }

    method SetIndicatorToError()
      requires Coherent()
      modifies this
      ensures Coherent()
      ensures Display() == AfterError(old(Display()))
      ensures Poll() == old(Poll()) && enabled == old(enabled)
    {
      TransitionsKeepConsistent(Display(), None);
      if Code(status) == 0 {
        return;
      }
      if status != Error {
        icon := ErrorIcon;
        text := Empty;
        status := Error;
      }
    }

    method CancelPendingRequests()
      requires Coherent()
      modifies this
      ensures Coherent()
      ensures Poll() == CancelPending(old(Poll()))
      ensures Display() == old(Display()) && enabled == old(enabled)
    {
      CancelPendingKeepsValid(Poll());
      if autoCancel.Some? {
        cancelled := cancelled + {autoCancel.value};
      }
      autoCancel := None;
    }

    method StartMainLoop()
      requires Coherent()
      modifies this
      ensures Coherent()
      ensures Poll() == Started(old(Poll()))
      ensures Display() == old(Display()) && enabled == old(enabled)
    {
      StopStartKeepValid(Poll());
      timerArmed := true;
    }

    method StopMainLoop()
      requires Coherent()
      modifies this
      ensures Coherent()
      ensures Poll() == Stopped(old(Poll()))
      ensures Display() == old(Display()) && enabled == old(enabled)
    {
      StopStartKeepValid(Poll());
      if timerArmed {
        timerArmed := false;
      }
      connection := None;
    }

    /**
     * `#mainLoop` up to its first `await`.  Returns the token that names the
     * new cycle; its completion arrives later through ConnectDone or PingDone.
     */
    method MainLoop() returns (cycle: Token)
      requires Coherent()
      modifies this
      ensures Coherent()
      ensures cycle == old(nextToken)
      ensures Poll() == BeginCycle(old(Poll()))
      ensures Display() == old(Display()) && enabled == old(enabled)
    {
      BeginCycleSupersedes(Poll());
      CancelPendingRequests();
      cycle := nextToken;
      nextToken := nextToken + 1;
      autoCancel := Some(cycle);
      if connection.None? {
        pending := pending[cycle := AwaitConnect];
      } else {
        pending := pending[cycle := AwaitPing(autoCancel)];
      }
    }

    /** The GLib timer fired: the timeout callback runs one cycle. */
    method TimerFired() returns (cycle: Token)
      requires Valid() && timerArmed
      modifies this
      ensures Valid()
      ensures cycle == old(nextToken)
      ensures Poll() == BeginCycle(old(Poll()))
      ensures Display() == old(Display()) && enabled == old(enabled)
    {
      cycle := MainLoop();
    }

    /**
     * The awaited `createClient` of cycle `cycle` settled.  A superseded
     * cycle can only be cancelled, and then at most turns the status to ERROR.
     */
    method ConnectDone(cycle: Token, outcome: Outcome<Connection>)
      requires Valid() && cycle in pending && pending[cycle] == AwaitConnect
      requires HonoursCancel(Poll(), cycle, outcome)
      modifies this
      ensures Valid()
      ensures enabled == old(enabled)
      ensures outcome.Done? ==>
                Display() == old(Display()) && Poll() == ConnectResolved(old(Poll()), cycle, outcome.value)
      ensures outcome.Cancelled? ==>
                Display() == AfterError(old(Display())) && Poll() == Rejected(old(Poll()), cycle, false)
      ensures outcome.Failed? ==>
                Display() == AfterError(old(Display())) && Poll() == Rejected(old(Poll()), cycle, true)
      ensures old(autoCancel) != Some(cycle) ==> Display() == AfterError(old(Display()))
      ensures old(status) == Disabled ==> Display() == old(Display())
    {
      SupersededCycleIsCancelled(Poll(), cycle, outcome);
      SettlingKeepsValid(Poll(), cycle, outcome, outcome.Failed?, if outcome.Done? then outcome.value else 0);
      ErrorTransition(Display());
      match outcome {
        case Done(c) =>
          connection := Some(c);
          pending := pending[cycle := AwaitPing(autoCancel)];
        case Cancelled =>
          pending := pending - {cycle};
          SetIndicatorToError();
        case Failed =>
          pending := pending - {cycle};
          connection := None;
          SetIndicatorToError();
      }
    }

    /**
     * The awaited `pingMumble` of cycle `cycle` settled; `Done(data)` carries
     * what `get_data()` returned for the 24-byte read.
     */
    method PingDone(cycle: Token, outcome: Outcome<Option<seq<Byte>>>)
      requires Valid() && cycle in pending && pending[cycle].AwaitPing?
      requires HonoursCancel(Poll(), cycle, outcome)
      modifies this
      ensures Valid()
      ensures enabled == old(enabled)
      ensures outcome.Done? ==>
                Display() == AfterUpdate(old(Display()), Some(MumblePingTs.PingMumble(outcome.value).result))
                && Poll() == PingResolved(old(Poll()), cycle)
      ensures outcome.Cancelled? ==>
                Display() == AfterError(old(Display())) && Poll() == Rejected(old(Poll()), cycle, false)
      ensures outcome.Failed? ==>
                Display() == AfterError(old(Display())) && Poll() == Rejected(old(Poll()), cycle, true)
      ensures old(autoCancel) != Some(cycle) ==> Display() == AfterError(old(Display()))
      ensures old(status) == Disabled ==> Display() == old(Display())
    {
      SupersededCycleIsCancelled(Poll(), cycle, outcome);
      SettlingKeepsValid(Poll(), cycle, outcome, outcome.Failed?, 0);
      ErrorTransition(Display());
      match outcome {
        case Done(data) =>
          var pingResponse := MumblePingTs.ParseResponseBytes(MumblePingTs.ReplyBytes(data));
          autoCancel := None;
          pending := pending - {cycle};
          UpdateIndicator(Some(pingResponse));
        case Cancelled =>
          pending := pending - {cycle};
          SetIndicatorToError();
        case Failed =>
          pending := pending - {cycle};
          connection := None;
          SetIndicatorToError();
      }
    }

    /**
     * `toggleEnableDisable`: flips 'enabled'; enabling shows '...', runs one
     * cycle at once and arms the timer, disabling cancels the slot's token,
     * clears the label and sets DISABLED.
     */
    method ToggleEnableDisable()
      requires Valid()
      modifies this
      ensures Valid()
      ensures enabled == !old(enabled)
      ensures enabled ==>
                Display() == AfterWaiting(old(Display())) && Poll() == Started(BeginCycle(Stopped(old(Poll()))))
      ensures !enabled ==>
                Display() == AfterDisable(old(Display())) && Poll() == CancelPending(Stopped(old(Poll())))
    {
      var enabledNow := !enabled;
      StopMainLoop();
      enabled := enabledNow;
      if enabledNow {
        SetIndicatorToWaiting();
        var _ := MainLoop();
        StartMainLoop();
      } else {
        CancelPendingRequests();
        text := Empty;
        status := Disabled;
      }
    }

    /**
     * The `restart` closure run on a change of host, port or refresh timeout:
     * stop, and only if enabled show '...' and re-arm the timer, without an
     * immediate cycle and without cancelling a suspended one.
     */
    method SettingsChanged()
      requires Valid()
      modifies this
      ensures Valid()
      ensures enabled == old(enabled)
      ensures enabled ==> Display() == AfterWaiting(old(Display())) && Poll() == Started(Stopped(old(Poll())))
      ensures !enabled ==> Display() == old(Display()) && Poll() == Stopped(old(Poll()))
    {
      StopMainLoop();
      if enabled {
        SetIndicatorToWaiting();
        StartMainLoop();
      }
    }
  }
}
