/**
 * The poll cycle shared by both indicator versions: the cached connection,
 * the repeating timer, the one cancellation-token slot `autoCancel`, and the
 * `#mainLoop` invocations that are suspended at an `await`.
 *
 * Each `new Gio.Cancellable()` is a fresh Token; a `#mainLoop` invocation is
 * named by the token it created at its start.  The awaited Gio operations
 * are not run: their completions arrive as events carrying an Outcome.
 */
module PollCycle {
  import opened Wrappers

  /** Identity of a `Gio.Cancellable`; each `new Gio.Cancellable()` takes the next one. */
  type Token = nat

  /** Identity of a `Gio.SocketConnection` returned by `createClient`. */
  type Connection = nat

  /** The text of the users label: `''`, `'...'` or `users/maxUsers`. */
  datatype Label = Empty | Dots | Count(users: int, maxUsers: int)

  /** The panel icon: `icon_neutral.svg` or `icon_red.svg`. */
  datatype Icon = NeutralIcon | ErrorIcon

  /**
   * How an awaited Gio operation settled: resolved with a value, rejected
   * with `Gio.IOErrorEnum.CANCELLED`, or rejected with any other error.
   */
  datatype Outcome<T> = Done(value: T) | Cancelled | Failed

  /**
   * Where a suspended `#mainLoop` invocation waits: on `createClient`
   * (started with its own cancellable), or on `pingMumble`, started with
   * whatever `autoCancel` held when the connection arrived.
   */
  datatype Stage = AwaitConnect | AwaitPing(cancellable: Option<Token>)

  datatype PollState = PollState(
    timerArmed: bool,                // `#mainLoopTimeout` holds a live GLib source
    connection: Option<Connection>,  // `#connection`
    autoCancel: Option<Token>,       // `#autoCancel`
    cancelled: set<Token>,           // cancellables on which `cancel()` has been called
    nextToken: Token,                // the next fresh cancellable
    pending: map<Token, Stage>)      // suspended `#mainLoop` invocations

  const INITIAL_POLL: PollState := PollState(false, None, None, {}, 0, map[])

  /** The cancellable the awaited operation of a cycle was started with. */
  function OpCancellable(cycle: Token, stage: Stage): Option<Token>
  {
    match stage
    case AwaitConnect => Some(cycle)
    case AwaitPing(c) => c
  }

  /**
   * Gio's side of cancellation: an operation whose cancellable has been
   * cancelled settles with CANCELLED.  Completion events are only accepted
   * when they respect this.
   */
  predicate HonoursCancel<T>(p: PollState, cycle: Token, outcome: Outcome<T>)
    requires cycle in p.pending
  {
    var c := OpCancellable(cycle, p.pending[cycle]);
    c.Some? && c.value in p.cancelled ==> outcome.Cancelled?
  }

  /**
   * The invariant of the poll state: the token in the slot is fresh and never
   * cancelled, and every suspended cycle except the one whose token is in the
   * slot has been cancelled; a cycle waiting on the ping waits with its own token.
   */
  ghost predicate PollValid(p: PollState)
  {
    && (p.autoCancel.Some? ==> p.autoCancel.value < p.nextToken && p.autoCancel.value !in p.cancelled)
    && (forall t :: t in p.cancelled ==> t < p.nextToken)
    && (forall c :: c in p.pending ==> c < p.nextToken)
    && (forall c :: c in p.pending ==> c in p.cancelled || p.autoCancel == Some(c))
    && (forall c :: c in p.pending && p.pending[c].AwaitPing? ==> p.pending[c].cancellable == Some(c))
  }

  /** The suspended cycles whose operation can still settle by itself. */
  ghost function LiveCycles(p: PollState): set<Token>
  {
    set c | c in p.pending && c !in p.cancelled
  }

  /** `#cancelPendingRequests` / `_cancelPreviousIteration`: cancel the slot's token, empty the slot. */
  function CancelPending(p: PollState): PollState
  {
    match p.autoCancel
    case Some(t) => p.(autoCancel := None, cancelled := p.cancelled + {t})
    case None => p
  }

  /**
   * The synchronous part of `#mainLoop`: cancel the previous token, put a
   * fresh one in the slot, then wait on `createClient` if there is no cached
   * connection, or else on `pingMumble` with the fresh token.
   */
  function BeginCycle(p: PollState): PollState
  {
    var q := CancelPending(p);
    var t := q.nextToken;
    q.(autoCancel := Some(t), nextToken := t + 1,
       pending := q.pending[t := if q.connection.None? then AwaitConnect else AwaitPing(Some(t))])
  }

  /** `#startMainLoop`: arm the repeating timer. */
  function Started(p: PollState): PollState
  {
    p.(timerArmed := true)
  }

  /** `#stopMainLoop`: disarm the timer and forget the connection. */
  function Stopped(p: PollState): PollState
  {
    p.(timerArmed := false, connection := None)
  }

  /** `createClient` resolved: cache the connection and send the ping with the slot's token. */
  function ConnectResolved(p: PollState, cycle: Token, c: Connection): PollState
  {
    p.(connection := Some(c), pending := p.pending[cycle := AwaitPing(p.autoCancel)])
  }

  /** `pingMumble` resolved: `#autoCancel = null`, the cycle is over. */
  function PingResolved(p: PollState, cycle: Token): PollState
  {
    p.(autoCancel := None, pending := p.pending - {cycle})
  }

  /** The awaited operation rejected: the cycle is over, and the connection dropped if asked to. */
  function Rejected(p: PollState, cycle: Token, dropConnection: bool): PollState
  {
    p.(connection := if dropConnection then None else p.connection, pending := p.pending - {cycle})
  }

  // ----- properties -----

  /** At most one suspended cycle is live, and it is the one whose token is in the slot. */
  lemma AtMostOneLiveCycle(p: PollState)
    requires PollValid(p)
    ensures LiveCycles(p) <= if p.autoCancel.Some? then {p.autoCancel.value} else {}
    ensures |LiveCycles(p)| <= 1
  {
    var s := if p.autoCancel.Some? then {p.autoCancel.value} else {};
    assert LiveCycles(p) <= s;
    assert |s| <= 1;
    SubsetCardinality(LiveCycles(p), s);
  }

  lemma SubsetCardinality<T>(a: set<T>, b: set<T>)
    requires a <= b
    ensures |a| <= |b|
  {
    assert b == a + (b - a);
  }

  /**
   * A new cycle supersedes every earlier one: all cycles that were suspended
   * before are cancelled, and the new one is the only live cycle.
   */
  lemma BeginCycleSupersedes(p: PollState)
    requires PollValid(p)
    ensures PollValid(BeginCycle(p))
    ensures forall c :: c in p.pending ==> c in BeginCycle(p).cancelled
    ensures LiveCycles(BeginCycle(p)) == {p.nextToken}
    ensures BeginCycle(p).pending[p.nextToken] ==
              (if p.connection.None? then AwaitConnect else AwaitPing(Some(p.nextToken)))
  {
    var q := BeginCycle(p);
    assert p.nextToken !in p.cancelled && p.nextToken !in p.pending;
    assert p.nextToken in LiveCycles(q);
  }

  lemma CancelPendingKeepsValid(p: PollState)
    requires PollValid(p)
    ensures PollValid(CancelPending(p)) && CancelPending(p).autoCancel.None?
    ensures LiveCycles(CancelPending(p)) == {}
  {
  }

  lemma StopStartKeepValid(p: PollState)
    requires PollValid(p)
    ensures PollValid(Stopped(p)) && PollValid(Started(p))
  {
  }

  /**
   * An operation of a superseded cycle can only settle as CANCELLED; the
   * live cycle's ping is sent with the cycle's own token.
   */
  lemma SupersededCycleIsCancelled<T>(p: PollState, cycle: Token, outcome: Outcome<T>)
    requires PollValid(p) && cycle in p.pending && HonoursCancel(p, cycle, outcome)
    ensures p.autoCancel != Some(cycle) ==> outcome.Cancelled?
    ensures !outcome.Cancelled? ==> cycle !in p.cancelled && p.autoCancel == Some(cycle)
  {
  }

  lemma SettlingKeepsValid<T>(p: PollState, cycle: Token, outcome: Outcome<T>, drop: bool, c: Connection)
    requires PollValid(p) && cycle in p.pending && HonoursCancel(p, cycle, outcome)
    ensures p.pending[cycle].AwaitConnect? && outcome.Done? ==> PollValid(ConnectResolved(p, cycle, c))
    ensures p.pending[cycle].AwaitPing? && outcome.Done? ==> PollValid(PingResolved(p, cycle))
    ensures PollValid(Rejected(p, cycle, drop))
  {
  }
}
