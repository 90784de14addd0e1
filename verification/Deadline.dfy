/** The deadline of the socket stream buffer (include/asio/basic_socket_streambuf.hpp): a timer
    whose wait handler re-arms itself while the expiry lies ahead, and closes the socket once it
    does not. Setting a new expiry cancels the wait but its handler still runs, later; the protocol
    has to come out right under every interleaving of new expiries, timer firings and handler runs.

    The timer service keeps the contract of include/asio/basic_waitable_timer.hpp: setting the
    expiry cancels pending waits, and the handler of every wait is called exactly once. */
module Deadline {

  datatype TimerState = NoTimer | TimerIsPending | TimerHasExpired

  /** An asynchronous wait: armed for a time, or with its handler queued, fired or cancelled. */
  datatype Wait = Armed(at: int) | Ready

  /** `closed` logs, for every time the timer closed the socket, when that was and the expiry then. */
  datatype State = State(now: int, expiry: int, timer: TimerState, waits: seq<Wait>, closed: seq<(int, int)>)

  datatype Event =
    | SetExpiry(expiry: int)      // expires_at
    | SetDuration(delta: int)     // expires_at with a duration, expires_after, expires_from_now
    | Tick(now: int)              // the clock shows another time
    | Fire(k: nat)                // the service queues the handler of wait k, whose time has come
    | Dispatch(k: nat)            // the io_service runs queued handler k

  predicate Enabled(s: State, e: Event) {
    match e
    case Fire(k) => k < |s.waits| && s.waits[k].Armed? && s.waits[k].at <= s.now
    case Dispatch(k) => k < |s.waits| && s.waits[k].Ready?
    case _ => true
  }

  // ---------- the timer service ----------

  /** Setting the expiry cancels: the handlers of all waits are queued. */
  function Cancelled(waits: seq<Wait>): (r: seq<Wait>)
    ensures |r| == |waits| && forall i :: 0 <= i < |r| ==> r[i] == Ready
  {
    seq(|waits|, _ => Ready)
  }

  class TimerService {
    var now: int
    var expiry: int
    var waits: seq<Wait>

    constructor (now: int, expiry: int)
      ensures this.now == now && this.expiry == expiry && waits == []
    {
      this.now, this.expiry, waits := now, expiry, [];
    }

    method ExpiresAt(t: int)
      modifies this`expiry, this`waits
      ensures expiry == t && waits == Cancelled(old(waits))
    {
      expiry := t;
      waits := Cancelled(waits);
    }

    method AsyncWait()
      modifies this`waits
      ensures waits == old(waits) + [Armed(expiry)]
    {
      waits := waits + [Armed(expiry)];
    }
  }

  // ---------- the stream buffer's side ----------

  class SocketTimer {
    const service: TimerService
    var timerState: TimerState
    ghost var closed: seq<(int, int)>

    ghost function View(): State
      reads this, service
    {
      State(service.now, service.expiry, timerState, service.waits, closed)
    }

    constructor (now: int, expiry: int)
      ensures fresh(service) && View() == State(now, expiry, NoTimer, [], [])
    {
      service := new TimerService(now, expiry);
      timerState, closed := NoTimer, [];
    }

    /** `timer_handler::operator()` */
    method TimerHandler()
      modifies this, service`waits
      ensures View() == Handled(old(View()))
    {
      var expiryTime := service.expiry;
      if service.now < expiryTime {
        timerState := TimerIsPending;
        service.AsyncWait();
      } else {
        timerState := TimerHasExpired;
        closed := closed + [(service.now, expiryTime)];
      }
    }

    method StartTimer()
      modifies this, service`waits
      ensures View() == if old(timerState) == TimerIsPending then old(View()) else Handled(old(View()))
    {
      if timerState != TimerIsPending {
        TimerHandler();
      }
    }

    method ExpiresAt(t: int)
      modifies this, service
      ensures View() == Step(old(View()), SetExpiry(t))
      ensures service.expiry == t && service.now == old(service.now)
      ensures timerState == if old(timerState) == TimerIsPending || service.now < t then TimerIsPending else TimerHasExpired
    {
      service.ExpiresAt(t);
      StartTimer();
    }

    method ExpiresAfter(delta: int)
      modifies this, service
      ensures View() == Step(old(View()), SetDuration(delta))
      ensures service.expiry == old(service.now) + delta && service.now == old(service.now)
      ensures timerState == if old(timerState) == TimerIsPending || 0 < delta then TimerIsPending else TimerHasExpired
    {
      service.ExpiresAt(service.now + delta);
      StartTimer();
    }

    /** `run_one`, picking queued handler `k`. */
    method RunOne(k: nat)
      requires Enabled(View(), Dispatch(k))
      modifies this, service
      ensures View() == Step(old(View()), Dispatch(k))
    {
      service.waits := service.waits[..k] + service.waits[k + 1..];
      TimerHandler();
    }
  }

  // ---------- the protocol ----------

  /** What running the handler does. */
  function Handled(s: State): State {
    if s.now < s.expiry
    then s.(timer := TimerIsPending, waits := s.waits + [Armed(s.expiry)])
    else s.(timer := TimerHasExpired, closed := s.closed + [(s.now, s.expiry)])
  }

  function Started(s: State): State {
    if s.timer == TimerIsPending then s else Handled(s)
  }

  function Step(s: State, e: Event): State
    requires Enabled(s, e)
  {
    match e
    case SetExpiry(t) => Started(s.(expiry := t, waits := Cancelled(s.waits)))
    case SetDuration(d) => Started(s.(expiry := s.now + d, waits := Cancelled(s.waits)))
    case Tick(t) => s.(now := t)
    case Fire(k) => s.(waits := s.waits[k := Ready])
    case Dispatch(k) => Handled(s.(waits := s.waits[..k] + s.waits[k + 1..]))
  }

  /** One wait is outstanding if the timer is pending, ready to run or armed for the expiry in
      force, and none otherwise; and the socket was never closed ahead of its deadline. */
  ghost predicate Inv(s: State) {
    && (if s.timer == TimerIsPending then s.waits == [Ready] || s.waits == [Armed(s.expiry)] else s.waits == [])
    && (forall i :: 0 <= i < |s.closed| ==> s.closed[i].1 <= s.closed[i].0)
    && (s.timer == TimerHasExpired ==> s.closed != [])
  }

  /** Every event keeps the protocol. The handler of a cancelled wait, run before the new expiry,
      changes nothing but to wait for it. */
  lemma StepKeepsInv(s: State, e: Event)
    requires Inv(s) && Enabled(s, e)
    ensures Inv(Step(s, e))
    ensures e.Dispatch? && s.now < s.expiry ==> Step(s, e) == s.(waits := [Armed(s.expiry)])
  {
    if e.SetExpiry? || e.SetDuration? {
      assert s.waits != [] ==> Cancelled(s.waits) == [Ready];
    }
  }

  datatype Run = Start(time: int, initialExpiry: int) | Then(before: Run, e: Event, after: State) {
    function Last(): State {
      if Start? then State(time, initialExpiry, NoTimer, [], []) else after
    }

    ghost predicate Valid() {
      Then? ==> before.Valid() && Enabled(before.Last(), e) && after == Step(before.Last(), e)
    }

    /** The clock never goes back, as `steady_clock` does not. */
    predicate Monotone() {
      Then? ==> before.Monotone() && (e.Tick? ==> before.Last().now <= e.now)
    }

    predicate ExpirySet() {
      Then? && (e.SetExpiry? || e.SetDuration? || before.ExpirySet())
    }

    /** What the clock shows, by the events alone. */
    function Clock(): int {
      if Start? then time else if e.Tick? then e.now else before.Clock()
    }

    /** When the stream is to expire, by the events alone: the last call says it, either outright or
        counted from what the clock showed then. */
    function Due(): int {
      if Start? then initialExpiry
      else if e.SetExpiry? then e.expiry
      else if e.SetDuration? then before.Clock() + e.delta
      else before.Due()
    }
  }

  /** The protocol holds in every state of every run, whatever the clock does. */
  lemma {:induction false} ProtocolHolds(run: Run)
    requires run.Valid()
    ensures Inv(run.Last())
    ensures run.Last().timer == NoTimer <==> !run.ExpirySet()
    ensures forall i :: 0 <= i < |run.Last().closed| ==> run.Last().closed[i].1 <= run.Last().closed[i].0
  {
    if run.Then? {
      ProtocolHolds(run.before);
      StepKeepsInv(run.before.Last(), run.e);
    }
  }

  /** The expiry in force is the one that the last call has set. */
  lemma {:induction false} ExpiryIsDue(run: Run)
    requires run.Valid()
    ensures run.Last().now == run.Clock() && run.Last().expiry == run.Due()
  {
    if run.Then? {
      ExpiryIsDue(run.before);
    }
  }

  lemma {:induction false} ExpiredIsPast(run: Run)
    requires run.Valid() && run.Monotone()
    ensures run.Last().timer == TimerHasExpired ==> run.Last().expiry <= run.Last().now
  {
    if run.Then? {
      ExpiredIsPast(run.before);
      ProtocolHolds(run.before);
    }
  }

  /** With a clock that does not go back, an expired stream is past the expiry that was set last. */
  lemma ExpiredMeansPast(run: Run)
    requires run.Valid() && run.Monotone()
    ensures run.Last().timer == TimerHasExpired ==> run.Due() <= run.Clock()
  {
    ExpiredIsPast(run);
    ExpiryIsDue(run);
  }

  /** The service and the io_service have nothing left to do. */
  ghost predicate Quiescent(s: State) {
    forall k {:trigger Enabled(s, Fire(k))} {:trigger Enabled(s, Dispatch(k))} ::
      !Enabled(s, Fire(k)) && !Enabled(s, Dispatch(k))
  }

  /** The deadline is kept exactly: when nothing is left to run, the stream has expired if and only
      if the expiry that was set last has passed. */
  lemma DeadlineIsExact(run: Run)
    requires run.Valid() && run.Monotone() && run.ExpirySet() && Quiescent(run.Last())
    ensures run.Last().timer == TimerHasExpired <==> run.Due() <= run.Clock()
  {
    ProtocolHolds(run);
    ExpiredMeansPast(run);
    ExpiryIsDue(run);
    var s := run.Last();
    assert !Enabled(s, Fire(0)) && !Enabled(s, Dispatch(0));
  }

  /** At time 1000, 30 from now is 1030: the stream waits, and expires no sooner. */
  lemma ThirtyFromNow(s: State)
    requires s.now == 1000 && s.timer == NoTimer && s.waits == [] && s.closed == []
    ensures Step(s, SetDuration(30)) == State(1000, 1030, TimerIsPending, [Armed(1030)], [])
    ensures Step(s, SetExpiry(1030)) == Step(s, SetDuration(30))
    ensures Step(s, SetExpiry(1000)) == State(1000, 1000, TimerHasExpired, [], [(1000, 1000)])
  {
    assert Cancelled([]) == [];
  }

  /** Handlers alone cannot run for ever: at one time, at most one firing and one run. */
  function Work(s: State): nat {
    if s.timer != TimerIsPending || s.waits == [] then 0
    else if s.waits[0].Ready? then 1
    else if s.waits[0].at <= s.now then 2 else 0
  }

  lemma HandlersSettle(s: State, e: Event)
    requires Inv(s) && Enabled(s, e) && (e.Fire? || e.Dispatch?)
    ensures Work(Step(s, e)) < Work(s)
  {
  }
}
