/** The handshake between the cache update thread and the threads that invoke it by hand.
    Both condition variables share one mutex. A section an invoker runs under the mutex is one step;
    the update thread's sections are split, with the mutex kept across the steps. No wake-up is spurious. */
module CacheHandshake {
  import opened Common

  datatype Status = Pending | UpToDate | UpdateNeeded | Updated | UpdateFailed

  /** Where the update thread waits on its condition variable. */
  datatype Point = Top | AfterCheck | AfterLoad | AfterFail | AfterRefusal

  datatype Worker =
    | Loop                // outside the loop body, without the mutex
    | Parked(at: Point)   // waiting, without the mutex
    | Woken(at: Point)    // notified or timed out, about to take the mutex again
    | GetAccess           // the remaining ones hold the mutex
    | Check
    | Load
    | Release

  datatype Invoker =
    | Idle
    | Entering
    | Waiting(second: bool)
    | Notified(second: bool)
    | Returned(status: Status)

  datatype State = State(
    worker: Worker,
    invoked: bool,      // the update thread's copy of the flag
    flag: bool,         // m_invoked
    status: Status,     // m_cacheStatus
    upToDate: bool,     // m_upToDate
    access: bool,       // exclusive access held
    invokers: seq<Invoker>)

  datatype CheckOutcome = CheckThrew | Same | Changed
  /** `RolledBack` is a load that failed inside and restored the tables; `m_upToDate` may have been set by then. */
  datatype LoadOutcome = StageThrew | LoadedAll | RolledBack(upToDate: bool)

  datatype Event =
    | TakeTop | Timeout | Resume | Access(granted: bool) | Checked(check: CheckOutcome) | Loaded(load: LoadOutcome)
    | Released
    | Call(i: nat) | Enter(i: nat) | Collect(i: nat)

  // ---------------------------------------------------------------- steps

  predicate Locked(s: State) {
    s.worker.GetAccess? || s.worker.Check? || s.worker.Load? || s.worker.Release?
  }

  /** `periodic`: a check period is configured, so the wait at the top of the loop times out. */
  predicate Enabled(periodic: bool, s: State, e: Event) {
    match e
    case TakeTop => s.worker.Loop?
    case Timeout => periodic && s.worker == Parked(Top)
    case Resume => s.worker.Woken?
    case Access(_) => s.worker.GetAccess?
    case Checked(_) => s.worker.Check?
    case Loaded(_) => s.worker.Load?
    case Released => s.worker.Release?
    case Call(i) => i < |s.invokers| && (s.invokers[i].Idle? || s.invokers[i].Returned?)
    case Enter(i) => i < |s.invokers| && s.invokers[i].Entering? && !Locked(s)
    case Collect(i) => i < |s.invokers| && s.invokers[i].Notified? && !Locked(s)
  }

  function WakeWorker(w: Worker): Worker {
    if w.Parked? then Woken(w.at) else w
  }

  function Wake(v: Invoker): Invoker {
    if v.Waiting? then Notified(v.second) else v
  }

  function WakeInvokers(vs: seq<Invoker>): (r: seq<Invoker>)
    ensures |r| == |vs| && forall i :: 0 <= i < |vs| ==> r[i] == Wake(vs[i])
  {
    seq(|vs|, i requires 0 <= i < |vs| => Wake(vs[i]))
  }

  /** After a status is known: an invoked round tells the invoker and waits, any other goes on. */
  function Report(s: State, at: Point, otherwise: Worker): State {
    if s.invoked then s.(worker := Parked(at), invokers := WakeInvokers(s.invokers)) else s.(worker := otherwise)
  }

  function Next(periodic: bool, s: State, e: Event): State
    requires Enabled(periodic, s, e)
  {
    match e
    case TakeTop => s.(worker := Parked(Top))
    case Timeout => s.(worker := Woken(Top))
    case Resume => (
      match s.worker.at
      case Top => s.(worker := GetAccess, invoked := s.flag, status := Pending)
      case AfterCheck => s.(worker := if s.upToDate then Release else Load)
      case AfterLoad => s.(worker := Release)
      case AfterFail => s.(worker := Release)
      case AfterRefusal => s.(worker := Loop))
    case Access(granted) =>
      if granted then s.(worker := Check, access := true)
      else Report(s.(status := UpdateFailed), AfterRefusal, Loop)
    case Checked(CheckThrew) => Report(s.(status := UpdateFailed), AfterFail, Release)
    case Checked(Same) => Report(s.(status := UpToDate, upToDate := true), AfterCheck, Release)
    case Checked(Changed) => Report(s.(status := UpdateNeeded, upToDate := false), AfterCheck, Load)
    case Loaded(StageThrew) => Report(s.(status := UpdateFailed), AfterFail, Release)
    case Loaded(LoadedAll) => Report(s.(status := Updated, upToDate := true), AfterLoad, Release)
    case Loaded(RolledBack(b)) => Report(s.(status := UpdateFailed, upToDate := b), AfterLoad, Release)
    case Released => s.(worker := Loop, access := false)
    case Call(i) => s.(invokers := s.invokers[i := Entering])
    case Enter(i) => s.(flag := true, worker := WakeWorker(s.worker), invokers := s.invokers[i := Waiting(false)])
    case Collect(i) =>
      if !s.invokers[i].second && s.status == UpdateNeeded
      then s.(worker := WakeWorker(s.worker), invokers := s.invokers[i := Waiting(true)])
      else s.(flag := false, worker := WakeWorker(s.worker), invokers := s.invokers[i := Returned(s.status)])
  }

  // ---------------------------------------------------------------- runs

  predicate Runs(periodic: bool, s: State, es: seq<Event>)
    decreases |es|
  {
    es == [] || (Enabled(periodic, s, es[0]) && Runs(periodic, Next(periodic, s, es[0]), es[1..]))
  }

  function After(periodic: bool, s: State, es: seq<Event>): State
    requires Runs(periodic, s, es)
    decreases |es|
  {
    if es == [] then s else After(periodic, Next(periodic, s, es[0]), es[1..])
  }

  /** The thread has just been started; the first load left some status that is not PENDING. */
  ghost predicate Initial(s: State) {
    && s.worker == Loop && !s.invoked && !s.flag && !s.access && s.status != Pending
    && forall i :: 0 <= i < |s.invokers| ==> s.invokers[i] == Idle
  }

  // ---------------------------------------------------------------- any number of invokers

  ghost predicate Safe(s: State) {
    && (s.status == Pending ==> s.worker.GetAccess? || s.worker.Check?)
    && (s.access <==> s.worker.Check? || s.worker.Load? || s.worker.Release?
                      || ((s.worker.Parked? || s.worker.Woken?) && s.worker.at in {AfterCheck, AfterLoad, AfterFail}))
  }

  /** The step is one of an invoker. */
  predicate ByInvoker(e: Event) {
    e.Call? || e.Enter? || e.Collect?
  }

  lemma SafeStep(periodic: bool, s: State, e: Event)
    requires Safe(s) && Enabled(periodic, s, e)
    ensures Safe(Next(periodic, s, e))
  {
    if ByInvoker(e) {
      SafeInvoker(periodic, s, e);
    } else if e.Checked? || e.Loaded? {
      SafeOutcome(periodic, s, e);
    } else {
      SafeWorker(periodic, s, e);
    }
  }

  lemma SafeInvoker(periodic: bool, s: State, e: Event)
    requires Safe(s) && Enabled(periodic, s, e) && ByInvoker(e)
    ensures Safe(Next(periodic, s, e))
  {
  }

  lemma SafeOutcome(periodic: bool, s: State, e: Event)
    requires Safe(s) && Enabled(periodic, s, e) && (e.Checked? || e.Loaded?)
    ensures Safe(Next(periodic, s, e))
  {
  }

  lemma SafeWorker(periodic: bool, s: State, e: Event)
    requires Safe(s) && Enabled(periodic, s, e) && !ByInvoker(e) && !e.Checked? && !e.Loaded?
    ensures Safe(Next(periodic, s, e))
  {
  }

  /** The start is safe, however many threads may invoke. */
  lemma SafeInitially(s: State)
    requires Initial(s)
    ensures Safe(s)
  {
  }

  lemma {:induction false} SafeAlways(periodic: bool, s: State, es: seq<Event>)
    requires Safe(s) && Runs(periodic, s, es)
    ensures Safe(After(periodic, s, es))
    decreases |es|
  {
    if es != [] {
      SafeStep(periodic, s, es[0]);
      SafeAlways(periodic, Next(periodic, s, es[0]), es[1..]);
    }
  }

  /** However many threads invoke, over every run: PENDING is seen by nobody but the update thread, and it holds no
      exclusive access while it waits at the top of its loop. */
  lemma AlwaysSafe(periodic: bool, s: State, es: seq<Event>)
    requires Initial(s) && Runs(periodic, s, es)
    ensures var s' := After(periodic, s, es);
            && (!Locked(s') ==> s'.status != Pending)
            && (s'.worker.Loop? || s'.worker == Parked(Top) || s'.worker == Woken(Top) ==> !s'.access)
  {
    SafeInitially(s);
    SafeAlways(periodic, s, es);
  }

  // ---------------------------------------------------------------- one invoker at a time

  predicate Final(status: Status) {
    status == UpToDate || status == Updated || status == UpdateFailed
  }

  predicate Active(v: Invoker) {
    v.Waiting? || v.Notified?
  }

  ghost predicate Inv(s: State) {
    && |s.invokers| == 1
    && Safe(s)
    && var v := s.invokers[0];
    && (s.flag <==> Active(v))
    && (v.Returned? ==> Final(v.status))
    && (v.Notified? <==> s.worker.Parked? && s.worker.at != Top)
    && (v == Waiting(true) <==> s.invoked && (s.worker.Load? || (s.worker == Woken(AfterCheck) && !s.upToDate)))
    && (s.worker == Woken(AfterCheck) && !s.upToDate ==> s.invoked)
    && (s.worker.GetAccess? || s.worker.Check? ==> (s.invoked <==> v == Waiting(false)))
    && (s.worker.Load? ==> (s.invoked <==> Active(v)))
    && (s.worker.Parked? ==>
          match s.worker.at
          case Top => true
          case AfterCheck => v == Notified(false) && s.invoked &&
              s.status == (if s.upToDate then UpToDate else UpdateNeeded)
          case AfterLoad => v == Notified(true) && s.status in {Updated, UpdateFailed}
          case AfterFail => s.status == UpdateFailed
          case AfterRefusal => v == Notified(false) && s.status == UpdateFailed)
  }

  lemma InvInitially(s: State)
    requires Initial(s) && |s.invokers| == 1
    ensures Inv(s)
  {
  }

  lemma InvStep(periodic: bool, s: State, e: Event)
    requires Inv(s) && Enabled(periodic, s, e)
    ensures Inv(Next(periodic, s, e))
  {
    if ByInvoker(e) {
      InvokerKeepsInv(periodic, s, e);
    } else if e.Checked? || e.Loaded? {
      OutcomeKeepsInv(periodic, s, e);
    } else {
      WorkerKeepsInv(periodic, s, e);
    }
  }

  lemma InvokerKeepsInv(periodic: bool, s: State, e: Event)
    requires Inv(s) && Enabled(periodic, s, e) && ByInvoker(e)
    ensures Inv(Next(periodic, s, e))
  {
    SafeStep(periodic, s, e);
    assert e.i == 0;
  }

  lemma OutcomeKeepsInv(periodic: bool, s: State, e: Event)
    requires Inv(s) && Enabled(periodic, s, e) && (e.Checked? || e.Loaded?)
    ensures Inv(Next(periodic, s, e))
  {
    SafeStep(periodic, s, e);
    assert WakeInvokers(s.invokers)[0] == Wake(s.invokers[0]);
  }

  lemma WorkerKeepsInv(periodic: bool, s: State, e: Event)
    requires Inv(s) && Enabled(periodic, s, e) && !ByInvoker(e) && !e.Checked? && !e.Loaded?
    ensures Inv(Next(periodic, s, e))
  {
    SafeStep(periodic, s, e);
    assert WakeInvokers(s.invokers)[0] == Wake(s.invokers[0]);
  }

  lemma {:induction false} InvAlways(periodic: bool, s: State, es: seq<Event>)
    requires Inv(s) && Runs(periodic, s, es)
    ensures Inv(After(periodic, s, es))
    decreases |es|
  {
    if es != [] {
      InvStep(periodic, s, es[0]);
      InvAlways(periodic, Next(periodic, s, es[0]), es[1..]);
    }
  }

  /** With one invoker at a time, an invocation never returns PENDING or UPDATE_NEEDED. */
  lemma ReturnsFinalStatus(periodic: bool, s: State, es: seq<Event>)
    requires Initial(s) && |s.invokers| == 1 && Runs(periodic, s, es)
    ensures var v := After(periodic, s, es).invokers; |v| == 1 && (v[0].Returned? ==> Final(v[0].status))
  {
    InvInitially(s);
    InvAlways(periodic, s, es);
  }

  // ---------------------------------------------------------------- what an invocation is told

  /** The outcome of a step of the update thread that a status depends on. */
  predicate Decides(e: Event) {
    e == Access(false) || e.Checked? || e.Loaded?
  }

  /** What has been decided since the last invocation began, if anything, when `d` was before. */
  ghost function Decided(d: Option<Event>, es: seq<Event>): Option<Event> {
    if es == [] then d
    else
      var e := es[|es| - 1];
      if Decides(e) then Some(e) else if e.Enter? then None else Decided(d, es[..|es| - 1])
  }

  /** `es[k]` is the last outcome of the run, and no invocation began after it. */
  ghost predicate LastOutcome(es: seq<Event>, k: nat) {
    k < |es| && Decides(es[k]) && forall j :: k < j < |es| ==> !Decides(es[j]) && !es[j].Enter?
  }

  lemma {:induction false} DecidedIff(es: seq<Event>, e: Event)
    ensures Decided(None, es) == Some(e) <==> exists k: nat :: LastOutcome(es, k) && es[k] == e
  {
    if es != [] {
      var n := |es| - 1;
      DecidedIff(es[..n], e);
      if Decides(es[n]) {
        assert LastOutcome(es, n);
      } else if !es[n].Enter? {
        forall k: nat ensures LastOutcome(es, k) <==> LastOutcome(es[..n], k) {
          OutcomeKept(es, k);
        }
      }
    }
  }

  lemma OutcomeKept(es: seq<Event>, k: nat)
    requires es != [] && !Decides(es[|es| - 1]) && !es[|es| - 1].Enter?
    ensures LastOutcome(es, k) <==> LastOutcome(es[..|es| - 1], k)
  {
    var n := |es| - 1;
    assert forall j :: 0 <= j < n ==> es[..n][j] == es[j];
  }

  lemma {:induction false} DecidedFrom(d: Option<Event>, e: Event, es: seq<Event>)
    ensures Decided(d, [e] + es) == Decided(Decided(d, [e]), es)
  {
    var all := [e] + es;
    if es == [] {
      assert all == [e];
    } else {
      assert all[..|all| - 1] == [e] + es[..|es| - 1];
      DecidedFrom(d, e, es[..|es| - 1]);
    }
  }

  /** What the one invoker may be told, given what has been decided since it set the flag. */
  ghost predicate Told(s: State, d: Option<Event>) {
    && |s.invokers| == 1
    && match s.invokers[0]
       case Waiting(second) => d == if second then Some(Checked(Changed)) else None
       case Notified(second) =>
         d.Some? && Decides(d.value) && (second <==> d.value.Loaded?) &&
         s.status == (
           match d.value
           case Checked(Same) => UpToDate
           case Checked(Changed) => UpdateNeeded
           case Loaded(LoadedAll) => Updated
           case _ => UpdateFailed)
       case _ => true
  }

  lemma ToldInvoker(periodic: bool, s: State, d: Option<Event>, e: Event)
    requires Inv(s) && Told(s, d) && Enabled(periodic, s, e) && ByInvoker(e)
    ensures Told(Next(periodic, s, e), if e.Enter? then None else d)
  {
    assert e.i == 0;
  }

  lemma ToldOutcome(periodic: bool, s: State, d: Option<Event>, e: Event)
    requires Inv(s) && Told(s, d) && Enabled(periodic, s, e) && Decides(e)
    ensures Told(Next(periodic, s, e), Some(e))
  {
    assert WakeInvokers(s.invokers)[0] == Wake(s.invokers[0]);
  }

  lemma ToldOther(periodic: bool, s: State, d: Option<Event>, e: Event)
    requires Inv(s) && Told(s, d) && Enabled(periodic, s, e) && !Decides(e) && !ByInvoker(e)
    ensures Told(Next(periodic, s, e), d)
  {
  }

  lemma ToldStep(periodic: bool, s: State, d: Option<Event>, e: Event)
    requires Inv(s) && Told(s, d) && Enabled(periodic, s, e)
    ensures Told(Next(periodic, s, e), Decided(d, [e]))
  {
    assert [e][..0] == [];
    if ByInvoker(e) {
      ToldInvoker(periodic, s, d, e);
    } else if Decides(e) {
      ToldOutcome(periodic, s, d, e);
    } else {
      ToldOther(periodic, s, d, e);
    }
  }

  lemma {:induction false} ToldAlways(periodic: bool, s: State, d: Option<Event>, es: seq<Event>)
    requires Inv(s) && Told(s, d) && Runs(periodic, s, es)
    ensures Told(After(periodic, s, es), Decided(d, es))
    decreases |es|
  {
    if es != [] {
      var s' := Next(periodic, s, es[0]);
      InvStep(periodic, s, es[0]);
      ToldStep(periodic, s, d, es[0]);
      ToldAlways(periodic, s', Decided(d, [es[0]]), es[1..]);
      assert es == [es[0]] + es[1..];
      DecidedFrom(d, es[0], es[1..]);
    }
  }

  /** With one invoker at a time, over every run: when the invoker looks, something has been decided since it called. It
      is told UP_TO_DATE exactly when that was an unchanged remote, UPDATED exactly when it was a complete load,
      UPDATE_FAILED exactly for any other end, and it waits for the load exactly when the remote had changed. */
  lemma AnswerIff(periodic: bool, s: State, es: seq<Event>)
    requires Initial(s) && |s.invokers| == 1 && Runs(periodic, s, es)
    requires Enabled(periodic, After(periodic, s, es), Collect(0))
    ensures var d, v := Decided(None, es), Next(periodic, After(periodic, s, es), Collect(0)).invokers[0];
      && d.Some?
      && (v == Returned(UpToDate) <==> d.value == Checked(Same))
      && (v == Returned(Updated) <==> d.value == Loaded(LoadedAll))
      && (v == Returned(UpdateFailed) <==>
            d.value == Access(false) || d.value == Checked(CheckThrew) || (d.value.Loaded? && !d.value.load.LoadedAll?))
      && (v == Waiting(true) <==> d.value == Checked(Changed))
      && (v.Returned? || v == Waiting(true))
  {
    InvInitially(s);
    InvAlways(periodic, s, es);
    ToldAlways(periodic, s, None, es);
  }

  // ---------------------------------------------------------------- the steps of a round

  /** The step belongs to a round of the update thread, other than waiting. */
  predicate OfRound(e: Event) {
    e.Access? || e.Checked? || e.Loaded? || e.Released?
  }

  /** A round checks after it got access, loads after a check found a change and only then, and ends by giving access
      back, unless it was refused. */
  predicate Follows(last: Option<Event>, e: Event) {
    match e
    case Access(_) => last == None || last == Some(Access(false)) || last == Some(Released)
    case Checked(_) => last == Some(Access(true))
    case Loaded(_) => last == Some(Checked(Changed))
    case Released =>
      last.Some? && (last.value.Loaded? || last.value == Checked(Same) || last.value == Checked(CheckThrew))
    case _ => true
  }

  /** The last step of a round after another one. */
  function LastAfter(last: Option<Event>, e: Event): Option<Event> {
    if OfRound(e) then Some(e) else last
  }

  ghost predicate Ordered(last: Option<Event>, es: seq<Event>)
    decreases |es|
  {
    es == [] || (Follows(last, es[0]) && Ordered(LastAfter(last, es[0]), es[1..]))
  }

  /** Where the update thread is, given the last step of its rounds. */
  ghost predicate At(s: State, last: Option<Event>) {
    match s.worker
    case Check => last == Some(Access(true))
    case Load => last == Some(Checked(Changed))
    case Release => Follows(last, Released)
    case GetAccess => Follows(last, Access(true))
    case Loop => Follows(last, Access(true))
    case Parked(at) => Waits(s, at, last)
    case Woken(at) => Waits(s, at, last)
  }

  ghost predicate Waits(s: State, at: Point, last: Option<Event>) {
    match at
    case Top => Follows(last, Access(true))
    case AfterCheck => last == Some(Checked(if s.upToDate then Same else Changed))
    case AfterLoad => Follows(last, Released)
    case AfterFail => Follows(last, Released)
    case AfterRefusal => Follows(last, Access(true))
  }

  lemma AtInvoker(periodic: bool, s: State, last: Option<Event>, e: Event)
    requires At(s, last) && Enabled(periodic, s, e) && ByInvoker(e)
    ensures Follows(last, e) && At(Next(periodic, s, e), last)
  {
  }

  lemma AtWait(periodic: bool, s: State, last: Option<Event>, e: Event)
    requires At(s, last) && Enabled(periodic, s, e) && (e.TakeTop? || e.Timeout? || e.Resume?)
    ensures Follows(last, e) && At(Next(periodic, s, e), last)
  {
  }

  lemma AtCheck(periodic: bool, s: State, last: Option<Event>, e: Event)
    requires At(s, last) && Enabled(periodic, s, e) && e.Checked?
    ensures Follows(last, e) && At(Next(periodic, s, e), Some(e))
  {
  }

  lemma AtLoad(periodic: bool, s: State, last: Option<Event>, e: Event)
    requires At(s, last) && Enabled(periodic, s, e) && e.Loaded?
    ensures Follows(last, e) && At(Next(periodic, s, e), Some(e))
  {
  }

  lemma AtAccess(periodic: bool, s: State, last: Option<Event>, e: Event)
    requires At(s, last) && Enabled(periodic, s, e) && (e.Access? || e.Released?)
    ensures Follows(last, e) && At(Next(periodic, s, e), Some(e))
  {
  }

  lemma AtStep(periodic: bool, s: State, last: Option<Event>, e: Event)
    requires At(s, last) && Enabled(periodic, s, e)
    ensures Follows(last, e) && At(Next(periodic, s, e), LastAfter(last, e))
  {
    if ByInvoker(e) {
      AtInvoker(periodic, s, last, e);
    } else if e.TakeTop? || e.Timeout? || e.Resume? {
      AtWait(periodic, s, last, e);
    } else if e.Checked? {
      AtCheck(periodic, s, last, e);
    } else if e.Loaded? {
      AtLoad(periodic, s, last, e);
    } else {
      AtAccess(periodic, s, last, e);
    }
  }

  lemma {:induction false} OrderedFrom(periodic: bool, s: State, last: Option<Event>, es: seq<Event>)
    requires At(s, last) && Runs(periodic, s, es)
    ensures Ordered(last, es)
    decreases |es|
  {
    if es != [] {
      AtStep(periodic, s, last, es[0]);
      OrderedFrom(periodic, Next(periodic, s, es[0]), LastAfter(last, es[0]), es[1..]);
    }
  }

  /** However many threads invoke, over every run, with or without an invocation: a change found is loaded before
      anything else happens in the round, nothing is loaded without one, and access is given back before the next. */
  lemma RoundsOrdered(periodic: bool, s: State, es: seq<Event>)
    requires Initial(s) && Runs(periodic, s, es)
    ensures Ordered(None, es)
  {
    OrderedFrom(periodic, s, None, es);
  }

  // ---------------------------------------------------------------- every invocation completes

  /** Steps left, at most, before an invocation that has set the flag returns. */
  function Rank(s: State): nat
    requires |s.invokers| == 1
  {
    match s.invokers[0]
    case Notified(second) => if second then 1 else 4
    case Waiting(true) => if s.worker.Load? then 2 else 3
    case Waiting(false) => (
      match s.worker
      case Check => 5
      case GetAccess => 6
      case Woken(at) => if at == Top then 7 else if at == AfterRefusal then 10 else 11
      case Parked(_) => 8
      case Loop => 9
      case Release => 10
      case Load => 0)
    case _ => 0
  }

  /** The state from which an invocation cannot be answered without a timeout: nobody is left to wake the thread. */
  predicate Missed(s: State)
    requires |s.invokers| == 1
  {
    s.invokers[0] == Waiting(false) &&
    (s.worker.Loop? || s.worker == Parked(Top) || s.worker.Release? || (s.worker.Woken? && s.worker.at != Top))
  }

  lemma RankDecreases(periodic: bool, s: State, e: Event)
    requires Inv(s) && Active(s.invokers[0]) && Enabled(periodic, s, e)
    ensures var s' := Next(periodic, s, e); s'.invokers[0].Returned? || (Active(s'.invokers[0]) && Rank(s') < Rank(s))
  {
    InvStep(periodic, s, e);
    if e.Call? || e.Enter? || e.Collect? {
      assert s.invokers[0] == s.invokers[e.i];
    }
  }

  /** Something can happen without a new call. */
  ghost predicate CanStep(periodic: bool, s: State) {
    exists e :: Enabled(periodic, s, e) && !e.Call?
  }

  /** Some step is always possible while an invocation is under way, except in one state without a period. */
  lemma Progress(periodic: bool, s: State)
    requires Inv(s) && Active(s.invokers[0])
    ensures CanStep(periodic, s) <==> periodic || s.worker != Parked(Top)
  {
    if s.worker.Parked? {
      if s.worker.at == Top {
        if periodic { assert Enabled(periodic, s, Timeout); }
      } else {
        assert Enabled(periodic, s, Collect(0));
      }
    } else {
      var e := match s.worker
        case Loop => TakeTop case Woken(_) => Resume case GetAccess => Access(true)
        case Check => Checked(Same) case Load => Loaded(LoadedAll) case Release => Released case Parked(_) => Timeout;
      assert Enabled(periodic, s, e);
    }
  }

  /** Somewhere along the run invoker `i` returns. */
  predicate Answered(periodic: bool, s: State, es: seq<Event>, i: nat)
    requires Runs(periodic, s, es)
    decreases |es|
  {
    && i < |s.invokers|
    && (s.invokers[i].Returned? || (es != [] && Answered(periodic, Next(periodic, s, es[0]), es[1..], i)))
  }

  /** Every run of an invocation that has set the flag returns within eleven steps, whatever the interleaving and
      whatever fails; with a period some step is always possible, so no invocation hangs. */
  lemma {:induction false} InvocationCompletes(periodic: bool, s: State, es: seq<Event>)
    requires Inv(s) && Active(s.invokers[0]) && Runs(periodic, s, es) && |es| >= Rank(s)
    ensures Rank(s) <= 11 && Answered(periodic, s, es, 0)
    decreases |es|
  {
    RankDecreases(periodic, s, es[0]);
    InvStep(periodic, s, es[0]);
    var s' := Next(periodic, s, es[0]);
    if !s'.invokers[0].Returned? {
      InvocationCompletes(periodic, s', es[1..]);
    }
  }

  /** The thread just started, with one invoker. */
  const FRESH: State := State(Loop, false, false, Updated, true, false, [Idle])

  // ---------------------------------------------------------------- without a period: exactly when a wake-up is lost

  lemma MissedStep(s: State, e: Event)
    requires Inv(s) && Missed(s) && Enabled(false, s, e)
    ensures Missed(Next(false, s, e))
  {
    InvStep(false, s, e);
  }

  lemma {:induction false} MissedForever(s: State, es: seq<Event>)
    requires Inv(s) && Missed(s) && Runs(false, s, es)
    ensures !Answered(false, s, es, 0)
    decreases |es|
  {
    if es != [] {
      MissedStep(s, es[0]);
      InvStep(false, s, es[0]);
      MissedForever(Next(false, s, es[0]), es[1..]);
    }
  }

  lemma FoundStep(s: State, e: Event)
    requires Inv(s) && Active(s.invokers[0]) && !Missed(s) && Enabled(false, s, e)
    ensures var s' := Next(false, s, e); s'.invokers[0].Returned? || !Missed(s')
  {
    InvStep(false, s, e);
  }

  /** Without a period, an invocation that finds the thread waiting at the top of its loop can always go on until it
      returns; one that finds it anywhere else never returns, in no run. */
  lemma LostWakeUpIff(s: State)
    requires Inv(s) && Enabled(false, s, Enter(0))
    ensures var s' := Next(false, s, Enter(0));
            && Missed(s') == !((s.worker.Parked? || s.worker.Woken?) && s.worker.at == Top)
            && (Missed(s') ==> forall es :: Runs(false, s', es) ==> !Answered(false, s', es, 0))
            && (!Missed(s') ==> forall es :: Runs(false, s', es) ==>
                Answered(false, s', es, 0) || CanStep(false, After(false, s', es)))
  {
    var s' := Next(false, s, Enter(0));
    InvStep(false, s, Enter(0));
    if Missed(s') {
      forall es | Runs(false, s', es) ensures !Answered(false, s', es, 0) { MissedForever(s', es); }
    } else {
      forall es | Runs(false, s', es)
        ensures Answered(false, s', es, 0) || CanStep(false, After(false, s', es))
      {
        FoundGoesOn(s', es);
      }
    }
  }

  /** An invocation before the thread first waits is lost: no run from there answers it. */
  lemma LostWakeUpExample(s: State)
    requires s == State(Loop, false, false, Updated, true, false, [Entering])
    ensures Enabled(false, FRESH, Call(0)) && s == Next(false, FRESH, Call(0)) && Enabled(false, s, Enter(0))
    ensures var s' := Next(false, s, Enter(0)); forall es :: Runs(false, s', es) ==> !Answered(false, s', es, 0)
  {
    InvInitially(FRESH);
    InvStep(false, FRESH, Call(0));
    LostWakeUpIff(s);
  }

  lemma {:induction false} FoundGoesOn(s: State, es: seq<Event>)
    requires Inv(s) && Active(s.invokers[0]) && !Missed(s) && Runs(false, s, es)
    ensures Answered(false, s, es, 0) || CanStep(false, After(false, s, es))
    decreases |es|
  {
    if es == [] {
      Progress(false, s);
      assert After(false, s, es) == s;
    } else {
      FoundStep(s, es[0]);
      RankDecreases(false, s, es[0]);
      InvStep(false, s, es[0]);
      var s' := Next(false, s, es[0]);
      if !s'.invokers[0].Returned? {
        FoundGoesOn(s', es[1..]);
        assert After(false, s, es) == After(false, s', es[1..]);
      }
    }
  }

  // ---------------------------------------------------------------- several invokers at a time

  /** The second invoker waits for an answer nobody owes it: the flag it set has been cleared, and the update thread
      does not take its round for an invoked one. */
  ghost predicate Orphaned(s: State) {
    && |s.invokers| >= 2
    && s.invokers[1] == Waiting(false)
    && (forall i :: 0 <= i < |s.invokers| && i != 1 ==> !Active(s.invokers[i]) && !s.invokers[i].Entering?)
    && !s.flag
    && (s.worker.GetAccess? || s.worker.Check? || s.worker.Load? ==> !s.invoked)
    && (s.worker.Parked? ==> s.worker.at == Top)
    && (s.worker == Woken(AfterCheck) ==> s.upToDate)
  }

  lemma OrphanedStep(periodic: bool, s: State, e: Event)
    requires Orphaned(s) && Enabled(periodic, s, e) && !e.Call?
    ensures Orphaned(Next(periodic, s, e))
  {
  }

  /** An orphaned invoker is never answered, however long the others run, until somebody calls again. */
  lemma {:induction false} OrphanedForever(periodic: bool, s: State, es: seq<Event>)
    requires Orphaned(s) && Runs(periodic, s, es) && forall k :: 0 <= k < |es| ==> !es[k].Call?
    ensures Orphaned(After(periodic, s, es))
    decreases |es|
  {
    if es != [] {
      OrphanedStep(periodic, s, es[0]);
      OrphanedForever(periodic, Next(periodic, s, es[0]), es[1..]);
    }
  }

  ghost predicate Reachable(periodic: bool, s0: State, s: State) {
    exists es :: Runs(periodic, s0, es) && After(periodic, s0, es) == s
  }

  lemma Reach(periodic: bool, s0: State, s: State, e: Event, s': State)
    requires Reachable(periodic, s0, s) && Enabled(periodic, s, e) && s' == Next(periodic, s, e)
    ensures Reachable(periodic, s0, s')
  {
    var es :| Runs(periodic, s0, es) && After(periodic, s0, es) == s;
    RunsSnoc(periodic, s0, es, e);
    assert Runs(periodic, s0, es + [e]);
  }

  lemma {:induction false} RunsSnoc(periodic: bool, s: State, es: seq<Event>, e: Event)
    requires Runs(periodic, s, es) && Enabled(periodic, After(periodic, s, es), e)
    ensures Runs(periodic, s, es + [e])
    ensures After(periodic, s, es + [e]) == Next(periodic, After(periodic, s, es), e)
    decreases |es|
  {
    if es == [] {
      assert (es + [e])[1..] == [];
    } else {
      assert (es + [e])[1..] == es[1..] + [e];
      RunsSnoc(periodic, Next(periodic, s, es[0]), es[1..], e);
    }
  }

  ghost predicate AllIdle(rest: seq<Invoker>) {
    forall i :: 0 <= i < |rest| ==> rest[i] == Idle
  }

  /** Two invokers, and further ones that never call. */
  function Pair(v: Invoker, w: Invoker, rest: seq<Invoker>): seq<Invoker> {
    [v, w] + rest
  }

  lemma WakePair(v: Invoker, w: Invoker, rest: seq<Invoker>)
    requires AllIdle(rest)
    ensures WakeInvokers(Pair(v, w, rest)) == Pair(Wake(v), Wake(w), rest)
  {
  }

  function StartWith(rest: seq<Invoker>): State {
    State(Loop, false, false, Updated, true, false, Pair(Idle, Idle, rest))
  }

  /** A first invocation reaches the point where its status is known. */
  lemma FirstInvocation(periodic: bool, same: bool, rest: seq<Invoker>, s: State)
    requires AllIdle(rest)
    requires s == State(Parked(AfterCheck), true, true, if same then UpToDate else UpdateNeeded, same, true,
                        Pair(Notified(false), Idle, rest))
    ensures Reachable(periodic, StartWith(rest), s)
  {
    var s0 := StartWith(rest);
    assert Runs(periodic, s0, []) && After(periodic, s0, []) == s0;
    var s1 := s0.(worker := Parked(Top));
    Reach(periodic, s0, s0, TakeTop, s1);
    Invoked(periodic, s0, s1, 0);
    assert s1.invokers[0 := Waiting(false)] == Pair(Waiting(false), Idle, rest);
    var s4 := s1.(worker := GetAccess, flag := true, invoked := true, status := Pending,
                  invokers := Pair(Waiting(false), Idle, rest));
    var s5 := s4.(worker := Check, access := true);
    Reach(periodic, s0, s4, Access(true), s5);
    WakePair(Waiting(false), Idle, rest);
    Reach(periodic, s0, s5, Checked(if same then Same else Changed), s);
  }

  /** An invoker calls while the thread waits at the top of its loop, and the thread takes the round. */
  lemma Invoked(periodic: bool, s0: State, s: State, i: nat)
    requires Reachable(periodic, s0, s) && s.worker == Parked(Top) && i < |s.invokers|
    requires s.invokers[i].Idle? || s.invokers[i].Returned?
    ensures Reachable(periodic, s0, s.(worker := GetAccess, flag := true, invoked := true, status := Pending,
                                       invokers := s.invokers[i := Waiting(false)]))
  {
    var s2 := s.(invokers := s.invokers[i := Entering]);
    Reach(periodic, s0, s, Call(i), s2);
    var s3 := s2.(flag := true, worker := Woken(Top), invokers := s.invokers[i := Waiting(false)]);
    assert s2.invokers[i := Waiting(false)] == s3.invokers;
    Reach(periodic, s0, s2, Enter(i), s3);
    Reach(periodic, s0, s3, Resume, s3.(worker := GetAccess, invoked := true, status := Pending));
  }

  /** Even with a period, two overlapping invocations can leave one of them orphaned, whoever else stands by. */
  lemma OverlappingInvocationLost(periodic: bool, rest: seq<Invoker>, s: State)
    requires AllIdle(rest)
    requires s == State(Woken(AfterCheck), true, false, UpToDate, true, true,
                        Pair(Returned(UpToDate), Waiting(false), rest))
    ensures Reachable(periodic, StartWith(rest), s) && Orphaned(s)
  {
    var s0 := StartWith(rest);
    var s6 := State(Parked(AfterCheck), true, true, UpToDate, true, true, Pair(Notified(false), Idle, rest));
    FirstInvocation(periodic, true, rest, s6);
    var s7 := s6.(invokers := Pair(Notified(false), Entering, rest));
    assert s6.invokers[1 := Entering] == s7.invokers;
    Reach(periodic, s0, s6, Call(1), s7);
    var s8 := s7.(worker := Woken(AfterCheck), invokers := Pair(Notified(false), Waiting(false), rest));
    assert s7.invokers[1 := Waiting(false)] == s8.invokers;
    Reach(periodic, s0, s7, Enter(1), s8);
    assert s8.invokers[0 := Returned(UpToDate)] == s.invokers;
    Reach(periodic, s0, s8, Collect(0), s);
  }

  /** And an invocation can return UPDATE_NEEDED when a second one overtakes it, whoever else stands by. */
  lemma OverlappingInvocationUnfinished(periodic: bool, rest: seq<Invoker>, s: State)
    requires AllIdle(rest)
    requires s == State(Woken(AfterCheck), true, false, UpdateNeeded, false, true,
                        Pair(Returned(UpdateNeeded), Notified(false), rest))
    ensures Reachable(periodic, StartWith(rest), s)
  {
    var s0 := StartWith(rest);
    var s6 := State(Parked(AfterCheck), true, true, UpdateNeeded, false, true, Pair(Notified(false), Idle, rest));
    FirstInvocation(periodic, false, rest, s6);
    var s7 := s6.(worker := Woken(AfterCheck), invokers := Pair(Waiting(true), Idle, rest));
    assert s6.invokers[0 := Waiting(true)] == s7.invokers;
    Reach(periodic, s0, s6, Collect(0), s7);
    SecondJoins(periodic, rest, s7);
    Overtaken(periodic, rest, s);
  }

  /** The state in which both invokers are told about the load. */
  function BothTold(rest: seq<Invoker>): State {
    State(Parked(AfterLoad), true, true, Updated, true, true, Pair(Notified(true), Notified(false), rest))
  }

  lemma SecondJoins(periodic: bool, rest: seq<Invoker>, s7: State)
    requires AllIdle(rest) && Reachable(periodic, StartWith(rest), s7)
    requires s7 == State(Woken(AfterCheck), true, true, UpdateNeeded, false, true, Pair(Waiting(true), Idle, rest))
    ensures Reachable(periodic, StartWith(rest), BothTold(rest))
  {
    var s0 := StartWith(rest);
    var s8 := s7.(invokers := Pair(Waiting(true), Entering, rest));
    assert s7.invokers[1 := Entering] == s8.invokers;
    Reach(periodic, s0, s7, Call(1), s8);
    var s9 := s8.(invokers := Pair(Waiting(true), Waiting(false), rest));
    assert s8.invokers[1 := Waiting(false)] == s9.invokers;
    Reach(periodic, s0, s8, Enter(1), s9);
    var s10 := s9.(worker := Load);
    Reach(periodic, s0, s9, Resume, s10);
    WakePair(Waiting(true), Waiting(false), rest);
    Reach(periodic, s0, s10, Loaded(LoadedAll), BothTold(rest));
  }

  lemma Overtaken(periodic: bool, rest: seq<Invoker>, s: State)
    requires AllIdle(rest) && Reachable(periodic, StartWith(rest), BothTold(rest))
    requires s == State(Woken(AfterCheck), true, false, UpdateNeeded, false, true,
                        Pair(Returned(UpdateNeeded), Notified(false), rest))
    ensures Reachable(periodic, StartWith(rest), s)
  {
    var s0, s11 := StartWith(rest), BothTold(rest);
    var s12 := s11.(worker := Woken(AfterLoad), flag := false,
        invokers := Pair(Notified(true), Returned(Updated), rest));
    assert s11.invokers[1 := Returned(Updated)] == s12.invokers;
    Reach(periodic, s0, s11, Collect(1), s12);
    var s13 := s12.(worker := Release);
    Reach(periodic, s0, s12, Resume, s13);
    var s14 := s13.(worker := Loop, access := false);
    Reach(periodic, s0, s13, Released, s14);
    var s15 := s14.(worker := Parked(Top));
    Reach(periodic, s0, s14, TakeTop, s15);
    SecondRound(periodic, rest, s15, s);
  }

  lemma SecondRound(periodic: bool, rest: seq<Invoker>, s15: State, s: State)
    requires AllIdle(rest) && Reachable(periodic, StartWith(rest), s15)
    requires s15 == State(Parked(Top), true, false, Updated, true, false, Pair(Notified(true), Returned(Updated), rest))
    requires s == State(Woken(AfterCheck), true, false, UpdateNeeded, false, true,
                        Pair(Returned(UpdateNeeded), Notified(false), rest))
    ensures Reachable(periodic, StartWith(rest), s)
  {
    var s0 := StartWith(rest);
    Invoked(periodic, s0, s15, 1);
    assert s15.invokers[1 := Waiting(false)] == Pair(Notified(true), Waiting(false), rest);
    var s18 := s15.(worker := GetAccess, flag := true, invoked := true, status := Pending,
                    invokers := Pair(Notified(true), Waiting(false), rest));
    var s19 := s18.(worker := Check, access := true);
    Reach(periodic, s0, s18, Access(true), s19);
    var s20 := s19.(worker := Parked(AfterCheck), status := UpdateNeeded, upToDate := false,
                    invokers := Pair(Notified(true), Notified(false), rest));
    WakePair(Notified(true), Waiting(false), rest);
    Reach(periodic, s0, s19, Checked(Changed), s20);
    assert s20.invokers[0 := Returned(UpdateNeeded)] == s.invokers;
    Reach(periodic, s0, s20, Collect(0), s);
  }

  ghost predicate OnlyFinal(s: State) {
    forall i :: 0 <= i < |s.invokers| && s.invokers[i].Returned? ==> Final(s.invokers[i].status)
  }

  /** No run of `n` invokers returns anything but a final status. */
  ghost predicate AlwaysFinal(periodic: bool, n: nat) {
    forall s, es :: Initial(s) && |s.invokers| == n && Runs(periodic, s, es) ==> OnlyFinal(After(periodic, s, es))
  }

  lemma {:induction false} NoInvokers(periodic: bool, s: State, es: seq<Event>)
    requires s.invokers == [] && Runs(periodic, s, es)
    ensures After(periodic, s, es).invokers == []
    decreases |es|
  {
    if es != [] {
      NoInvokers(periodic, Next(periodic, s, es[0]), es[1..]);
    }
  }

  function Idles(n: nat): (r: seq<Invoker>)
    ensures |r| == n && AllIdle(r)
  {
    if n == 0 then [] else Idles(n - 1) + [Idle]
  }

  /** Every run returns only final statuses exactly when no two threads can invoke at a time. */
  lemma FinalStatusesIff(periodic: bool, n: nat)
    ensures AlwaysFinal(periodic, n) <==> n <= 1
  {
    if n <= 1 {
      forall s, es | Initial(s) && |s.invokers| == n && Runs(periodic, s, es)
        ensures OnlyFinal(After(periodic, s, es))
      {
        if n == 1 {
          ReturnsFinalStatus(periodic, s, es);
        } else {
          NoInvokers(periodic, s, es);
        }
      }
    } else {
      var rest := Idles(n - 2);
      var s := State(Woken(AfterCheck), true, false, UpdateNeeded, false, true,
                     Pair(Returned(UpdateNeeded), Notified(false), rest));
      OverlappingInvocationUnfinished(periodic, rest, s);
      var es :| Runs(periodic, StartWith(rest), es) && After(periodic, StartWith(rest), es) == s;
      assert Initial(StartWith(rest));
      assert s.invokers[0] == Returned(UpdateNeeded);
    }
  }

  // ---------------------------------------------------------------- when every invocation is answered

  /** If invoker `i` waits for an answer, every run answers it, or is shorter than `bound` and can go on by itself. */
  ghost predicate Settles(periodic: bool, s: State, i: nat, bound: nat) {
    i < |s.invokers| && Active(s.invokers[i]) ==>
      forall es :: Runs(periodic, s, es) ==> Settled(periodic, s, es, i, bound)
  }

  ghost predicate Settled(periodic: bool, s: State, es: seq<Event>, i: nat, bound: nat)
    requires Runs(periodic, s, es)
  {
    Answered(periodic, s, es, i) || (|es| < bound && CanStep(periodic, After(periodic, s, es)))
  }

  /** With `n` invokers, every invocation is answered within `bound` steps, in every run. */
  ghost predicate AnsweredWithin(periodic: bool, n: nat, bound: nat) {
    forall s0, s, i ::
      Initial(s0) && |s0.invokers| == n && Reachable(periodic, s0, s) ==> Settles(periodic, s, i, bound)
  }

  lemma {:induction false} SettledWithPeriod(s: State, es: seq<Event>)
    requires Inv(s) && Active(s.invokers[0]) && Runs(true, s, es)
    ensures Rank(s) <= 11 && Settled(true, s, es, 0, Rank(s))
    decreases |es|
  {
    Progress(true, s);
    if es == [] {
      assert After(true, s, es) == s;
      var e :| Enabled(true, s, e) && !e.Call?;
      RankDecreases(true, s, e);
    } else {
      RankDecreases(true, s, es[0]);
      InvStep(true, s, es[0]);
      var s' := Next(true, s, es[0]);
      if !s'.invokers[0].Returned? {
        SettledWithPeriod(s', es[1..]);
        assert After(true, s, es) == After(true, s', es[1..]);
      }
    }
  }

  /** With a period, one invoker at a time is answered within eleven steps. */
  lemma OneIsAnswered()
    ensures AnsweredWithin(true, 1, 11)
  {
    forall s0, s, i: nat | Initial(s0) && |s0.invokers| == 1 && Reachable(true, s0, s) ensures Settles(true, s, i, 11) {
      var pre :| Runs(true, s0, pre) && After(true, s0, pre) == s;
      InvInitially(s0);
      InvAlways(true, s0, pre);
      if i == 0 && Active(s.invokers[0]) {
        forall es | Runs(true, s, es) ensures Settled(true, s, es, 0, 11) {
          SettledWithPeriod(s, es);
        }
      }
    }
  }

  /** From an orphaned invoker there is a run that does not answer it, of any length or until only a call can help. */
  lemma {:induction false} UnansweredRun(periodic: bool, s: State, bound: nat) returns (es: seq<Event>)
    requires Orphaned(s)
    ensures Runs(periodic, s, es) && !Settled(periodic, s, es, 1, bound)
    decreases bound
  {
    es := [];
    assert After(periodic, s, []) == s;
    if bound > 0 && CanStep(periodic, s) {
      var e :| Enabled(periodic, s, e) && !e.Call?;
      OrphanedStep(periodic, s, e);
      var s' := Next(periodic, s, e);
      var rest := UnansweredRun(periodic, s', bound - 1);
      es := [e] + rest;
      assert es[0] == e && es[1..] == rest;
      assert After(periodic, s, es) == After(periodic, s', rest);
    }
  }

  lemma SeveralAreNot(periodic: bool, n: nat, bound: nat)
    requires n >= 2
    ensures !AnsweredWithin(periodic, n, bound)
  {
    var rest := Idles(n - 2);
    var s := State(Woken(AfterCheck), true, false, UpToDate, true, true,
                   Pair(Returned(UpToDate), Waiting(false), rest));
    OverlappingInvocationLost(periodic, rest, s);
    assert Initial(StartWith(rest)) && |StartWith(rest).invokers| == n;
    var es := UnansweredRun(periodic, s, bound);
    assert !Settles(periodic, s, 1, bound);
  }

  lemma OneIsNotWithoutPeriod(bound: nat)
    ensures !AnsweredWithin(false, 1, bound)
  {
    var s1 := FRESH.(invokers := [Entering]);
    var s := s1.(flag := true, invokers := [Waiting(false)]);
    assert Runs(false, FRESH, []) && After(false, FRESH, []) == FRESH;
    Reach(false, FRESH, FRESH, Call(0), s1);
    Reach(false, FRESH, s1, Enter(0), s);
    InvInitially(FRESH);
    InvStep(false, FRESH, Call(0));
    InvStep(false, s1, Enter(0));
    var es := [TakeTop];
    var s' := s.(worker := Parked(Top));
    assert Next(false, s, TakeTop) == s' && es[1..] == [];
    assert Runs(false, s, es) && After(false, s, es) == s';
    InvStep(false, s, TakeTop);
    Progress(false, s');
    MissedForever(s, es);
    assert !Settled(false, s, es, 0, bound);
    assert !Settles(false, s, 0, bound);
  }

  /** Every invocation is answered, within a bound and in every run, exactly with a period and one invoker at a time. */
  lemma AnsweredIff(periodic: bool, n: nat)
    ensures (exists bound :: AnsweredWithin(periodic, n, bound)) <==> n == 0 || (n == 1 && periodic)
  {
    if n == 0 {
      forall s0, s, i: nat | Initial(s0) && |s0.invokers| == 0 && Reachable(periodic, s0, s)
        ensures Settles(periodic, s, i, 0)
      {
        var pre :| Runs(periodic, s0, pre) && After(periodic, s0, pre) == s;
        NoInvokers(periodic, s0, pre);
      }
      assert AnsweredWithin(periodic, 0, 0);
    } else if n == 1 && periodic {
      OneIsAnswered();
    } else {
      forall bound: nat ensures !AnsweredWithin(periodic, n, bound) {
        if n == 1 {
          OneIsNotWithoutPeriod(bound);
        } else {
          SeveralAreNot(periodic, n, bound);
        }
      }
    }
  }
}
