/**
 Safety over whole runs of lifecycle calls, from process start, for every host and every
 result of the native functions.
 */
module LifecycleRuns {
  import opened Options
  import opened Loader
  import opened LifecycleSpec
  import opened LifecycleTheorems

  // ---- The shared-library invariant over runs ----

  /** The first k calls of a run are all well used. */
  predicate UsedWell(run: seq<Event>, k: nat)
    requires k <= |run|
  {
    forall i :: 0 <= i < k ==> WellUsed(run[i].before, run[i].call)
  }

  /** Call k of a run takes the state before it to the state after it; a crash is never undone. */
  lemma RunStep(run: seq<Event>, s: Sys, k: nat)
    requires IsRun(run, s) && k < |run|
    ensures Happens(run[k]) && run[k].before == StateAfter(run, s, k) && run[k].after == StateAfter(run, s, k + 1)
    ensures run[k].before.crashed ==> run[k].after.crashed
  {
    assert Continues(run, s, k);
  }

  /**
   In every run that has not crashed, the shared-library invariant has held in every state so
   far if and only if every call so far was well used.
   */
  lemma {:induction false} RunKeepsInvIff(platform: Platform, run: seq<Event>, k: nat)
    requires IsRun(run, Start(platform)) && k <= |run| && !StateAfter(run, Start(platform), k).crashed
    ensures (forall j: nat :: j <= k ==> Inv(StateAfter(run, Start(platform), j))) <==> UsedWell(run, k)
  {
    hide IsRun, Happens, Inv;
    var s := Start(platform);
    StartInv(platform);
    if k > 0 {
      var e := run[k - 1];
      RunStep(run, s, k - 1);
      RunKeepsInvIff(platform, run, k - 1);
      if Inv(e.before) {
        CallKeepsInvIff(e);
      }
    }
  }

  lemma RunInv(platform: Platform, run: seq<Event>, k: nat)
    requires IsRun(run, Start(platform)) && k <= |run| && !StateAfter(run, Start(platform), k).crashed && UsedWell(run, k)
    ensures Inv(StateAfter(run, Start(platform), k))
  {
    RunKeepsInvIff(platform, run, k);
  }

  // ---- The last client closes the library ----

  /** A well-used call that does not crash, made in a state of the invariant. */
  ghost predicate Sound(e: Event) {
    Happens(e) && Inv(e.before) && !e.before.crashed && WellUsed(e.before, e.call) && !e.after.crashed
  }

  lemma LoadedCallOpensNothing(e: Event)
    requires Sound(e) && e.before.loaded
    ensures e.after.nextLib == e.before.nextLib && (e.after.handle == e.before.handle || e.after.handle.None?)
    ensures e.after.tool == e.before.tool
  {
    hide Load;
  }

  lemma UnloadedCallOpensNext(e: Event)
    requires Sound(e) && !e.before.loaded
    ensures e.after.handle.Some? ==> e.after.handle == Some(e.before.nextLib)
  {
    hide Load;
    var s := e.before;
    match e.call
    case Init(host) =>
      AcquireShares(s.(state := Initializing), host);
    case InitThread(_, _, host) =>
      AcquireShares(s.(state := Initializing), host);
    case InitWith(name, host) =>
      if name.Some? {
        LoadShares(s.(state := Initializing), match LibraryOf(name.value) case Some(lib) => lib case None => name.value, host);
      }
    case Finalize(_) =>
    case ToolInit(host) =>
      AcquireShares(s, host);
    case ToolFinalize(_) =>
  }

  /**
   A well-used call lets go of the open library exactly when it gives up the last reference;
   while references remain before and after, the library and its handle stay what they were.
   */
  lemma LastClientCloses(e: Event)
    requires Sound(e)
    ensures (e.before.open != {} && e.before.open !! e.after.open) <==> (0 < e.before.refcount && e.after.refcount == 0)
    ensures e.after.open == {} <==> e.after.refcount == 0
    ensures 0 < e.before.refcount && 0 < e.after.refcount ==>
      e.after.open == e.before.open && e.after.handle == e.before.handle && e.after.nextLib == e.before.nextLib
    ensures e.before.refcount == 0 && 0 < e.after.refcount ==> e.after.open == {e.before.nextLib}
  {
    CallKeepsInvIff(e);
    if e.before.loaded {
      LoadedCallOpensNothing(e);
    } else {
      UnloadedCallOpensNext(e);
    }
  }

  // ---- MPI-T survives MPI ----

  /**
   As long as an MPI-T init is not matched by its finalize, no interleaving of MPI calls,
   whether they succeed or fail, closes the library or changes a slot of the tool table
   (section 14.3.4 of MPI-3.1).
   */
  lemma {:induction false} ToolsSurviveMpi(run: seq<Event>, s: Sys, k: nat)
    requires IsRun(run, s) && k <= |run| && Inv(s) && !StateAfter(run, s, k).crashed && UsedWell(run, k)
    requires forall j: nat :: j <= k ==> 0 < StateAfter(run, s, j).toolDepth
    ensures Inv(StateAfter(run, s, k)) && StateAfter(run, s, k).loaded
    ensures StateAfter(run, s, k).open == s.open && StateAfter(run, s, k).handle == s.handle
    ensures StateAfter(run, s, k).tool == s.tool
  {
    hide IsRun, Happens;
    if k > 0 {
      var e := run[k - 1];
      RunStep(run, s, k - 1);
      ToolsSurviveMpi(run, s, k - 1);
      CallKeepsInvIff(e);
      LoadedCallOpensNothing(e);
    }
  }

  // ---- Which calls go through live slots ----

  /** The library is loaded but the main table was cleared: a failed native init under tools leaves this. */
  predicate Poisoned(s: Sys) {
    s.loaded && s.main == NULL_MAIN
  }

  /** An MPI init call that gets past its argument and state checks. */
  predicate Accepted(s: Sys, c: Call) {
    match c
    case Init(_) => CanInitialize(s.state) == OK
    case InitThread(required, hasProvided, _) =>
      THREAD_SINGLE <= required <= THREAD_MULTIPLE && hasProvided && CanInitialize(s.state) == OK
    case _ => false
  }

  lemma InitCrashesIff(s: Sys, threaded: bool, host: Host)
    requires Inv(s) && !s.crashed && CanInitialize(s.state) == OK
    ensures var (t, outcome) := InitializeBackend(s.(state := Initializing), threaded, host);
      (outcome == Crashed <==> t.crashed) && (outcome == Crashed <==> Poisoned(s))
  {
    AcquireShares(s.(state := Initializing), host);
  }

  lemma InitWithNeverCrashes(s: Sys, name: Option<string>, host: Host)
    requires Inv(s) && !s.crashed
    ensures InitWithStep(s, name, host).1 != Crashed && !InitWithStep(s, name, host).0.crashed
  {
    if name.Some? && CanInitialize(s.state) == OK {
      var s0 := s.(state := Initializing);
      var path := match LibraryOf(name.value) case Some(lib) => lib case None => name.value;
      hide Load;
      LoadKeepsState(s0, path, host);
      if Load(s0, path, host).1 == OK {
        LoadSucceeds(s0, path, host);
        LoadGuarantee(s0, path, host);
      }
    }
  }

  lemma ToolInitCrashesIff(s: Sys, host: Host)
    requires Inv(s) && !s.crashed
    ensures var (t, outcome) := ToolInitStep(s, host);
      && (outcome == Crashed <==> t.crashed)
      && (outcome == Crashed <==> EnsureLoaded(s, host).1 == OK && EnsureLoaded(s, host).0.tool.initThread == Null)
  {
    if !s.loaded {
      AcquireShares(s, host);
    }
  }

  /**
   Whether a call, well used or not, runs into a null or unloaded slot, case by case. An MPI-T
   init loads the library first; an MPI-T finalize does not, and crashes while none is loaded.
   */
  lemma CallCrashesIff(e: Event)
    requires Happens(e) && Inv(e.before) && !e.before.crashed
    ensures e.outcome == Crashed <==> e.after.crashed
    ensures e.outcome == Crashed <==>
      match e.call
      case ToolInit(host) => EnsureLoaded(e.before, host).1 == OK && EnsureLoaded(e.before, host).0.tool.initThread == Null
      case ToolFinalize(_) => !e.before.loaded || e.before.tool.finalize == Null
      case _ => Accepted(e.before, e.call) && Poisoned(e.before)
  {
    var s := e.before;
    match e.call
    case Init(host) =>
      if CanInitialize(s.state) == OK {
        InitCrashesIff(s, false, host);
      }
    case InitThread(_, _, host) =>
      if CanInitialize(s.state) == OK {
        InitCrashesIff(s, true, host);
      }
    case InitWith(name, host) =>
      InitWithNeverCrashes(s, name, host);
    case Finalize(_) =>
    case ToolInit(host) =>
      ToolInitCrashesIff(s, host);
    case ToolFinalize(_) =>
  }

  predicate CalledNative(e: Event, op: NativeOp) {
    e.outcome.Returned? && e.outcome.native.Called? && e.outcome.native.op == op
  }

  predicate IsInit(op: NativeOp) {
    op == NativeInit || op == NativeInitThread
  }

  predicate CalledInit(e: Event) {
    e.outcome.Returned? && e.outcome.native.Called? && IsInit(e.outcome.native.op)
  }

  /** A native MPI init that fails while MPI-T holds a reference. */
  predicate FailsUnderTools(e: Event) {
    0 < e.before.toolDepth && CalledInit(e) && e.outcome.native.ret != 0
  }

  /** The state in which the next accepted MPI init will crash. */
  predicate RetryCrashes(s: Sys) {
    Poisoned(s) && CanInitialize(s.state) == OK
  }

  lemma InitPoisonsIff(s: Sys, threaded: bool, host: Host)
    requires Inv(s) && !s.crashed && CanInitialize(s.state) == OK && !Poisoned(s)
    ensures var (t, outcome) := InitializeBackend(s.(state := Initializing), threaded, host);
      && (RetryCrashes(t) <==> 0 < s.toolDepth && outcome.Returned? && outcome.native.Called? && outcome.native.ret != 0)
      && (outcome.Returned? && outcome.native.Called? ==> IsInit(outcome.native.op))
  {
    AcquireShares(s.(state := Initializing), host);
  }

  /** A call leaves the system poisoned iff it fails a native init under tools, or it leaves a poisoned library loaded. */
  lemma CallPoisonsIff(e: Event)
    requires Sound(e)
    ensures RetryCrashes(e.after) <==> FailsUnderTools(e) || (RetryCrashes(e.before) && e.after.loaded)
    ensures FailsUnderTools(e) ==> e.after.loaded
  {
    CallCrashesIff(e);
    var s := e.before;
    match e.call
    case Init(host) =>
      if CanInitialize(s.state) == OK {
        InitPoisonsIff(s, false, host);
      }
    case InitThread(_, _, host) =>
      if Accepted(s, e.call) {
        InitPoisonsIff(s, true, host);
      }
    case InitWith(name, host) =>
      if name.Some? && CanInitialize(s.state) == OK {
        LoadShares(s.(state := Initializing), match LibraryOf(name.value) case Some(lib) => lib case None => name.value, host);
      }
    case Finalize(_) =>
    case ToolInit(host) =>
      if !s.loaded {
        AcquireShares(s, host);
      }
    case ToolFinalize(_) =>
  }

  /** Call i failed a native init under tools, and the library stayed loaded until before call k. */
  predicate PoisonedSince(run: seq<Event>, i: nat, k: nat)
    requires i < k <= |run|
  {
    FailsUnderTools(run[i]) && forall j :: i <= j < k ==> run[j].after.loaded
  }

  lemma {:induction false} PoisonHistory(platform: Platform, run: seq<Event>, k: nat)
    requires IsRun(run, Start(platform)) && k <= |run| && !StateAfter(run, Start(platform), k).crashed && UsedWell(run, k)
    ensures RetryCrashes(StateAfter(run, Start(platform), k)) <==> exists i: nat :: i < k && PoisonedSince(run, i, k)
  {
    hide IsRun, Happens, Inv;
    var s := Start(platform);
    if k > 0 {
      hide RetryCrashes, FailsUnderTools;
      var e := run[k - 1];
      RunStep(run, s, k - 1);
      PoisonHistory(platform, run, k - 1);
      RunInv(platform, run, k - 1);
      CallPoisonsIff(e);
      if RetryCrashes(e.after) {
        if FailsUnderTools(e) {
          assert PoisonedSince(run, k - 1, k);
        } else {
          var i: nat :| i < k - 1 && PoisonedSince(run, i, k - 1);
          assert PoisonedSince(run, i, k);
        }
      }
      if i: nat :| i < k && PoisonedSince(run, i, k) {
        assert i < k - 1 ==> PoisonedSince(run, i, k - 1);
      }
    }
  }

  predicate IsToolCall(c: Call) {
    c.ToolInit? || c.ToolFinalize?
  }

  /**
   Exactly when an MPI call crashes after a well-used run: it is an accepted init, and an
   earlier native init failed while MPI-T held a reference with the library loaded ever since.
   So an init may be retried after a failure, but not while tools keep the library loaded.
   */
  lemma MpiCallCrashesIff(platform: Platform, run: seq<Event>, k: nat)
    requires IsRun(run, Start(platform)) && k < |run| && !run[k].before.crashed && UsedWell(run, k)
    requires !IsToolCall(run[k].call)
    ensures run[k].outcome == Crashed <==>
      Accepted(run[k].before, run[k].call) && exists i: nat :: i < k && PoisonedSince(run, i, k)
  {
    hide IsRun, Happens;
    RunStep(run, Start(platform), k);
    RunInv(platform, run, k);
    PoisonHistory(platform, run, k);
    CallCrashesIff(run[k]);
  }

  /** If no native init ever fails under tools, every MPI call goes through slots of the open library. */
  lemma MpiCallsAreLive(platform: Platform, run: seq<Event>, k: nat)
    requires IsRun(run, Start(platform)) && k < |run| && !run[k].before.crashed && UsedWell(run, k)
    requires forall i :: 0 <= i < k ==> !FailsUnderTools(run[i])
    requires !IsToolCall(run[k].call)
    ensures run[k].outcome != Crashed
  {
    MpiCallCrashesIff(platform, run, k);
  }

  // ---- MPI is initialized and finalized once ----

  predicate IsInitCall(c: Call) {
    c.Init? || c.InitThread? || c.InitWith?
  }

  predicate InitReturnsOk(e: Event) {
    IsInitCall(e.call) && e.outcome.Returned? && e.outcome.ret == OK
  }

  /** How far the lifecycle has come: not yet active, active, past it. */
  function Phase(state: State): nat {
    match state
    case Never => 0
    case InitFailed => 0
    case Initializing => 0
    case Active => 1
    case _ => 2
  }

  /** Loading changes neither the lifecycle nor the references. */
  lemma LoadKeepsState(s: Sys, path: string, host: Host)
    ensures var t := Load(s, path, host).0;
      t.state == s.state && t.refcount == s.refcount && t.toolDepth == s.toolDepth && t.crashed == s.crashed
  {
    hide OpenCode, BindCode, Bound;
  }

  /**
   How an init under way may end: it crashes, it is refused before the native call, or it made the
   native call, whose result decides. It becomes active exactly when it returns OK.
   */
  predicate InitEnds(s: Sys, t: Sys, o: Outcome, host: Host) {
    && t.toolDepth == s.toolDepth
    && t.state == (if o.Crashed? then Initializing else if o.ret == OK then Active else InitFailed)
    && (t.crashed <==> o.Crashed?)
    && (o.Returned? ==> if o.native.Called? then NativeInitTold(o, host) else o.ret != OK)
  }

  /** The caller gets OK if the native init returned 0, and one error code for every other native result. */
  predicate NativeInitTold(o: Outcome, host: Host)
    requires o.Returned? && o.native.Called?
  {
    IsInit(o.native.op) && o.native.ret == host.initRet && o.ret == if host.initRet == 0 then OK else ERR_BACKEND_LOAD
  }

  lemma InitializeBackendEnds(s: Sys, threaded: bool, host: Host)
    requires s.state == Initializing && !s.crashed
    ensures var (t, o) := InitializeBackend(s, threaded, host); InitEnds(s, t, o, host)
  {
    hide Load;
    LoadKeepsState(s, DetectBackend(s.platform, host), host);
  }

  lemma InitWithEnds(s: Sys, name: Option<string>, host: Host)
    requires name.Some? && CanInitialize(s.state) == OK && !s.crashed
    ensures var (t, o) := InitWithStep(s, name, host); InitEnds(s, t, o, host)
  {
    hide Load;
    LoadKeepsState(s.(state := Initializing), match LibraryOf(name.value) case Some(lib) => lib case None => name.value, host);
  }

  /** The arguments that an init call is refused for before anything else. */
  predicate ArgumentsOk(c: Call) {
    match c
    case InitThread(required, hasProvided, _) => THREAD_SINGLE <= required <= THREAD_MULTIPLE && hasProvided
    case InitWith(name, _) => name.Some?
    case _ => true
  }

  /** The call returned a code, made no native call and changed nothing. */
  predicate Refused(e: Event, code: int) {
    e.outcome == Returned(code, NoCall) && e.after == e.before
  }

  /** An init call of any kind is refused for its arguments or for the state, or it ends as an init does. */
  lemma InitCallEnds(e: Event)
    requires Happens(e) && IsInitCall(e.call) && !e.before.crashed
    ensures !ArgumentsOk(e.call) ==> Refused(e, if e.call.InitWith? then ERR_NO_BACKEND else ERR_INVALID_ARGUMENT)
    ensures ArgumentsOk(e.call) ==>
      if CanInitialize(e.before.state) == OK then InitEnds(e.before, e.after, e.outcome, e.call.host)
      else Refused(e, CanInitialize(e.before.state))
  {
    var s := e.before;
    hide InitializeBackend, Load;
    match e.call
    case Init(host) =>
      InitializeBackendEnds(s.(state := Initializing), false, host);
    case InitThread(_, _, host) =>
      InitializeBackendEnds(s.(state := Initializing), true, host);
    case InitWith(name, host) =>
      if name.Some? && CanInitialize(s.state) == OK {
        hide InitWithStep;
        InitWithEnds(s, name, host);
      }
  }

  /** Tool calls leave the lifecycle alone; the depth follows the native calls. */
  predicate ToolEnds(s: Sys, t: Sys, o: Outcome, change: int) {
    && t.state == s.state
    && (o.Returned? ==> t.toolDepth == s.toolDepth + change && t.crashed == s.crashed)
    && (o.Crashed? ==> t.crashed)
  }

  lemma ToolInitEnds(s: Sys, host: Host)
    ensures var (t, o) := ToolInitStep(s, host);
      && ToolEnds(s, t, o, if o.Returned? && o.native.Called? then 1 else 0)
      && (o.Returned? && o.native.Called? ==> o == Returned(host.toolInitRet, Called(NativeToolInit, host.toolInitRet)))
  {
    hide Load;
    LoadKeepsState(s, DetectBackend(s.platform, host), host);
  }

  /** One call, well used or not, in any state: how far the lifecycle comes. */
  lemma CallPhase(e: Event)
    requires Happens(e)
    ensures Phase(e.before.state) <= Phase(e.after.state)
    ensures InitReturnsOk(e) ==> Phase(e.before.state) == 0 && Phase(e.after.state) == 1
    ensures CalledNative(e, NativeFinalize) ==> Phase(e.before.state) == 1 && Phase(e.after.state) == 2
    ensures Phase(e.before.state) == 0 && !InitReturnsOk(e) ==> Phase(e.after.state) == 0
    ensures e.before.state == Finalized ==> e.after.state == Finalized
  {
    hide InitializeBackend, InitWithStep, ToolInitStep;
    if IsInitCall(e.call) && !e.before.crashed {
      InitCallEnds(e);
    }
    match e.call
    case ToolInit(host) =>
      ToolInitEnds(e.before, host);
    case _ =>
  }

  /** What one call that does not crash makes of the tool depth. */
  lemma CallDepth(e: Event)
    requires Happens(e) && !e.after.crashed
    ensures e.after.toolDepth - e.before.toolDepth ==
      (if CalledNative(e, NativeToolInit) then 1 else 0) - if e.call.ToolFinalize? then 1 else 0
  {
    hide InitializeBackend, InitWithStep, ToolInitStep;
    if IsInitCall(e.call) && !e.before.crashed {
      InitCallEnds(e);
    }
    match e.call
    case ToolInit(host) =>
      ToolInitEnds(e.before, host);
    case _ =>
  }

  lemma {:induction false} PhaseGrows(run: seq<Event>, s: Sys, j: nat, k: nat)
    requires IsRun(run, s) && j <= k <= |run|
    ensures Phase(StateAfter(run, s, j).state) <= Phase(StateAfter(run, s, k).state)
    ensures StateAfter(run, s, j).state == Finalized ==> StateAfter(run, s, k).state == Finalized
  {
    hide IsRun, Happens;
    if j < k {
      PhaseGrows(run, s, j, k - 1);
      RunStep(run, s, k - 1);
      CallPhase(run[k - 1]);
    }
  }

  lemma {:induction false} ActiveNeedsInit(platform: Platform, run: seq<Event>, k: nat)
    requires IsRun(run, Start(platform)) && k <= |run| && 0 < Phase(StateAfter(run, Start(platform), k).state)
    ensures exists i :: 0 <= i < k && InitReturnsOk(run[i])
  {
    hide IsRun, Happens;
    if k > 0 {
      RunStep(run, Start(platform), k - 1);
      CallPhase(run[k - 1]);
      if 0 < Phase(StateAfter(run, Start(platform), k - 1).state) {
        ActiveNeedsInit(platform, run, k - 1);
      }
    }
  }

  /** Neither an init that returns OK nor a native finalize is followed by another. */
  lemma NoSecondTime(run: seq<Event>, s: Sys, i: nat, j: nat)
    requires IsRun(run, s) && i < j < |run|
    ensures !(InitReturnsOk(run[i]) && InitReturnsOk(run[j]))
    ensures !(CalledNative(run[i], NativeFinalize) && CalledNative(run[j], NativeFinalize))
  {
    hide IsRun, Happens;
    RunStep(run, s, i);
    RunStep(run, s, j);
    CallPhase(run[i]);
    CallPhase(run[j]);
    PhaseGrows(run, s, i + 1, j);
  }

  /**
   In every run, well used or not, at most one init call of any kind returns OK, at most one
   native finalize happens, and only after that init.
   */
  lemma InitAndFinalizeOnce(platform: Platform, run: seq<Event>, i: nat, j: nat)
    requires IsRun(run, Start(platform)) && i < |run| && j < |run|
    ensures InitReturnsOk(run[i]) && InitReturnsOk(run[j]) ==> i == j
    ensures CalledNative(run[i], NativeFinalize) && CalledNative(run[j], NativeFinalize) ==> i == j
    ensures CalledNative(run[j], NativeFinalize) ==> exists m :: 0 <= m < j && InitReturnsOk(run[m])
  {
    hide IsRun, Happens;
    if i < j {
      NoSecondTime(run, Start(platform), i, j);
    } else if j < i {
      NoSecondTime(run, Start(platform), j, i);
    }
    if CalledNative(run[j], NativeFinalize) {
      RunStep(run, Start(platform), j);
      CallPhase(run[j]);
      ActiveNeedsInit(platform, run, j);
    }
  }

  /** The initialized and finalized flags never go back, and finalized implies initialized (section 8.7 of MPI-3.1). */
  lemma FlagsNeverGoBack(run: seq<Event>, s: Sys, j: nat, k: nat)
    requires IsRun(run, s) && j <= k <= |run|
    ensures InitializedFlag(StateAfter(run, s, j)) ==> InitializedFlag(StateAfter(run, s, k))
    ensures FinalizedFlag(StateAfter(run, s, j)) ==> FinalizedFlag(StateAfter(run, s, k))
    ensures FinalizedFlag(StateAfter(run, s, k)) ==> InitializedFlag(StateAfter(run, s, k))
  {
    PhaseGrows(run, s, j, k);
  }

  // ---- References are conserved ----

  /** MPI-T inits among the first k calls that reached the native init, by whether it reported success. */
  function ToolInits(run: seq<Event>, k: nat, succeeded: bool): nat
    requires k <= |run|
  {
    if k == 0 then 0
    else
      var e := run[k - 1];
      ToolInits(run, k - 1, succeeded) +
      if CalledNative(e, NativeToolInit) && (e.outcome.native.ret == 0) == succeeded then 1 else 0
  }

  function ToolFinalizes(run: seq<Event>, k: nat): nat
    requires k <= |run|
  {
    if k == 0 then 0
    else ToolFinalizes(run, k - 1) + if run[k - 1].call.ToolFinalize? then 1 else 0
  }

  /** The MPI-T depth is what its name says: inits that reached the native call minus finalizes. */
  lemma {:induction false} DepthCounts(platform: Platform, run: seq<Event>, k: nat)
    requires IsRun(run, Start(platform)) && k <= |run| && !StateAfter(run, Start(platform), k).crashed
    ensures StateAfter(run, Start(platform), k).toolDepth ==
      ToolInits(run, k, true) + ToolInits(run, k, false) - ToolFinalizes(run, k)
  {
    hide IsRun, Happens;
    if k > 0 {
      RunStep(run, Start(platform), k - 1);
      DepthCounts(platform, run, k - 1);
      CallDepth(run[k - 1]);
    }
  }

  /**
   An MPI-T init that returns an error gives its reference back exactly when the library could
   not be loaded; when the native init is what failed, it keeps the reference.
   */
  lemma FailedToolInitKeepsReferenceIff(e: Event)
    requires Happens(e) && e.call.ToolInit? && e.outcome.Returned? && e.outcome.ret != OK
    ensures var change := if EnsureLoaded(e.before, e.call.host).1 == OK then 1 else 0;
      e.after.refcount == e.before.refcount + change && e.after.toolDepth == e.before.toolDepth + change
  {
    hide Load;
    LoadKeepsState(e.before, DetectBackend(e.before.platform, e.call.host), e.call.host);
  }

  /**
   A tool that finalizes once for every MPI-T init that reported success, in a process where MPI
   is not active, has let go of the library iff no MPI-T init reported failure: the reference
   is taken before the native init is called and not given back when it fails.
   */
  lemma LibraryClosedIffNoToolInitFailed(platform: Platform, run: seq<Event>, k: nat)
    requires IsRun(run, Start(platform)) && k <= |run| && !StateAfter(run, Start(platform), k).crashed && UsedWell(run, k)
    requires StateAfter(run, Start(platform), k).state != Active
    requires ToolFinalizes(run, k) == ToolInits(run, k, true)
    ensures StateAfter(run, Start(platform), k).open == {} <==> ToolInits(run, k, false) == 0
  {
    RunInv(platform, run, k);
    DepthCounts(platform, run, k);
  }
}
