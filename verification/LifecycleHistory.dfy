/**
 What a caller can tell from the answers it got: the state, the flags, the refusal codes and the
 thread level at any point of a run are functions of the calls made so far and their results.
 */
module LifecycleHistory {
  import opened Options
  import opened Loader
  import opened LifecycleSpec
  import opened LifecycleTheorems
  import opened LifecycleRuns

  // ---- Native results ----

  /**
   Whatever a native function returned reaches the caller: unchanged from finalize and from the
   MPI-T functions, as success or as one error code from init; and no other function was called.
   */
  lemma NativeResultReachesCaller(e: Event)
    requires Happens(e) && !e.before.crashed && e.outcome.Returned? && e.outcome.native.Called?
    ensures match e.call
      case Finalize(host) => e.outcome == Returned(host.finalizeRet, Called(NativeFinalize, host.finalizeRet))
      case ToolInit(host) => e.outcome == Returned(host.toolInitRet, Called(NativeToolInit, host.toolInitRet))
      case ToolFinalize(host) => e.outcome == Returned(host.toolFinalizeRet, Called(NativeToolFinalize, host.toolFinalizeRet))
      case _ => NativeInitTold(e.outcome, e.call.host)
  {
    hide InitializeBackend, InitWithStep, ToolInitStep;
    if IsInitCall(e.call) {
      InitCallEnds(e);
    } else if e.call.ToolInit? {
      ToolInitEnds(e.before, e.call.host);
    }
  }

  // ---- The state is the history ----

  /** A native finalize among the first k calls returned zero (`ok`), or something else. */
  ghost predicate NativeFinalized(run: seq<Event>, k: nat, ok: bool)
    requires k <= |run|
  {
    exists i :: 0 <= i < k && FinalizedWith(run[i], ok)
  }

  predicate FinalizedWith(e: Event, ok: bool) {
    CalledNative(e, NativeFinalize) && (e.outcome.native.ret == 0) == ok
  }

  ghost predicate InitSucceeded(run: seq<Event>, k: nat)
    requires k <= |run|
  {
    exists i :: 0 <= i < k && InitReturnsOk(run[i])
  }

  /** An init call whose arguments are in order. */
  predicate Attempt(e: Event) {
    IsInitCall(e.call) && ArgumentsOk(e.call) && !e.before.crashed
  }

  ghost predicate InitAttempted(run: seq<Event>, k: nat)
    requires k <= |run|
  {
    exists i :: 0 <= i < k && Attempt(run[i])
  }

  /** What one call makes of the lifecycle state, told by its outcome. */
  lemma CallState(e: Event)
    requires Happens(e) && !e.before.crashed && e.before.state != Initializing && e.before.state != Finalizing
    ensures InitReturnsOk(e) ==> e.before.state in {Never, InitFailed} && e.after.state == Active && Attempt(e)
    ensures CalledNative(e, NativeFinalize) ==>
      e.before.state == Active && e.after.state == (if e.outcome.native.ret == 0 then Finalized else FinalizeFailed)
    ensures !InitReturnsOk(e) && !CalledNative(e, NativeFinalize) ==>
      e.after.state ==
        if Attempt(e) && e.before.state in {Never, InitFailed} then (if e.after.crashed then Initializing else InitFailed)
        else if e.call.Finalize? && e.before.state == Active then Finalizing
        else e.before.state
    ensures e.after.state == Finalizing ==> e.after.crashed
  {
    hide InitializeBackend, InitWithStep, ToolInitStep;
    if IsInitCall(e.call) {
      InitCallEnds(e);
    } else if e.call.ToolInit? {
      ToolInitEnds(e.before, e.call.host);
    }
  }

  /** The state and the calls made so far say the same. */
  ghost predicate StateTells(state: State, run: seq<Event>, k: nat)
    requires k <= |run|
  {
    && (state in {Active, Finalizing, Finalized, FinalizeFailed} <==> InitSucceeded(run, k))
    && (state == Finalized <==> NativeFinalized(run, k, true))
    && (state == FinalizeFailed <==> NativeFinalized(run, k, false))
    && (state == Never <==> !InitAttempted(run, k))
  }

  lemma HistoryStep(run: seq<Event>, k: nat)
    requires k < |run|
    ensures InitSucceeded(run, k + 1) <==> InitSucceeded(run, k) || InitReturnsOk(run[k])
    ensures InitAttempted(run, k + 1) <==> InitAttempted(run, k) || Attempt(run[k])
    ensures forall ok :: NativeFinalized(run, k + 1, ok) <==> NativeFinalized(run, k, ok) || FinalizedWith(run[k], ok)
  {
    hide InitReturnsOk, Attempt, FinalizedWith;
  }

  /** Between calls, and after any crash, the state is what the history says. */
  lemma {:induction false} StateIsHistory(platform: Platform, run: seq<Event>, k: nat)
    requires IsRun(run, Start(platform)) && k <= |run|
    ensures StateTells(StateAfter(run, Start(platform), k).state, run, k)
    ensures StateAfter(run, Start(platform), k).state in {Initializing, Finalizing} ==> StateAfter(run, Start(platform), k).crashed
  {
    hide IsRun, Happens;
    if k > 0 {
      StateIsHistory(platform, run, k - 1);
      RunStep(run, Start(platform), k - 1);
      HistoryStep(run, k - 1);
      hide InitSucceeded, InitAttempted, NativeFinalized;
      if run[k - 1].before.crashed {
        AfterCrash(run[k - 1]);
      } else {
        CallState(run[k - 1]);
      }
    }
  }

  lemma AfterCrash(e: Event)
    requires Happens(e) && e.before.crashed
    ensures e.after == e.before && e.outcome == Crashed
  {
  }

  /** The initialized flag says that some init returned OK, the finalized flag that some native finalize returned 0. */
  lemma FlagsAreHistory(platform: Platform, run: seq<Event>, k: nat)
    requires IsRun(run, Start(platform)) && k <= |run|
    ensures InitializedFlag(StateAfter(run, Start(platform), k)) <==> InitSucceeded(run, k)
    ensures FinalizedFlag(StateAfter(run, Start(platform), k)) <==> NativeFinalized(run, k, true)
  {
    StateIsHistory(platform, run, k);
  }

  // ---- Refusals ----

  /**
   Why an init call is refused: its arguments, or else what happened before it. Otherwise it
   goes on to load the library.
   */
  lemma InitRefusals(platform: Platform, run: seq<Event>, k: nat)
    requires IsRun(run, Start(platform)) && k < |run| && !run[k].before.crashed && IsInitCall(run[k].call)
    ensures !ArgumentsOk(run[k].call) ==> Refused(run[k], if run[k].call.InitWith? then ERR_NO_BACKEND else ERR_INVALID_ARGUMENT)
    ensures ArgumentsOk(run[k].call) && InitSucceeded(run, k) ==>
      Refused(run[k], if NativeFinalized(run, k, true) then ERR_FINALIZED
                      else if NativeFinalized(run, k, false) then ERR_INVALID_STATE
                      else ERR_ALREADY_INITIALIZED)
    ensures ArgumentsOk(run[k].call) && !InitSucceeded(run, k) ==>
      InitEnds(run[k].before, run[k].after, run[k].outcome, run[k].call.host)
  {
    hide IsRun, Happens, InitSucceeded, NativeFinalized, InitAttempted;
    RunStep(run, Start(platform), k);
    StateIsHistory(platform, run, k);
    InitCallEnds(run[k]);
  }

  /** Why a finalize is refused; otherwise it makes the native call, or crashes on the way to it. */
  lemma FinalizeRefusals(platform: Platform, run: seq<Event>, k: nat)
    requires IsRun(run, Start(platform)) && k < |run| && !run[k].before.crashed && run[k].call.Finalize?
    ensures !InitSucceeded(run, k) ==> Refused(run[k], ERR_NOT_INITIALIZED)
    ensures NativeFinalized(run, k, true) ==> Refused(run[k], ERR_FINALIZED)
    ensures NativeFinalized(run, k, false) ==> Refused(run[k], ERR_INVALID_STATE)
    ensures InitSucceeded(run, k) && !NativeFinalized(run, k, true) && !NativeFinalized(run, k, false) ==>
      run[k].outcome == Crashed || CalledNative(run[k], NativeFinalize)
  {
    RunStep(run, Start(platform), k);
    StateIsHistory(platform, run, k);
    hide IsRun, InitSucceeded, NativeFinalized, InitAttempted;
  }

  // ---- The thread level ----

  /** The library in use exports MPI_Init_thread: it is loaded and its slot bound, or this call loads it. */
  predicate OffersInitThread(e: Event)
    requires IsInitCall(e.call)
  {
    if e.before.loaded then e.before.main.initThread != Null else MpiInitThread in e.call.host.exports
  }

  /** The level a successful init leaves: what the native MPI_Init_thread provided, and otherwise single. */
  function Granted(e: Event): int
    requires IsInitCall(e.call)
  {
    if e.call.InitThread? && OffersInitThread(e) then e.call.host.providedLevel else THREAD_SINGLE
  }

  lemma LoadKeepsFlags(s: Sys, path: string, host: Host)
    ensures var (t, code) := Load(s, path, host);
      && t.threadLevel == s.threadLevel && t.toolInited == s.toolInited
      && (code == OK ==> (t.main.initThread.From? <==> MpiInitThread in host.exports))
  {
    if Load(s, path, host).1 == OK {
      LoadSucceeds(s, path, host);
    }
    hide BindCode, OpenCode;
  }

  lemma InitializeBackendFlags(s: Sys, threaded: bool, host: Host)
    ensures var (t, o) := InitializeBackend(s, threaded, host);
      var offered := if s.loaded then s.main.initThread.From? else MpiInitThread in host.exports;
      && t.toolInited == s.toolInited
      && (o.Returned? && o.native.Called? ==> o.native.op == if threaded && offered then NativeInitThread else NativeInit)
      && t.threadLevel ==
        if !threaded || !(o.Returned? && o.ret == OK) then s.threadLevel
        else if offered then host.providedLevel
        else THREAD_SINGLE
  {
    LoadKeepsFlags(s, DetectBackend(s.platform, host), host);
    hide Load;
  }

  lemma InitWithFlags(s: Sys, name: Option<string>, host: Host)
    ensures var t := InitWithStep(s, name, host).0; t.toolInited == s.toolInited && t.threadLevel == s.threadLevel
  {
    hide Load;
    if name.Some? {
      LoadKeepsFlags(s.(state := Initializing), match LibraryOf(name.value) case Some(lib) => lib case None => name.value, host);
    }
  }

  lemma ToolInitFlags(s: Sys, host: Host)
    ensures var (t, o) := ToolInitStep(s, host);
      && t.threadLevel == s.threadLevel
      && (o.Returned? ==> t.toolInited == (o.native.Called? || s.toolInited))
      && (o.Returned? && o.native.Called? ==> o.native.op == NativeToolInit)
  {
    hide Load;
    LoadKeepsFlags(s, DetectBackend(s.platform, host), host);
  }

  /** An init goes through MPI_Init_thread exactly when the caller asked for a level and the library has that function. */
  lemma InitFunctionIff(e: Event)
    requires Happens(e) && !e.before.crashed && CalledInit(e)
    ensures e.outcome.native.op == NativeInitThread <==> e.call.InitThread? && OffersInitThread(e)
  {
    var s := e.before;
    hide InitializeBackend, Load, ToolInitStep;
    match e.call
    case Init(host) =>
      InitializeBackendFlags(s.(state := Initializing), false, host);
    case InitThread(_, _, host) =>
      InitializeBackendFlags(s.(state := Initializing), true, host);
    case ToolInit(host) =>
      ToolInitEnds(s, host);
    case _ =>
  }

  /** What one call makes of the thread level, and of the MPI-T flag unless it crashes. */
  lemma CallFlags(e: Event)
    requires Happens(e) && !e.before.crashed && e.before.state != Initializing && e.before.state != Finalizing
    ensures e.after.threadLevel ==
      if CalledNative(e, NativeFinalize) then THREAD_SINGLE
      else if InitReturnsOk(e) && e.call.InitThread? then Granted(e)
      else e.before.threadLevel
    ensures !e.after.crashed ==>
      (e.after.toolInited <==> CalledNative(e, NativeToolInit) || (e.before.toolInited && !CalledNative(e, NativeToolFinalize)))
  {
    var s := e.before;
    hide InitializeBackend, InitWithStep, ToolInitStep;
    match e.call
    case Init(host) =>
      InitCallEnds(e);
      InitializeBackendFlags(s.(state := Initializing), false, host);
    case InitThread(_, _, host) =>
      InitCallEnds(e);
      InitializeBackendFlags(s.(state := Initializing), true, host);
    case InitWith(name, host) =>
      InitCallEnds(e);
      InitWithFlags(s, name, host);
    case Finalize(_) =>
    case ToolInit(host) =>
      ToolInitEnds(s, host);
      ToolInitFlags(s, host);
    case ToolFinalize(_) =>
  }

  /** While MPI is active the level is what its init was granted; at any other time it is single. */
  lemma {:induction false} LevelIsGranted(platform: Platform, run: seq<Event>, k: nat)
    requires IsRun(run, Start(platform)) && k <= |run| && !StateAfter(run, Start(platform), k).crashed
    ensures var t := StateAfter(run, Start(platform), k);
      if t.state == Active then exists i :: 0 <= i < k && InitReturnsOk(run[i]) && t.threadLevel == Granted(run[i])
      else t.threadLevel == THREAD_SINGLE
  {
    hide IsRun, Happens;
    if k > 0 {
      RunStep(run, Start(platform), k - 1);
      LevelIsGranted(platform, run, k - 1);
      StateIsHistory(platform, run, k - 1);
      hide StateTells, Granted;
      CallState(run[k - 1]);
      CallFlags(run[k - 1]);
    }
  }

  // ---- The MPI-T flag ----

  ghost predicate ToolInitIsLast(run: seq<Event>, i: nat, k: nat)
    requires i < k <= |run|
  {
    CalledNative(run[i], NativeToolInit) && forall j :: i < j < k ==> !CalledNative(run[j], NativeToolFinalize)
  }

  /** `unimpi_mt_initialized` says that an MPI-T init reached its native call and no MPI-T finalize came after it. */
  lemma {:induction false} ToolFlagIsHistory(platform: Platform, run: seq<Event>, k: nat)
    requires IsRun(run, Start(platform)) && k <= |run| && !StateAfter(run, Start(platform), k).crashed
    ensures StateAfter(run, Start(platform), k).toolInited <==> exists i: nat :: i < k && ToolInitIsLast(run, i, k)
  {
    hide IsRun, Happens;
    if k > 0 {
      RunStep(run, Start(platform), k - 1);
      ToolFlagIsHistory(platform, run, k - 1);
      StateIsHistory(platform, run, k - 1);
      hide StateTells;
      CallFlags(run[k - 1]);
      var e := run[k - 1];
      if CalledNative(e, NativeToolInit) {
        assert ToolInitIsLast(run, k - 1, k);
      } else if !CalledNative(e, NativeToolFinalize) && e.before.toolInited {
        var i: nat :| i < k - 1 && ToolInitIsLast(run, i, k - 1);
        assert ToolInitIsLast(run, i, k);
      }
      if i: nat :| i < k && ToolInitIsLast(run, i, k) {
        assert i < k - 1 ==> ToolInitIsLast(run, i, k - 1);
      }
    }
  }

  // ---- What native calls leave behind ----

  /** A native finalize, and a native init that fails, leave the main table cleared and the backend unnamed. */
  lemma NativeCallClears(e: Event)
    requires Happens(e) && !e.before.crashed
    requires CalledNative(e, NativeFinalize) || (CalledInit(e) && e.outcome.native.ret != 0)
    ensures e.after.main == NULL_MAIN && e.after.kind == Unknown && e.after.identity == NO_IDENTITY
  {
    hide EnsureLoaded, Load, ToolInitStep;
    if e.call.ToolInit? {
      ToolInitEnds(e.before, e.call.host);
    }
  }
}
