/**
 The process-wide state that MPI and MPI-T share, and what each entry point does to it
 (src/core.c, src/mpit.c, src/vtable.c), as functions from state to state. The class in
 Lifecycle.dfy is proved to take exactly these steps.

 Libraries are numbered by generation: every successful dlopen yields a new number, and
 a bound slot carries the number of the library it came from. A call through a slot that
 is null, or whose library is no longer open, ends the process.
 */
module LifecycleSpec {
  import opened Options
  import opened Loader

  datatype State = Never | Initializing | Active | InitFailed | Finalizing | Finalized | FinalizeFailed

  const THREAD_SINGLE := 0
  const THREAD_MULTIPLE := 3

  datatype Slot = Null | From(lib: nat)

  /** The slots of the main table that core.c calls. */
  datatype MainTable = MainTable(init: Slot, initThread: Slot, finalize: Slot)

  /** The slots of the tool table that mpit.c calls. */
  datatype ToolTable = ToolTable(initThread: Slot, finalize: Slot)

  const NULL_MAIN := MainTable(Null, Null, Null)
  const NULL_TOOL := ToolTable(Null, Null)

  datatype Identity = Identity(kind: BackendType, name: Option<string>, path: Option<string>)

  const NO_IDENTITY := Identity(Unknown, None, None)

  datatype Sys = Sys(
    platform: Platform,
    state: State,             // g_state
    refcount: int,            // g_refcount
    handle: Option<nat>,      // g_handle
    loaded: bool,             // g_backend_loaded
    toolInited: bool,         // g_mpit_inited
    main: MainTable,          // unimpi
    tool: ToolTable,          // unimpi_mt
    kind: BackendType,        // g_backend_type
    identity: Identity,       // g_backend_identity
    threadLevel: int,         // g_thread_level
    nextLib: nat,             // generation of the next library to be opened
    open: set<nat>,           // libraries that are open
    doubleClose: bool,        // a library was closed that was not open
    toolDepth: int,           // MPI-T inits that acquired a reference minus MPI-T finalizes
    crashed: bool)

  function Start(platform: Platform): Sys {
    Sys(platform, Never, 0, None, false, false, NULL_MAIN, NULL_TOOL, Unknown, NO_IDENTITY, THREAD_SINGLE,
        0, {}, false, 0, false)
  }

  /** The dynamic loader never numbers a new library like one that is open. */
  ghost predicate FreshGenerations(s: Sys) {
    forall lib :: lib in s.open ==> lib < s.nextLib
  }

  // ---- Entry points and what a caller observes ----

  datatype Call =
    | Init(host: Host)
    | InitThread(required: int, hasProvided: bool, host: Host)
    | InitWith(name: Option<string>, host: Host)
    | Finalize(host: Host)
    | ToolInit(host: Host)
    | ToolFinalize(host: Host)

  datatype NativeOp = NativeInit | NativeInitThread | NativeFinalize | NativeToolInit | NativeToolFinalize

  /** The native call an entry point made, if it got that far, and its result. */
  datatype NativeCall = NoCall | Called(op: NativeOp, ret: int)

  datatype Outcome = Returned(ret: int, native: NativeCall) | Crashed

  // ---- Pieces ----

  predicate Live(s: Sys, slot: Slot) {
    slot.From? && slot.lib in s.open
  }

  function CanInitialize(state: State): int {
    match state
    case Never => OK
    case Initializing => ERR_ALREADY_INITIALIZED
    case Active => ERR_ALREADY_INITIALIZED
    case InitFailed => OK
    case Finalized => ERR_FINALIZED
    case Finalizing => ERR_INVALID_STATE
    case FinalizeFailed => ERR_INVALID_STATE
  }

  function SlotFor(symbol: Symbol, lib: nat, exports: set<Symbol>): Slot {
    if symbol in exports then From(lib) else Null
  }

  function BoundMain(lib: nat, exports: set<Symbol>): MainTable {
    MainTable(SlotFor(MpiInit, lib, exports), SlotFor(MpiInitThread, lib, exports), SlotFor(MpiFinalize, lib, exports))
  }

  function BoundTool(lib: nat, exports: set<Symbol>): ToolTable {
    ToolTable(SlotFor(MpiTInitThread, lib, exports), SlotFor(MpiTFinalize, lib, exports))
  }

  /** Closing the library behind the handle, if there is one. */
  function Unloaded(s: Sys): Sys {
    if s.handle.None? then s
    else s.(open := s.open - {s.handle.value}, doubleClose := s.doubleClose || s.handle.value !in s.open, handle := None)
  }

  /** Giving up one reference; the last one closes the library. */
  function Released(s: Sys): Sys {
    var s1 := s.(refcount := s.refcount - 1);
    if s1.refcount <= 0 && s1.handle.Some? then Unloaded(s1).(loaded := false) else s1
  }

  /** Clearing the main table; the tool table stays. */
  function CleanedUp(s: Sys): Sys {
    s.(main := NULL_MAIN, kind := Unknown)
  }

  /** Binding the library `lib`: what is cleared and filled depends on how far the checks get. */
  function Bound(s: Sys, lib: nat, host: Host): (t: Sys)
    ensures t == s.(tool := t.tool, kind := t.kind, main := t.main)
  {
    var code := BindCode(s.platform, s.identity.name, host);
    var s1 := s.(tool := NULL_TOOL);
    if code == ERR_SYMBOL_NOT_FOUND then s1
    else
      var s2 := s1.(kind := IdentifyBackend(s.platform, host.exports));
      if code == ERR_BACKEND_NOT_SUPPORTED || code == ERR_ABI_MISMATCH then s2
      else
        var s3 := s2.(main := BoundMain(lib, host.exports));
        if code == OK then s3.(tool := BoundTool(lib, host.exports)) else s3
  }

  /** A new library, open behind the handle. */
  function Opened(s: Sys): Sys {
    s.(handle := Some(s.nextLib), open := s.open + {s.nextLib}, nextLib := s.nextLib + 1)
  }

  /** Opening, binding and naming a library: success keeps it open behind the handle, failure closes it again. */
  function Load(s: Sys, path: string, host: Host): (Sys, int) {
    if OpenCode(path, host) != OK then (s.(handle := None), OpenCode(path, host))
    else
      var s1 := Bound(Opened(s), s.nextLib, host);
      var code := BindCode(s.platform, s.identity.name, host);
      if code != OK then (Unloaded(s1), code)
      else (s1.(identity := Identity(s1.kind, NameOf(s1.kind), Some(path))), OK)
  }

  function EnsureLoaded(s: Sys, host: Host): (Sys, int) {
    if s.loaded then (s, OK)
    else
      var (s1, code) := Load(s, DetectBackend(s.platform, host), host);
      if code == OK then (s1.(loaded := true), OK) else (s1, code)
  }

  // ---- Steps ----

  function CrashedSys(s: Sys): Sys {
    s.(crashed := true)
  }

  /** What a failed native init leaves behind. */
  function Abandoned(s: Sys): Sys {
    s.(identity := NO_IDENTITY, state := InitFailed)
  }

  /** The native init call, made while holding a reference. */
  function NativeInitStep(s: Sys, threaded: bool, host: Host): (Sys, Outcome) {
    var viaThread := threaded && s.main.initThread.From?;
    var op := if viaThread then NativeInitThread else NativeInit;
    if !Live(s, if viaThread then s.main.initThread else s.main.init) then (CrashedSys(s), Crashed)
    else if host.initRet != 0 then
      (Abandoned(Released(CleanedUp(s))), Returned(ERR_BACKEND_LOAD, Called(op, host.initRet)))
    else
      (s.(state := Active,
          threadLevel := if !threaded then s.threadLevel else if viaThread then host.providedLevel else THREAD_SINGLE),
       Returned(OK, Called(op, 0)))
  }

  /** The MPI init path, entered with the state already Initializing. */
  function InitializeBackend(s: Sys, threaded: bool, host: Host): (Sys, Outcome) {
    var (s1, code) := EnsureLoaded(s, host);
    if code != OK then (s1.(state := InitFailed), Returned(code, NoCall))
    else NativeInitStep(s1.(refcount := s1.refcount + 1), threaded, host)
  }

  function InitStep(s: Sys, host: Host): (Sys, Outcome) {
    var code := CanInitialize(s.state);
    if code != OK then (s, Returned(code, NoCall))
    else InitializeBackend(s.(state := Initializing), false, host)
  }

  function InitThreadStep(s: Sys, required: int, hasProvided: bool, host: Host): (Sys, Outcome) {
    var code := CanInitialize(s.state);
    if !(THREAD_SINGLE <= required <= THREAD_MULTIPLE) || !hasProvided then (s, Returned(ERR_INVALID_ARGUMENT, NoCall))
    else if code != OK then (s, Returned(code, NoCall))
    else InitializeBackend(s.(state := Initializing), true, host)
  }

  /** The native init call of `init_with`, which takes its reference only afterwards. */
  function NativeInitWithStep(s: Sys, host: Host): (Sys, Outcome) {
    if !Live(s, s.main.init) then (CrashedSys(s), Crashed)
    else if host.initRet != 0 then
      (Abandoned(Unloaded(CleanedUp(s))), Returned(ERR_BACKEND_LOAD, Called(NativeInit, host.initRet)))
    else
      (s.(refcount := s.refcount + 1, loaded := true, state := Active), Returned(OK, Called(NativeInit, 0)))
  }

  function InitWithStep(s: Sys, name: Option<string>, host: Host): (Sys, Outcome) {
    if name.None? then (s, Returned(ERR_NO_BACKEND, NoCall))
    else if CanInitialize(s.state) != OK then (s, Returned(CanInitialize(s.state), NoCall))
    else
      var path := match LibraryOf(name.value) case Some(lib) => lib case None => name.value;
      var (s1, code) := Load(s.(state := Initializing), path, host);
      if code != OK then (s1.(state := InitFailed), Returned(code, NoCall))
      else NativeInitWithStep(s1, host)
  }

  /** The native finalize call; the MPI reference is given up whatever it returns. */
  function NativeFinalizeStep(s: Sys, host: Host): (Sys, Outcome) {
    if !Live(s, s.main.finalize) then (CrashedSys(s), Crashed)
    else
      (Released(CleanedUp(s)).(identity := NO_IDENTITY, threadLevel := THREAD_SINGLE,
                               state := if host.finalizeRet == 0 then Finalized else FinalizeFailed),
       Returned(host.finalizeRet, Called(NativeFinalize, host.finalizeRet)))
  }

  function FinalizeStep(s: Sys, host: Host): (Sys, Outcome) {
    if s.state == Never || s.state == InitFailed then (s, Returned(ERR_NOT_INITIALIZED, NoCall))
    else if s.state == Finalized then (s, Returned(ERR_FINALIZED, NoCall))
    else if s.state != Active then (s, Returned(ERR_INVALID_STATE, NoCall))
    else
      NativeFinalizeStep(s.(state := Finalizing), host)
  }

  function ToolInitStep(s: Sys, host: Host): (Sys, Outcome) {
    var (s1, code) := EnsureLoaded(s, host);
    if code != OK then (s1, Returned(code, NoCall))
    else
      var s2 := s1.(refcount := s1.refcount + 1, toolInited := true, toolDepth := s1.toolDepth + 1);
      if !Live(s2, s2.tool.initThread) then (CrashedSys(s2), Crashed)
      else (s2, Returned(host.toolInitRet, Called(NativeToolInit, host.toolInitRet)))
  }

  function ToolFinalizeStep(s: Sys, host: Host): (Sys, Outcome) {
    if !Live(s, s.tool.finalize) then (CrashedSys(s), Crashed)
    else
      (Released(s.(toolInited := false, toolDepth := s.toolDepth - 1)),
       Returned(host.toolFinalizeRet, Called(NativeToolFinalize, host.toolFinalizeRet)))
  }

  function Step(s: Sys, c: Call): (Sys, Outcome) {
    if s.crashed then (s, Crashed)
    else
      match c
      case Init(host) => InitStep(s, host)
      case InitThread(required, hasProvided, host) => InitThreadStep(s, required, hasProvided, host)
      case InitWith(name, host) => InitWithStep(s, name, host)
      case Finalize(host) => FinalizeStep(s, host)
      case ToolInit(host) => ToolInitStep(s, host)
      case ToolFinalize(host) => ToolFinalizeStep(s, host)
  }

  // ---- Runs ----

  /** One call of a run: the state it met, what the caller observed, and the state it left. */
  datatype Event = Event(before: Sys, call: Call, outcome: Outcome, after: Sys)

  ghost predicate Happens(e: Event) {
    Step(e.before, e.call) == (e.after, e.outcome)
  }

  ghost predicate Continues(run: seq<Event>, s: Sys, i: nat)
    requires i < |run|
  {
    Happens(run[i]) && run[i].before == if i == 0 then s else run[i - 1].after
  }

  /** A sequence of calls, each made in the state the previous one left. */
  ghost predicate IsRun(run: seq<Event>, s: Sys) {
    forall i: nat :: i < |run| ==> Continues(run, s, i)
  }

  /** The state after the first k calls of a run. */
  function StateAfter(run: seq<Event>, s: Sys, k: nat): Sys
    requires k <= |run|
  {
    if k == 0 then s else run[k - 1].after
  }

  /** `unimpi_mpi_initialized` */
  function InitializedFlag(s: Sys): bool {
    s.state in {Active, Finalizing, Finalized, FinalizeFailed}
  }

  /** `unimpi_mpi_finalized` */
  function FinalizedFlag(s: Sys): bool {
    s.state == Finalized
  }
}
