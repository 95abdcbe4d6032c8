/**
 The lifecycle entry points as they are written: methods that update the process-wide
 globals one by one. Each is proved to take exactly the step that LifecycleSpec gives it.
 */
module Lifecycle {
  import opened Options
  import opened Loader
  import opened LifecycleSpec

  class UniMpi {
    const platform: Platform
    var state: State
    var refcount: int
    var handle: Option<nat>
    var loaded: bool
    var toolInited: bool
    var main: MainTable
    var tool: ToolTable
    var kind: BackendType
    var identity: Identity
    var threadLevel: int
    var nextLib: nat
    var open: set<nat>
    var crashed: bool
    ghost var doubleClose: bool
    ghost var toolDepth: int

    /** The values of all globals. */
    ghost function Value(): Sys
      reads this
    {
      Sys(platform, state, refcount, handle, loaded, toolInited, main, tool, kind, identity, threadLevel,
          nextLib, open, doubleClose, toolDepth, crashed)
    }

    /** The dynamic loader never numbers a new library like one that is open. */
    ghost predicate Valid()
      reads this
    {
      FreshGenerations(Value())
    }

    constructor (platform: Platform)
      ensures Valid() && Value() == Start(platform)
    {
      this.platform := platform;
      state, refcount, handle, loaded, toolInited := Never, 0, None, false, false;
      main, tool, kind, identity := NULL_MAIN, NULL_TOOL, Unknown, NO_IDENTITY;
      threadLevel, nextLib, open, crashed := THREAD_SINGLE, 0, {}, false;
      doubleClose, toolDepth := false, 0;
    }

    // ---- src/loader.c ----

    /** The dynamic loader: a fresh library when the host can open the name. */
    method Dlopen(path: string, host: Host) returns (h: Option<nat>)
      modifies this`nextLib, this`open
      ensures path in host.loadable ==> h == Some(old(nextLib)) && nextLib == old(nextLib) + 1 && open == old(open) + {old(nextLib)}
      ensures path !in host.loadable ==> h == None && nextLib == old(nextLib) && open == old(open)
    {
      h := None;
      if path in host.loadable {
        h, open, nextLib := Some(nextLib), open + {nextLib}, nextLib + 1;
      }
    }

    method Dlclose(lib: nat)
      modifies this`open, this`doubleClose
      ensures open == old(open) - {lib} && doubleClose == (old(doubleClose) || lib !in old(open))
    {
      doubleClose := doubleClose || lib !in open;
      open := open - {lib};
    }

    /** The name to try when a library cannot be opened, searched for in the backend table. */
    static method FindFallback(path: string) returns (alt: Option<string>)
      ensures alt == FallbackOf(path)
    {
      alt := None;
      for i := 0 to |BACKENDS|
        invariant alt == None
        invariant forall j :: 0 <= j < i ==> BACKENDS[j].libName != path
      {
        if BACKENDS[i].libName == path {
          return BACKENDS[i].alt;
        }
      }
    }

    /** The library of a named backend, or the name itself as a path. */
    static method FindLibrary(name: string) returns (path: string)
      ensures path == match LibraryOf(name) case Some(lib) => lib case None => name
    {
      for i := 0 to |BACKENDS|
        invariant forall j :: 0 <= j < i ==> BACKENDS[j].name != name
      {
        if BACKENDS[i].name == name {
          return BACKENDS[i].libName;
        }
      }
      path := name;
    }

    /** Open a library under its name, or else under the second name the table gives for it. */
    method DlopenWithFallback(path: string, host: Host) returns (h: Option<nat>)
      modifies this`nextLib, this`open
      ensures CanOpen(path, host) ==>
        h == Some(old(nextLib)) && nextLib == old(nextLib) + 1 && open == old(open) + {old(nextLib)}
      ensures !CanOpen(path, host) ==> h == None && nextLib == old(nextLib) && open == old(open)
    {
      h := Dlopen(path, host);
      if h.None? {
        var alt := FindFallback(path);
        if alt.Some? {
          h := Dlopen(alt.value, host);
        }
      }
    }

    method LoaderLoad(path: string, host: Host) returns (code: int)
      modifies this`handle, this`nextLib, this`open
      ensures code == OpenCode(path, host)
      ensures Value() == if code == OK then Opened(old(Value())) else old(Value()).(handle := None)
    {
      handle := None;
      if NamesStandardAbi(path) {
        return ERR_ABI_MISMATCH;
      }
      var h := DlopenWithFallback(path, host);
      if h.None? {
        return ERR_BACKEND_LOAD;
      }
      handle := h;
      code := OK;
    }

    // ---- src/vtable.c ----

    /** Clear the tool table, check the library, then bind both tables. */
    method VtableInit(lib: nat, host: Host) returns (code: int)
      modifies this`main, this`tool, this`kind
      ensures code == BindCode(platform, identity.name, host)
      ensures Value() == Bound(old(Value()), lib, host)
    {
      tool := NULL_TOOL;
      if !(CORE_SYMBOLS <= host.exports) {
        return ERR_SYMBOL_NOT_FOUND;
      }
      kind := IdentifyBackend(platform, host.exports);
      code := PlatformCode(platform, kind, identity.name);
      if code != OK {
        return;
      }
      main := BoundMain(lib, host.exports);
      if kind == OpenMpi && !host.openMpiHandles {
        return ERR_BACKEND_INIT_FAILED;
      }
      tool := BoundTool(lib, host.exports);
    }

    method VtableCleanup()
      modifies this`main, this`kind
      ensures Value() == CleanedUp(old(Value()))
    {
      main, kind := NULL_MAIN, Unknown;
    }

    // ---- src/core.c ----

    method SaveIdentity(path: string)
      modifies this`identity
      ensures Value() == old(Value()).(identity := Identity(kind, NameOf(kind), Some(path)))
    {
      var name: Option<string> := None;
      for i := 0 to |BACKENDS|
        invariant name == None && forall j :: 0 <= j < i ==> BACKENDS[j].kind != kind
      {
        if BACKENDS[i].kind == kind {
          name := Some(BACKENDS[i].name);
          break;
        }
      }
      assert name == NameOf(kind) by {
        assert BACKENDS[0].kind == OpenMpi && BACKENDS[1].kind == Mpich && BACKENDS[2].kind == IntelMpi && BACKENDS[3].kind == MsMpi;
      }
      identity := Identity(kind, name, Some(path));
    }

    method UnloadHandle()
      modifies this`handle, this`open, this`doubleClose
      ensures Value() == Unloaded(old(Value()))
    {
      if handle.Some? {
        Dlclose(handle.value);
        handle := None;
      }
    }

    /** Open, bind and name a library; on failure nothing it opened stays open. */
    method LoadLibrary(path: string, host: Host) returns (code: int)
      requires Valid()
      modifies this`handle, this`nextLib, this`open, this`main, this`tool, this`kind, this`identity, this`doubleClose
      ensures Valid() && (Value(), code) == Load(old(Value()), path, host)
    {
      hide OpenCode, BindCode, Bound;
      code := LoaderLoad(path, host);
      if code != OK {
        return;
      }
      code := VtableInit(handle.value, host);
      if code != OK {
        UnloadHandle();
        assert open == old(open);
        return;
      }
      SaveIdentity(path);
    }

    method EnsureLoaded(host: Host) returns (code: int)
      requires Valid()
      modifies this
      ensures Valid() && (Value(), code) == LifecycleSpec.EnsureLoaded(old(Value()), host)
    {
      if loaded {
        return OK;
      }
      code := LoadLibrary(DetectBackend(platform, host), host);
      if code == OK {
        loaded := true;
      }
    }

    /** Give up one reference and close the library with the last one. */
    method Release()
      modifies this`refcount, this`handle, this`open, this`doubleClose, this`loaded
      ensures Value() == Released(old(Value()))
    {
      refcount := refcount - 1;
      if refcount <= 0 && handle.Some? {
        UnloadHandle();
        loaded := false;
      }
    }

    method CallNativeInit(threaded: bool, host: Host) returns (outcome: Outcome)
      requires Valid()
      modifies this
      ensures Valid() && (Value(), outcome) == NativeInitStep(old(Value()), threaded, host)
    {
      var viaThread := threaded && main.initThread.From?;
      var op := if viaThread then NativeInitThread else NativeInit;
      var slot := if viaThread then main.initThread else main.init;
      if !(slot.From? && slot.lib in open) {
        crashed := true;
        return Crashed;
      }
      var ret := host.initRet;
      if ret != 0 {
        VtableCleanup();
        Release();
        identity := NO_IDENTITY;
        state := InitFailed;
        return Returned(ERR_BACKEND_LOAD, Called(op, ret));
      }
      state := Active;
      if threaded {
        threadLevel := if viaThread then host.providedLevel else THREAD_SINGLE;
      }
      outcome := Returned(OK, Called(op, 0));
    }

    method InitializeBackend(threaded: bool, host: Host) returns (outcome: Outcome)
      requires Valid()
      modifies this
      ensures Valid() && (Value(), outcome) == LifecycleSpec.InitializeBackend(old(Value()), threaded, host)
    {
      var ret := EnsureLoaded(host);
      if ret != OK {
        state := InitFailed;
        return Returned(ret, NoCall);
      }
      refcount := refcount + 1;
      outcome := CallNativeInit(threaded, host);
    }

    method Init(host: Host) returns (outcome: Outcome)
      requires Valid() && !crashed
      modifies this
      ensures Valid() && (Value(), outcome) == Step(old(Value()), Call.Init(host))
    {
      var ret := CanInitialize(state);
      if ret != OK {
        return Returned(ret, NoCall);
      }
      state := Initializing;
      outcome := InitializeBackend(false, host);
    }

    method InitThread(required: int, hasProvided: bool, host: Host) returns (outcome: Outcome)
      requires Valid() && !crashed
      modifies this
      ensures Valid() && (Value(), outcome) == Step(old(Value()), Call.InitThread(required, hasProvided, host))
    {
      if required != 0 && required != 1 && required != 2 && required != 3 {
        return Returned(ERR_INVALID_ARGUMENT, NoCall);
      }
      if !hasProvided {
        return Returned(ERR_INVALID_ARGUMENT, NoCall);
      }
      var ret := CanInitialize(state);
      if ret != OK {
        return Returned(ret, NoCall);
      }
      state := Initializing;
      outcome := InitializeBackend(true, host);
    }

    method InitWith(name: Option<string>, host: Host) returns (outcome: Outcome)
      requires Valid() && !crashed
      modifies this
      ensures Valid() && (Value(), outcome) == Step(old(Value()), Call.InitWith(name, host))
    {
      if name.None? {
        return Returned(ERR_NO_BACKEND, NoCall);
      }
      var ret := CanInitialize(state);
      if ret != OK {
        return Returned(ret, NoCall);
      }
      state := Initializing;
      var path := FindLibrary(name.value);
      ret := LoadLibrary(path, host);
      if ret != OK {
        state := InitFailed;
        return Returned(ret, NoCall);
      }
      outcome := CallNativeInitWith(host);
    }

    method CallNativeInitWith(host: Host) returns (outcome: Outcome)
      requires Valid()
      modifies this
      ensures Valid() && (Value(), outcome) == NativeInitWithStep(old(Value()), host)
    {
      if !(main.init.From? && main.init.lib in open) {
        crashed := true;
        return Crashed;
      }
      var ret := host.initRet;
      if ret != 0 {
        VtableCleanup();
        UnloadHandle();
        identity := NO_IDENTITY;
        state := InitFailed;
        return Returned(ERR_BACKEND_LOAD, Called(NativeInit, ret));
      }
      refcount := refcount + 1;
      loaded := true;
      state := Active;
      outcome := Returned(OK, Called(NativeInit, 0));
    }

    method Finalize(host: Host) returns (outcome: Outcome)
      requires Valid() && !crashed
      modifies this
      ensures Valid() && (Value(), outcome) == Step(old(Value()), Call.Finalize(host))
    {
      if state == Never || state == InitFailed {
        return Returned(ERR_NOT_INITIALIZED, NoCall);
      }
      if state == Finalized {
        return Returned(ERR_FINALIZED, NoCall);
      }
      if state != Active {
        return Returned(ERR_INVALID_STATE, NoCall);
      }
      state := Finalizing;
      outcome := CallNativeFinalize(host);
    }

    method CallNativeFinalize(host: Host) returns (outcome: Outcome)
      requires Valid()
      modifies this
      ensures Valid() && (Value(), outcome) == NativeFinalizeStep(old(Value()), host)
    {
      if !(main.finalize.From? && main.finalize.lib in open) {
        crashed := true;
        return Crashed;
      }
      var ret := host.finalizeRet;
      VtableCleanup();
      Release();
      identity := NO_IDENTITY;
      threadLevel := THREAD_SINGLE;
      state := if ret == 0 then Finalized else FinalizeFailed;
      outcome := Returned(ret, Called(NativeFinalize, ret));
    }

    method MpiInitialized() returns (flag: bool)
      ensures flag == InitializedFlag(Value())
    {
      flag := state == Active || state == Finalizing || state == Finalized || state == FinalizeFailed;
    }

    method MpiFinalized() returns (flag: bool)
      ensures flag == FinalizedFlag(Value())
    {
      flag := state == Finalized;
    }

    // ---- src/mpit.c ----

    method ToolInit(host: Host) returns (outcome: Outcome)
      requires Valid() && !crashed
      modifies this
      ensures Valid() && (Value(), outcome) == Step(old(Value()), Call.ToolInit(host))
    {
      var ret := EnsureLoaded(host);
      if ret != OK {
        return Returned(ret, NoCall);
      }
      refcount := refcount + 1;
      toolDepth := toolDepth + 1;
      toolInited := true;
      if !(tool.initThread.From? && tool.initThread.lib in open) {
        crashed := true;
        return Crashed;
      }
      outcome := Returned(host.toolInitRet, Called(NativeToolInit, host.toolInitRet));
    }

    method ToolFinalize(host: Host) returns (outcome: Outcome)
      requires Valid() && !crashed
      modifies this
      ensures Valid() && (Value(), outcome) == Step(old(Value()), Call.ToolFinalize(host))
    {
      if !(tool.finalize.From? && tool.finalize.lib in open) {
        crashed := true;
        return Crashed;
      }
      toolInited := false;
      toolDepth := toolDepth - 1;
      Release();
      outcome := Returned(host.toolFinalizeRet, Called(NativeToolFinalize, host.toolFinalizeRet));
    }
  }
}
