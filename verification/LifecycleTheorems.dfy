/**
 What holds of every sequence of lifecycle calls: one shared library, reference counted
 between MPI and MPI-T, opened by the first client and closed by the last.
 */
module LifecycleTheorems {
  import opened Options
  import opened Loader
  import opened LifecycleSpec

  // ---- The invariant ----

  /** Every saved backend name is one of the backend table. */
  ghost predicate Named(s: Sys) {
    exists kind :: s.identity.name == NameOf(kind)
  }

  predicate SlotOf(slot: Slot, lib: nat) {
    slot == Null || slot == From(lib)
  }

  /** Every slot is null or comes from `lib`; the main table is bound or cleared as a whole. */
  predicate TablesFrom(s: Sys, lib: nat) {
    && SlotOf(s.tool.initThread, lib) && SlotOf(s.tool.finalize, lib)
    && (s.main == NULL_MAIN || (s.main.init == s.main.finalize == From(lib) && SlotOf(s.main.initThread, lib)))
  }

  /**
   One library shared by `mpiRefs` references of MPI and one for every MPI-T init not yet
   finalized: it is loaded while there is a reference, no other library is open, nothing was
   closed twice, and both tables are bound to it.
   */
  ghost predicate Shared(s: Sys, mpiRefs: nat) {
    && 0 <= s.toolDepth && s.refcount == mpiRefs + s.toolDepth
    && (s.loaded <==> 0 < s.refcount) && (s.handle.Some? <==> s.loaded)
    && s.open == (if s.handle.Some? then {s.handle.value} else {})
    && !s.doubleClose
    && (s.handle.Some? ==> s.handle.value < s.nextLib && TablesFrom(s, s.handle.value))
    && (s.toolInited ==> 0 < s.toolDepth)
    && Named(s)
  }

  function MpiRefs(s: Sys): nat {
    if s.state == Active then 1 else 0
  }

  /** The shared-library invariant, between calls. */
  ghost predicate Inv(s: Sys) {
    && Shared(s, MpiRefs(s))
    && s.state != Initializing && s.state != Finalizing
    && (s.state == Active ==> s.main != NULL_MAIN)
  }

  /** The two things asked of callers: init_with only while nothing is loaded, MPI-T finalizes matched by inits. */
  predicate WellUsed(s: Sys, c: Call) {
    match c
    case InitWith(name, _) => name.None? || CanInitialize(s.state) != OK || !s.loaded
    case ToolFinalize(_) => 0 < s.toolDepth
    case _ => true
  }

  lemma StartInv(platform: Platform)
    ensures Inv(Start(platform))
  {
    assert NO_IDENTITY.name == NameOf(Unknown);
  }

  // ---- Loading is all or nothing ----

  /** A load that fails leaves the same libraries open, no handle, and touches neither references nor identity. */
  lemma LoadFails(s: Sys, path: string, host: Host)
    requires FreshGenerations(s) && Load(s, path, host).1 != OK
    ensures var t := Load(s, path, host).0;
      t == s.(handle := None, nextLib := t.nextLib, main := t.main, tool := t.tool, kind := t.kind)
    ensures s.nextLib <= Load(s, path, host).0.nextLib
  {
    assert s.open + {s.nextLib} - {s.nextLib} == s.open;
  }

  /** A load that succeeds opens one new library, binds both tables to it, and names it. */
  lemma LoadSucceeds(s: Sys, path: string, host: Host)
    requires Load(s, path, host).1 == OK
    ensures var lib, t, kind := s.nextLib, Load(s, path, host).0, IdentifyBackend(s.platform, host.exports);
      t == s.(handle := Some(lib), open := s.open + {lib}, nextLib := lib + 1, kind := kind,
              main := BoundMain(lib, host.exports), tool := BoundTool(lib, host.exports),
              identity := Identity(kind, NameOf(kind), Some(path)))
  {
  }

  /** The library of a successful load exports the core symbols and was identified as a backend of this platform. */
  lemma LoadGuarantee(s: Sys, path: string, host: Host)
    requires Named(s) && Load(s, path, host).1 == OK
    ensures var t := Load(s, path, host).0;
      && CORE_SYMBOLS <= host.exports && t.kind != Unknown && Supported(s.platform, t.kind)
      && t.main.init == t.main.finalize == From(s.nextLib)
  {
  }

  /**
   From a state with nothing loaded, `unimpi_ensure_loaded` either fails and leaves the open
   libraries, the empty handle and the loaded flag as they were, or succeeds with one new
   library that exports the core symbols and belongs to a backend of this platform.
   */
  lemma EnsureLoadedAllOrNothing(s: Sys, host: Host)
    requires !s.loaded && s.handle.None? && FreshGenerations(s) && Named(s)
    ensures var (t, code) := EnsureLoaded(s, host);
      if code != OK then t.open == s.open && t.handle.None? && !t.loaded && t.refcount == s.refcount
      else t.open == s.open + {s.nextLib} && t.handle == Some(s.nextLib) && t.loaded && t.refcount == s.refcount
           && CORE_SYMBOLS <= host.exports && t.kind != Unknown && Supported(s.platform, t.kind)
  {
    var path := DetectBackend(s.platform, host);
    if Load(s, path, host).1 != OK {
      LoadFails(s, path, host);
    } else {
      LoadSucceeds(s, path, host);
      LoadGuarantee(s, path, host);
    }
  }

  /** A load into an unloaded system keeps or establishes sharing. */
  lemma LoadShares(s: Sys, path: string, host: Host)
    requires Shared(s, 0) && !s.loaded
    ensures var (t, code) := Load(s, path, host);
      && t.state == s.state && t.crashed == s.crashed && t.refcount == t.toolDepth == 0 && t.platform == s.platform
      && (code != OK ==> Shared(t, 0))
      && (code == OK ==> Shared(t.(refcount := 1, loaded := true), 1) && t.main != NULL_MAIN && t.handle == Some(s.nextLib))
  {
    if Load(s, path, host).1 != OK {
      LoadFails(s, path, host);
    } else {
      LoadSucceeds(s, path, host);
      LoadGuarantee(s, path, host);
    }
  }

  // ---- Acquiring and releasing references ----

  /** Ensuring the library is loaded and taking a reference for MPI keeps sharing; failing changes no reference. */
  lemma AcquireShares(s: Sys, host: Host)
    requires Shared(s, 0)
    ensures var (t, code) := EnsureLoaded(s, host);
      && t.state == s.state && t.crashed == s.crashed && t.refcount == s.refcount && t.toolDepth == s.toolDepth
      && t.platform == s.platform
      && (code != OK ==> Shared(t, 0) && !s.loaded)
      && (code == OK ==> Shared(t.(refcount := t.refcount + 1), 1) && t.loaded)
      && (code == OK && !s.loaded ==> t.main != NULL_MAIN && t.handle == Some(s.nextLib))
      && (s.loaded ==> t == s)
  {
    if !s.loaded {
      LoadShares(s, DetectBackend(s.platform, host), host);
    }
  }

  /** Giving back MPI's reference keeps sharing for the tools. */
  lemma MpiReleaseShares(s: Sys)
    requires Shared(s, 1)
    ensures Shared(Released(CleanedUp(s)).(identity := NO_IDENTITY), 0)
  {
    assert NO_IDENTITY.name == NameOf(Unknown);
    assert s.open - {s.handle.value} == {};
  }

  /** A tool finalize keeps sharing, provided it matches an init. */
  lemma ToolReleaseShares(s: Sys, mpiRefs: nat)
    requires Shared(s, mpiRefs) && 0 < s.toolDepth
    ensures Shared(Released(s.(toolInited := false, toolDepth := s.toolDepth - 1)), mpiRefs)
  {
  }

  // ---- One step ----

  lemma NativeInitKeepsInv(s: Sys, threaded: bool, host: Host)
    requires Shared(s, 1) && s.state == Initializing
    ensures var t := NativeInitStep(s, threaded, host).0; !t.crashed ==> Inv(t)
  {
    MpiReleaseShares(s);
  }

  lemma InitKeepsInv(s: Sys, threaded: bool, host: Host)
    requires Inv(s) && CanInitialize(s.state) == OK
    ensures var t := InitializeBackend(s.(state := Initializing), threaded, host).0; !t.crashed ==> Inv(t)
  {
    hide Load;
    var s0 := s.(state := Initializing);
    AcquireShares(s0, host);
    var (s1, code) := EnsureLoaded(s0, host);
    if code == OK {
      NativeInitKeepsInv(s1.(refcount := s1.refcount + 1), threaded, host);
    }
  }

  lemma InitWithKeepsInv(s: Sys, name: Option<string>, host: Host)
    requires Inv(s) && !s.crashed && !s.loaded
    ensures var t := InitWithStep(s, name, host).0; !t.crashed ==> Inv(t)
  {
    if name.Some? && CanInitialize(s.state) == OK {
      var s0 := s.(state := Initializing);
      var path := match LibraryOf(name.value) case Some(lib) => lib case None => name.value;
      LoadShares(s0, path, host);
      var (s1, code) := Load(s0, path, host);
      if code == OK {
        assert NO_IDENTITY.name == NameOf(Unknown);
        assert s1.open - {s1.handle.value} == {};
      }
    }
  }

  lemma FinalizeKeepsInv(s: Sys, host: Host)
    requires Inv(s)
    ensures var t := FinalizeStep(s, host).0; !t.crashed ==> Inv(t)
  {
    if s.state == Active {
      MpiReleaseShares(s.(state := Finalizing));
    }
  }

  lemma ToolInitKeepsInv(s: Sys, host: Host)
    requires Inv(s)
    ensures var t := ToolInitStep(s, host).0; !t.crashed ==> Inv(t)
  {
    if !s.loaded {
      AcquireShares(s, host);
    }
  }

  /** `init_with` while a library is loaded leaks it or loses its handle. */
  lemma InitWithWhileLoadedBreaksInv(s: Sys, name: Option<string>, host: Host)
    requires Inv(s) && !s.crashed && s.loaded && name.Some? && CanInitialize(s.state) == OK
    ensures var t := InitWithStep(s, name, host).0; !t.crashed ==> !Inv(t)
  {
    var s0 := s.(state := Initializing);
    var path := match LibraryOf(name.value) case Some(lib) => lib case None => name.value;
    if Load(s0, path, host).1 != OK {
      LoadFails(s0, path, host);
    } else {
      LoadSucceeds(s0, path, host);
      assert s.handle.value in Load(s0, path, host).0.open;
    }
  }

  /**
   A call that does not end the process keeps the shared-library invariant exactly when it
   is well used.
   */
  lemma CallKeepsInvIff(e: Event)
    requires Happens(e) && Inv(e.before) && !e.before.crashed && !e.after.crashed
    ensures Inv(e.after) <==> WellUsed(e.before, e.call)
  {
    var s := e.before;
    match e.call
    case Init(host) =>
      if CanInitialize(s.state) == OK {
        InitKeepsInv(s, false, host);
      }
    case InitThread(required, hasProvided, host) =>
      if CanInitialize(s.state) == OK {
        InitKeepsInv(s, true, host);
      }
    case InitWith(name, host) =>
      if !s.loaded {
        InitWithKeepsInv(s, name, host);
      } else if name.Some? && CanInitialize(s.state) == OK {
        InitWithWhileLoadedBreaksInv(s, name, host);
      }
    case Finalize(host) =>
      FinalizeKeepsInv(s, host);
    case ToolInit(host) =>
      ToolInitKeepsInv(s, host);
    case ToolFinalize(_) =>
      if 0 < s.toolDepth {
        ToolReleaseShares(s, MpiRefs(s));
      }
  }
}
