/**
 Which library a call loads, why it refuses to, and what the process then knows about it: the
 backend table, the environment variables and the symbols decide, as read off here without the
 functions that search them.
 */
module LibraryChoice {
  import opened Options
  import opened Loader
  import opened LifecycleSpec
  import opened LifecycleTheorems
  import opened LifecycleRuns

  // ---- The library a call asks for ----

  /** The backend table gives this library for the name; a name that the table lacks is a path itself. */
  ghost predicate TableLibrary(name: string, path: string) {
    || (exists i :: 0 <= i < |BACKENDS| && BACKENDS[i].name == name && BACKENDS[i].libName == path)
    || (path == name && forall i :: 0 <= i < |BACKENDS| ==> BACKENDS[i].name != name)
  }

  /** UNIMPI_LIBRARY comes first, then UNIMPI_BACKEND, then MS-MPI on Windows and Open MPI elsewhere. */
  ghost predicate Detected(platform: Platform, host: Host, path: string) {
    if host.envLibrary != "" then path == host.envLibrary
    else TableLibrary(if host.envBackend != "" then host.envBackend else if platform == Windows then "msmpi" else "openmpi", path)
  }

  /** The library a call asks for. */
  ghost predicate Chosen(platform: Platform, c: Call, path: string) {
    match c
    case InitWith(name, _) => name.Some? && TableLibrary(name.value, path)
    case Init(host) => Detected(platform, host, path)
    case InitThread(_, _, host) => Detected(platform, host, path)
    case ToolInit(host) => Detected(platform, host, path)
    case _ => false
  }

  /** The call opens a library: an init that is not refused, or an MPI-T init, while none is loaded; `init_with` always. */
  predicate Loads(e: Event) {
    match e.call
    case ToolInit(_) => !e.before.loaded
    case Finalize(_) => false
    case ToolFinalize(_) => false
    case _ => ArgumentsOk(e.call) && CanInitialize(e.before.state) == OK && (e.call.InitWith? || !e.before.loaded)
  }

  lemma TableSearch(name: string, path: string)
    ensures TableLibrary(name, path) <==> path == match LibraryOf(name) case Some(lib) => lib case None => name
  {
    NamesDiffer();
    var i0, i1, i2, i3 := BACKENDS[0], BACKENDS[1], BACKENDS[2], BACKENDS[3];
    if name != i0.name && name != i1.name && name != i2.name && name != i3.name {
      assert LibraryOf(name) == None;
    }
  }

  lemma NamesDiffer()
    ensures forall i, j :: 0 <= i < j < |BACKENDS| ==> BACKENDS[i].name != BACKENDS[j].name
    ensures forall i, j :: 0 <= i < j < |BACKENDS| ==> BACKENDS[i].libName != BACKENDS[j].libName
  {
    assert |BACKENDS[0].name| == 7 && |BACKENDS[1].name| == 5 && |BACKENDS[2].name| == 8 && |BACKENDS[3].name| == 5;
    assert BACKENDS[1].name[1] != BACKENDS[3].name[1];
    assert |BACKENDS[0].libName| == 12 && |BACKENDS[1].libName| == 11 && |BACKENDS[2].libName| == 9;
    assert |BACKENDS[3].libName| == 9 && BACKENDS[2].libName[0] != BACKENDS[3].libName[0];
  }

  /** The path of the specification is the library the call asks for. */
  function PathOf(platform: Platform, c: Call): string {
    match c
    case InitWith(Some(name), _) => (match LibraryOf(name) case Some(lib) => lib case None => name)
    case _ => DetectBackend(platform, c.host)
  }

  lemma ChosenIsPath(platform: Platform, c: Call, path: string)
    requires Chosen(platform, c, path)
    ensures path == PathOf(platform, c)
  {
    match c
    case InitWith(name, _) => TableSearch(name.value, path);
    case Init(host) => DetectedIsPath(platform, host, path);
    case InitThread(_, _, host) => DetectedIsPath(platform, host, path);
    case ToolInit(host) => DetectedIsPath(platform, host, path);
    case Finalize(_) =>
    case ToolFinalize(_) =>
  }

  lemma DetectedIsPath(platform: Platform, host: Host, path: string)
    requires Detected(platform, host, path)
    ensures path == DetectBackend(platform, host)
  {
    if host.envLibrary == "" {
      TableSearch(if host.envBackend != "" then host.envBackend else if platform == Windows then "msmpi" else "openmpi", path);
      if host.envBackend == "" {
        assert BACKENDS[0].name == "openmpi" && BACKENDS[3].name == "msmpi";
        NamesDiffer();
      }
    }
  }

  /** Every call that may load asks for some library. */
  lemma SomethingChosen(platform: Platform, c: Call)
    requires !c.Finalize? && !c.ToolFinalize? && ArgumentsOk(c)
    ensures Chosen(platform, c, PathOf(platform, c))
  {
    match c
    case InitWith(name, _) => TableSearch(name.value, PathOf(platform, c));
    case Init(host) => SomethingDetected(platform, host);
    case InitThread(_, _, host) => SomethingDetected(platform, host);
    case ToolInit(host) => SomethingDetected(platform, host);
  }

  lemma SomethingDetected(platform: Platform, host: Host)
    ensures Detected(platform, host, DetectBackend(platform, host))
  {
    if host.envLibrary == "" {
      TableSearch(if host.envBackend != "" then host.envBackend else if platform == Windows then "msmpi" else "openmpi",
                  DetectBackend(platform, host));
      if host.envBackend == "" {
        assert BACKENDS[0].name == "openmpi" && BACKENDS[3].name == "msmpi";
        NamesDiffer();
      }
    }
  }

  // ---- Why a library is refused ----

  /** The host can open the library under its own name, or under the second name of its table entry. */
  ghost predicate Openable(path: string, host: Host) {
    || path in host.loadable
    || (exists i :: 0 <= i < |BACKENDS| && BACKENDS[i].libName == path && BACKENDS[i].alt.Some? && BACKENDS[i].alt.value in host.loadable)
  }

  /** The code with which loading ends: the first of the checks that fails. */
  ghost predicate Verdict(platform: Platform, path: string, host: Host, code: int) {
    var kind := IdentifyBackend(platform, host.exports);
    if NamesStandardAbi(path) then code == ERR_ABI_MISMATCH
    else if !Openable(path, host) then code == ERR_BACKEND_LOAD
    else if !({MpiInit, MpiFinalize, MpiCommSize, MpiCommRank} <= host.exports) then code == ERR_SYMBOL_NOT_FOUND
    else if !Supported(platform, kind) then code == ERR_BACKEND_NOT_SUPPORTED
    else if kind == OpenMpi && !host.openMpiHandles then code == ERR_BACKEND_INIT_FAILED
    else code == OK
  }

  lemma OpenableIff(path: string, host: Host)
    ensures Openable(path, host) <==> CanOpen(path, host)
  {
    NamesDiffer();
    var i0, i1, i2, i3 := BACKENDS[0], BACKENDS[1], BACKENDS[2], BACKENDS[3];
  }

  lemma LoadEndsWithVerdict(s: Sys, path: string, host: Host, code: int)
    requires Named(s) && Verdict(s.platform, path, host, code)
    ensures Load(s, path, host).1 == code
  {
    OpenableIff(path, host);
    var kind :| s.identity.name == NameOf(kind);
    BindGuarantee(s.platform, s.identity.name, host);
    hide NamesStandardAbi, Openable, CanOpen, IdentifyBackend, Supported;
  }

  // ---- What a loading call does ----

  /** Every slot is bound to the library exactly if the library has the symbol. */
  predicate SlotsMatch(t: Sys, lib: nat, exports: set<Symbol>) {
    && t.main.init == (if MpiInit in exports then From(lib) else Null)
    && t.main.initThread == (if MpiInitThread in exports then From(lib) else Null)
    && t.main.finalize == (if MpiFinalize in exports then From(lib) else Null)
    && t.tool.initThread == (if MpiTInitThread in exports then From(lib) else Null)
    && t.tool.finalize == (if MpiTFinalize in exports then From(lib) else Null)
  }

  /** The library in use is the one this call opened, and everything recorded about it is right. */
  ghost predicate LoadedBy(e: Event, t: Sys, path: string) {
    && Loads(e) && Chosen(e.before.platform, e.call, path)
    && Verdict(e.before.platform, path, e.call.host, OK)
    && t.handle == Some(e.before.nextLib) && SlotsMatch(t, e.before.nextLib, e.call.host.exports)
    && t.kind == IdentifyBackend(e.before.platform, e.call.host.exports)
    && t.identity == Identity(t.kind, NameOf(t.kind), Some(path))
  }

  lemma LoadOk(s: Sys, path: string, host: Host)
    requires Load(s, path, host).1 == OK
    ensures var t, kind := Load(s, path, host).0, IdentifyBackend(s.platform, host.exports);
      && t.handle == Some(s.nextLib) && s.nextLib in t.open && SlotsMatch(t, s.nextLib, host.exports)
      && t.kind == kind && t.identity == Identity(kind, NameOf(kind), Some(path))
      && t == s.(handle := t.handle, open := t.open, nextLib := t.nextLib, kind := t.kind, main := t.main, tool := t.tool,
                 identity := t.identity)
  {
    LoadSucceeds(s, path, host);
  }

  /** A call that loads is refused with the verdict's code and leaves no library behind; or it goes on to its native call. */
  lemma LoadingCallRefusedIff(e: Event, path: string, code: int)
    requires Happens(e) && Inv(e.before) && !e.before.crashed && Loads(e)
    requires Chosen(e.before.platform, e.call, path) && Verdict(e.before.platform, path, e.call.host, code)
    ensures code != OK ==>
      e.outcome == Returned(code, NoCall) && e.after.open == e.before.open && e.after.handle == None
      && e.after.identity == e.before.identity && e.after.refcount == e.before.refcount
    ensures code == OK ==>
      if e.outcome == Crashed then e.call.ToolInit? && MpiTInitThread !in e.call.host.exports
      else e.outcome.native.Called? && (e.call.ToolInit? ==> MpiTInitThread in e.call.host.exports)
  {
    var s, host := e.before, e.call.host;
    ChosenIsPath(s.platform, e.call, path);
    var s0 := if e.call.ToolInit? then s else s.(state := Initializing);
    LoadEndsWithVerdict(s0, path, host, code);
    hide Verdict, Chosen, DetectBackend, LibraryOf;
    if code == OK {
      LoadOk(s0, path, host);
      LoadGuarantee(s0, path, host);
    } else {
      LoadFails(s0, path, host);
    }
    hide Load;
  }

  /** When such a call succeeds, the library it asked for is the one in use, recorded under its path, name and kind. */
  lemma LoadingCallRecords(e: Event, path: string)
    requires Happens(e) && Inv(e.before) && !e.before.crashed && Loads(e) && Chosen(e.before.platform, e.call, path)
    requires e.outcome.Returned? && e.outcome.native.Called? && (e.call.ToolInit? || e.outcome.ret == OK)
    ensures LoadedBy(e, e.after, path)
  {
    var s, host := e.before, e.call.host;
    ChosenIsPath(s.platform, e.call, path);
    var s0 := if e.call.ToolInit? then s else s.(state := Initializing);
    var code := Load(s0, path, host).1;
    VerdictExists(s.platform, path, host);
    var verdict :| Verdict(s.platform, path, host, verdict);
    LoadEndsWithVerdict(s0, path, host, verdict);
    hide Verdict, Chosen, DetectBackend, LibraryOf;
    if code == OK {
      LoadOk(s0, path, host);
    }
    hide Load;
  }

  lemma VerdictExists(platform: Platform, path: string, host: Host)
    ensures exists code :: Verdict(platform, path, host, code)
  {
    assert Verdict(platform, path, host, ERR_ABI_MISMATCH) || Verdict(platform, path, host, ERR_BACKEND_LOAD)
        || Verdict(platform, path, host, ERR_SYMBOL_NOT_FOUND) || Verdict(platform, path, host, ERR_BACKEND_NOT_SUPPORTED)
        || Verdict(platform, path, host, ERR_BACKEND_INIT_FAILED) || Verdict(platform, path, host, OK);
  }

  /** What a load that fails leaves in the tables: nothing live, but the main table may name the library just closed. */
  lemma FailedLoadTables(s: Sys, path: string, host: Host)
    requires Inv(s) && !s.loaded && Load(s, path, host).1 != OK
    ensures var (t, code) := Load(s, path, host);
      && t.open == {}
      && t.tool == (if code == ERR_ABI_MISMATCH || code == ERR_BACKEND_LOAD then s.tool else NULL_TOOL)
      && (code != ERR_BACKEND_INIT_FAILED ==> t.main == s.main)
      && (code == ERR_BACKEND_INIT_FAILED ==> t.main.init == t.main.finalize == From(s.nextLib) && s.nextLib !in t.open)
  {
    BindGuarantee(s.platform, s.identity.name, host);
    assert {s.nextLib} - {s.nextLib} == {};
    hide IdentifyBackend, PlatformCode, NamesStandardAbi, CanOpen;
  }

  // ---- What is known of the library in use ----

  ghost predicate SameLibrary(s: Sys, t: Sys) {
    s.loaded && s.main != NULL_MAIN && t.handle == s.handle && t.identity == s.identity && t.kind == s.kind
    && t.main == s.main && t.tool == s.tool
  }

  lemma LoadedBySame(e: Event, s: Sys, t: Sys, path: string)
    requires LoadedBy(e, s, path) && SameLibrary(s, t)
    ensures LoadedBy(e, t, path)
  {
  }

  /** A call that leaves a library in use, its main table bound, has loaded it or found it so. */
  lemma KeepsOrLoads(e: Event)
    requires Sound(e) && e.after.loaded && e.after.main != NULL_MAIN
    ensures SameLibrary(e.before, e.after) || exists path :: LoadedBy(e, e.after, path)
  {
    if Loads(e) {
      var path := PathOf(e.before.platform, e.call);
      SomethingChosen(e.before.platform, e.call);
      LoadedOnlyByNativeCall(e);
      LoadingCallRecords(e, path);
    } else {
      NotLoadingKeeps(e);
    }
  }

  lemma LoadedOnlyByNativeCall(e: Event)
    requires Sound(e) && Loads(e) && e.after.loaded && e.after.main != NULL_MAIN
    ensures e.outcome.Returned? && e.outcome.native.Called? && (e.call.ToolInit? || e.outcome.ret == OK)
  {
    var path := PathOf(e.before.platform, e.call);
    SomethingChosen(e.before.platform, e.call);
    VerdictExists(e.before.platform, path, e.call.host);
    var code :| Verdict(e.before.platform, path, e.call.host, code);
    LoadingCallRefusedIff(e, path, code);
    CallKeepsInvIff(e);
    CallCrashesIff(e);
    if IsInitCall(e.call) {
      InitCallEnds(e);
      hide Happens;
    }
  }

  lemma NotLoadingKeeps(e: Event)
    requires Sound(e) && !Loads(e) && e.after.loaded && e.after.main != NULL_MAIN
    ensures SameLibrary(e.before, e.after)
  {
    hide Load;
    if IsInitCall(e.call) {
      InitCallEnds(e);
    }
  }

  ghost predicate LoadedByOne(run: seq<Event>, k: nat, t: Sys)
    requires k <= |run|
  {
    exists i, path :: 0 <= i < k && LoadedBy(run[i], t, path)
  }

  /**
   Whenever a library is in use and the main table is bound, as while MPI is active, the path, name, kind
   and every slot on record are those of the library that some earlier call asked for and opened.
   */
  lemma {:induction false} LibraryInUseIsOnRecord(platform: Platform, run: seq<Event>, k: nat)
    requires IsRun(run, Start(platform)) && k <= |run| && !StateAfter(run, Start(platform), k).crashed && UsedWell(run, k)
    requires var t := StateAfter(run, Start(platform), k); t.loaded && t.main != NULL_MAIN
    ensures LoadedByOne(run, k, StateAfter(run, Start(platform), k))
  {
    hide IsRun, Happens, Inv, LoadedBy;
    if k > 0 {
      var e := run[k - 1];
      RunStep(run, Start(platform), k - 1);
      RunInv(platform, run, k - 1);
      KeepsOrLoads(e);
      if SameLibrary(e.before, e.after) {
        LibraryInUseIsOnRecord(platform, run, k - 1);
        var i, path :| 0 <= i < k - 1 && LoadedBy(run[i], e.before, path);
        LoadedBySame(run[i], e.before, e.after, path);
      }
    }
  }
}
