/**
 Particular runs: init may be retried any number of times, and what happens to callers
 that fall outside the conditions of the general theorems.
 */
module LifecycleExamples {
  import opened Options
  import opened Loader
  import opened LifecycleSpec
  import opened LifecycleTheorems
  import opened LifecycleRuns

  /** A host with an Open MPI library "x" that exports everything and whose functions all succeed. */
  const GOOD := Host("x", "", {"x"}, CORE_SYMBOLS + {OmpiCommWorld, MpiTInitThread, MpiTFinalize}, true, 0, 0, 0, 0, 0)

  /** The same host, with a native init that fails. */
  const FAILING := GOOD.(initRet := 1)

  lemma GoodLibraryOpens(s: Sys, host: Host)
    requires s.platform == Linux && Named(s) && host in {GOOD, FAILING, GOOD.(toolInitRet := 1)}
    ensures OpenCode("x", host) == OK && Load(s, "x", host).1 == OK && DetectBackend(s.platform, host) == "x"
  {
    var lowered := seq(1, i requires 0 <= i < 1 => Lower("x"[i]));
    MarkNotFound(lowered, ABI_MARKS[0]);
    MarkNotFound(lowered, ABI_MARKS[1]);
    BindGuarantee(s.platform, s.identity.name, host);
  }

  /** The state with the good library loaded. */
  function GoodLoaded(s: Sys): Sys {
    s.(handle := Some(s.nextLib), open := s.open + {s.nextLib}, nextLib := s.nextLib + 1, kind := OpenMpi, loaded := true,
       main := MainTable(From(s.nextLib), Null, From(s.nextLib)), tool := ToolTable(From(s.nextLib), From(s.nextLib)),
       identity := Identity(OpenMpi, NameOf(OpenMpi), Some("x")))
  }

  lemma GoodLibraryLoads(s: Sys, host: Host)
    requires s.platform == Linux && Named(s) && host in {GOOD, FAILING, GOOD.(toolInitRet := 1)}
    ensures Load(s, "x", host) == (GoodLoaded(s).(loaded := s.loaded), OK)
    ensures !s.loaded ==> EnsureLoaded(s, host) == (GoodLoaded(s), OK)
  {
    GoodLibraryOpens(s, host);
    LoadSucceeds(s, "x", host);
  }

  lemma GoodToolInit(s: Sys)
    requires s.platform == Linux && Named(s) && !s.loaded && !s.crashed
    ensures Step(s, ToolInit(GOOD)) ==
      (GoodLoaded(s).(refcount := s.refcount + 1, toolInited := true, toolDepth := s.toolDepth + 1),
       Returned(OK, Called(NativeToolInit, 0)))
  {
    GoodLibraryLoads(s, GOOD);
  }

  lemma GoodInit(s: Sys)
    requires s.platform == Linux && Named(s) && !s.loaded && !s.crashed && CanInitialize(s.state) == OK
    ensures Step(s, Init(GOOD)) ==
      (GoodLoaded(s).(refcount := s.refcount + 1, state := Active), Returned(OK, Called(NativeInit, 0)))
  {
    GoodLibraryLoads(s.(state := Initializing), GOOD);
  }

  lemma GoodInitWith(s: Sys)
    requires s.platform == Linux && Named(s) && !s.crashed && CanInitialize(s.state) == OK
    ensures Step(s, InitWith(Some("x"), GOOD)).0 ==
      GoodLoaded(s).(refcount := s.refcount + 1, state := Active)
  {
    GoodLibraryLoads(s.(state := Initializing), GOOD);
  }

  lemma StartNamed()
    ensures Named(Start(Linux))
  {
    assert NO_IDENTITY.name == NameOf(Unknown);
  }

  /** A run may go on with any call. */
  lemma RunOn(run: seq<Event>, s: Sys, c: Call) returns (longer: seq<Event>)
    requires IsRun(run, s)
    ensures IsRun(longer, s) && |longer| == |run| + 1 && run <= longer
    ensures longer[|run|] == EventOf(StateAfter(run, s, |run|), c)
  {
    hide Step;
    var e := EventOf(StateAfter(run, s, |run|), c);
    longer := run + [e];
    forall i: nat | i < |longer| ensures Continues(longer, s, i) {
      if i < |run| {
        assert Continues(run, s, i);
      } else {
        assert Happens(e);
      }
    }
  }

  /** Three calls in a row. */
  lemma ThreeCalls(s: Sys, a: Call, b: Call, c: Call) returns (run: seq<Event>)
    ensures IsRun(run, s) && |run| == 3
    ensures run[0] == EventOf(s, a) && run[1] == EventOf(run[0].after, b) && run[2] == EventOf(run[1].after, c)
  {
    hide EventOf;
    run := RunOn([], s, a);
    run := RunOn(run, s, b);
    run := RunOn(run, s, c);
  }

  function EventOf(s: Sys, c: Call): Event {
    Event(s, c, Step(s, c).1, Step(s, c).0)
  }

  // ---- Init may be retried ----

  lemma FailedInit(s: Sys)
    requires s.state == Never || s.state == InitFailed
    requires s == Start(Linux).(state := s.state, nextLib := s.nextLib, tool := s.tool)
    ensures Step(s, Init(FAILING)).1 == Returned(ERR_BACKEND_LOAD, Called(NativeInit, 1))
    ensures var t := Step(s, Init(FAILING)).0;
      t == Start(Linux).(state := InitFailed, nextLib := s.nextLib + 1, tool := t.tool)
  {
    assert NO_IDENTITY.name == NameOf(Unknown);
    GoodLibraryLoads(s.(state := Initializing), FAILING);
  }

  /** The first k calls are inits whose native init failed. */
  predicate InitsFail(run: seq<Event>, k: nat)
    requires k <= |run|
  {
    forall i: nat :: i < k ==> run[i].call.Init? && run[i].outcome == Returned(ERR_BACKEND_LOAD, Called(NativeInit, 1))
  }

  lemma {:induction false} FailingInits(k: nat) returns (run: seq<Event>)
    ensures IsRun(run, Start(Linux)) && |run| == k && InitsFail(run, k)
    ensures var t := StateAfter(run, Start(Linux), k);
      t == Start(Linux).(state := t.state, nextLib := t.nextLib, tool := t.tool) && t.state in {Never, InitFailed}
  {
    if k == 0 {
      run := [];
    } else {
      var shorter := FailingInits(k - 1);
      hide Step;
      FailedInit(StateAfter(shorter, Start(Linux), k - 1));
      run := RunOn(shorter, Start(Linux), Init(FAILING));
    }
  }

  /** After any number of failed inits, one more may succeed. */
  lemma InitRetriesAnyNumber(k: nat) returns (run: seq<Event>)
    ensures IsRun(run, Start(Linux)) && |run| == k + 1 && InitsFail(run, k)
    ensures run[k].call.Init? && run[k].outcome == Returned(OK, Called(NativeInit, 0)) && run[k].after.state == Active
  {
    hide Step;
    var failures := FailingInits(k);
    StartNamed();
    GoodInit(StateAfter(failures, Start(Linux), k));
    run := RunOn(failures, Start(Linux), Init(GOOD));
  }

  // ---- ... but not while tools hold the library ----

  /** From any state in which tools hold the library: a failed init makes the next one crash. */
  lemma FailureUnderToolsPoisons(fail: Event, retry: Event)
    requires Happens(fail) && fail.call.Init? && fail.call.host.initRet != 0
    requires Inv(fail.before) && !fail.before.crashed && 0 < fail.before.toolDepth
    requires CanInitialize(fail.before.state) == OK && fail.before.main != NULL_MAIN
    requires Happens(retry) && retry.call.Init? && retry.before == fail.after
    ensures fail.outcome == Returned(ERR_BACKEND_LOAD, Called(NativeInit, fail.call.host.initRet))
    ensures !fail.after.crashed && retry.outcome == Crashed
  {
  }

  /** An MPI-T init that loads the library leaves tools holding it, with a bound main table. */
  lemma ToolsHoldLibrary(e: Event)
    requires Happens(e) && e.call.ToolInit? && CalledNative(e, NativeToolInit)
    requires Inv(e.before) && !e.before.crashed && !e.before.loaded
    ensures Inv(e.after) && !e.after.crashed && 0 < e.after.toolDepth
    ensures e.after.state == e.before.state && e.after.main != NULL_MAIN
  {
    AcquireShares(e.before, e.call.host);
    hide Load;
    CallKeepsInvIff(e);
  }

  /** A well-used run in which an init fails under MPI-T: the retry calls through a cleared slot. */
  lemma RetryUnderToolsCrashes() returns (run: seq<Event>)
    ensures IsRun(run, Start(Linux)) && |run| == 3 && UsedWell(run, 3)
    ensures run[0].call == ToolInit(GOOD) && run[1].call == Init(FAILING) && run[2].call == Init(GOOD)
    ensures run[1].outcome == Returned(ERR_BACKEND_LOAD, Called(NativeInit, 1)) && run[2].outcome == Crashed
  {
    hide Step, Inv, Named, GoodLoaded;
    var s := Start(Linux);
    StartInv(Linux);
    StartNamed();
    GoodToolInit(s);
    run := ThreeCalls(s, ToolInit(GOOD), Init(FAILING), Init(GOOD));
    ToolsHoldLibrary(run[0]);
    FailureUnderToolsPoisons(run[1], run[2]);
  }

  // ---- Outside the well-used calls ----

  /** init_with while MPI-T holds a library: the first library stays open when every client has left. */
  lemma InitWithLeaksLibrary() returns (run: seq<Event>)
    ensures IsRun(run, Start(Linux)) && |run| == 4
    ensures run[0].call == ToolInit(GOOD) && run[1].call == InitWith(Some("x"), GOOD)
    ensures run[2].call == Finalize(GOOD) && run[3].call == ToolFinalize(GOOD)
    ensures var t := run[3].after; !t.crashed && t.refcount == 0 && t.handle == None && t.open == {0}
  {
    hide Step;
    var s := Start(Linux);
    StartNamed();
    GoodToolInit(s);
    run := RunOn([], s, ToolInit(GOOD));
    assert run[0].after.identity.name == NameOf(OpenMpi);
    GoodInitWith(run[0].after);
    run := RunOn(run, s, InitWith(Some("x"), GOOD));
    FinalizeUnderTools(run[1].after);
    run := RunOn(run, s, Finalize(GOOD));
    ToolsLeave(run[2].after);
    run := RunOn(run, s, ToolFinalize(GOOD));
    assert {0, 1} - {1} == {0};
  }

  /** MPI finalizes while tools keep the library. */
  lemma FinalizeUnderTools(s: Sys)
    requires s.state == Active && !s.crashed && 1 < s.refcount && Live(s, s.main.finalize)
    ensures Step(s, Finalize(GOOD)).0 == s.(
      state := Finalized, refcount := s.refcount - 1, main := NULL_MAIN, kind := Unknown, identity := NO_IDENTITY,
      threadLevel := THREAD_SINGLE)
  {
  }

  /** The last reference leaves through an MPI-T finalize. */
  lemma ToolsLeave(s: Sys)
    requires !s.crashed && s.refcount == 1 && s.handle.Some? && s.handle.value in s.open && Live(s, s.tool.finalize)
    ensures Step(s, ToolFinalize(GOOD)).0 == s.(
      refcount := 0, handle := None, open := s.open - {s.handle.value}, loaded := false, toolInited := false,
      toolDepth := s.toolDepth - 1)
  {
  }

  /** One MPI-T init whose native init fails: its caller gets an error, and the library stays loaded. */
  lemma FailedToolInitKeepsLibrary() returns (run: seq<Event>)
    ensures IsRun(run, Start(Linux)) && |run| == 1 && UsedWell(run, 1)
    ensures run[0].call.ToolInit? && run[0].outcome == Returned(1, Called(NativeToolInit, 1))
    ensures run[0].after.refcount == 1 && run[0].after.open == {0}
  {
    hide Step;
    var host := GOOD.(toolInitRet := 1);
    var s := Start(Linux);
    StartNamed();
    FailedToolInit(s, host);
    run := RunOn([], s, ToolInit(host));
  }

  lemma FailedToolInit(s: Sys, host: Host)
    requires s.platform == Linux && Named(s) && !s.loaded && !s.crashed && host == GOOD.(toolInitRet := 1)
    ensures Step(s, ToolInit(host)) ==
      (GoodLoaded(s).(refcount := s.refcount + 1, toolInited := true, toolDepth := s.toolDepth + 1),
       Returned(1, Called(NativeToolInit, 1)))
  {
    GoodLibraryLoads(s, host);
  }

  /** An MPI-T finalize without its init closes the library under an active MPI, whose finalize then crashes. */
  lemma UnmatchedToolFinalizeUnloadsActiveMpi() returns (run: seq<Event>)
    ensures IsRun(run, Start(Linux)) && |run| == 3
    ensures run[0].call == Init(GOOD) && run[1].call == ToolFinalize(GOOD) && run[2].call == Finalize(GOOD)
    ensures run[1].after.state == Active && run[1].after.open == {} && run[2].outcome == Crashed
  {
    hide Step;
    var s := Start(Linux);
    StartNamed();
    GoodInit(s);
    run := ThreeCalls(s, Init(GOOD), ToolFinalize(GOOD), Finalize(GOOD));
    ToolsLeave(run[0].after);
    FinalizeAfterUnload(run[1].after);
  }

  lemma FinalizeAfterUnload(s: Sys)
    requires s.state == Active && !s.crashed && s.open == {}
    ensures Step(s, Finalize(GOOD)).1 == Crashed
  {
  }
}
