/**
 Finding, opening and identifying a backend library (src/loader.c), and the checks a
 library must pass before its functions are bound (src/vtable.c). The host system is a
 parameter: its environment variables, the file names it can open, and the symbols that
 the library opened by a call exports.
 */
module Loader {
  import opened Options

  // Return codes, include/unimpi.h
  const OK := 0
  const ERR_NO_BACKEND := -1
  const ERR_BACKEND_LOAD := -2
  const ERR_ABI_MISMATCH := -3
  const ERR_NOT_INITIALIZED := -4
  const ERR_ALREADY_INITIALIZED := -5
  const ERR_SYMBOL_NOT_FOUND := -6
  const ERR_INVALID_ARGUMENT := -8
  const ERR_BACKEND_NOT_SUPPORTED := -9
  const ERR_BACKEND_INIT_FAILED := -10
  const ERR_FINALIZED := -11
  const ERR_INVALID_STATE := -12

  datatype Platform = Windows | MacOS | Linux | OtherPlatform

  datatype BackendType = Unknown | OpenMpi | Mpich | IntelMpi | MsMpi

  datatype Symbol =
    | MpiInit | MpiInitThread | MpiFinalize | MpiCommSize | MpiCommRank
    | MpiTInitThread | MpiTFinalize
    | MsmpiGetVersion | OmpiCommWorld | IntelCoreType | MpirErrCreateCode | MpirDupFn | MpirCommWorld

  /** What one call finds on the host, and what the native functions it reaches return. */
  datatype Host = Host(
    envLibrary: string,          // UNIMPI_LIBRARY, empty when unset
    envBackend: string,          // UNIMPI_BACKEND, empty when unset
    loadable: set<string>,       // names the dynamic loader can open
    exports: set<Symbol>,        // symbols of the library that is opened
    openMpiHandles: bool,        // an Open MPI library yields its communicator handles
    initRet: int,                // native MPI_Init or MPI_Init_thread
    providedLevel: int,
    finalizeRet: int,            // native MPI_Finalize
    toolInitRet: int,            // native MPI_T_init_thread
    toolFinalizeRet: int)        // native MPI_T_finalize

  // ---- The backend table ----

  datatype BackendInfo = BackendInfo(kind: BackendType, name: string, libName: string, alt: Option<string>)

  const BACKENDS: seq<BackendInfo> := [
    BackendInfo(OpenMpi, "openmpi", "libmpi.so.40", Some("libmpi.so.20")),
    BackendInfo(Mpich, "mpich", "libmpich.so", None),
    BackendInfo(IntelMpi, "intelmpi", "libmpi.so", None),
    BackendInfo(MsMpi, "msmpi", "msmpi.dll", None)]

  /** The library of the first backend with this name, if any. */
  function LibraryOf(name: string): Option<string> {
    if name == BACKENDS[0].name then Some(BACKENDS[0].libName)
    else if name == BACKENDS[1].name then Some(BACKENDS[1].libName)
    else if name == BACKENDS[2].name then Some(BACKENDS[2].libName)
    else if name == BACKENDS[3].name then Some(BACKENDS[3].libName)
    else None
  }

  /** The second name to try for a library; only the first table entry has one. */
  function FallbackOf(path: string): Option<string> {
    if path == BACKENDS[0].libName then BACKENDS[0].alt else None
  }

  function NameOf(kind: BackendType): Option<string> {
    match kind
    case OpenMpi => Some(BACKENDS[0].name)
    case Mpich => Some(BACKENDS[1].name)
    case IntelMpi => Some(BACKENDS[2].name)
    case MsMpi => Some(BACKENDS[3].name)
    case Unknown => None
  }

  // ---- Standard ABI libraries ----

  function Lower(c: char): char {
    if 'A' <= c <= 'Z' then (c as int + 32) as char else c
  }

  const ABI_MARKS: seq<string> := ["mpi_abi", "mpi-abi"]

  predicate Contains(s: string, part: string) {
    part <= s || (s != "" && Contains(s[1..], part))
  }

  /** Whether a path is taken for a standard-ABI library; only its first 255 characters are looked at. */
  predicate NamesStandardAbi(path: string) {
    var length := if |path| >= 256 then 255 else |path|;
    var lowered := seq(length, i requires 0 <= i < length => Lower(path[i]));
    Contains(lowered, ABI_MARKS[0]) || Contains(lowered, ABI_MARKS[1])
  }

  // ---- Steps of loading ----

  /** The path a load starts from when the caller names no backend; detection always answers. */
  function DetectBackend(platform: Platform, host: Host): string {
    if host.envLibrary != "" then host.envLibrary
    else if host.envBackend != "" then
      (match LibraryOf(host.envBackend) case Some(lib) => lib case None => host.envBackend)
    else if platform == Windows then "msmpi.dll"
    else "libmpi.so.40"
  }

  predicate CanOpen(path: string, host: Host) {
    path in host.loadable || (FallbackOf(path).Some? && FallbackOf(path).value in host.loadable)
  }

  /** The code with which opening a library ends. */
  function OpenCode(path: string, host: Host): int {
    if NamesStandardAbi(path) then ERR_ABI_MISMATCH
    else if CanOpen(path, host) then OK
    else ERR_BACKEND_LOAD
  }

  const CORE_SYMBOLS: set<Symbol> := {MpiInit, MpiFinalize, MpiCommSize, MpiCommRank}

  function IdentifyBackend(platform: Platform, exports: set<Symbol>): BackendType {
    if platform == Windows && MsmpiGetVersion in exports then MsMpi
    else if OmpiCommWorld in exports then OpenMpi
    else if IntelCoreType in exports then IntelMpi
    else if MpirErrCreateCode in exports || MpirDupFn in exports then Mpich
    else if MpirCommWorld in exports then Mpich
    else Unknown
  }

  predicate Supported(platform: Platform, kind: BackendType) {
    match platform
    case Windows => kind == MsMpi
    case MacOS => kind == OpenMpi || kind == Mpich
    case Linux => kind == OpenMpi || kind == Mpich || kind == IntelMpi
    case OtherPlatform => false
  }

  /** The platform check; `named` is the backend name saved by an earlier load, not the path being loaded. */
  function PlatformCode(platform: Platform, kind: BackendType, named: Option<string>): int {
    if !Supported(platform, kind) then ERR_BACKEND_NOT_SUPPORTED
    else if (kind == Mpich || kind == IntelMpi) && named.Some? && NamesStandardAbi(named.value) then ERR_ABI_MISMATCH
    else OK
  }

  /** The code with which binding an opened library ends. */
  function BindCode(platform: Platform, named: Option<string>, host: Host): int {
    if !(CORE_SYMBOLS <= host.exports) then ERR_SYMBOL_NOT_FOUND
    else
      var kind := IdentifyBackend(platform, host.exports);
      if PlatformCode(platform, kind, named) != OK then PlatformCode(platform, kind, named)
      else if kind == OpenMpi && !host.openMpiHandles then ERR_BACKEND_INIT_FAILED
      else OK
  }

  // ---- What these checks guarantee ----

  lemma {:induction false} ShortDoesNotContain(s: string, part: string)
    requires |s| < |part|
    ensures !Contains(s, part)
  {
    if s != "" {
      ShortDoesNotContain(s[1..], part);
    }
  }

  ghost predicate OccursAt(s: string, part: string, i: nat) {
    i + |part| <= |s| && forall j :: 0 <= j < |part| ==> s[i + j] == part[j]
  }

  /** The search finds every occurrence, and nothing else. */
  lemma {:induction false} ContainsIff(s: string, part: string)
    ensures Contains(s, part) <==> exists i: nat :: OccursAt(s, part, i)
  {
    assert part <= s <==> OccursAt(s, part, 0);
    if s != "" {
      ContainsIff(s[1..], part);
      if i: nat :| OccursAt(s[1..], part, i) {
        forall j | 0 <= j < |part|
          ensures s[i + 1 + j] == part[j]
        {
          assert s[1..][i + j] == part[j];
        }
        assert OccursAt(s, part, i + 1);
      }
      if i: nat :| 0 < i && OccursAt(s, part, i) {
        forall j | 0 <= j < |part|
          ensures s[1..][i - 1 + j] == part[j]
        {
          assert s[i + j] == part[j];
        }
        assert OccursAt(s[1..], part, i - 1);
      }
    }
  }

  /** The mark stands at position i of the path, in upper or lower case, within the first 255 characters. */
  ghost predicate MarkAt(path: string, mark: string, i: nat) {
    i + |mark| <= |path| && i + |mark| <= 255 && forall j :: 0 <= j < |mark| ==> Lower(path[i + j]) == mark[j]
  }

  /** A path is taken for a standard-ABI library iff a mark occurs in its first 255 characters, whatever their case. */
  lemma NamesStandardAbiIff(path: string)
    ensures NamesStandardAbi(path) <==> exists i: nat :: MarkAt(path, "mpi_abi", i) || MarkAt(path, "mpi-abi", i)
  {
    var length := if |path| >= 256 then 255 else |path|;
    var lowered := seq(length, i requires 0 <= i < length => Lower(path[i]));
    ContainsIff(lowered, ABI_MARKS[0]);
    ContainsIff(lowered, ABI_MARKS[1]);
    hide Contains, Lower;
    forall i: nat
      ensures OccursAt(lowered, ABI_MARKS[0], i) <==> MarkAt(path, "mpi_abi", i)
      ensures OccursAt(lowered, ABI_MARKS[1], i) <==> MarkAt(path, "mpi-abi", i)
    {
    }
  }

  /** A mark is not found in a text at most one letter longer that does not start with m, nor does its tail. */
  lemma MarkNotFound(s: string, part: string)
    requires 0 < |s| && |part| == 7 && part[0] == 'm'
    requires |s| < 7 || (s[0] != 'm' && (|s| == 7 || (|s| == 8 && s[1] != 'm')))
    ensures !Contains(s, part)
  {
  }

  /** A backend name of the table is never taken for a standard-ABI library. */
  lemma BackendNamesAreNotAbi(kind: BackendType)
    ensures NameOf(kind).Some? ==> !NamesStandardAbi(NameOf(kind).value)
  {
    if NameOf(kind).Some? {
      var name := NameOf(kind).value;
      var lowered := seq(|name|, i requires 0 <= i < |name| => Lower(name[i]));
      MarkNotFound(lowered, ABI_MARKS[0]);
      MarkNotFound(lowered, ABI_MARKS[1]);
    }
  }

  /** How a library is identified: each backend by its own symbol, unless an earlier one in the order has already answered. */
  lemma IdentifyIff(platform: Platform, exports: set<Symbol>)
    ensures var kind := IdentifyBackend(platform, exports);
      && (kind == MsMpi <==> platform == Windows && MsmpiGetVersion in exports)
      && (kind == OpenMpi <==> OmpiCommWorld in exports && !(platform == Windows && MsmpiGetVersion in exports))
      && (kind == IntelMpi <==>
            IntelCoreType in exports && OmpiCommWorld !in exports && !(platform == Windows && MsmpiGetVersion in exports))
      && (kind == Mpich <==>
            exports * {MpirErrCreateCode, MpirDupFn, MpirCommWorld} != {} &&
            IntelCoreType !in exports && OmpiCommWorld !in exports && !(platform == Windows && MsmpiGetVersion in exports))
  {
    assert forall x :: x in {MpirErrCreateCode, MpirDupFn, MpirCommWorld} && x in exports ==>
      x in exports * {MpirErrCreateCode, MpirDupFn, MpirCommWorld};
  }

  /**
   Binding succeeds only for a library that exports the four core symbols and was identified
   as a backend of this platform, so the default branch that would bind an unidentified library
   as MPICH is never taken; and since the platform check is handed a backend name, it never
   reports an ABI mismatch.
   */
  lemma BindGuarantee(platform: Platform, named: Option<string>, host: Host)
    requires exists kind :: named == NameOf(kind)
    ensures BindCode(platform, named, host) != ERR_ABI_MISMATCH
    ensures BindCode(platform, named, host) == OK <==>
      && CORE_SYMBOLS <= host.exports
      && Supported(platform, IdentifyBackend(platform, host.exports))
      && (IdentifyBackend(platform, host.exports) == OpenMpi ==> host.openMpiHandles)
    ensures BindCode(platform, named, host) == OK ==> IdentifyBackend(platform, host.exports) != Unknown
    ensures BindCode(platform, named, host) == ERR_SYMBOL_NOT_FOUND <==> !(CORE_SYMBOLS <= host.exports)
    ensures BindCode(platform, named, host) == ERR_BACKEND_NOT_SUPPORTED <==>
      CORE_SYMBOLS <= host.exports && !Supported(platform, IdentifyBackend(platform, host.exports))
    ensures BindCode(platform, named, host) in {OK, ERR_SYMBOL_NOT_FOUND, ERR_BACKEND_NOT_SUPPORTED, ERR_BACKEND_INIT_FAILED}
  {
    var kind :| named == NameOf(kind);
    BackendNamesAreNotAbi(kind);
  }

  /** A library on which binding succeeds as a backend of this kind, on the platforms that have one. */
  function SampleHost(kind: BackendType): Host {
    var own := match kind
      case MsMpi => {MsmpiGetVersion}
      case OpenMpi => {OmpiCommWorld}
      case IntelMpi => {IntelCoreType}
      case Mpich => {MpirDupFn}
      case Unknown => {};
    Host("", "", {}, CORE_SYMBOLS + own, true, 0, 0, 0, 0, 0)
  }

  /** Which backends can be bound at all: MS-MPI on Windows, Open MPI and MPICH on macOS and Linux, Intel MPI on Linux. */
  lemma BindableBackends(platform: Platform, kind: BackendType)
    ensures (exists host :: BindCode(platform, None, host) == OK && IdentifyBackend(platform, host.exports) == kind) <==>
      (platform, kind) in {(Windows, MsMpi), (MacOS, OpenMpi), (MacOS, Mpich), (Linux, OpenMpi), (Linux, Mpich), (Linux, IntelMpi)}
  {
    if (platform, kind) in {(Windows, MsMpi), (MacOS, OpenMpi), (MacOS, Mpich), (Linux, OpenMpi), (Linux, Mpich), (Linux, IntelMpi)} {
      assert BindCode(platform, None, SampleHost(kind)) == OK;
    }
  }
}
