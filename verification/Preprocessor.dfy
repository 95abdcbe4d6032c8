/**
 A source file as the version gate sees it, one tag a line, and what the C preprocessor
 makes of it: the stack of conditionals that enclose each line.
 */
module Preprocessor {
  import opened Options

  type Name = string

  datatype Version = Version(major: int, minor: int)

  /** Lexicographic order, as Python compares (major, minor) tuples. */
  predicate Less(a: Version, b: Version) {
    a.major < b.major || (a.major == b.major && a.minor < b.minor)
  }

  /** `UNIMPI_MPI_AT_LEAST(v)` when building for `target`. */
  predicate AtLeast(target: Version, v: Version) {
    !Less(target, v)
  }

  /**
   One line: `#if UNIMPI_MPI_AT_LEAST(v)`, any other `#if`, `#else` or `#elif`, `#endif`, a
   comment that names a cluster and its version, or a line that may declare a field and
   mentions some names.
   */
  datatype Line =
    | VersionIf(v: Version)
    | OtherIf
    | Else
    | Endif
    | ClusterComment(cluster: Name, v: Version)
    | Text(field: Option<Name>, words: set<Name>)

  /** Whether a name occurs on a line as a whole word; a cluster comment contains the cluster's name. */
  predicate Mentions(line: Line, name: Name) {
    match line
    case Text(_, words) => name in words
    case ClusterComment(cluster, _) => name == cluster
    case _ => false
  }

  // ---- The conditional stack ----

  /** An open conditional: its version guard if it has one, and whether its `#else` was passed. */
  datatype Frame = Frame(guard: Option<Version>, negated: bool)

  function NextStack(stack: seq<Frame>, line: Line): seq<Frame> {
    match line
    case VersionIf(v) => stack + [Frame(Some(v), false)]
    case OtherIf => stack + [Frame(None, false)]
    case Else => if stack == [] then [] else stack[|stack| - 1 := stack[|stack| - 1].(negated := true)]
    case Endif => if stack == [] then [] else stack[..|stack| - 1]
    case _ => stack
  }

  /** The conditionals open before line i. */
  function Stack(lines: seq<Line>, i: nat): seq<Frame>
    requires i <= |lines|
  {
    if i == 0 then [] else NextStack(Stack(lines, i - 1), lines[i - 1])
  }

  lemma StackStep(lines: seq<Line>, i: nat, stack: seq<Frame>)
    requires i < |lines| && NextStack(Stack(lines, i), lines[i]) == stack
    ensures Stack(lines, i + 1) == stack
  {
  }

  /** No `#endif` or `#else` without an `#if`. */
  ghost predicate NeverUnderflows(lines: seq<Line>) {
    forall i: nat :: i < |lines| ==> HasOpener(lines, i)
  }

  predicate HasOpener(lines: seq<Line>, i: nat)
    requires i < |lines|
  {
    lines[i] == Endif || lines[i] == Else ==> Stack(lines, i) != []
  }

  ghost predicate WellNested(lines: seq<Line>) {
    NeverUnderflows(lines) && Stack(lines, |lines|) == []
  }

  /** Line i stands in the true branch of a guard for version v. */
  ghost predicate Guarded(lines: seq<Line>, v: Version, i: nat)
    requires i <= |lines|
  {
    Frame(Some(v), false) in Stack(lines, i)
  }

  /** The number of version conditionals of a stack, whichever branch they are in. */
  function GuardCount(stack: seq<Frame>): nat {
    if stack == [] then 0
    else GuardCount(stack[..|stack| - 1]) + if stack[|stack| - 1].guard.Some? then 1 else 0
  }

  // ---- What is compiled for a target ----

  predicate Taken(frame: Frame, target: Version) {
    match frame.guard
    case Some(v) => AtLeast(target, v) != frame.negated
    case None => !frame.negated
  }

  /** Line i is compiled for a target; conditionals other than version guards are taken to hold. */
  ghost predicate CompiledLine(lines: seq<Line>, target: Version, i: nat)
    requires i <= |lines|
  {
    forall frame :: frame in Stack(lines, i) ==> Taken(frame, target)
  }

  /** Line i declares a field. */
  predicate Declares(lines: seq<Line>, i: nat, field: Name)
    requires i < |lines|
  {
    lines[i].Text? && lines[i].field == Some(field)
  }

  /** A field is part of the surface built for a target. */
  ghost predicate InSurface(lines: seq<Line>, target: Version, field: Name) {
    exists i: nat :: i < |lines| && Declares(lines, i, field) && CompiledLine(lines, target, i)
  }

  // ---- Nesting depths ----

  /** A counter over the directives: up at every `#if`, down at every `#endif` but never below zero. */
  function Nesting(lines: seq<Line>, i: nat): nat
    requires i <= |lines|
  {
    if i == 0 then 0
    else
      var before := Nesting(lines, i - 1);
      match lines[i - 1]
      case VersionIf(_) => before + 1
      case OtherIf => before + 1
      case Endif => if before == 0 then 0 else before - 1
      case _ => before
  }

  /** In any file whatever, the counter is the height of the conditional stack. */
  lemma {:induction false} NestingIsHeight(lines: seq<Line>, i: nat)
    requires i <= |lines|
    ensures Nesting(lines, i) == |Stack(lines, i)|
  {
    if i > 0 {
      NestingIsHeight(lines, i - 1);
    }
  }

  /** The `#if` at line k is for version v and neither closed nor passed its `#else` before line j. */
  ghost predicate GuardOpen(lines: seq<Line>, v: Version, k: nat, j: nat)
    requires k < j <= |lines|
  {
    && lines[k] == VersionIf(v)
    && (forall i {:trigger Nesting(lines, i)} :: k < i <= j ==> Nesting(lines, k) < Nesting(lines, i))
    && (forall i {:trigger Nesting(lines, i)} :: k < i < j && Nesting(lines, i) == Nesting(lines, k) + 1 ==> lines[i] != Else)
  }

  /** A line changes at most the top of the stack. */
  lemma NextStackBelow(stack: seq<Frame>, line: Line, p: nat)
    requires p < |stack| && p < |NextStack(stack, line)|
    ensures line != Else || p + 1 < |stack| ==> NextStack(stack, line)[p] == stack[p]
    ensures line == Else && p + 1 == |stack| ==> NextStack(stack, line)[p].negated
  {
  }

  /** A frame of the stack was pushed by an `#if` whose conditional has been open since. */
  lemma {:induction false} FrameWasPushed(lines: seq<Line>, v: Version, p: nat, j: nat) returns (k: nat)
    requires j <= |lines| && p < |Stack(lines, j)| && Stack(lines, j)[p] == Frame(Some(v), false)
    ensures k < j && GuardOpen(lines, v, k, j) && Nesting(lines, k) == p
  {
    NestingIsHeight(lines, j - 1);
    if p < Nesting(lines, j - 1) {
      NextStackBelow(Stack(lines, j - 1), lines[j - 1], p);
      k := FrameWasPushed(lines, v, p, j - 1);
      NestingIsHeight(lines, j);
    } else {
      k := j - 1;
    }
  }

  /** An `#if` that is open has its frame on the stack. */
  lemma {:induction false} OpenGuardOnStack(lines: seq<Line>, v: Version, k: nat, j: nat)
    requires k < j <= |lines| && GuardOpen(lines, v, k, j)
    ensures Nesting(lines, k) < |Stack(lines, j)| && Stack(lines, j)[Nesting(lines, k)] == Frame(Some(v), false)
  {
    NestingIsHeight(lines, j - 1);
    if k + 1 < j {
      OpenGuardOnStack(lines, v, k, j - 1);
      assert Nesting(lines, k) < Nesting(lines, j);
      NestingIsHeight(lines, j);
      NextStackBelow(Stack(lines, j - 1), lines[j - 1], Nesting(lines, k));
    }
  }

  /** A line is guarded iff some `#if` for that version above it is still open, by counting depths. */
  lemma GuardedIffOpen(lines: seq<Line>, v: Version, j: nat)
    requires j <= |lines|
    ensures Guarded(lines, v, j) <==> exists k: nat :: k < j && GuardOpen(lines, v, k, j)
  {
    if Guarded(lines, v, j) {
      var p: nat :| p < |Stack(lines, j)| && Stack(lines, j)[p] == Frame(Some(v), false);
      var k := FrameWasPushed(lines, v, p, j);
    }
    if k: nat :| k < j && GuardOpen(lines, v, k, j) {
      OpenGuardOnStack(lines, v, k, j);
    }
  }
}
