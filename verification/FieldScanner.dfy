/**
 The scanner that collects the fields a header always declares (tools/mpi_version_gate.py,
 `extract_always_present_fields`). It replaces the conditional stack by one counter that
 goes up at version guards only, and down at every `#endif` but never below zero.
 */
module FieldScanner {
  import opened Options
  import opened Preprocessor

  function NextDepth(depth: nat, line: Line): nat {
    match line
    case VersionIf(_) => depth + 1
    case Endif => if depth == 0 then 0 else depth - 1
    case _ => depth
  }

  /** The scanner's counter before line i. */
  function Depth(lines: seq<Line>, i: nat): nat
    requires i <= |lines|
  {
    if i == 0 then 0 else NextDepth(Depth(lines, i - 1), lines[i - 1])
  }

  /** The fields declared at depth zero in the first k lines. */
  function AlwaysPresent(lines: seq<Line>, k: nat): set<Name>
    requires k <= |lines|
  {
    set i: nat | i < k && lines[i].Text? && lines[i].field.Some? && Depth(lines, i) == 0 :: lines[i].field.value
  }

  method ExtractAlwaysPresentFields(lines: seq<Line>) returns (present: set<Name>)
    ensures present == AlwaysPresent(lines, |lines|)
  {
    present := {};
    var depth := 0;
    for i := 0 to |lines|
      invariant depth == Depth(lines, i)
      invariant present == AlwaysPresent(lines, i)
    {
      var l := lines[i];
      ghost var before := present;
      if l.VersionIf? {
        depth := depth + 1;
      } else if l.Endif? {
        depth := if 0 < depth then depth - 1 else 0;
      } else if depth == 0 && l.Text? && l.field.Some? {
        present := present + {l.field.value};
      }
      AlwaysPresentStep(lines, i);
    }
  }

  lemma AlwaysPresentStep(lines: seq<Line>, i: nat)
    requires i < |lines|
    ensures AlwaysPresent(lines, i + 1) == AlwaysPresent(lines, i) +
      if lines[i].Text? && lines[i].field.Some? && Depth(lines, i) == 0 then {lines[i].field.value} else {}
  {
  }

  // ---- The counter against the stack ----

  lemma {:induction false} GuardCountPositive(stack: seq<Frame>, p: nat)
    requires p < |stack| && stack[p].guard.Some?
    ensures 0 < GuardCount(stack)
  {
    if p < |stack| - 1 {
      GuardCountPositive(stack[..|stack| - 1], p);
    }
  }

  lemma {:induction false} GuardCountFound(stack: seq<Frame>) returns (p: nat)
    requires 0 < GuardCount(stack)
    ensures p < |stack| && stack[p].guard.Some?
  {
    p := |stack| - 1;
    if stack[p].guard.None? {
      p := GuardCountFound(stack[..p]);
    }
  }

  /** One line's effect on the number of enclosing version guards. */
  lemma GuardCountStep(stack: seq<Frame>, line: Line)
    ensures var next := GuardCount(NextStack(stack, line));
      match line
      case VersionIf(_) => next == GuardCount(stack) + 1
      case Endif => next == GuardCount(stack) - (if stack != [] && stack[|stack| - 1].guard.Some? then 1 else 0)
      case _ => next == GuardCount(stack)
  {
    var next := NextStack(stack, line);
    if line.VersionIf? || line.OtherIf? {
      assert next[..|next| - 1] == stack;
    } else if line.Else? && stack != [] {
      assert next[..|next| - 1] == stack[..|stack| - 1];
    }
  }

  /** In any file whatever, the counter never exceeds the number of enclosing version guards. */
  lemma {:induction false} DepthAtMostGuards(lines: seq<Line>, i: nat)
    requires i <= |lines|
    ensures Depth(lines, i) <= GuardCount(Stack(lines, i))
  {
    if i > 0 {
      DepthAtMostGuards(lines, i - 1);
      GuardCountStep(Stack(lines, i - 1), lines[i - 1]);
    }
  }

  /** So in any file, no field that stands outside all version guards is missed. */
  lemma UnguardedFieldsAreFound(lines: seq<Line>, i: nat, field: Name)
    requires i < |lines| && Declares(lines, i, field) && GuardCount(Stack(lines, i)) == 0
    ensures field in AlwaysPresent(lines, |lines|)
  {
    DepthAtMostGuards(lines, i);
  }

  /** Version guards contain only version guards: no other conditional is opened inside one. */
  ghost predicate GuardsHoldOnlyGuards(lines: seq<Line>) {
    forall i: nat :: i < |lines| ==> NotOpenedInGuard(lines, i)
  }

  predicate NotOpenedInGuard(lines: seq<Line>, i: nat)
    requires i < |lines|
  {
    lines[i] == OtherIf ==> GuardCount(Stack(lines, i)) == 0
  }

  /** No foreign conditional lies above a version guard. */
  ghost predicate Untangled(stack: seq<Frame>) {
    forall p, q :: 0 <= p < q < |stack| && stack[p].guard.Some? ==> stack[q].guard.Some?
  }

  lemma UntangledStep(stack: seq<Frame>, line: Line)
    requires Untangled(stack) && (line == OtherIf ==> GuardCount(stack) == 0)
    ensures Untangled(NextStack(stack, line))
  {
  }

  lemma {:induction false} StackStaysUntangled(lines: seq<Line>, i: nat)
    requires i <= |lines| && GuardsHoldOnlyGuards(lines)
    ensures Untangled(Stack(lines, i))
  {
    if i > 0 {
      StackStaysUntangled(lines, i - 1);
      assert NotOpenedInGuard(lines, i - 1);
      UntangledStep(Stack(lines, i - 1), lines[i - 1]);
    }
  }

  lemma NextDepthIsGuards(stack: seq<Frame>, line: Line)
    requires Untangled(stack)
    ensures NextDepth(GuardCount(stack), line) == GuardCount(NextStack(stack, line))
  {
    GuardCountStep(stack, line);
    if line == Endif && stack != [] && 0 < GuardCount(stack) {
      var p := GuardCountFound(stack);
      assert stack[|stack| - 1].guard.Some?;
    }
  }

  lemma {:induction false} DepthIsGuards(lines: seq<Line>, i: nat)
    requires i <= |lines| && GuardsHoldOnlyGuards(lines)
    ensures Depth(lines, i) == GuardCount(Stack(lines, i))
  {
    if i > 0 {
      DepthIsGuards(lines, i - 1);
      StackStaysUntangled(lines, i - 1);
      NextDepthIsGuards(Stack(lines, i - 1), lines[i - 1]);
    }
  }

  /** The counter equals the number of enclosing version guards at every line. */
  ghost predicate CounterRight(lines: seq<Line>) {
    forall i: nat :: i <= |lines| ==> CounterRightAt(lines, i)
  }

  predicate CounterRightAt(lines: seq<Line>, i: nat)
    requires i <= |lines|
  {
    Depth(lines, i) == GuardCount(Stack(lines, i))
  }

  /** While the counter is right, a foreign conditional above a version guard is never closed. */
  lemma {:induction false} TangleLasts(lines: seq<Line>, p: nat, q: nat, i: nat, j: nat)
    requires CounterRight(lines) && i <= j <= |lines| && p < q < |Stack(lines, i)|
    requires Stack(lines, i)[p].guard.Some? && Stack(lines, i)[q].guard.None?
    ensures q < |Stack(lines, j)| && Stack(lines, j)[p].guard.Some? && Stack(lines, j)[q].guard.None?
    decreases j
  {
    if i < j {
      TangleLasts(lines, p, q, i, j - 1);
      var stack := Stack(lines, j - 1);
      GuardCountStep(stack, lines[j - 1]);
      GuardCountPositive(stack, p);
      assert CounterRightAt(lines, j - 1) && CounterRightAt(lines, j);
    }
  }

  /**
   On a well-nested file the counter is right at every line if and only if version guards
   contain only version guards.
   */
  lemma CounterRightIff(lines: seq<Line>)
    requires WellNested(lines)
    ensures CounterRight(lines) <==> GuardsHoldOnlyGuards(lines)
  {
    if GuardsHoldOnlyGuards(lines) {
      forall i: nat | i <= |lines|
        ensures CounterRightAt(lines, i)
      {
        DepthIsGuards(lines, i);
      }
    }
    if CounterRight(lines) {
      forall i: nat | i < |lines|
        ensures NotOpenedInGuard(lines, i)
      {
        if lines[i] == OtherIf && 0 < GuardCount(Stack(lines, i)) {
          var p := GuardCountFound(Stack(lines, i));
          TangleLasts(lines, p, |Stack(lines, i)|, i + 1, |lines|);
        }
      }
    }
  }

  // ---- The returned set against what is compiled ----

  ghost predicate NoElse(lines: seq<Line>) {
    Else !in lines
  }

  lemma {:induction false} NoElseNoNegation(lines: seq<Line>, i: nat)
    requires i <= |lines| && NoElse(lines)
    ensures forall frame :: frame in Stack(lines, i) ==> !frame.negated
  {
    if i > 0 {
      NoElseNoNegation(lines, i - 1);
      assert lines[i - 1] in lines;
    }
  }

  /** Every version guard asks for more than the oldest version that can be built. */
  ghost predicate GuardsAbove(lines: seq<Line>, oldest: Version) {
    forall i :: 0 <= i < |lines| && lines[i].VersionIf? ==> Less(oldest, lines[i].v)
  }

  lemma {:induction false} StackGuardsAreLines(lines: seq<Line>, i: nat)
    requires i <= |lines|
    ensures forall frame :: frame in Stack(lines, i) && frame.guard.Some? ==> VersionIf(frame.guard.value) in lines
  {
    if i > 0 {
      StackGuardsAreLines(lines, i - 1);
      assert lines[i - 1] in lines;
    }
  }

  /** Without `#else`, a line outside all version guards is compiled for every target. */
  lemma UnguardedIsAlwaysCompiled(lines: seq<Line>, i: nat, target: Version)
    requires i <= |lines| && NoElse(lines) && GuardCount(Stack(lines, i)) == 0
    ensures CompiledLine(lines, target, i)
  {
    NoElseNoNegation(lines, i);
    forall frame | frame in Stack(lines, i)
      ensures Taken(frame, target)
    {
      var p :| 0 <= p < |Stack(lines, i)| && Stack(lines, i)[p] == frame;
      if frame.guard.Some? {
        GuardCountPositive(Stack(lines, i), p);
      }
    }
  }

  /** Without `#else`, a line inside some version guard is not compiled for the oldest target. */
  lemma GuardedIsDroppedForOldest(lines: seq<Line>, oldest: Version, i: nat)
    requires i <= |lines| && NoElse(lines) && GuardsAbove(lines, oldest) && 0 < GuardCount(Stack(lines, i))
    ensures !CompiledLine(lines, oldest, i)
  {
    NoElseNoNegation(lines, i);
    StackGuardsAreLines(lines, i);
    var p := GuardCountFound(Stack(lines, i));
    var frame := Stack(lines, i)[p];
    assert frame in Stack(lines, i);
    var k :| 0 <= k < |lines| && lines[k] == VersionIf(frame.guard.value);
    assert !AtLeast(oldest, lines[k].v);
  }

  /**
   In a file without `#else` whose version guards contain only version guards and all ask for
   more than the oldest version, the scanner returns exactly the fields of the oldest surface,
   and these are the fields of every surface.
   */
  lemma AlwaysPresentIffInEverySurface(lines: seq<Line>, oldest: Version, field: Name)
    requires NoElse(lines) && GuardsHoldOnlyGuards(lines) && GuardsAbove(lines, oldest)
    ensures field in AlwaysPresent(lines, |lines|) <==> InSurface(lines, oldest, field)
    ensures field in AlwaysPresent(lines, |lines|) <==> forall target :: AtLeast(target, oldest) ==> InSurface(lines, target, field)
  {
    if field in AlwaysPresent(lines, |lines|) {
      var i: nat :| i < |lines| && Declares(lines, i, field) && Depth(lines, i) == 0;
      DepthIsGuards(lines, i);
      forall target
        ensures InSurface(lines, target, field)
      {
        UnguardedIsAlwaysCompiled(lines, i, target);
      }
    }
    if InSurface(lines, oldest, field) {
      var i: nat :| i < |lines| && Declares(lines, i, field) && CompiledLine(lines, oldest, i);
      if 0 < GuardCount(Stack(lines, i)) {
        GuardedIsDroppedForOldest(lines, oldest, i);
      }
      UnguardedFieldsAreFound(lines, i, field);
    }
    assert AtLeast(oldest, oldest);
  }

  /** A conditional closed inside a version guard, before a field of the guard. */
  function ForeignInside(field: Name, v: Version): (lines: seq<Line>)
    ensures |lines| == 5
  {
    [VersionIf(v), OtherIf, Endif, Text(Some(field), {field}), Endif]
  }

  /** Its `#endif` ends the guard for the counter, so the field is called always present; older targets lack it. */
  lemma ForeignInsideGuardMisleads(field: Name, v: Version, target: Version)
    requires Less(target, v)
    ensures var lines := ForeignInside(field, v);
      WellNested(lines) && NoElse(lines) && field in AlwaysPresent(lines, |lines|) && !InSurface(lines, target, field)
  {
    var lines := ForeignInside(field, v);
    var guard := Frame(Some(v), false);
    ForeignInsideStacks(field, v);
    assert Declares(lines, 3, field);
    assert guard in Stack(lines, 3) && !Taken(guard, target);
    forall i: nat | i < |lines| && Declares(lines, i, field)
      ensures i == 3
    {
      assert i == 0 || i == 1 || i == 2 || i == 3 || i == 4;
    }
  }

  lemma ForeignInsideStacks(field: Name, v: Version)
    ensures var lines := ForeignInside(field, v);
      WellNested(lines) && Stack(lines, 3) == [Frame(Some(v), false)] && Depth(lines, 3) == 0
  {
    var lines := ForeignInside(field, v);
    var guard := Frame(Some(v), false);
    assert Stack(lines, 0) == [] && Depth(lines, 0) == 0;
    hide Stack, Depth;
    StackStep(lines, 0, [guard]);
    StackStep(lines, 1, [guard, Frame(None, false)]);
    StackStep(lines, 2, [guard]);
    StackStep(lines, 3, [guard]);
    StackStep(lines, 4, []);
    DepthStep(lines, 0);
    DepthStep(lines, 1);
    DepthStep(lines, 2);
    hide NextStack;
    forall i: nat | i < |lines|
      ensures HasOpener(lines, i)
    {
      assert i == 0 || i == 1 || i == 2 || i == 3 || i == 4;
    }
  }

  lemma DepthStep(lines: seq<Line>, i: nat)
    requires i < |lines|
    ensures Depth(lines, i + 1) == NextDepth(Depth(lines, i), lines[i])
  {
  }
}
