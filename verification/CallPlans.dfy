/**
 What an operation on many files asks of the calls below it, as a list of steps, and
 what running the steps leaves of the script of outcomes.
 */
module CallPlans {
  import opened Wrappers
  import opened InstallContent

  // ----- whole operations -----

  /** What an operation asks of the calls below it, one after another: a call that
      fails or succeeds, a copy, a comparison. */
  datatype Step = Call | Copy(size: nat) | Compare(size: nat)

  ghost function StepPass(step: Step, script: seq<Outcome>): Option<seq<Outcome>> {
    match step
    case Call => CallPass(script)
    case Copy(size) => CopyPass(script, size)
    case Compare(size) => FullPass(script, size)
  }

  /** What all steps leave of the script, or nothing when one of them fails. */
  ghost function Pass(plan: seq<Step>, script: seq<Outcome>): Option<seq<Outcome>> {
    if plan == [] then Some(script)
    else
      var last := |plan| - 1;
      var earlier := Pass(plan[..last], script);
      if earlier.None? then None else StepPass(plan[last], earlier.value)
  }

  ghost function Onward(earlier: Option<seq<Outcome>>, plan: seq<Step>): Option<seq<Outcome>> {
    if earlier.None? then None else Pass(plan, earlier.value)
  }

  lemma {:induction false} PassInTurn(a: seq<Step>, b: seq<Step>, script: seq<Outcome>)
    ensures Pass(a + b, script) == Onward(Pass(a, script), b)
  {
    if b == [] {
      assert a + b == a;
    } else {
      var last := |b| - 1;
      PassInTurn(a, b[..last], script);
      assert (a + b)[..|a + b| - 1] == a + b[..last];
    }
  }

  lemma PassOne(step: Step, script: seq<Outcome>)
    ensures Pass([step], script) == StepPass(step, script)
  {
    assert [step][..0] == [];
  }

  // ----- scripts that no operation fails on -----

  lemma {:induction false} BenignWrites(script: seq<Outcome>, left: nat)
    requires Benign(script)
    ensures WritePass(script, left).Some? && IsSuffix(WritePass(script, left).value, script)
  {
    if left > 0 && script != [] {
      var rest := if script[0].Interrupted? then left else left - Min(script[0].count, left);
      BenignWrites(script[1..], rest);
      SuffixMore(WritePass(script[1..], rest).value, script);
    }
  }

  /** What is left are the last outcomes of what was there. */
  ghost predicate IsSuffix(after: seq<Outcome>, before: seq<Outcome>) {
    |after| <= |before| && after == before[|before| - |after|..]
  }

  lemma SuffixMore(after: seq<Outcome>, before: seq<Outcome>)
    requires before != [] && IsSuffix(after, before[1..])
    ensures IsSuffix(after, before)
  {
  }

  lemma SuffixTrans(a: seq<Outcome>, b: seq<Outcome>, c: seq<Outcome>)
    requires IsSuffix(a, b) && IsSuffix(b, c)
    ensures IsSuffix(a, c)
  {
  }

  lemma {:induction false} BenignCopies(script: seq<Outcome>, left: nat)
    requires Benign(script)
    ensures CopyPass(script, left).Some? && IsSuffix(CopyPass(script, left).value, script)
    decreases |script|
  {
    if left > 0 && script != [] {
      if script[0].Interrupted? {
        BenignCopies(script[1..], left);
        SuffixMore(CopyPass(script[1..], left).value, script);
      } else {
        var count := Min(script[0].count, Min(BUFFER_SIZE, left));
        BenignWrites(script[1..], count);
        var written := WritePass(script[1..], count).value;
        BenignCopies(written, left - count);
        SuffixTrans(CopyPass(written, left - count).value, written, script[1..]);
        SuffixMore(CopyPass(written, left - count).value, script);
      }
    }
  }

  ghost predicate ComparesNothing(plan: seq<Step>) {
    forall step | step in plan :: !step.Compare?
  }

  /** Signals and short counts fail no call and no copy. */
  lemma {:induction false} BenignPass(plan: seq<Step>, script: seq<Outcome>)
    requires Benign(script) && ComparesNothing(plan)
    ensures Pass(plan, script).Some? && IsSuffix(Pass(plan, script).value, script)
  {
    if plan != [] {
      var last := |plan| - 1;
      BenignPass(plan[..last], script);
      var earlier := Pass(plan[..last], script).value;
      assert plan[last] in plan;
      if plan[last].Copy? {
        BenignCopies(earlier, plan[last].size);
      }
      SuffixTrans(StepPass(plan[last], earlier).value, earlier, script);
    }
  }

  /** Signals and full counts fail nothing at all. */
  lemma {:induction false} NeverShortPass(plan: seq<Step>, script: seq<Outcome>)
    requires NeverShort(script)
    ensures Pass(plan, script).Some? && NeverShort(Pass(plan, script).value)
  {
    if plan != [] {
      var last := |plan| - 1;
      NeverShortPass(plan[..last], script);
      NeverShortStep(plan[last], Pass(plan[..last], script).value);
    }
  }

  lemma NeverShortStep(step: Step, script: seq<Outcome>)
    requires NeverShort(script)
    ensures StepPass(step, script).Some? && NeverShort(StepPass(step, script).value)
  {
    match step
    case Call =>
    case Copy(size) => BenignCopies(script, size);
    case Compare(size) => FullCountsPass(script, size);
  }

  // ----- plans for many records -----

  /** The sizes of an archive and of its signature. */
  datatype Extent = Extent(archive: nat, signature: Option<nat>)

  datatype Task = Opening | Sealing | Comparing | Copying

  ghost function SealSteps(size: nat): seq<Step> {
    [Call, Copy(size), Call]
  }

  ghost function SealPass(size: nat, script: seq<Outcome>): Option<seq<Outcome>> {
    Pass(SealSteps(size), script)
  }

  lemma SealInTurn(size: nat, script: seq<Outcome>)
    ensures SealPass(size, script) ==
      var made := CallPass(script);
      if made.None? then None
      else
        var copied := CopyPass(made.value, size);
        if copied.None? then None else CallPass(copied.value)
  {
    var plan := SealSteps(size);
    assert plan[..2][..1] == plan[..1] && plan[..1][..0] == [];
    assert Pass(plan[..1], script) == CallPass(script);
    assert Pass(plan[..2], script) == Onward(Pass(plan[..1], script), [Copy(size)]) by {
      PassInTurn(plan[..1], [Copy(size)], script);
      assert plan[..1] + [Copy(size)] == plan[..2];
    }
    PassAsStep(Copy(size), CallPass(script));
  }

  lemma PassAsStep(step: Step, earlier: Option<seq<Outcome>>)
    ensures Onward(earlier, [step]) == if earlier.None? then None else StepPass(step, earlier.value)
  {
    if earlier.Some? {
      PassOne(step, earlier.value);
    }
  }

  ghost function StepsFor(task: Task, size: nat): seq<Step> {
    match task
    case Opening => [Call]
    case Sealing => SealSteps(size)
    case Comparing => [Compare(size)]
    case Copying => [Copy(size)]
  }

  /** What a task asks for one record: the archive first, then the signature. */
  ghost function Steps(task: Task, e: Extent): seq<Step> {
    StepsFor(task, e.archive) + (if e.signature.Some? then StepsFor(task, e.signature.value) else [])
  }

  ghost function Plan(task: Task, extents: seq<Extent>): seq<Step> {
    if extents == [] then []
    else
      var last := |extents| - 1;
      Plan(task, extents[..last]) + Steps(task, extents[last])
  }

  ghost function PassFor(task: Task, e: Extent, script: seq<Outcome>): Option<seq<Outcome>> {
    Pass(Steps(task, e), script)
  }

  ghost function PassAll(task: Task, extents: seq<Extent>, script: seq<Outcome>): Option<seq<Outcome>> {
    Pass(Plan(task, extents), script)
  }

  lemma StepsInTurn(task: Task, e: Extent, script: seq<Outcome>)
    ensures PassFor(task, e, script) ==
      var archive := Pass(StepsFor(task, e.archive), script);
      if e.signature.None? then archive else Onward(archive, StepsFor(task, e.signature.value))
  {
    if e.signature.Some? {
      PassInTurn(StepsFor(task, e.archive), StepsFor(task, e.signature.value), script);
    } else {
      assert StepsFor(task, e.archive) + [] == StepsFor(task, e.archive);
    }
  }

  lemma CompareInTurn(e: Extent, script: seq<Outcome>)
    ensures PassFor(Comparing, e, script) ==
      var archive := FullPass(script, e.archive);
      if archive.None? || e.signature.None? then archive else FullPass(archive.value, e.signature.value)
  {
    StepsInTurn(Comparing, e, script);
    PassOne(Compare(e.archive), script);
    if e.signature.Some? {
      PassAsStep(Compare(e.signature.value), FullPass(script, e.archive));
    }
  }

  lemma CopyInTurn(e: Extent, script: seq<Outcome>)
    ensures PassFor(Copying, e, script) ==
      var archive := CopyPass(script, e.archive);
      if archive.None? || e.signature.None? then archive else CopyPass(archive.value, e.signature.value)
  {
    StepsInTurn(Copying, e, script);
    PassOne(Copy(e.archive), script);
    if e.signature.Some? {
      PassAsStep(Copy(e.signature.value), CopyPass(script, e.archive));
    }
  }

  lemma OpenInTurn(e: Extent, script: seq<Outcome>)
    ensures PassFor(Opening, e, script) ==
      var archive := CallPass(script);
      if archive.None? || e.signature.None? then archive else CallPass(archive.value)
  {
    StepsInTurn(Opening, e, script);
    PassOne(Call, script);
    if e.signature.Some? {
      PassAsStep(Call, CallPass(script));
    }
  }

  /** The first `i` records are done and `left` is what that left. */
  ghost predicate PassedUpTo(
    task: Task, extents: seq<Extent>, script: seq<Outcome>, i: nat, left: seq<Outcome>)
  {
    i <= |extents| && PassAll(task, extents[..i], script) == Some(left)
  }

  lemma NothingPassed(task: Task, extents: seq<Extent>, script: seq<Outcome>)
    ensures PassedUpTo(task, extents, script, 0, script)
  {
  }

  lemma AllPassed(task: Task, extents: seq<Extent>, script: seq<Outcome>, left: seq<Outcome>)
    requires PassedUpTo(task, extents, script, |extents|, left)
    ensures PassAll(task, extents, script) == Some(left)
  {
    assert extents[..|extents|] == extents;
  }

  lemma PassMore(task: Task, extents: seq<Extent>, script: seq<Outcome>, i: nat, left: seq<Outcome>)
    requires i < |extents| && PassedUpTo(task, extents, script, i, left)
    ensures PassFor(task, extents[i], left).Some? ==>
      PassedUpTo(task, extents, script, i + 1, PassFor(task, extents[i], left).value)
    ensures PassFor(task, extents[i], left).None? ==> PassAll(task, extents, script).None?
  {
    PlanMore(task, extents, i);
    PassInTurn(Plan(task, extents[..i]), Steps(task, extents[i]), script);
    if PassFor(task, extents[i], left).None? {
      NoPassLater(task, extents, script, i + 1);
    }
  }

  /** The same for a list of which `before` and `e` are the beginning. */
  lemma PassOneMore(
    task: Task, before: seq<Extent>, e: Extent, all: seq<Extent>, script: seq<Outcome>, left: seq<Outcome>)
    requires before + [e] <= all && PassAll(task, before, script) == Some(left)
    ensures PassAll(task, before + [e], script) == PassFor(task, e, left)
    ensures PassFor(task, e, left).None? ==> PassAll(task, all, script).None?
  {
    var i := |before|;
    assert all[..i] == before && all[i] == e && all[..i + 1] == before + [e];
    PlanMore(task, all, i);
    PassInTurn(Plan(task, before), Steps(task, e), script);
    if PassFor(task, e, left).None? {
      NoPassLater(task, all, script, i + 1);
    }
  }

  lemma PlanMore(task: Task, extents: seq<Extent>, i: nat)
    requires i < |extents|
    ensures Plan(task, extents[..i + 1]) == Plan(task, extents[..i]) + Steps(task, extents[i])
  {
    assert extents[..i + 1][..i] == extents[..i];
  }

  lemma {:induction false} NoPassLater(task: Task, extents: seq<Extent>, script: seq<Outcome>, i: nat)
    requires i <= |extents| && PassAll(task, extents[..i], script).None?
    ensures PassAll(task, extents, script).None?
    decreases |extents|
  {
    var last := |extents| - 1;
    if i < |extents| {
      assert extents[..last][..i] == extents[..i];
      NoPassLater(task, extents[..last], script, i);
      PassInTurn(Plan(task, extents[..last]), Steps(task, extents[last]), script);
    } else {
      assert extents[..i] == extents;
    }
  }

  lemma {:induction false} NoComparison(task: Task, extents: seq<Extent>)
    requires !task.Comparing?
    ensures ComparesNothing(Plan(task, extents))
  {
    if extents != [] {
      NoComparison(task, extents[..|extents| - 1]);
    }
  }

  ghost predicate AreIndices(indices: seq<nat>, n: nat) {
    forall j | 0 <= j < |indices| :: indices[j] < n
  }

  /** The first `j` chosen records are copied and `left` is what that left. */
  ghost predicate CopiedUpTo(
    extents: seq<Extent>, indices: seq<nat>, script: seq<Outcome>, j: nat, left: seq<Outcome>)
  {
    && j <= |indices| && AreIndices(indices[..j], |extents|)
    && PassAll(Copying, ChosenExtents(extents, indices[..j]), script) == Some(left)
  }

  lemma CopyMore(extents: seq<Extent>, indices: seq<nat>, script: seq<Outcome>, j: nat, left: seq<Outcome>)
    requires j < |indices| && indices[j] < |extents| && CopiedUpTo(extents, indices, script, j, left)
    ensures var pass := PassFor(Copying, extents[indices[j]], left);
      && (pass.Some? ==> CopiedUpTo(extents, indices, script, j + 1, pass.value))
      && (pass.None? && AreIndices(indices, |extents|) ==>
            PassAll(Copying, ChosenExtents(extents, indices), script).None?)
  {
    assert indices[..j + 1] == indices[..j] + [indices[j]];
    assert AreIndices(indices[..j + 1], |extents|);
    var more := ChosenExtents(extents, indices[..j + 1]);
    assert more[..j] == ChosenExtents(extents, indices[..j]) && more[..|more|] == more;
    PassMore(Copying, more, script, j, left);
    if PassFor(Copying, extents[indices[j]], left).None? && AreIndices(indices, |extents|) {
      assert ChosenExtents(extents, indices)[..j + 1] == more;
      NoPassLater(Copying, ChosenExtents(extents, indices), script, j + 1);
    }
  }

  /** The sizes of the chosen records, in the order asked for. */
  ghost function ChosenExtents(extents: seq<Extent>, indices: seq<nat>): (r: seq<Extent>)
    requires AreIndices(indices, |extents|)
    ensures |r| == |indices|
  {
    seq(|indices|, j requires 0 <= j < |indices| => extents[indices[j]])
  }

  /** The calls of building an input: a new descriptor, the copies, the seal, and
      the comparison once more. */
  ghost function BuildPlan(extents: seq<Extent>, indices: seq<nat>): seq<Step>
    requires AreIndices(indices, |extents|)
  {
    CopyPlan(extents, indices) + Plan(Comparing, extents)
  }

  ghost function CopyPlan(extents: seq<Extent>, indices: seq<nat>): seq<Step>
    requires AreIndices(indices, |extents|)
  {
    [Call] + (Plan(Copying, ChosenExtents(extents, indices)) + [Call])
  }

  ghost function InputPlan(extents: seq<Extent>, indices: seq<nat>): seq<Step>
    requires AreIndices(indices, |extents|)
  {
    Plan(Comparing, extents) + BuildPlan(extents, indices)
  }

  lemma BuildInTurn(extents: seq<Extent>, indices: seq<nat>, script: seq<Outcome>)
    requires AreIndices(indices, |extents|)
    ensures Pass(BuildPlan(extents, indices), script) ==
      var made := CallPass(script);
      if made.None? then None
      else
        var copied := PassAll(Copying, ChosenExtents(extents, indices), made.value);
        if copied.None? then None
        else
          var sealed := CallPass(copied.value);
          if sealed.None? then None else PassAll(Comparing, extents, sealed.value)
  {
    var copies := Plan(Copying, ChosenExtents(extents, indices));
    PassInTurn(CopyPlan(extents, indices), Plan(Comparing, extents), script);
    PassInTurn([Call], copies + [Call], script);
    PassOne(Call, script);
    var made := CallPass(script);
    if made.Some? {
      PassInTurn(copies, [Call], made.value);
      PassAsStep(Call, Pass(copies, made.value));
    }
  }

  /** Signals and short counts keep nothing from being copied and sealed. */
  lemma BenignSeals(extents: seq<Extent>, script: seq<Outcome>)
    requires Benign(script)
    ensures PassAll(Sealing, extents, script).Some?
  {
    NoComparison(Sealing, extents);
    BenignPass(Plan(Sealing, extents), script);
  }
}
