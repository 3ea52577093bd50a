/**
 A stored flag and the notices about it.  Each step has the flag before and after it, as stored, and
 possibly a notice that the flag turned to some value.  A step is honest when the notice and the store
 agree; a phantom announces `false` while the stored flag stays up.
 */
module FlagMachine {
  import opened Sequences

  datatype Step = Step(before: Option<bool>, after: Option<bool>, notice: Option<bool>)

  predicate Honest(s: Step) {
    match s.notice
    case Some(b) => s.before == Some(!b) && s.after == Some(b)
    case None => s.before == s.after || s.before == None
  }

  predicate Phantom(s: Step) {
    s == Step(Some(true), Some(true), Some(false))
  }

  /** Every step starts where the one before it ended. */
  ghost predicate Chained(steps: seq<Step>) {
    forall i :: 0 <= i < |steps| - 1 ==> steps[i].after == steps[i + 1].before
  }

  /** The notices, in order. */
  function Trace(steps: seq<Step>): seq<bool> {
    if steps == [] then [] else Trace(steps[..|steps| - 1]) + Optional(steps[|steps| - 1].notice)
  }

  lemma TraceSnoc(steps: seq<Step>, s: Step)
    ensures Trace(steps + [s]) == Trace(steps) + Optional(s.notice)
  {
    assert (steps + [s])[..|steps|] == steps;
  }

  lemma AlternatesSnoc(t: seq<bool>, b: bool)
    ensures Alternates(t + [b]) <==> Alternates(t) && (t != [] ==> t[|t| - 1] != b)
  {
    var u := t + [b];
    if t != [] && t[|t| - 1] == b {
      assert u[|t| - 1] == u[|t|];
    }
    if !Alternates(t) {
      var i :| 0 <= i < |t| - 1 && t[i] == t[i + 1];
      assert u[i] == u[i + 1];
    }
  }

  predicate HasPhantom(steps: seq<Step>) {
    exists i :: 0 <= i < |steps| && Phantom(steps[i])
  }

  /** No notice comes after a phantom. */
  ghost predicate PhantomsComeLast(steps: seq<Step>) {
    forall i, j :: 0 <= i < j < |steps| && Phantom(steps[i]) ==> steps[j].notice == None
  }

  /** What the stored flag and the last notice have to do with each other. */
  ghost predicate InStep(steps: seq<Step>) {
    var t := Trace(steps);
    if HasPhantom(steps) then t != [] && t[|t| - 1] == false && steps[|steps| - 1].after == Some(true)
    else t != [] ==> steps[|steps| - 1].after == Some(t[|t| - 1])
  }

  /** Honest steps and phantoms: the notices alternate exactly when nothing is announced after a phantom. */
  lemma {:induction false} AlternatesIff(steps: seq<Step>)
    requires Chained(steps) && forall i :: 0 <= i < |steps| ==> Honest(steps[i]) || Phantom(steps[i])
    ensures Alternates(Trace(steps)) <==> PhantomsComeLast(steps)
    ensures PhantomsComeLast(steps) ==> InStep(steps)
  {
    if steps == [] {
      assert Trace(steps) == [];
    } else {
      var front, s := steps[..|steps| - 1], steps[|steps| - 1];
      SplitLast(steps, front, s);
      AlternatesIff(front);
      LastStep(front, s);
    }
  }

  lemma SplitLast(steps: seq<Step>, front: seq<Step>, s: Step)
    requires steps != [] && front == steps[..|steps| - 1] && s == steps[|steps| - 1]
    ensures steps == front + [s] && (Chained(steps) ==> Chained(front))
    ensures forall i :: 0 <= i < |front| ==> front[i] == steps[i]
  {
  }

  lemma LastStep(front: seq<Step>, s: Step)
    requires Chained(front + [s]) && (Honest(s) || Phantom(s))
    requires Alternates(Trace(front)) <==> PhantomsComeLast(front)
    requires PhantomsComeLast(front) ==> InStep(front)
    ensures Alternates(Trace(front + [s])) <==> PhantomsComeLast(front + [s])
    ensures PhantomsComeLast(front + [s]) ==> InStep(front + [s])
  {
    var steps := front + [s];
    TraceSnoc(front, s);
    assert front != [] ==> steps[|front| - 1].after == steps[|front|].before;
    PhantomsSnoc(front, s);
    if s.notice.Some? {
      AlternatesSnoc(Trace(front), s.notice.value);
      assert Trace(steps) == Trace(front) + [s.notice.value];
    } else {
      assert Trace(steps) == Trace(front);
    }
  }

  lemma PhantomsSnoc(front: seq<Step>, s: Step)
    ensures HasPhantom(front + [s]) <==> HasPhantom(front) || Phantom(s)
    ensures PhantomsComeLast(front + [s]) <==> PhantomsComeLast(front) && (HasPhantom(front) ==> s.notice == None)
  {
    var steps := front + [s];
    assert forall i :: 0 <= i < |front| ==> steps[i] == front[i];
    assert steps[|front|] == s;
  }

  /** Honest steps only: the notices strictly alternate, and the last one is the stored flag. */
  lemma HonestRunsAlternate(steps: seq<Step>)
    requires Chained(steps) && forall i :: 0 <= i < |steps| ==> Honest(steps[i])
    ensures Alternates(Trace(steps))
    ensures Trace(steps) != [] ==> steps[|steps| - 1].after == Some(Trace(steps)[|Trace(steps)| - 1])
  {
    AlternatesIff(steps);
  }

  /** When the flag never comes up lowered, the first thing announced is that it fell. */
  lemma {:induction false} FirstNoticeIsFalse(steps: seq<Step>)
    requires Chained(steps) && forall i :: 0 <= i < |steps| ==> Honest(steps[i])
    requires steps != [] ==> steps[0].before != Some(false)
    requires forall i :: 0 <= i < |steps| && steps[i].before == None ==> steps[i].after != Some(false)
    ensures Trace(steps) != [] ==> Trace(steps)[0] == false
    ensures steps != [] && Trace(steps) == [] ==> steps[|steps| - 1].after != Some(false)
  {
    if steps != [] {
      var front, s := steps[..|steps| - 1], steps[|steps| - 1];
      FirstNoticeIsFalse(front);
      TraceSnoc(front, s);
      assert steps == front + [s];
      if front != [] {
        assert steps[|front| - 1].after == steps[|front|].before;
        assert front[0] == steps[0];
      }
    }
  }
}
