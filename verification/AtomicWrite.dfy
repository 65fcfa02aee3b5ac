/**
  Writing a file through a temporary one and a rename, by any number of writers that share the temporary name. A
  writer keeps the file that it opened: a rename by somebody else moves that file under it.
 */
module AtomicWrite {
  import opened LineProtocol
  import opened Wrappers
  import opened Sorting

  /** What a writer has done: opened the temporary file, written and closed it, or ended. */
  datatype Phase = Opened | Filled | Over

  datatype Step = Create(writer: nat) | Fill(writer: nat) | Rename(writer: nat) | Abandon(writer: nat)

  /**
    A file is known by the writers whose texts went into it since it was created or emptied, each from the beginning
    of the file. `onTemporary` and `onTarget` are the writers that have these files open.
   */
  datatype State = State(
    phase: map<nat, Phase>,
    temporary: Option<seq<nat>>,
    target: Option<seq<nat>>,
    onTemporary: set<nat>,
    onTarget: set<nat>
  )

  const INITIAL := State(map[], None, None, {}, {})

  predicate Possible(s: State, step: Step) {
    var w := step.writer;
    match step
    case Create(_) => w !in s.phase
    case Fill(_) => w in s.phase && s.phase[w].Opened?
    case Rename(_) => w in s.phase && s.phase[w].Filled?
    case Abandon(_) => w in s.phase && !s.phase[w].Over?
  }

  function WithPhase(s: State, w: nat, phase: Phase): State {
    s.(phase := s.phase[w := phase])
  }

  function Closed(s: State, w: nat): State {
    s.(onTemporary := s.onTemporary - {w}, onTarget := s.onTarget - {w})
  }

  function WrittenBy(file: Option<seq<nat>>, w: nat): Option<seq<nat>> {
    if file.None? then None else Some(file.value + [w])
  }

  /** Creating empties an existing temporary file; a rename without one fails and ends its writer. */
  function After(s: State, step: Step): State {
    var w := step.writer;
    match step
    case Create(_) => WithPhase(s, w, Opened).(temporary := Some([]), onTemporary := s.onTemporary + {w})
    case Fill(_) =>
      var filled := WithPhase(Closed(s, w), w, Filled);
      if w in s.onTemporary then filled.(temporary := WrittenBy(s.temporary, w))
      else if w in s.onTarget then filled.(target := WrittenBy(s.target, w))
      else filled
    case Rename(_) =>
      var over := WithPhase(s, w, Over);
      if s.temporary.None? then over
      else over.(target := s.temporary, temporary := None, onTarget := s.onTemporary, onTemporary := {})
    case Abandon(_) => WithPhase(Closed(s, w), w, Over)
  }

  ghost predicate IsRun(steps: seq<Step>) {
    steps != [] ==> IsRun(steps[..|steps| - 1]) && Possible(RunOf(steps[..|steps| - 1]), steps[|steps| - 1])
  }

  function RunOf(steps: seq<Step>): State {
    if steps == [] then INITIAL else After(RunOf(steps[..|steps| - 1]), steps[|steps| - 1])
  }

  // ----- the bytes of a file -----

  /** A text written from the beginning over what is there. */
  function Overwrite(old_: seq<byte>, text: seq<byte>): seq<byte> {
    text + if |old_| > |text| then old_[|text|..] else []
  }

  function Contents(text: nat -> seq<byte>, file: seq<nat>): seq<byte> {
    if file == [] then [] else Overwrite(Contents(text, file[..|file| - 1]), text(file[|file| - 1]))
  }

  ghost predicate NeverEmpty(text: nat -> seq<byte>) {
    forall w :: text(w) != []
  }

  /** The file is missing, or is the text of one writer. */
  ghost predicate Complete(text: nat -> seq<byte>, file: Option<seq<nat>>) {
    file.None? || exists w :: Contents(text, file.value) == text(w)
  }

  predicate WrittenOnce(file: Option<seq<nat>>) {
    file.None? || |file.value| == 1
  }

  function ShortOnly(short: nat): nat -> seq<byte> {
    w => if w == short then [1] else [0, 0]
  }

  lemma {:induction false} AllLong(short: nat, file: seq<nat>)
    requires file != [] && short !in file
    ensures Contents(ShortOnly(short), file) == [0, 0]
  {
    var n := |file| - 1;
    if n > 0 {
      AllLong(short, file[..n]);
    }
    assert file[n] != short;
  }

  lemma ContentsOfOne(text: nat -> seq<byte>, w: nat)
    ensures Contents(text, [w]) == text(w)
  {
    assert [w][..0] == [];
    assert Overwrite([], text(w)) == text(w);
  }

  /** A file is complete whatever the texts are exactly when it was written once. */
  lemma CompleteMeansOnce(file: Option<seq<nat>>)
    requires file.Some? ==> NoDuplicates(file.value)
    ensures (forall text :: NeverEmpty(text) ==> Complete(text, file)) <==> WrittenOnce(file)
  {
    if file.Some? {
      var n := |file.value| - 1;
      if n < 0 {
        assert NeverEmpty(ShortOnly(0)) && !Complete(ShortOnly(0), file);
      } else if n > 0 {
        var text := ShortOnly(file.value[n]);
        AllLong(file.value[n], file.value[..n]);
        assert Contents(text, file.value) == [1, 0];
        assert NeverEmpty(text) && !Complete(text, file);
      } else {
        forall text | NeverEmpty(text)
          ensures Complete(text, file)
        {
          ContentsOfOne(text, file.value[0]);
          assert file.value == [file.value[0]];
        }
      }
    }
  }

  // ----- the invariant of every run -----

  ghost predicate FileKnown(s: State, file: Option<seq<nat>>, open: set<nat>) {
    && (file.None? ==> open == {})
    && (file.Some? ==> NoDuplicates(file.value))
    && (forall w :: w in open ==> w in s.phase && s.phase[w].Opened?)
    && (file.Some? ==> forall w :: w in file.value ==> w in s.phase && !s.phase[w].Opened?)
  }

  ghost predicate Inv(s: State) {
    FileKnown(s, s.temporary, s.onTemporary) && FileKnown(s, s.target, s.onTarget) && s.onTemporary !! s.onTarget
  }

  lemma StepKeepsInv(s: State, step: Step)
    requires Inv(s) && Possible(s, step)
    ensures Inv(After(s, step))
  {
  }

  lemma {:induction false} RunKeepsInv(steps: seq<Step>)
    requires IsRun(steps)
    ensures Inv(RunOf(steps))
  {
    if steps != [] {
      hide Inv, After, Possible;
      RunKeepsInv(steps[..|steps| - 1]);
      StepKeepsInv(RunOf(steps[..|steps| - 1]), steps[|steps| - 1]);
    } else {
      assert Inv(INITIAL);
    }
  }

  // ----- when the target is always complete -----

  /** A rename of a file that was not written exactly once, or a write to a file that was renamed already. */
  predicate Spoils(s: State, step: Step) {
    match step
    case Rename(_) => !WrittenOnce(s.temporary)
    case Fill(w) => w in s.onTarget
    case _ => false
  }

  ghost predicate Clean(steps: seq<Step>) {
    steps != [] ==> Clean(steps[..|steps| - 1]) && !Spoils(RunOf(steps[..|steps| - 1]), steps[|steps| - 1])
  }

  ghost predicate AlwaysOnce(steps: seq<Step>) {
    forall k :: 0 <= k <= |steps| ==> WrittenOnce(RunOf(steps[..k]).target)
  }

  lemma StepSpoils(s: State, step: Step)
    requires Inv(s) && Possible(s, step) && WrittenOnce(s.target)
    ensures WrittenOnce(After(s, step).target) <==> !Spoils(s, step)
  {
  }

  lemma {:induction false} CleanMeansOnce(steps: seq<Step>)
    requires IsRun(steps)
    ensures Clean(steps) <==> AlwaysOnce(steps)
  {
    assert steps[..|steps|] == steps;
    if steps != [] {
      var n := |steps| - 1;
      var before := steps[..n];
      hide After, Possible, Spoils, Inv;
      CleanMeansOnce(before);
      RunKeepsInv(before);
      assert forall k :: 0 <= k <= n ==> before[..k] == steps[..k];
      if WrittenOnce(RunOf(before).target) {
        StepSpoils(RunOf(before), steps[n]);
      } else {
        assert steps[..n] == before;
      }
    } else {
      assert RunOf(steps[..0]) == INITIAL;
    }
  }

  /**
    The target is complete after every prefix of a run, whatever the texts, if and only if no step of the run renames
    a temporary file that was not written exactly once, or writes to a file that was renamed already.
   */
  lemma TargetComplete(steps: seq<Step>)
    requires IsRun(steps)
    ensures (forall text, k :: NeverEmpty(text) && 0 <= k <= |steps| ==> Complete(text, RunOf(steps[..k]).target))
            <==> Clean(steps)
  {
    CleanMeansOnce(steps);
    forall k | 0 <= k <= |steps|
      ensures (forall text :: NeverEmpty(text) ==> Complete(text, RunOf(steps[..k]).target))
              <==> WrittenOnce(RunOf(steps[..k]).target)
    {
      PrefixIsRun(steps, k);
      RunKeepsInv(steps[..k]);
      hide IsRun, RunOf, Complete, WrittenOnce;
      CompleteMeansOnce(RunOf(steps[..k]).target);
    }
    hide IsRun, RunOf, Complete, WrittenOnce, Clean, NeverEmpty;
  }

  lemma {:induction false} PrefixIsRun(steps: seq<Step>, k: nat)
    requires IsRun(steps) && k <= |steps|
    ensures IsRun(steps[..k])
  {
    if k < |steps| {
      PrefixIsRun(steps[..|steps| - 1], k);
      assert steps[..|steps| - 1][..k] == steps[..k];
    } else {
      assert steps[..k] == steps;
    }
  }

  // ----- one writer at a time -----

  /** Nobody opens the temporary file while another writer is at work. */
  ghost predicate OneAtATime(steps: seq<Step>) {
    steps != [] ==>
      OneAtATime(steps[..|steps| - 1]) && (steps[|steps| - 1].Create? ==> Unused(RunOf(steps[..|steps| - 1])))
  }

  ghost predicate Unused(s: State) {
    forall w :: w in s.phase ==> s.phase[w].Over?
  }

  /** The one writer at work, if any, has the temporary file to itself. */
  ghost predicate Alone(s: State) {
    && (forall v, w :: v in s.phase && w in s.phase && !s.phase[v].Over? && !s.phase[w].Over? ==> v == w)
    && s.onTarget == {} && WrittenOnce(s.target)
    && (forall w :: w in s.phase && s.phase[w].Opened? ==> w in s.onTemporary && s.temporary == Some([]))
    && (forall w :: w in s.phase && s.phase[w].Filled? ==> s.temporary == Some([w]))
    && (forall w :: w in s.onTemporary ==> w in s.phase && s.phase[w].Opened?)
  }

  lemma StepKeepsAlone(s: State, step: Step)
    requires Alone(s) && Possible(s, step) && (step.Create? ==> Unused(s))
    ensures Alone(After(s, step)) && !Spoils(s, step)
    ensures After(s, step).target == if step.Rename? then Some([step.writer]) else s.target
  {
    assert [] + [step.writer] == [step.writer];
  }

  /** Then the target is never spoilt, and it is the text of the last writer that renamed. */
  lemma {:induction false} AloneIsAtomic(steps: seq<Step>)
    requires IsRun(steps) && OneAtATime(steps)
    ensures Alone(RunOf(steps)) && Clean(steps)
    ensures RunOf(steps).target
            == if steps == [] then None
               else if steps[|steps| - 1].Rename? then Some([steps[|steps| - 1].writer])
               else RunOf(steps[..|steps| - 1]).target
  {
    if steps != [] {
      hide After, Possible, Spoils, Alone, Unused;
      AloneIsAtomic(steps[..|steps| - 1]);
      StepKeepsAlone(RunOf(steps[..|steps| - 1]), steps[|steps| - 1]);
    } else {
      assert Alone(INITIAL);
    }
  }

  // ----- two writers at once -----

  /** A writer may give up at any time, and the target stays what it was. */
  lemma GivingUp(s: State, w: nat)
    requires w in s.phase && !s.phase[w].Over?
    ensures Possible(s, Abandon(w)) && After(s, Abandon(w)).target == s.target
    ensures After(s, Abandon(w)).phase == s.phase[w := Over]
  {
  }

  lemma OneMore(steps: seq<Step>, step: Step)
    requires IsRun(steps) && Possible(RunOf(steps), step)
    ensures IsRun(steps + [step]) && RunOf(steps + [step]) == After(RunOf(steps), step)
  {
    hide After, Possible;
    assert (steps + [step])[..|steps|] == steps;
  }

  /** Renaming the file that another writer has just emptied leaves an empty target, whatever the texts. */
  lemma EmptiedUnderTheRename(steps: seq<Step>, w: nat, v: nat)
    requires IsRun(steps) && Possible(RunOf(steps), Rename(w)) && Possible(RunOf(steps), Create(v))
    ensures IsRun(steps + [Create(v)] + [Rename(w)])
    ensures RunOf(steps + [Create(v)] + [Rename(w)]).target == Some([])
    ensures forall text :: NeverEmpty(text) ==> !Complete(text, Some([]))
  {
    OneMore(steps, Create(v));
    OneMore(steps + [Create(v)], Rename(w));
  }

  /** Both writers write before the rename: a shorter text over a longer one leaves the end of the longer one. */
  lemma OverlapMixes() returns (steps: seq<Step>)
    ensures steps == [Create(1), Create(2), Fill(1), Fill(2), Rename(1)]
    ensures IsRun(steps) && RunOf(steps).target == Some([1, 2])
    ensures NeverEmpty(ShortOnly(2)) && !Complete(ShortOnly(2), RunOf(steps).target)
  {
    hide RunOf, IsRun, Contents, Complete;
    steps := BothOpen();
    var s := RunOf(steps);
    OneMore(steps, Fill(1));
    OneMore(steps + [Fill(1)], Fill(2));
    OneMore(steps + [Fill(1)] + [Fill(2)], Rename(1));
    assert [] + [1] == [1] && [1] + [2] == [1, 2];
    steps := steps + [Fill(1)] + [Fill(2)] + [Rename(1)];
    MixedText();
  }

  lemma BothOpen() returns (steps: seq<Step>)
    ensures steps == [Create(1), Create(2)] && IsRun(steps)
    ensures RunOf(steps) == State(map[1 := Opened, 2 := Opened], Some([]), None, {1, 2}, {})
  {
    OneMore([], Create(1));
    OneMore([] + [Create(1)], Create(2));
    steps := [] + [Create(1)] + [Create(2)];
  }

  lemma MixedText()
    ensures NeverEmpty(ShortOnly(2)) && !Complete(ShortOnly(2), Some([1, 2]))
  {
    AllLong(2, [1]);
    assert [1, 2][..1] == [1];
    assert Contents(ShortOnly(2), [1, 2]) == [1, 0];
  }
}
