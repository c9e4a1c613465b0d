/** The release campaign driver: groups run one after the other, progress is
    written ahead to disk, the process may crash anywhere, and --resume picks up
    only groups never started. One process at a time. */
module Campaign {

  import opened Options

  datatype Spec = Spec(name: string, parameters: seq<string>)

  datatype Status = Running | Complete(valid: bool, qualified: bool)

  datatype Progress = Progress(name: string, status: Status)

  datatype Verdict = Verdict(valid: bool, qualified: bool)

  /** campaign.json; `progress` is in insertion order, as the dictionary keeps it. */
  datatype Record = Record(groups: seq<Spec>, progress: seq<Progress>, finished: Option<Verdict>)

  /** A crash inside a write leaves a file that cannot be read back. */
  datatype Disk = Absent | Torn | Saved(record: Record)

  /** Where the process is, with its copy of the record. `i` is the group the
      loop is at. */
  datatype Process =
    | Down
    | Creating(mem: Record)
    | FirstSave(mem: Record)
    | Looping(mem: Record, i: nat)
    | Marking(mem: Record, i: nat)
    | Launching(mem: Record, i: nat)
    | Working(mem: Record, i: nat)
    | Recording(mem: Record, i: nat)
    | Finishing(mem: Record)

  /** `definition` and `launched` only record: the definition of the campaign at
      this output path, and the groups whose command was started. */
  datatype State = State(disk: Disk, directories: bool, process: Process,
                         definition: seq<Spec>, launched: seq<string>)

  datatype Step =
    | Fresh(groups: seq<Spec>)
    | Resume(groups: seq<Spec>, environmentUnchanged: bool)
    | MakeDirectories
    | Save
    | Skip
    | Mark
    | Launch
    | Validate(problems: nat, limitations: nat, exitCode: int, summaryCode: int)
    | Wrap
    | Crash
    | CrashInSave

  function Names(groups: seq<Spec>): seq<string> { seq(|groups|, i requires 0 <= i < |groups| => groups[i].name) }

  function Started(progress: seq<Progress>): seq<string> {
    seq(|progress|, i requires 0 <= i < |progress| => progress[i].name)
  }

  predicate AllComplete(progress: seq<Progress>) {
    forall i :: 0 <= i < |progress| ==> progress[i].status.Complete?
  }

  predicate AllValid(progress: seq<Progress>) {
    forall i :: 0 <= i < |progress| ==> progress[i].status.Complete? && progress[i].status.valid
  }

  predicate AllQualified(progress: seq<Progress>) {
    forall i :: 0 <= i < |progress| ==> progress[i].status.Complete? && progress[i].status.qualified
  }

  /** --resume goes on only from a readable record of the same definition, in an
      unchanged environment, without an interrupted group. */
  predicate Resumable(s: State, groups: seq<Spec>, environmentUnchanged: bool) {
    s.disk.Saved? && environmentUnchanged && s.disk.record.groups == groups && AllComplete(s.disk.record.progress)
  }

  predicate Saving(p: Process) { p.FirstSave? || p.Marking? || p.Recording? || p.Finishing? }

  predicate Enabled(s: State, step: Step) {
    match step
    case Fresh(_) => s.process.Down?
    case Resume(_, _) => s.process.Down?
    case MakeDirectories => s.process.Creating?
    case Save => Saving(s.process)
    case Skip => s.process.Looping? && s.process.i < |s.process.mem.groups|
                 && s.process.mem.groups[s.process.i].name in Started(s.process.mem.progress)
    case Mark => s.process.Looping? && s.process.i < |s.process.mem.groups|
                 && s.process.mem.groups[s.process.i].name !in Started(s.process.mem.progress)
    case Launch => s.process.Launching? && s.process.i < |s.process.mem.groups|
    case Validate(_, _, _, _) => s.process.Working? && s.process.mem.progress != []
    case Wrap => s.process.Looping? && s.process.i == |s.process.mem.groups|
    case Crash => !s.process.Down?
    case CrashInSave => Saving(s.process)
  }

  function AfterSave(p: Process): Process
    requires Saving(p)
  {
    match p
    case FirstSave(mem) => Looping(mem, 0)
    case Marking(mem, i) => Launching(mem, i)
    case Recording(mem, i) => Looping(mem, i + 1)
    case Finishing(_) => Down
  }

  function Next(s: State, step: Step): State
    requires Enabled(s, step)
  {
    match step
    case Fresh(groups) =>
      if s.directories then s else s.(process := Creating(Record(groups, [], None)), definition := groups)
    case Resume(groups, same) =>
      if Resumable(s, groups, same) then s.(process := Looping(s.disk.record, 0)) else s
    case MakeDirectories => s.(directories := true, process := FirstSave(s.process.mem))
    case Save => s.(disk := Saved(s.process.mem), process := AfterSave(s.process))
    case Skip => s.(process := Looping(s.process.mem, s.process.i + 1))
    case Mark =>
      var mem, i := s.process.mem, s.process.i;
      s.(process := Marking(mem.(progress := mem.progress + [Progress(mem.groups[i].name, Running)]), i))
    case Launch =>
      s.(process := Working(s.process.mem, s.process.i),
         launched := s.launched + [s.process.mem.groups[s.process.i].name])
    case Validate(problems, limitations, exitCode, summaryCode) =>
      var mem := s.process.mem;
      var last := |mem.progress| - 1;
      var valid := problems == 0 && exitCode == 0 && summaryCode == 0;
      var status := Complete(valid, valid && limitations == 0);
      s.(process := Recording(mem.(progress := mem.progress[last := mem.progress[last].(status := status)]), s.process.i))
    case Wrap =>
      var mem := s.process.mem;
      s.(process := Finishing(mem.(finished := Some(Verdict(AllValid(mem.progress), AllQualified(mem.progress))))))
    case Crash => s.(process := Down)
    case CrashInSave => s.(disk := Torn, process := Down)
  }

  // ----- what every history keeps -----

  ghost predicate Distinct(names: seq<string>) { forall i, j :: 0 <= i < j < |names| ==> names[i] != names[j] }

  /** Groups start in definition order; only the last one may be unfinished. */
  ghost predicate Ordered(r: Record) {
    && Started(r.progress) <= Names(r.groups)
    && (forall i :: 0 <= i < |r.progress| - 1 ==> r.progress[i].status.Complete?)
  }

  /** A recorded finish covers every group and sums up their verdicts. */
  ghost predicate FinishOk(r: Record) {
    r.finished.Some? ==>
      && Started(r.progress) == Names(r.groups) && AllComplete(r.progress)
      && r.finished.value == Verdict(AllValid(r.progress), AllQualified(r.progress))
  }

  /** What the launches can be when the record has this progress. */
  predicate LaunchedAsRecorded(r: Record, launched: seq<string>) {
    var started := Started(r.progress);
    if AllComplete(r.progress) then launched == started
    else |started| > 0 && (launched == started || launched == started[..|started| - 1])
  }

  ghost predicate DiskOk(s: State) {
    match s.disk
    case Absent => s.launched == []
    case Torn => s.directories && s.launched <= Names(s.definition)
    case Saved(r) =>
      && s.directories && r.groups == s.definition
      && Ordered(r) && FinishOk(r) && LaunchedAsRecorded(r, s.launched)
  }

  /** Group `i` has been entered in the record and is not finished. */
  ghost predicate Marked(s: State, mem: Record, i: nat) {
    && mem.groups == s.definition && i < |mem.groups| && |mem.progress| == i + 1 && mem.finished.None?
    && Ordered(mem) && mem.progress[i].status.Running?
  }

  ghost predicate ProcessOk(s: State) {
    match s.process
    case Down => true
    case Creating(mem) => mem == Record(s.definition, [], None) && s.disk.Absent? && !s.directories
    case FirstSave(mem) => mem == Record(s.definition, [], None) && s.disk.Absent? && s.directories
    case Looping(mem, i) => s.disk == Saved(mem) && AllComplete(mem.progress) && i <= |mem.progress|
    case Marking(mem, i) =>
      && Marked(s, mem, i) && s.launched == Started(mem.progress[..i])
      && s.disk == Saved(mem.(progress := mem.progress[..i]))
    case Launching(mem, i) => Marked(s, mem, i) && s.launched == Started(mem.progress[..i]) && s.disk == Saved(mem)
    case Working(mem, i) => Marked(s, mem, i) && s.launched == Started(mem.progress) && s.disk == Saved(mem)
    case Recording(mem, i) =>
      && mem.groups == s.definition && |mem.progress| == i + 1 && mem.finished.None?
      && Ordered(mem) && AllComplete(mem.progress) && s.launched == Started(mem.progress) && s.disk.Saved?
    case Finishing(mem) =>
      && s.disk.Saved? && mem.groups == s.definition && s.launched == Started(mem.progress)
      && Ordered(mem) && FinishOk(mem) && mem.finished.Some?
  }

  ghost predicate Inv(s: State) {
    && Distinct(Names(s.definition)) && DiskOk(s) && ProcessOk(s)
    && (!s.directories ==> s.disk.Absent?)
  }

  ghost predicate Initial(s: State) { s == State(Absent, false, Down, [], []) }

  lemma MarkKeepsInv(s: State)
    requires Inv(s) && Enabled(s, Mark)
    ensures Inv(Next(s, Mark))
  {
    var mem, i := s.process.mem, s.process.i;
    var mem' := Next(s, Mark).process.mem;
    var started, names := Started(mem.progress), Names(mem.groups);
    assert forall k :: 0 <= k < |started| ==> names[k] == started[k] && started[k] in started;
    assert names[i] !in started;
    assert i == |mem.progress|;
    assert mem'.progress[..i] == mem.progress;
    assert Started(mem'.progress) == started + [names[i]];
    FinishedCoversAll(mem);
  }

  lemma FinishedCoversAll(r: Record)
    requires FinishOk(r) && |r.progress| < |r.groups|
    ensures r.finished.None?
  {
    assert |Started(r.progress)| < |Names(r.groups)|;
  }

  lemma ValidateKeepsInv(s: State, problems: nat, limitations: nat, exitCode: int, summaryCode: int)
    requires Inv(s) && Enabled(s, Validate(problems, limitations, exitCode, summaryCode))
    ensures Inv(Next(s, Validate(problems, limitations, exitCode, summaryCode)))
  {
    var mem := s.process.mem;
    var mem' := Next(s, Validate(problems, limitations, exitCode, summaryCode)).process.mem;
    assert Started(mem'.progress) == Started(mem.progress);
  }

  lemma SaveKeepsInv(s: State)
    requires Inv(s) && Enabled(s, Save)
    ensures Inv(Next(s, Save))
  {
    var p := s.process;
    if p.Marking? {
      assert Started(p.mem.progress)[..p.i] == Started(p.mem.progress[..p.i]);
      assert !AllComplete(p.mem.progress);
    }
  }

  lemma LaunchKeepsInv(s: State)
    requires Inv(s) && Enabled(s, Launch)
    ensures Inv(Next(s, Launch))
  {
    var mem, i := s.process.mem, s.process.i;
    var started := Started(mem.progress);
    assert Names(mem.groups)[i] == started[i];
    assert Started(mem.progress[..i]) + [started[i]] == started;
    assert !AllComplete(mem.progress);
  }

  lemma WrapKeepsInv(s: State)
    requires Inv(s) && Enabled(s, Wrap)
    ensures Inv(Next(s, Wrap))
  {
    var mem := s.process.mem;
    assert Started(mem.progress) == Names(mem.groups);
  }

  lemma CrashInSaveKeepsInv(s: State)
    requires Inv(s) && Enabled(s, CrashInSave)
    ensures Inv(Next(s, CrashInSave))
  {
    var p := s.process;
    if p.Marking? {
      assert Started(p.mem.progress[..p.i]) == Started(p.mem.progress)[..p.i];
    }
  }

  lemma StepKeepsInv(s: State, step: Step)
    requires Inv(s) && Enabled(s, step) && (step.Fresh? ==> Distinct(Names(step.groups)))
    ensures Inv(Next(s, step))
  {
    match step
    case Mark => MarkKeepsInv(s);
    case Validate(p, l, e, c) => ValidateKeepsInv(s, p, l, e, c);
    case Save => SaveKeepsInv(s);
    case Launch => LaunchKeepsInv(s);
    case Wrap => WrapKeepsInv(s);
    case CrashInSave => CrashInSaveKeepsInv(s);
    case Skip =>
      var started, names := Started(s.process.mem.progress), Names(s.process.mem.groups);
      assert s.process.i < |s.process.mem.progress| by {
        var k :| 0 <= k < |started| && started[k] == names[s.process.i];
        assert started[k] == names[k];
      }
    case _ =>
  }

  /** Any history of fresh starts, crashes and resume attempts at one output path. */
  ghost predicate History(states: seq<State>, steps: seq<Step>) {
    && |states| == |steps| + 1 && Initial(states[0])
    && (forall i :: 0 <= i < |steps| && steps[i].Fresh? ==> Distinct(Names(steps[i].groups)))
    && (forall i :: 0 <= i < |steps| ==> Enabled(states[i], steps[i]) && states[i + 1] == Next(states[i], steps[i]))
  }

  lemma {:induction false} HistoryKeepsInv(states: seq<State>, steps: seq<Step>, n: nat)
    requires History(states, steps) && n < |states|
    ensures Inv(states[n])
  {
    hide Inv, Next, Enabled;
    if n == 0 {
      InitialInv(states[0]);
    } else {
      HistoryKeepsInv(states, steps, n - 1);
      StepKeepsInv(states[n - 1], steps[n - 1]);
    }
  }

  lemma InitialInv(s: State)
    requires Initial(s)
    ensures Inv(s)
  {
  }

  /** In every history each group's command is launched at most once, and the
      launched groups are a prefix of the definition. */
  lemma LaunchedOnceInOrder(states: seq<State>, steps: seq<Step>, n: nat)
    requires History(states, steps) && n < |states|
    ensures Distinct(states[n].launched) && states[n].launched <= Names(states[n].definition)
  {
    HistoryKeepsInv(states, steps, n);
    PrefixOfDefinition(states[n]);
  }

  lemma PrefixOfDefinition(s: State)
    requires Inv(s)
    ensures Distinct(s.launched) && s.launched <= Names(s.definition)
  {
    if s.disk.Saved? {
      var started := Started(s.disk.record.progress);
      assert started <= Names(s.definition);
    }
    assert forall i :: 0 <= i < |s.launched| ==> s.launched[i] == Names(s.definition)[i];
  }

  // ----- verdicts -----

  /** What a group's command, its summary and the validation of its output gave. */
  datatype Outcome = Outcome(problems: nat, limitations: nat, exitCode: int, summaryCode: int)

  function OutcomeOf(step: Step): seq<Outcome> {
    if step.Validate? then [Outcome(step.problems, step.limitations, step.exitCode, step.summaryCode)] else []
  }

  /** The outcomes of the validations of a history, in order. */
  function Outcomes(steps: seq<Step>): seq<Outcome> {
    if steps == [] then [] else Outcomes(steps[..|steps| - 1]) + OutcomeOf(steps[|steps| - 1])
  }

  predicate Passed(o: Outcome) { o.problems == 0 && o.exitCode == 0 && o.summaryCode == 0 }

  /** Entry k of the record states what came out of validation k. */
  predicate Reflects(progress: seq<Progress>, outcomes: seq<Outcome>) {
    && |progress| == |outcomes|
    && forall k :: 0 <= k < |progress| ==>
                     progress[k].status == Complete(Passed(outcomes[k]), Passed(outcomes[k]) && outcomes[k].limitations == 0)
  }

  predicate ProcessReflects(p: Process, outcomes: seq<Outcome>) {
    match p
    case Down => true
    case Creating(_) => outcomes == []
    case FirstSave(_) => outcomes == []
    case Looping(mem, _) => Reflects(mem.progress, outcomes)
    case Marking(mem, _) => mem.progress != [] && Reflects(mem.progress[..|mem.progress| - 1], outcomes)
    case Launching(mem, _) => mem.progress != [] && Reflects(mem.progress[..|mem.progress| - 1], outcomes)
    case Working(mem, _) => mem.progress != [] && Reflects(mem.progress[..|mem.progress| - 1], outcomes)
    case Recording(mem, _) => Reflects(mem.progress, outcomes)
    case Finishing(mem) => Reflects(mem.progress, outcomes)
  }

  predicate DiskReflects(disk: Disk, outcomes: seq<Outcome>) {
    match disk
    case Absent => outcomes == []
    case Torn => true
    case Saved(r) => AllComplete(r.progress) ==> Reflects(r.progress, outcomes)
  }

  lemma ValidateReflects(s: State, step: Step, outcomes: seq<Outcome>)
    requires Inv(s) && step.Validate? && Enabled(s, step)
    requires ProcessReflects(s.process, outcomes) && DiskReflects(s.disk, outcomes)
    ensures var outcomes' := outcomes + OutcomeOf(step);
            ProcessReflects(Next(s, step).process, outcomes') && DiskReflects(Next(s, step).disk, outcomes')
  {
    var progress := s.process.mem.progress;
    var last := |progress| - 1;
    assert progress[last].status.Running?;
    assert !AllComplete(progress);
    assert forall k :: 0 <= k < last ==> Next(s, step).process.mem.progress[k] == progress[..last][k];
  }

  lemma MarkReflects(s: State, outcomes: seq<Outcome>)
    requires Enabled(s, Mark) && ProcessReflects(s.process, outcomes)
    ensures ProcessReflects(Next(s, Mark).process, outcomes)
  {
    var progress := s.process.mem.progress;
    var progress' := Next(s, Mark).process.mem.progress;
    assert progress'[..|progress'| - 1] == progress;
  }

  lemma SaveReflects(s: State, outcomes: seq<Outcome>)
    requires Inv(s) && Enabled(s, Save)
    requires ProcessReflects(s.process, outcomes) && DiskReflects(s.disk, outcomes)
    ensures ProcessReflects(Next(s, Save).process, outcomes) && DiskReflects(Next(s, Save).disk, outcomes)
  {
    if s.process.Marking? {
      var progress := s.process.mem.progress;
      assert progress[|progress| - 1].status.Running?;
      assert !AllComplete(progress);
    }
  }

  lemma StepReflects(s: State, step: Step, outcomes: seq<Outcome>)
    requires Inv(s) && Enabled(s, step)
    requires ProcessReflects(s.process, outcomes) && DiskReflects(s.disk, outcomes)
    ensures var outcomes' := outcomes + OutcomeOf(step);
            ProcessReflects(Next(s, step).process, outcomes') && DiskReflects(Next(s, step).disk, outcomes')
  {
    hide Reflects, Distinct, Ordered, FinishOk;
    assert outcomes + [] == outcomes;
    match step
    case Validate(_, _, _, _) => ValidateReflects(s, step, outcomes);
    case Mark => MarkReflects(s, outcomes);
    case Save => SaveReflects(s, outcomes);
    case _ =>
  }

  lemma {:induction false} HistoryReflects(states: seq<State>, steps: seq<Step>, n: nat)
    requires History(states, steps) && n < |states|
    ensures ProcessReflects(states[n].process, Outcomes(steps[..n])) && DiskReflects(states[n].disk, Outcomes(steps[..n]))
  {
    if n > 0 {
      hide Inv, Next, Enabled, ProcessReflects, DiskReflects;
      HistoryReflects(states, steps, n - 1);
      HistoryKeepsInv(states, steps, n - 1);
      StepReflects(states[n - 1], steps[n - 1], Outcomes(steps[..n - 1]));
      assert steps[..n][..n - 1] == steps[..n - 1];
    }
  }

  /** A recorded finish means that every group of the definition was launched and
      validated, exactly once. The campaign is recorded valid if and only if every
      validation found no problems and both exit codes were 0, and qualified if
      and only if there were no limitations either. */
  lemma FinishMeansEveryGroupRan(states: seq<State>, steps: seq<Step>, n: nat)
    requires History(states, steps) && n < |states|
    requires states[n].disk.Saved? && states[n].disk.record.finished.Some?
    ensures var r, outcomes := states[n].disk.record, Outcomes(steps[..n]);
            && r.groups == states[n].definition
            && states[n].launched == Names(r.groups) == Started(r.progress) && Distinct(states[n].launched)
            && |outcomes| == |r.groups| && Reflects(r.progress, outcomes)
            && (r.finished.value.valid <==>
                  forall k :: 0 <= k < |outcomes| ==>
                    outcomes[k].problems == 0 && outcomes[k].exitCode == 0 && outcomes[k].summaryCode == 0)
            && (r.finished.value.qualified <==>
                  forall k :: 0 <= k < |outcomes| ==>
                    outcomes[k].problems == 0 && outcomes[k].exitCode == 0 && outcomes[k].summaryCode == 0
                    && outcomes[k].limitations == 0)
  {
    HistoryKeepsInv(states, steps, n);
    HistoryReflects(states, steps, n);
    var r, outcomes := states[n].disk.record, Outcomes(steps[..n]);
    assert |Started(r.progress)| == |Names(r.groups)|;
    VerdictsAgree(r.progress, outcomes);
  }

  lemma VerdictsAgree(progress: seq<Progress>, outcomes: seq<Outcome>)
    requires Reflects(progress, outcomes)
    ensures AllValid(progress) <==> forall k :: 0 <= k < |outcomes| ==> Passed(outcomes[k])
    ensures AllQualified(progress) <==> forall k :: 0 <= k < |outcomes| ==> Passed(outcomes[k]) && outcomes[k].limitations == 0
  {
    if AllValid(progress) {
      forall k | 0 <= k < |outcomes| ensures Passed(outcomes[k]) { assert progress[k].status.valid; }
    }
    if AllQualified(progress) {
      forall k | 0 <= k < |outcomes| ensures Passed(outcomes[k]) && outcomes[k].limitations == 0 {
        assert progress[k].status.qualified;
      }
    }
  }

  /** Validation k is that of the group launched as number k. */
  lemma ValidationFollowsLaunch(states: seq<State>, steps: seq<Step>, n: nat)
    requires History(states, steps) && n < |steps| && steps[n].Validate?
    ensures |states[n].launched| == |Outcomes(steps[..n])| + 1
  {
    HistoryKeepsInv(states, steps, n);
    HistoryReflects(states, steps, n);
    assert Enabled(states[n], steps[n]);
  }

  // ----- starting -----

  /** --resume goes on, from the recorded progress, if and only if the record can
      be read, has the same definition and no interrupted group, and the
      environment is unchanged; otherwise nothing happens. */
  lemma ResumeGoesOnIff(states: seq<State>, steps: seq<Step>, n: nat)
    requires History(states, steps) && n < |steps| && steps[n].Resume?
    ensures var s, s' := states[n], states[n + 1];
            && (s' != s <==>
                  && s.disk.Saved? && steps[n].environmentUnchanged && steps[n].groups == s.definition
                  && forall k :: 0 <= k < |s.disk.record.progress| ==> !s.disk.record.progress[k].status.Running?)
            && (s' != s ==> s' == s.(process := Looping(s.disk.record, 0)))
  {
    HistoryKeepsInv(states, steps, n);
    assert Enabled(states[n], steps[n]);
    if states[n].disk.Saved? {
      var progress := states[n].disk.record.progress;
      assert AllComplete(progress) <==> forall k :: 0 <= k < |progress| ==> !progress[k].status.Running?;
    }
  }

  /** A fresh start goes on if and only if the output path is new, and then
      nothing has been launched for it. */
  lemma FreshGoesOnIff(states: seq<State>, steps: seq<Step>, n: nat)
    requires History(states, steps) && n < |steps| && steps[n].Fresh?
    ensures states[n + 1] != states[n] <==> !states[n].directories
    ensures states[n + 1] != states[n] ==>
              states[n].launched == [] && states[n].disk.Absent?
              && states[n + 1].definition == steps[n].groups
  {
    HistoryKeepsInv(states, steps, n);
    assert Enabled(states[n], steps[n]);
  }

  // ----- a campaign can finish, with any outcomes -----

  lemma ThenStep(states: seq<State>, steps: seq<Step>, step: Step) returns (states': seq<State>, steps': seq<Step>)
    requires History(states, steps) && Enabled(states[|steps|], step)
    requires step.Fresh? ==> Distinct(Names(step.groups))
    ensures History(states', steps') && |steps'| == |steps| + 1
    ensures states'[|steps'|] == Next(states[|steps|], step)
    ensures Outcomes(steps') == Outcomes(steps) + OutcomeOf(step)
  {
    hide Next, Enabled, Distinct, Names;
    states', steps' := states + [Next(states[|steps|], step)], steps + [step];
    assert steps'[..|steps|] == steps;
  }

  /** The loop is at group `i`, all groups before it having run. */
  ghost predicate AtGroup(s: State, groups: seq<Spec>, i: nat) {
    && s.definition == groups && s.process.Looping? && s.process.i == i
    && s.process.mem.groups == groups && |s.process.mem.progress| == i
  }

  lemma NextIsNew(s: State, groups: seq<Spec>, i: nat)
    requires Inv(s) && AtGroup(s, groups, i) && i < |groups|
    ensures Enabled(s, Mark)
  {
    var started, names := Started(s.process.mem.progress), Names(groups);
    assert forall k :: 0 <= k < i ==> started[k] == names[k] && names[k] != names[i];
  }

  /** One group from its entry in the record to its recorded outcome. */
  lemma RunGroup(states: seq<State>, steps: seq<Step>, groups: seq<Spec>, i: nat, o: Outcome)
    returns (states': seq<State>, steps': seq<Step>)
    requires History(states, steps) && AtGroup(states[|steps|], groups, i) && i < |groups|
    ensures History(states', steps') && AtGroup(states'[|steps'|], groups, i + 1)
    ensures Outcomes(steps') == Outcomes(steps) + [o]
  {
    hide Distinct, Names, Outcomes, Inv;
    assert Enabled(states[|steps|], Mark) by {
      HistoryKeepsInv(states, steps, |steps|);
      NextIsNew(states[|steps|], groups, i);
    }
    hide History, Started;
    states', steps' := ThenStep(states, steps, Mark);
    states', steps' := ThenStep(states', steps', Save);
    states', steps' := ThenStep(states', steps', Launch);
    states', steps' := ThenStep(states', steps', Validate(o.problems, o.limitations, o.exitCode, o.summaryCode));
    states', steps' := ThenStep(states', steps', Save);
  }

  lemma FirstGroup(groups: seq<Spec>) returns (states: seq<State>, steps: seq<Step>)
    requires Distinct(Names(groups))
    ensures History(states, steps) && AtGroup(states[|steps|], groups, 0) && Outcomes(steps) == []
  {
    hide Distinct, Names, Outcomes, History;
    states, steps := BeginHistory();
    states, steps := ThenStep(states, steps, Fresh(groups));
    states, steps := ThenStep(states, steps, MakeDirectories);
    states, steps := ThenStep(states, steps, Save);
  }

  lemma {:induction false} ReachGroup(groups: seq<Spec>, outcomes: seq<Outcome>, i: nat)
    returns (states: seq<State>, steps: seq<Step>)
    requires Distinct(Names(groups)) && i <= |groups| == |outcomes|
    ensures History(states, steps) && AtGroup(states[|steps|], groups, i) && Outcomes(steps) == outcomes[..i]
  {
    hide Distinct, Names, Outcomes, AtGroup;
    if i == 0 {
      states, steps := FirstGroup(groups);
    } else {
      states, steps := ReachGroup(groups, outcomes, i - 1);
      states, steps := RunGroup(states, steps, groups, i - 1, outcomes[i - 1]);
      assert outcomes[..i] == outcomes[..i - 1] + [outcomes[i - 1]];
    }
  }

  lemma BeginHistory() returns (states: seq<State>, steps: seq<Step>)
    ensures History(states, steps) && |steps| == 0 && Outcomes(steps) == []
    ensures states[0] == State(Absent, false, Down, [], [])
  {
    states, steps := [State(Absent, false, Down, [], [])], [];
  }

  /** Whatever comes out of the groups, some history records a finish with exactly
      these outcomes. */
  lemma CanFinish(groups: seq<Spec>, outcomes: seq<Outcome>) returns (states: seq<State>, steps: seq<Step>)
    requires Distinct(Names(groups)) && |groups| == |outcomes|
    ensures History(states, steps) && Outcomes(steps) == outcomes
    ensures var s := states[|steps|];
            s.definition == groups && s.disk.Saved? && s.disk.record.finished.Some?
  {
    hide Distinct, Names, History, Outcomes;
    states, steps := ReachGroup(groups, outcomes, |groups|);
    states, steps := ThenStep(states, steps, Wrap);
    states, steps := ThenStep(states, steps, Save);
    assert outcomes[..|groups|] == outcomes;
  }

  // ----- interruptions -----

  /** No process runs, and the record cannot be read or has an unfinished group. */
  predicate Stopped(s: State) {
    s.process.Down? && s.directories && (s.disk.Torn? || (s.disk.Saved? && !AllComplete(s.disk.record.progress)))
  }

  lemma StoppedStep(s: State, step: Step)
    requires Stopped(s) && Enabled(s, step)
    ensures Next(s, step) == s
  {
  }

  /** An interrupted group or a torn record stops the campaign for good: whatever
      starts and resumes follow, nothing is launched or recorded again. */
  lemma {:induction false} InterruptedStaysStopped(states: seq<State>, steps: seq<Step>, n: nat, m: nat)
    requires History(states, steps) && n <= m < |states| && states[n].process.Down?
    requires var disk := states[n].disk; disk.Torn? || (disk.Saved? && !AllComplete(disk.record.progress))
    ensures states[m] == states[n]
  {
    hide Next, Enabled;
    if n < m {
      InterruptedStaysStopped(states, steps, n, m - 1);
      HistoryKeepsInv(states, steps, n);
      StoppedStep(states[m - 1], steps[m - 1]);
    }
  }
}
