/**
 * `compileOs`: building the operating system by round trips through a virtual machine. Each of
 * the first three stages puts a source file on a bootable image, asks whether the compile that
 * the user ran in the virtual machine succeeded, and pulls the assembled binary back off the
 * image; the fourth stage puts the kernel tests on the image and asks whether they passed.
 */
module CompileOs {
  import opened Wrappers
  import opened Disk
  import opened OsDisk
  import opened Prompter

  // ---------------------------------------------------------------------------
  // Messages
  // ---------------------------------------------------------------------------

  /** The path with trailing separators removed. */
  function TrimTrailingSeparators(p: string): string {
    if |p| > 0 && p[|p| - 1] == '/' then TrimTrailingSeparators(p[..|p| - 1]) else p
  }

  /** The part of the path after its last separator. */
  function LastComponent(p: string): string {
    if |p| == 0 || p[|p| - 1] == '/' then []
    else LastComponent(p[..|p| - 1]) + [p[|p| - 1]]
  }

  /** `path.basename` with '/' as the separator. */
  function Basename(p: string): string {
    LastComponent(TrimTrailingSeparators(p))
  }

  /** Trimming removes exactly the run of separators at the end. */
  lemma {:induction false} TrimTrailingSeparatorsRemovesEndRun(p: string)
    ensures var t := TrimTrailingSeparators(p);
            && |t| <= |p| && t == p[..|t|]
            && (|t| == 0 || t[|t| - 1] != '/')
            && forall i :: |t| <= i < |p| ==> p[i] == '/'
  {
    if |p| > 0 && p[|p| - 1] == '/' {
      TrimTrailingSeparatorsRemovesEndRun(p[..|p| - 1]);
    }
  }

  /** The last component is the longest separator-free end of the path. */
  lemma {:induction false} LastComponentIsEndSegment(p: string)
    ensures var r := LastComponent(p);
            && |r| <= |p| && r == p[|p| - |r|..]
            && (forall i :: 0 <= i < |r| ==> r[i] != '/')
            && (|r| < |p| ==> p[|p| - |r| - 1] == '/')
  {
    if |p| > 0 && p[|p| - 1] != '/' {
      var q := p[..|p| - 1];
      LastComponentIsEndSegment(q);
      var r := LastComponent(q);
      var a := |p| - |r| - 1;
      assert p[a..] == p[a..|p| - 1] + [p[|p| - 1]];
      assert p[a..|p| - 1] == q[a..];
    }
  }

  /**
   * The base name is the path's last component once trailing separators are dropped: it
   * holds no separator and ends the trimmed path, which is preceded by a separator or begins it.
   */
  lemma BasenameIsLastComponent(p: string)
    ensures var t := TrimTrailingSeparators(p);
            var b := Basename(p);
            && |t| <= |p| && t == p[..|t|] && (forall i :: |t| <= i < |p| ==> p[i] == '/')
            && |b| <= |t| && b == t[|t| - |b|..]
            && (forall i :: 0 <= i < |b| ==> b[i] != '/')
            && (|b| < |t| ==> t[|t| - |b| - 1] == '/')
  {
    TrimTrailingSeparatorsRemovesEndRun(p);
    LastComponentIsEndSegment(TrimTrailingSeparators(p));
  }

  /** "a/b/" has the base name "b"; "/" has none. */
  lemma BasenameExamples()
    ensures Basename("a/b/") == "b"
    ensures Basename("/") == ""
  {
  }

  const CompileQuestion := "Did the compile succeed?"
  const TestsQuestion := "Did the tests succeed?"
  const ExitingEarly := "Exiting early"

  function CompilingMessage(what: string, assemblerVersion: string): string {
    "Compiling the " + what + " using RockAsm " + assemblerVersion + "..."
  }

  function RunInstruction(image: Path, sourceFile: Path): string {
    "Now run the " + Basename(image) + " in a virtual machine to compile the " + Basename(sourceFile) + " file."
  }

  function ReadyToRunMessage(binFile: Path): string {
    "Creating a floppy disk with the " + Basename(binFile) + " ready to run..."
  }

  // ---------------------------------------------------------------------------
  // The stage table
  // ---------------------------------------------------------------------------

  /** `CompileOsOptions`. */
  datatype CompileOsOptions = CompileOsOptions(
    destinationFloppyImage: Path,
    assemblerBinFile: Path,
    assemblerVersion: string,
    bootloadSourceFile: Path,
    kernelSourceFile: Path,
    kernelUnitTestSourceFile: Path,
    bootloadBinDestinationFile: Path,
    kernelBinDestinationFile: Path,
    kernelUnitTestBinFile: Path,
    sectorMap: Option<SectorMap>)

  /**
   * One stage of `compileOs`: the message announcing it, the image to build, the instruction to
   * run the image (if any), the yes/no question, and the binary to extract on a yes (if any).
   */
  datatype Stage = Stage(
    announcement: string,
    floppy: FloppyOptions,
    runInstruction: Option<string>,
    question: string,
    extractTo: Option<Path>)

  /** The four stages in order: bootloader, kernel, kernel tests, and the test image. */
  function Stages(o: CompileOsOptions): (stages: seq<Stage>)
    ensures |stages| == 4
  {
    var m := o.sectorMap.GetOr(DefaultSectorMap);
    var image := o.destinationFloppyImage;
    var v := o.assemblerVersion;
    var bootBin := o.bootloadBinDestinationFile;
    var kernelBin := o.kernelBinDestinationFile;
    var testBin := o.kernelUnitTestBinFile;
    [ Stage(CompilingMessage("bootloader", v),
            FloppyOptions(image, bootBin, kernelBin, o.assemblerBinFile, o.bootloadSourceFile, m),
            Some(RunInstruction(image, o.bootloadSourceFile)), CompileQuestion, Some(bootBin)),
      Stage(CompilingMessage("kernel", v),
            FloppyOptions(image, bootBin, kernelBin, o.assemblerBinFile, o.kernelSourceFile, m),
            Some(RunInstruction(image, o.kernelSourceFile)), CompileQuestion, Some(kernelBin)),
      Stage(CompilingMessage("kernel tests", v),
            FloppyOptions(image, bootBin, kernelBin, o.assemblerBinFile, o.kernelUnitTestSourceFile, m),
            Some(RunInstruction(image, o.kernelUnitTestSourceFile)), CompileQuestion, Some(testBin)),
      Stage(ReadyToRunMessage(testBin),
            FloppyOptions(image, bootBin, kernelBin, testBin, o.kernelUnitTestSourceFile, m),
            None, TestsQuestion, None) ]
  }

  /** No file the stage reads or extracts to is the image itself. */
  predicate StageNoAlias(s: Stage) {
    NoAlias(s.floppy) && (s.extractTo.Some? ==> s.extractTo.value != s.floppy.destinationFloppyImage)
  }

  /** No file named in the options is the image. */
  predicate Distinct(o: CompileOsOptions) {
    var image := o.destinationFloppyImage;
    && o.assemblerBinFile != image
    && o.bootloadSourceFile != image && o.kernelSourceFile != image && o.kernelUnitTestSourceFile != image
    && o.bootloadBinDestinationFile != image && o.kernelBinDestinationFile != image
    && o.kernelUnitTestBinFile != image
  }

  /** Distinct options give stages that alias nothing. */
  lemma DistinctStages(o: CompileOsOptions)
    requires Distinct(o)
    ensures forall k :: 0 <= k < 4 ==> StageNoAlias(Stages(o)[k])
  {
    var stages := Stages(o);
    forall k | 0 <= k < 4 ensures StageNoAlias(stages[k]) {
      var parts := Parts(stages[k].floppy);
      assert forall l :: 0 <= l < 4 ==> parts[l].file != o.destinationFloppyImage;
    }
  }

  /**
   * The binary extracted by each of the first three stages is a part of every later image:
   * the bootloader goes to the boot sector, the kernel to the kernel section, and the kernel
   * tests to the assembler section of the test image.
   */
  lemma StagesFeedForward(o: CompileOsOptions)
    ensures forall k, l :: 0 <= k < 3 && k < l < 4 && (k < 2 || l == 3) ==>
      Stages(o)[k].extractTo == Some(Parts(Stages(o)[l].floppy)[k].file)
    ensures forall k :: 0 <= k < 4 ==> Stages(o)[k].floppy.sectorMap == o.sectorMap.GetOr(DefaultSectorMap)
    ensures forall k :: 0 <= k < 4 ==> Stages(o)[k].floppy.destinationFloppyImage == o.destinationFloppyImage
  {
    var stages := Stages(o);
    forall k, l | 0 <= k < 3 && k < l < 4 && (k < 2 || l == 3)
      ensures stages[k].extractTo == Some(Parts(stages[l].floppy)[k].file)
    {
      var parts := Parts(stages[l].floppy);
      assert parts[0].file == o.bootloadBinDestinationFile;
      assert parts[1].file == o.kernelBinDestinationFile;
      assert l == 3 ==> parts[2].file == o.kernelUnitTestBinFile;
    }
  }

  // ---------------------------------------------------------------------------
  // What compileOs does
  // ---------------------------------------------------------------------------

  /**
   * What booting an image in the virtual machine does to it while question `k` is open: the
   * assembler running in the machine writes its output into the image.
   */
  type Machine = (nat, seq<byte>) -> seq<byte>

  /** The files and the state of the `VirtualPrompter`. */
  datatype World = World(files: Files, messages: seq<string>, callbackCalls: nat)

  /** How a run ends (`Success(true)` for a stage: go on), its final world, and the answers given. */
  datatype Run = Run(result: Result<bool, DiskError>, world: World, answers: seq<bool>)

  /** "Exiting early" is the last message of the run. */
  predicate ExitedEarly(r: Run) {
    |r.world.messages| > 0 && r.world.messages[|r.world.messages| - 1] == ExitingEarly
  }

  /** The files once the machine has run the image, if there is one. */
  function BootImage(files: Files, image: Path, k: nat, machine: Machine): (r: Files)
    ensures r.Keys == files.Keys
    ensures forall p :: p in files && p != image ==> r[p] == files[p]
  {
    if image in files then files[image := machine(k, files[image])] else files
  }

  /** One stage: announce, build the image, show the instruction, ask, then extract or exit early. */
  function StageStep(s: Stage, k: nat, w: World, responses: YesNoResponses, machine: Machine): (run: Run)
    ensures |run.answers| <= 1
    ensures run.answers == [] <==> CreateBootableOsFloppySpec(w.files, s.floppy).result.Failure?
    ensures run.answers != [] ==> run.answers == [Answer(responses, s.question, w.callbackCalls)]
    ensures run.result == Success(false) <==> run.answers == [false]
    ensures run.result == Success(false) ==> ExitedEarly(run)
    ensures run.result == Success(true) ==> run.answers == [true]
  {
    var image := s.floppy.destinationFloppyImage;
    var announced := w.messages + [s.announcement];
    var built := CreateBootableOsFloppySpec(w.files, s.floppy);
    if built.result.Failure? then Run(Failure(built.result.error), World(built.files, announced, w.callbackCalls), [])
    else
      var asked := announced + (if s.runInstruction.Some? then [s.runInstruction.value] else []) + [s.question];
      var calls := CallsAfter(responses, w.callbackCalls);
      var ran := BootImage(built.files, image, k, machine);
      if !Answer(responses, s.question, w.callbackCalls) then
        Run(Success(false), World(ran, asked + [ExitingEarly], calls), [false])
      else if s.extractTo.None? then
        Run(Success(true), World(ran, asked, calls), [true])
      else
        var extracted := ExtractAndTrimSpec(ran, image, s.extractTo.value, s.floppy.sectorMap);
        Run(if extracted.result.Failure? then Failure(extracted.result.error) else Success(true),
            World(extracted.files, asked, calls), [true])
  }

  /** What running one stage does, given the stage, its index and the world before it. */
  type StageRunner = (Stage, nat, World) -> Run

  /** The stages of `compileOs` as run against a `VirtualPrompter` and a virtual machine. */
  function Runner(responses: YesNoResponses, machine: Machine): StageRunner {
    (s: Stage, k: nat, w: World) => StageStep(s, k, w, responses, machine)
  }

  /** Runs the stages from `k` on, stopping at the first that does not say go on. */
  function RunStages(stages: seq<Stage>, k: nat, w: World, runner: StageRunner): Run
    decreases |stages| - k
  {
    if k >= |stages| then Run(Success(true), w, [])
    else
      var step := runner(stages[k], k, w);
      if step.result != Success(true) then step
      else
        var rest := RunStages(stages, k + 1, step.world, runner);
        Run(rest.result, rest.world, step.answers + rest.answers)
  }

  /** What `compileOs` does, from the files and the prompter's state. */
  function CompileOsSpec(o: CompileOsOptions, w: World, responses: YesNoResponses, machine: Machine): Run {
    RunStages(Stages(o), 0, w, Runner(responses, machine))
  }

  // ---------------------------------------------------------------------------
  // The imperative compileOs
  // ---------------------------------------------------------------------------

  /** The user boots the image in the virtual machine. */
  method RunVirtualMachine(fs: FileSystem, image: Path, k: nat, machine: Machine)
    modifies fs
    ensures fs.files == BootImage(old(fs.files), image, k, machine)
  {
    if image in fs.files {
      fs.files := fs.files[image := machine(k, fs.files[image])];
    }
  }

  /** The floppy build of a stage, from the world before it. */
  function StageBuilt(s: Stage, w: World): Effect<()> {
    CreateBootableOsFloppySpec(w.files, s.floppy)
  }

  /** One stage of `compileOs`; `Success(true)` means go on to the next stage. */
  method CompileStage(fs: FileSystem, prompter: VirtualPrompter, s: Stage, k: nat, machine: Machine)
    returns (r: Result<bool, DiskError>)
    modifies fs, prompter
    ensures prompter.yesNoResponses == old(prompter.yesNoResponses)
    ensures StageNoAlias(s) ==>
      var run := StageStep(s, k, World(old(fs.files), old(prompter.messages), old(prompter.callbackCalls)),
                           old(prompter.yesNoResponses), machine);
      && r == run.result && fs.files == run.world.files
      && prompter.messages == run.world.messages && prompter.callbackCalls == run.world.callbackCalls
  {
    var image := s.floppy.destinationFloppyImage;
    ghost var w := World(fs.files, prompter.messages, prompter.callbackCalls);
    ghost var responses := prompter.yesNoResponses;
    ghost var spec := StageBuilt(s, w);
    ghost var announced := w.messages + [s.announcement];
    prompter.Report(s.announcement);
    var built := CreateBootableOsFloppy(fs, s.floppy);
    assert StageNoAlias(s) ==> built == spec.result && fs.files == spec.files;
    if built.Failure? {
      return Failure(built.error);
    }
    if s.runInstruction.Some? {
      prompter.Report(s.runInstruction.value);
    }
    var succeeded := prompter.PromptYesNo(s.question);
    ghost var asked := announced + (if s.runInstruction.Some? then [s.runInstruction.value] else []) + [s.question];
    assert prompter.messages == asked;
    // while the question is open the user runs the image in the virtual machine
    RunVirtualMachine(fs, image, k, machine);
    assert StageNoAlias(s) ==> fs.files == BootImage(spec.files, image, k, machine);
    if !succeeded {
      prompter.ReportError(ExitingEarly);
      return Success(false);
    }
    if s.extractTo.Some? {
      // the build left the image in place, so the extraction cannot fail
      var _ := ExtractAndTrimCompiledFile(fs, image, s.extractTo.value, s.floppy.sectorMap);
    }
    r := Success(true);
  }

  /** The answers of an earlier part of the run put in front of a later run. */
  function AfterEarlier(earlier: seq<bool>, run: Run): Run {
    Run(run.result, run.world, earlier + run.answers)
  }

  /** Running the stages from `k` is running stage `k`, then the rest if it says go on. */
  lemma RunStagesUnfold(stages: seq<Stage>, k: nat, w: World, runner: StageRunner)
    requires k < |stages|
    ensures var step := runner(stages[k], k, w);
            RunStages(stages, k, w, runner) ==
              if step.result != Success(true) then step
              else AfterEarlier(step.answers, RunStages(stages, k + 1, step.world, runner))
  {
  }

  /**
   * A run that has reached stage `k` ends with stage `k`'s step when that step does not say
   * go on, and otherwise carries on from stage `k + 1` with the step's answers added.
   */
  lemma RunStagesAdvance(stages: seq<Stage>, k: nat, w: World, runner: StageRunner, answers: seq<bool>, spec: Run)
    requires k < |stages|
    requires spec == AfterEarlier(answers, RunStages(stages, k, w, runner))
    ensures var step := runner(stages[k], k, w);
            && (step.result != Success(true) ==> spec.result == step.result && spec.world == step.world)
            && (step.result == Success(true) ==>
                  spec == AfterEarlier(answers + step.answers, RunStages(stages, k + 1, step.world, runner)))
  {
    var step := runner(stages[k], k, w);
    RunStagesUnfold(stages, k, w, runner);
    if step.result == Success(true) {
      var rest := RunStages(stages, k + 1, step.world, runner);
      assert answers + (step.answers + rest.answers) == (answers + step.answers) + rest.answers;
    }
  }

  /** `compileOs`: the stages in order, returning at the first "no" or failure. */
  method CompileOs(fs: FileSystem, prompter: VirtualPrompter, options: CompileOsOptions, machine: Machine)
    returns (r: Result<bool, DiskError>)
    modifies fs, prompter
    ensures Distinct(options) ==>
      var run := CompileOsSpec(options, World(old(fs.files), old(prompter.messages), old(prompter.callbackCalls)),
                               old(prompter.yesNoResponses), machine);
      r == run.result && World(fs.files, prompter.messages, prompter.callbackCalls) == run.world
  {
    var stages := Stages(options);
    ghost var responses := prompter.yesNoResponses;
    ghost var runner := Runner(responses, machine);
    ghost var w0 := World(fs.files, prompter.messages, prompter.callbackCalls);
    ghost var spec := RunStages(stages, 0, w0, runner);
    assert spec == CompileOsSpec(options, w0, responses, machine);
    ghost var answers: seq<bool> := [];
    if Distinct(options) {
      DistinctStages(options);
    }
    var k := 0;
    while k < |stages|
      invariant k <= |stages|
      invariant prompter.yesNoResponses == responses
      invariant Distinct(options) ==>
        spec == AfterEarlier(answers, RunStages(stages, k, World(fs.files, prompter.messages, prompter.callbackCalls), runner))
    {
      ghost var w := World(fs.files, prompter.messages, prompter.callbackCalls);
      ghost var step := runner(stages[k], k, w);
      assert step == StageStep(stages[k], k, w, responses, machine);
      if Distinct(options) {
        RunStagesAdvance(stages, k, w, runner, answers, spec);
      }
      var outcome := CompileStage(fs, prompter, stages[k], k, machine);
      if outcome != Success(true) {
        return outcome;
      }
      answers := answers + step.answers;
      k := k + 1;
    }
    r := Success(true);
  }

  // ---------------------------------------------------------------------------
  // Properties
  // ---------------------------------------------------------------------------

  /**
   * What every stage run shows: at most one answer, a yes when the stage says go on, and a
   * no exactly when it returns false, after which "Exiting early" is the last message.
   */
  predicate StepShape(r: Run) {
    && |r.answers| <= 1
    && (r.result == Success(false) <==> r.answers == [false])
    && (r.result == Success(true) ==> r.answers == [true])
    && (r.result == Success(false) ==> ExitedEarly(r))
  }

  ghost predicate Shaped(runner: StageRunner) {
    forall s, k, w :: StepShape(runner(s, k, w))
  }

  /** Every answer a runner gives is `b`. */
  ghost predicate AnswersAlways(runner: StageRunner, b: bool) {
    forall s, k, w :: runner(s, k, w).answers == [] || runner(s, k, w).answers == [b]
  }

  /** The stages of `compileOs` have the shape of a stage run. */
  lemma RunnerShaped(responses: YesNoResponses, machine: Machine)
    ensures Shaped(Runner(responses, machine))
  {
    forall s, k, w ensures StepShape(Runner(responses, machine)(s, k, w)) {
      var r := StageStep(s, k, w, responses, machine);
      assert Runner(responses, machine)(s, k, w) == r;
    }
  }

  /** A prompter configured with a boolean gives that boolean as every answer. */
  lemma RunnerAnswersCanned(b: bool, machine: Machine)
    ensures AnswersAlways(Runner(Always(b), machine), b)
  {
    forall s, k, w ensures Runner(Always(b), machine)(s, k, w).answers in {[], [b]} {
      var r := StageStep(s, k, w, Always(b), machine);
      assert Runner(Always(b), machine)(s, k, w) == r;
    }
  }

  /**
   * Answers in a run: there is at most one per remaining stage, every answer but the last is
   * yes, going through means every remaining stage was answered yes, and a failure comes after
   * yes answers only.
   */
  lemma {:induction false} RunStagesAnswers(stages: seq<Stage>, k: nat, w: World, runner: StageRunner)
    requires k <= |stages| && Shaped(runner)
    ensures var run := RunStages(stages, k, w, runner);
            && |run.answers| <= |stages| - k
            && (forall i :: 0 <= i < |run.answers| - 1 ==> run.answers[i])
            && (run.result == Success(true) ==>
                  |run.answers| == |stages| - k && forall i :: 0 <= i < |run.answers| ==> run.answers[i])
            && (run.result != Success(false) ==> forall i :: 0 <= i < |run.answers| ==> run.answers[i])
    decreases |stages| - k
  {
    if k < |stages| {
      var step := runner(stages[k], k, w);
      assert StepShape(step);
      if step.result == Success(true) {
        RunStagesAnswers(stages, k + 1, step.world, runner);
      }
    }
  }

  /** A run that returns false stopped at a no: its last answer, after which "Exiting early" was reported last. */
  lemma {:induction false} RunStagesStopsAtNo(stages: seq<Stage>, k: nat, w: World, runner: StageRunner)
    requires k <= |stages| && Shaped(runner)
    ensures var run := RunStages(stages, k, w, runner);
            run.result == Success(false) ==>
              && |run.answers| > 0 && !run.answers[|run.answers| - 1]
              && ExitedEarly(run)
    decreases |stages| - k
  {
    if k < |stages| {
      var step := runner(stages[k], k, w);
      assert StepShape(step);
      if step.result == Success(true) {
        RunStagesStopsAtNo(stages, k + 1, step.world, runner);
      }
    }
  }

  /** With a runner that always answers `b`, every answer in a run is `b`. */
  lemma {:induction false} RunStagesCannedAnswers(stages: seq<Stage>, k: nat, w: World, runner: StageRunner, b: bool)
    requires k <= |stages| && AnswersAlways(runner, b)
    ensures forall i :: 0 <= i < |RunStages(stages, k, w, runner).answers| ==> RunStages(stages, k, w, runner).answers[i] == b
    decreases |stages| - k
  {
    if k < |stages| {
      var step := runner(stages[k], k, w);
      assert step.answers == [] || step.answers == [b];
      if step.result == Success(true) {
        var rest := RunStages(stages, k + 1, step.world, runner);
        RunStagesCannedAnswers(stages, k + 1, step.world, runner, b);
        var answers := RunStages(stages, k, w, runner).answers;
        assert answers == step.answers + rest.answers;
        forall i | 0 <= i < |answers| ensures answers[i] == b {
          if i < |step.answers| {
            assert step.answers == [b];
            assert answers[i] == step.answers[i];
          } else {
            assert answers[i] == rest.answers[i - |step.answers|];
            assert rest.answers[i - |step.answers|] == b;
          }
        }
      }
    }
  }

  /** `compileOs` returns true only when all four questions were answered yes. */
  lemma CompileOsTrueMeansAllYes(o: CompileOsOptions, w: World, responses: YesNoResponses, machine: Machine)
    ensures var run := CompileOsSpec(o, w, responses, machine);
            run.result == Success(true) ==> |run.answers| == 4 && forall i :: 0 <= i < 4 ==> run.answers[i]
  {
    var run := CompileOsSpec(o, w, responses, machine);
    assert run == RunStages(Stages(o), 0, w, Runner(responses, machine));
    RunnerShaped(responses, machine);
    RunStagesAnswers(Stages(o), 0, w, Runner(responses, machine));
  }

  /** `compileOs` returns false exactly when some question was answered no. */
  lemma CompileOsFalseIffSomeNo(o: CompileOsOptions, w: World, responses: YesNoResponses, machine: Machine)
    ensures var run := CompileOsSpec(o, w, responses, machine);
            run.result == Success(false) <==> exists i :: 0 <= i < |run.answers| && !run.answers[i]
  {
    var run := CompileOsSpec(o, w, responses, machine);
    assert run == RunStages(Stages(o), 0, w, Runner(responses, machine));
    RunnerShaped(responses, machine);
    RunStagesAnswers(Stages(o), 0, w, Runner(responses, machine));
    RunStagesStopsAtNo(Stages(o), 0, w, Runner(responses, machine));
    if run.result == Success(false) {
      assert !run.answers[|run.answers| - 1];
    }
  }

  /** When `compileOs` returns false, the no was the last answer and "Exiting early" the last message. */
  lemma CompileOsExitsEarlyAtNo(o: CompileOsOptions, w: World, responses: YesNoResponses, machine: Machine)
    ensures var run := CompileOsSpec(o, w, responses, machine);
            run.result == Success(false) ==>
              && |run.answers| > 0 && !run.answers[|run.answers| - 1]
              && (forall i :: 0 <= i < |run.answers| - 1 ==> run.answers[i])
              && ExitedEarly(run)
  {
    var run := CompileOsSpec(o, w, responses, machine);
    assert run == RunStages(Stages(o), 0, w, Runner(responses, machine));
    RunnerShaped(responses, machine);
    RunStagesAnswers(Stages(o), 0, w, Runner(responses, machine));
    RunStagesStopsAtNo(Stages(o), 0, w, Runner(responses, machine));
  }

  /** A prompter that always answers yes never makes `compileOs` return false. */
  lemma AlwaysYesNeverExitsEarly(o: CompileOsOptions, w: World, machine: Machine)
    ensures var run := CompileOsSpec(o, w, Always(true), machine);
            run.result.Success? ==> run.result.value && |run.answers| == 4
  {
    var run := CompileOsSpec(o, w, Always(true), machine);
    assert run == RunStages(Stages(o), 0, w, Runner(Always(true), machine));
    RunnerShaped(Always(true), machine);
    RunnerAnswersCanned(true, machine);
    RunStagesAnswers(Stages(o), 0, w, Runner(Always(true), machine));
    RunStagesStopsAtNo(Stages(o), 0, w, Runner(Always(true), machine));
    RunStagesCannedAnswers(Stages(o), 0, w, Runner(Always(true), machine), true);
  }

  /** A prompter that always answers no stops `compileOs` at the first question. */
  lemma AlwaysNoStopsAtFirstQuestion(o: CompileOsOptions, w: World, machine: Machine)
    ensures var run := CompileOsSpec(o, w, Always(false), machine);
            run.result.Success? ==> run.result == Success(false) && run.answers == [false]
  {
    var run := CompileOsSpec(o, w, Always(false), machine);
    assert run == RunStages(Stages(o), 0, w, Runner(Always(false), machine));
    RunnerShaped(Always(false), machine);
    RunnerAnswersCanned(false, machine);
    RunStagesAnswers(Stages(o), 0, w, Runner(Always(false), machine));
    RunStagesCannedAnswers(Stages(o), 0, w, Runner(Always(false), machine), false);
  }

  /** A stage answered no leaves the files as the build and the machine run left them: nothing is extracted. */
  lemma StageStepNoExtractsNothing(s: Stage, k: nat, w: World, responses: YesNoResponses, machine: Machine)
    ensures var run := StageStep(s, k, w, responses, machine);
            run.result == Success(false) ==>
              run.world.files == BootImage(CreateBootableOsFloppySpec(w.files, s.floppy).files,
                                           s.floppy.destinationFloppyImage, k, machine)
  {
  }

  /**
   * Stages `k` up to `j` run on a prefix of the stages that ends at `j` go through: running
   * the prefix from `k` is stage `k`'s step followed by the prefix from `k + 1`.
   */
  lemma RunPrefixUnfold(stages: seq<Stage>, k: nat, j: nat, w: World, runner: StageRunner)
    requires k < j <= |stages|
    ensures var step := runner(stages[k], k, w);
            RunStages(stages[..j], k, w, runner) ==
              if step.result != Success(true) then step
              else AfterEarlier(step.answers, RunStages(stages[..j], k + 1, step.world, runner))
  {
    assert stages[..j][k] == stages[k];
  }

  /**
   * A run that does not go through ends inside one stage `j`: stages `k` to `j - 1` each went
   * through with one answer, and the run is stage `j` run from the world they left, with
   * their answers in front. No stage after `j` runs.
   */
  lemma {:induction false} RunStagesStopsInOneStage(stages: seq<Stage>, k: nat, w: World, runner: StageRunner)
    requires k <= |stages| && Shaped(runner)
    ensures var run := RunStages(stages, k, w, runner);
            run.result != Success(true) ==>
              exists j: nat :: k <= j < |stages|
                && RunStages(stages[..j], k, w, runner).result == Success(true)
                && |RunStages(stages[..j], k, w, runner).answers| == j - k
                && run == AfterEarlier(RunStages(stages[..j], k, w, runner).answers,
                                       runner(stages[j], j, RunStages(stages[..j], k, w, runner).world))
    decreases |stages| - k
  {
    var run := RunStages(stages, k, w, runner);
    if k < |stages| && run.result != Success(true) {
      var step := runner(stages[k], k, w);
      assert StepShape(step);
      if step.result != Success(true) {
        assert RunStages(stages[..k], k, w, runner) == Run(Success(true), w, []);
        assert run == AfterEarlier([], step);
      } else {
        RunStagesStopsInOneStage(stages, k + 1, step.world, runner);
        var j: nat :| k + 1 <= j < |stages|
                      && RunStages(stages[..j], k + 1, step.world, runner).result == Success(true)
                      && |RunStages(stages[..j], k + 1, step.world, runner).answers| == j - (k + 1)
                      && RunStages(stages, k + 1, step.world, runner)
                           == AfterEarlier(RunStages(stages[..j], k + 1, step.world, runner).answers,
                                           runner(stages[j], j, RunStages(stages[..j], k + 1, step.world, runner).world));
        StopsOneStageLater(stages, k, j, w, runner);
      }
    }
  }

  /** If the run from `k + 1` ends in stage `j`, so does the run from `k` when stage `k` goes through with one answer. */
  lemma StopsOneStageLater(stages: seq<Stage>, k: nat, j: nat, w: World, runner: StageRunner)
    requires k < j < |stages|
    requires runner(stages[k], k, w).result == Success(true) && |runner(stages[k], k, w).answers| == 1
    requires var next := runner(stages[k], k, w).world;
             var pre := RunStages(stages[..j], k + 1, next, runner);
             && pre.result == Success(true) && |pre.answers| == j - (k + 1)
             && RunStages(stages, k + 1, next, runner) == AfterEarlier(pre.answers, runner(stages[j], j, pre.world))
    ensures var pre := RunStages(stages[..j], k, w, runner);
            && pre.result == Success(true) && |pre.answers| == j - k
            && RunStages(stages, k, w, runner) == AfterEarlier(pre.answers, runner(stages[j], j, pre.world))
  {
    var step := runner(stages[k], k, w);
    var pre' := RunStages(stages[..j], k + 1, step.world, runner);
    var last := runner(stages[j], j, pre'.world);
    RunPrefixUnfold(stages, k, j, w, runner);
    RunStagesUnfold(stages, k, w, runner);
    assert step.answers + (pre'.answers + last.answers) == (step.answers + pre'.answers) + last.answers;
  }

  /**
   * When `compileOs` returns false, the files are those left by the stage answered no,
   * stage `j`: every stage before it went through, and from the world they left, stage `j`
   * built its floppy and the machine ran it, with no extraction and no later build.
   */
  lemma CompileOsNoLeavesStageFiles(o: CompileOsOptions, w: World, responses: YesNoResponses, machine: Machine)
    ensures var run := CompileOsSpec(o, w, responses, machine);
            run.result == Success(false) ==>
              exists j: nat :: 0 <= j < 4 && j == |run.answers| - 1
                && RunStages(Stages(o)[..j], 0, w, Runner(responses, machine)).result == Success(true)
                && run.world.files
                     == BootImage(CreateBootableOsFloppySpec(RunStages(Stages(o)[..j], 0, w, Runner(responses, machine)).world.files,
                                                             Stages(o)[j].floppy).files,
                                  o.destinationFloppyImage, j, machine)
  {
    var run := CompileOsSpec(o, w, responses, machine);
    var runner := Runner(responses, machine);
    assert run == RunStages(Stages(o), 0, w, runner);
    RunnerShaped(responses, machine);
    RunStagesStopsInOneStage(Stages(o), 0, w, runner);
    if run.result == Success(false) {
      var j: nat :| 0 <= j < 4
                    && RunStages(Stages(o)[..j], 0, w, runner).result == Success(true)
                    && |RunStages(Stages(o)[..j], 0, w, runner).answers| == j
                    && run == AfterEarlier(RunStages(Stages(o)[..j], 0, w, runner).answers,
                                           runner(Stages(o)[j], j, RunStages(Stages(o)[..j], 0, w, runner).world));
      var v := RunStages(Stages(o)[..j], 0, w, runner).world;
      var step := StageStep(Stages(o)[j], j, v, responses, machine);
      assert runner(Stages(o)[j], j, v) == step;
      StageStepNoExtractsNothing(Stages(o)[j], j, v, responses, machine);
      StagesFeedForward(o);
    }
  }

  // ---------------------------------------------------------------------------
  // What the stages leave on disk
  // ---------------------------------------------------------------------------

  /**
   * Every image a stage builds, the last one (booted for the tests) included, is 1.44 MB and
   * has a blank assembled-file section: nothing stale is left for the machine to find.
   */
  lemma BuiltImageOutputSectionBlank(o: CompileOsOptions, k: nat, files: Files)
    requires k < 4 && Distinct(o) && WellFormed(o.sectorMap.GetOr(DefaultSectorMap))
    requires CreateBootableOsFloppySpec(files, Stages(o)[k].floppy).result.Success?
    ensures var built := CreateBootableOsFloppySpec(files, Stages(o)[k].floppy);
            && o.destinationFloppyImage in built.files
            && |built.files[o.destinationFloppyImage]| == FloppySize
            && var img := built.files[o.destinationFloppyImage];
               forall i :: 0 <= i < |img| && InRange(i, o.sectorMap.GetOr(DefaultSectorMap).assembledFileSector) ==> img[i] == 0
  {
    var f := Stages(o)[k].floppy;
    DistinctStages(o);
    StagesFeedForward(o);
    CreateBootableOsFloppySucceedsIff(files, f);
    CreateBootableOsFloppyLayout(files, f);
  }

  /**
   * A compile stage answered yes leaves its binary holding the assembled-file section of the
   * image as the machine left it, trimmed; a longer old binary keeps its tail behind it. No
   * other file changes after the machine run.
   */
  lemma StageExtractsAssembledSection(o: CompileOsOptions, k: nat, w: World, responses: YesNoResponses, machine: Machine)
    requires k < 3 && Distinct(o)
    requires o.sectorMap.GetOr(DefaultSectorMap).assembledFileSector.sectorCount > 0
    requires var s := Stages(o)[k];
             var built := CreateBootableOsFloppySpec(w.files, s.floppy);
             && built.result.Success? && Answer(responses, s.question, w.callbackCalls)
             && o.destinationFloppyImage in built.files
             && o.sectorMap.GetOr(DefaultSectorMap).assembledFileSector.EndAddress()
                  <= |machine(k, built.files[o.destinationFloppyImage])|
    ensures var s := Stages(o)[k];
            var image := o.destinationFloppyImage;
            var built := CreateBootableOsFloppySpec(w.files, s.floppy);
            var r := o.sectorMap.GetOr(DefaultSectorMap).assembledFileSector;
            var section := machine(k, built.files[image])[r.StartAddress()..r.EndAddress()];
            var bin := s.extractTo.GetOr(image);
            var staleTail := if bin in w.files && |w.files[bin]| > r.TotalBytes() then w.files[bin][r.TotalBytes()..] else [];
            var run := StageStep(s, k, w, responses, machine);
            && run.result == Success(true)
            && run.world.files == BootImage(built.files, image, k, machine)[bin := TrimAligned(section + staleTail)]
  {
    var s := Stages(o)[k];
    var image := o.destinationFloppyImage;
    var m := o.sectorMap.GetOr(DefaultSectorMap);
    DistinctStages(o);
    StagesFeedForward(o);
    assert s.extractTo.Some?;
    var bin := s.extractTo.value;
    var built := CreateBootableOsFloppySpec(w.files, s.floppy);
    CreateBootableOsFloppySucceedsIff(w.files, s.floppy);
    var ran := BootImage(built.files, image, k, machine);
    assert bin in ran <==> bin in w.files;
    assert bin in w.files ==> ran[bin] == w.files[bin];
    ExtractedBinary(ran, image, bin, m);
  }

  /**
   * The binary a compile stage extracts is what the next stage's image carries at the start
   * of its section: the bootloader in the boot sector, the kernel in the kernel section, the
   * kernel tests in the assembler section.
   */
  lemma StageFeedsNextImage(o: CompileOsOptions, k: nat, w: World, responses: YesNoResponses, machine: Machine)
    requires k < 3 && Distinct(o) && WellFormed(o.sectorMap.GetOr(DefaultSectorMap))
    requires StageStep(Stages(o)[k], k, w, responses, machine).result == Success(true)
    requires CreateBootableOsFloppySpec(StageStep(Stages(o)[k], k, w, responses, machine).world.files,
                                        Stages(o)[k + 1].floppy).result.Success?
    ensures var after := StageStep(Stages(o)[k], k, w, responses, machine).world.files;
            var bin := Stages(o)[k].extractTo.GetOr(o.destinationFloppyImage);
            var next := CreateBootableOsFloppySpec(after, Stages(o)[k + 1].floppy);
            && bin in after && o.destinationFloppyImage in next.files
            && Placed(next.files[o.destinationFloppyImage], after[bin],
                      o.sectorMap.GetOr(DefaultSectorMap).Ranges()[k].StartAddress())
  {
    var after := StageStep(Stages(o)[k], k, w, responses, machine).world.files;
    var f := Stages(o)[k + 1].floppy;
    DistinctStages(o);
    StagesFeedForward(o);
    assert Stages(o)[k].extractTo == Some(Parts(f)[k].file);
    CreateBootableOsFloppySucceedsIff(after, f);
    CreateBootableOsFloppyLayout(after, f);
  }
}
