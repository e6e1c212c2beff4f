/**
 * The whole check: gather the job-definition files from the manifests, then scan
 * their jobs' image tags.
 *
 * The process exits of the source become outcomes: a manifest without
 * `job-definition-files` ends the run before any job-definition file is read, the
 * first invalid tag ends it with that tag, and otherwise the run passes (an empty
 * list of job-definition files included).
 */
module Checker {
  import opened Wrappers
  import opened TagRule
  import opened Manifests
  import opened JobScan

  datatype Outcome =
    | MissingKey(manifest: string)
    | InvalidImageTag(file: string, job: string, tag: string)
    | Passed

  /** What a run over these manifests and job files ends with. */
  function Run(ms: seq<Manifest>, jobsOf: string -> seq<Job>): Outcome {
    match Resolve(ms)
    case MissingJobDefinitionFiles(p) => MissingKey(p)
    case JobDefinitionFiles(files) =>
      match Scan(files, jobsOf)
      case AllTagsValid => Passed
      case InvalidTag(file, job, tag) => InvalidImageTag(file, job, tag)
  }

  /** `check()`: the manifest loop followed by the job-definition scan. */
  method Check(ms: seq<Manifest>, jobsOf: string -> seq<Job>) returns (outcome: Outcome)
    ensures outcome == Run(ms, jobsOf)
  {
    var resolution := CollectJobDefinitionFiles(ms);
    match resolution
    case MissingJobDefinitionFiles(p) =>
      outcome := MissingKey(p);
    case JobDefinitionFiles(files) =>
      var scan := ScanJobDefinitions(files, jobsOf);
      match scan
      case AllTagsValid =>
        outcome := Passed;
      case InvalidTag(file, job, tag) =>
        outcome := InvalidImageTag(file, job, tag);
  }

  /** The process exit status: 1 after a fatal manifest or an invalid tag, 0 when the run passes. */
  function ExitStatus(outcome: Outcome): (status: nat)
    ensures status == 0 <==> outcome.Passed?
    ensures status <= 1
  {
    if outcome.Passed? then 0 else 1
  }

  // ---------------------------------------------------------------------------
  // Properties of a run

  /** A run passes exactly when every manifest has the key and every listed job's tag matches. */
  lemma RunPassesIff(ms: seq<Manifest>, jobsOf: string -> seq<Job>)
    ensures Run(ms, jobsOf) == Passed <==>
            (forall i :: 0 <= i < |ms| ==> !Missing(ms[i])) &&
            AllJobTagsValid(AllJobDefinitionFiles(ms), jobsOf)
  {
    ResolveFailsIffSomeMissing(ms);
    if forall i :: 0 <= i < |ms| ==> !Missing(ms[i]) {
      ResolveAllPresent(ms);
      ScanPassesIffAllValid(AllJobDefinitionFiles(ms), jobsOf);
    }
  }

  /** The fatal error names the first manifest without the key, whatever the job files hold. */
  lemma RunStopsAtFirstMissing(ms: seq<Manifest>, jobsOf: string -> seq<Job>, i: nat)
    requires FirstMissingAt(ms, i)
    ensures Run(ms, jobsOf) == MissingKey(ms[i].path)
  {
    ResolveNamesFirstMissing(ms, i);
  }

  /** A run fails on a manifest exactly when some manifest lacks the key. */
  lemma RunFatalIff(ms: seq<Manifest>, jobsOf: string -> seq<Job>)
    ensures Run(ms, jobsOf).MissingKey? <==> exists i :: 0 <= i < |ms| && Missing(ms[i])
  {
    ResolveFailsIffSomeMissing(ms);
  }

  /**
   * When every manifest has the key, the run reports the first invalid tag in file
   * order then job order, naming the file as listed and the job.
   */
  lemma RunReportsFirstInvalidTag(ms: seq<Manifest>, jobsOf: string -> seq<Job>, i: nat, k: nat)
    requires forall j :: 0 <= j < |ms| ==> !Missing(ms[j])
    requires i < |AllJobDefinitionFiles(ms)|
    requires k < |jobsOf(AllJobDefinitionFiles(ms)[i])|
    requires !MatchesTagPattern(jobsOf(AllJobDefinitionFiles(ms)[i])[k].tag)
    requires AllJobTagsValid(AllJobDefinitionFiles(ms)[..i], jobsOf)
    requires forall m :: 0 <= m < k ==> MatchesTagPattern(jobsOf(AllJobDefinitionFiles(ms)[i])[m].tag)
    ensures var file := AllJobDefinitionFiles(ms)[i];
            Run(ms, jobsOf) == InvalidImageTag(file, jobsOf(file)[k].name, jobsOf(file)[k].tag)
  {
    ResolveAllPresent(ms);
    ScanReportsFirstInvalid(AllJobDefinitionFiles(ms), jobsOf, i, k);
  }

  /**
   * Conversely, a reported invalid tag comes after manifests that all have the key,
   * and it is the first failing job of a listed file in file-then-job order.
   */
  lemma RunReportIsFirst(ms: seq<Manifest>, jobsOf: string -> seq<Job>)
    requires Run(ms, jobsOf).InvalidImageTag?
    ensures forall j :: 0 <= j < |ms| ==> !Missing(ms[j])
    ensures var files := AllJobDefinitionFiles(ms);
            exists i: nat, k: nat :: FirstInvalidAt(files, jobsOf, i, k) &&
              Run(ms, jobsOf) ==
              InvalidImageTag(files[i], jobsOf(files[i])[k].name, jobsOf(files[i])[k].tag)
  {
    ResolveFailsIffSomeMissing(ms);
    ResolveAllPresent(ms);
    ScanReportIsFirst(AllJobDefinitionFiles(ms), jobsOf);
  }

  /** Manifests that list no job-definition files at all make a passing run. */
  lemma NoJobDefinitionFilesPasses(ms: seq<Manifest>, jobsOf: string -> seq<Job>)
    requires forall i :: 0 <= i < |ms| ==> ms[i].jobDefinitionFiles == Some([])
    ensures Run(ms, jobsOf) == Passed
  {
    ResolveAllPresent(ms);
    ConcatOfEmptyLists(DeclaredLists(ms));
  }

  lemma {:induction false} ConcatOfEmptyLists(lists: seq<seq<string>>)
    requires forall i :: 0 <= i < |lists| ==> lists[i] == []
    ensures Concat(lists) == []
  {
    if |lists| > 0 {
      ConcatOfEmptyLists(lists[1..]);
    }
  }

  /** A fatal manifest means no job-definition file is read: the job files cannot change the outcome. */
  lemma FatalReadsNoJobFile(ms: seq<Manifest>, jobsOf: string -> seq<Job>, jobsOf': string -> seq<Job>)
    requires exists i :: 0 <= i < |ms| && Missing(ms[i])
    ensures Run(ms, jobsOf) == Run(ms, jobsOf')
  {
    ResolveFailsIffSomeMissing(ms);
  }

  /** Only the files the manifests list are read: other files cannot change the outcome. */
  lemma RunReadsOnlyListedFiles(ms: seq<Manifest>, jobsOf: string -> seq<Job>, jobsOf': string -> seq<Job>)
    requires forall p :: p in AllJobDefinitionFiles(ms) ==> jobsOf(p) == jobsOf'(p)
    ensures Run(ms, jobsOf) == Run(ms, jobsOf')
  {
    if Resolve(ms).JobDefinitionFiles? {
      ResolveFailsIffSomeMissing(ms);
      ResolveAllPresent(ms);
      ScanReadsOnlyListed(AllJobDefinitionFiles(ms), jobsOf, jobsOf');
    }
  }
}
