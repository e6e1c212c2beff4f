/**
 * Scanning the job-definition files for image tags that are not release tags.
 *
 * Reading a job-definition file, parsing it and asking the decoder for each job's
 * image are taken as one given function, `jobsOf`: for a file name as listed in
 * a manifest it yields the file's jobs in mapping order, each as its name and the
 * tag the decoder returns for it. Files are visited in list order and jobs in
 * mapping order; the first tag that fails the release-tag pattern ends the scan.
 */
module JobScan {
  import opened TagRule

  /** One entry of a job-definition file's `jobs` mapping, reduced to its name and image tag. */
  datatype Job = Job(name: string, tag: string)

  datatype ScanResult =
    | AllTagsValid
    | InvalidTag(file: string, job: string, tag: string)

  /** The scan of one file's jobs: the first job whose tag fails the pattern, if any. */
  function ScanJobs(file: string, jobs: seq<Job>): ScanResult {
    if |jobs| == 0 then AllTagsValid
    else if !MatchesTagPattern(jobs[0].tag) then InvalidTag(file, jobs[0].name, jobs[0].tag)
    else ScanJobs(file, jobs[1..])
  }

  /** The scan of the files in order, stopping at the first file that has an invalid tag. */
  function Scan(files: seq<string>, jobsOf: string -> seq<Job>): ScanResult {
    if |files| == 0 then AllTagsValid
    else
      match ScanJobs(files[0], jobsOf(files[0]))
      case AllTagsValid => Scan(files[1..], jobsOf)
      case failure => failure
  }

  /** Every job of every listed file has a tag that matches the pattern. */
  predicate AllJobTagsValid(files: seq<string>, jobsOf: string -> seq<Job>) {
    forall i, k :: 0 <= i < |files| && 0 <= k < |jobsOf(files[i])| ==>
      MatchesTagPattern(jobsOf(files[i])[k].tag)
  }

  /** Job `k` of file `i` is the first job, in file-then-job order, whose tag fails the pattern. */
  predicate FirstInvalidAt(files: seq<string>, jobsOf: string -> seq<Job>, i: nat, k: nat) {
    i < |files| && k < |jobsOf(files[i])| &&
    !MatchesTagPattern(jobsOf(files[i])[k].tag) &&
    AllJobTagsValid(files[..i], jobsOf) &&
    forall m :: 0 <= m < k ==> MatchesTagPattern(jobsOf(files[i])[m].tag)
  }

  /**
   * The nested loops over job-definition files and their jobs; the first invalid
   * tag returns at once (where the source exits the process).
   */
  method ScanJobDefinitions(files: seq<string>, jobsOf: string -> seq<Job>) returns (r: ScanResult)
    ensures r == Scan(files, jobsOf)
  {
    for i := 0 to |files|
      invariant Scan(files, jobsOf) == Scan(files[i..], jobsOf)
    {
      var file := files[i];
      var jobs := jobsOf(file);
      assert files[i..][1..] == files[i + 1..];
      for k := 0 to |jobs|
        invariant ScanJobs(file, jobs) == ScanJobs(file, jobs[k..])
      {
        assert jobs[k..][1..] == jobs[k + 1..];
        var ok := MatchesTagPattern(jobs[k].tag);
        if !ok {
          return InvalidTag(file, jobs[k].name, jobs[k].tag);
        }
      }
    }
    r := AllTagsValid;
  }

  // ---------------------------------------------------------------------------
  // Properties of the scan

  /** A file's scan passes exactly when every job's tag matches. */
  lemma {:induction false} ScanJobsPassesIffAllValid(file: string, jobs: seq<Job>)
    ensures ScanJobs(file, jobs) == AllTagsValid <==>
            forall k :: 0 <= k < |jobs| ==> MatchesTagPattern(jobs[k].tag)
  {
    if |jobs| > 0 {
      ScanJobsPassesIffAllValid(file, jobs[1..]);
      assert forall k :: 1 <= k < |jobs| ==> jobs[k] == jobs[1..][k - 1];
    }
  }

  /** The scan passes exactly when every job of every listed file has a valid tag. */
  lemma {:induction false} ScanPassesIffAllValid(files: seq<string>, jobsOf: string -> seq<Job>)
    ensures Scan(files, jobsOf) == AllTagsValid <==> AllJobTagsValid(files, jobsOf)
  {
    if |files| > 0 {
      ScanJobsPassesIffAllValid(files[0], jobsOf(files[0]));
      ScanPassesIffAllValid(files[1..], jobsOf);
      assert forall i :: 1 <= i < |files| ==> files[i] == files[1..][i - 1];
      assert AllJobTagsValid(files, jobsOf) <==>
             (forall k :: 0 <= k < |jobsOf(files[0])| ==> MatchesTagPattern(jobsOf(files[0])[k].tag)) &&
             AllJobTagsValid(files[1..], jobsOf);
    }
  }

  /** In one file, the first job with an invalid tag is the one reported. */
  lemma {:induction false} ScanJobsReportsFirstInvalid(file: string, jobs: seq<Job>, k: nat)
    requires k < |jobs| && !MatchesTagPattern(jobs[k].tag)
    requires forall m :: 0 <= m < k ==> MatchesTagPattern(jobs[m].tag)
    ensures ScanJobs(file, jobs) == InvalidTag(file, jobs[k].name, jobs[k].tag)
  {
    if k > 0 {
      ScanJobsReportsFirstInvalid(file, jobs[1..], k - 1);
    }
  }

  /**
   * Files in list order, jobs in mapping order: the first invalid tag in that order
   * is reported, with its file and job.
   */
  lemma {:induction false} ScanReportsFirstInvalid(files: seq<string>, jobsOf: string -> seq<Job>, i: nat, k: nat)
    requires i < |files| && k < |jobsOf(files[i])|
    requires !MatchesTagPattern(jobsOf(files[i])[k].tag)
    requires AllJobTagsValid(files[..i], jobsOf)
    requires forall m :: 0 <= m < k ==> MatchesTagPattern(jobsOf(files[i])[m].tag)
    ensures Scan(files, jobsOf) ==
            InvalidTag(files[i], jobsOf(files[i])[k].name, jobsOf(files[i])[k].tag)
  {
    if i == 0 {
      ScanJobsReportsFirstInvalid(files[0], jobsOf(files[0]), k);
    } else {
      assert files[0] == files[..i][0];
      ScanJobsPassesIffAllValid(files[0], jobsOf(files[0]));
      assert files[1..][..i - 1] == files[..i][1..];
      ScanReportsFirstInvalid(files[1..], jobsOf, i - 1, k);
    }
  }

  /** Once an invalid tag is found, later jobs of the same file are never looked at. */
  lemma {:induction false} ScanJobsIgnoresLater(file: string, jobs: seq<Job>, later: seq<Job>)
    requires ScanJobs(file, jobs).InvalidTag?
    ensures ScanJobs(file, jobs + later) == ScanJobs(file, jobs)
  {
    assert (jobs + later)[0] == jobs[0];
    if MatchesTagPattern(jobs[0].tag) {
      assert (jobs + later)[1..] == jobs[1..] + later;
      ScanJobsIgnoresLater(file, jobs[1..], later);
    }
  }

  /** Once an invalid tag is found, later files are never opened. */
  lemma {:induction false} ScanIgnoresLater(files: seq<string>, later: seq<string>, jobsOf: string -> seq<Job>)
    requires Scan(files, jobsOf).InvalidTag?
    ensures Scan(files + later, jobsOf) == Scan(files, jobsOf)
  {
    assert (files + later)[0] == files[0];
    if ScanJobs(files[0], jobsOf(files[0])).AllTagsValid? {
      assert (files + later)[1..] == files[1..] + later;
      ScanIgnoresLater(files[1..], later, jobsOf);
    }
  }

  /** Only the listed files are read: two readers that agree on them give the same scan. */
  lemma {:induction false} ScanReadsOnlyListed(files: seq<string>, jobsOf: string -> seq<Job>, jobsOf': string -> seq<Job>)
    requires forall i :: 0 <= i < |files| ==> jobsOf(files[i]) == jobsOf'(files[i])
    ensures Scan(files, jobsOf) == Scan(files, jobsOf')
  {
    if |files| > 0 {
      assert forall i :: 0 <= i < |files| - 1 ==> files[1..][i] == files[i + 1];
      ScanReadsOnlyListed(files[1..], jobsOf, jobsOf');
    }
  }

  /** Every job in `jobs` has a tag that matches the pattern. */
  predicate JobsValid(jobs: seq<Job>) {
    forall m :: 0 <= m < |jobs| ==> MatchesTagPattern(jobs[m].tag)
  }

  /** A file with an invalid tag has a first job, in mapping order, whose tag fails. */
  lemma FirstInvalidJob(jobs: seq<Job>) returns (k: nat)
    requires !JobsValid(jobs)
    ensures k < |jobs| && !MatchesTagPattern(jobs[k].tag)
    ensures forall m :: 0 <= m < k ==> MatchesTagPattern(jobs[m].tag)
  {
    k := 0;
    while MatchesTagPattern(jobs[k].tag)
      invariant k < |jobs|
      invariant forall m :: 0 <= m < k ==> MatchesTagPattern(jobs[m].tag)
      decreases |jobs| - k
    {
      k := k + 1;
    }
  }

  /** When some listed file has an invalid tag, there is a first such file in list order. */
  lemma FirstInvalidFile(files: seq<string>, jobsOf: string -> seq<Job>) returns (i: nat)
    requires exists p :: 0 <= p < |files| && !JobsValid(jobsOf(files[p]))
    ensures i < |files| && !JobsValid(jobsOf(files[i]))
    ensures forall f :: 0 <= f < i ==> JobsValid(jobsOf(files[f]))
  {
    i := 0;
    while JobsValid(jobsOf(files[i]))
      invariant i < |files|
      invariant forall f :: 0 <= f < i ==> JobsValid(jobsOf(files[f]))
      decreases |files| - i
    {
      i := i + 1;
    }
  }

  /** When some listed job has an invalid tag, there is a first one in file-then-job order. */
  lemma FirstInvalid(files: seq<string>, jobsOf: string -> seq<Job>) returns (i: nat, k: nat)
    requires !AllJobTagsValid(files, jobsOf)
    ensures FirstInvalidAt(files, jobsOf, i, k)
  {
    var p: nat, q: nat :| p < |files| && q < |jobsOf(files[p])| && !MatchesTagPattern(jobsOf(files[p])[q].tag);
    assert !JobsValid(jobsOf(files[p]));
    i := FirstInvalidFile(files, jobsOf);
    k := FirstInvalidJob(jobsOf(files[i]));
    assert forall f :: 0 <= f < i ==> files[..i][f] == files[f];
  }

  /**
   * A reported invalid tag is the first failing job of a listed file, in
   * file-then-job order, with that file, job name and tag.
   */
  lemma ScanReportIsFirst(files: seq<string>, jobsOf: string -> seq<Job>)
    requires Scan(files, jobsOf).InvalidTag?
    ensures exists i: nat, k: nat :: FirstInvalidAt(files, jobsOf, i, k) &&
              Scan(files, jobsOf) ==
              InvalidTag(files[i], jobsOf(files[i])[k].name, jobsOf(files[i])[k].tag)
  {
    ScanPassesIffAllValid(files, jobsOf);
    var i, k := FirstInvalid(files, jobsOf);
    ScanReportsFirstInvalid(files, jobsOf, i, k);
  }
}
