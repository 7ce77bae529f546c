/** The transform-or-drop stages of the pipeline, taken sequentially: the
    filter that drops jobs whose inputs are missing, the diff task that
    passes every job on, and the loop that runs a task over a stream. */
module Pipeline {
  import opened Streams
  import opened Paths
  import opened Jobs

  /** What a status query reports about an existing path. */
  datatype FileInfo = FileInfo(isDir: bool)

  /** The file system as seen by status queries: a path is absent from the
      map exactly when querying it fails. */
  type FileSystem = map<Path, FileInfo>

  /** A path names an existing file that is not a directory: the status
      query fails in the first branch, reports a directory in the second. */
  predicate FileExists(fs: FileSystem, path: Path): (r: bool)
    ensures r <==> path in fs && !fs[path].isDir
  {
    if path !in fs then false
    else if fs[path].isDir then false
    else true
  }

  /** Keeps a job whose two input files both exist as non-directory files. */
  function FilterDiffJobs(fs: FileSystem, job: DiffJob): (r: Option<DiffJob>)
    ensures r == Some(job) <==>
      job.inFile1 in fs && !fs[job.inFile1].isDir && job.inFile2 in fs && !fs[job.inFile2].isDir
    ensures r != Some(job) ==> r == None
  {
    if !FileExists(fs, job.inFile1) || !FileExists(fs, job.inFile2) then None else Some(job)
  }

  /** The filter as a task value over the file system `fs`. */
  function FilterTask(fs: FileSystem): DiffJob -> Option<DiffJob>
  {
    job => FilterDiffJobs(fs, job)
  }

  /** The diff task. Its effect (running the worker of module `Worker` on
      the job) happens beside the stream; on the stream it hands the job on. */
  function DiffFiles(job: DiffJob): (r: Option<DiffJob>)
    ensures r == Some(job)
  {
    Some(job)
  }

  /** Runs `task` over `input`, emitting every present result in input order. */
  method PerformDiffJobTask(task: DiffJob -> Option<DiffJob>, input: seq<DiffJob>) returns (output: seq<DiffJob>)
    ensures output == FilterMap(task, input)
    ensures |output| <= |input|
  {
    output := [];
    for i := 0 to |input|
      invariant output == FilterMap(task, input[..i])
    {
      assert input[..i + 1][..i] == input[..i];
      var job := task(input[i]);
      if job.Some? {
        output := output + [job.value];
      }
    }
    assert input[..|input|] == input;
  }

  /** The diff stage emits its input unchanged. */
  lemma DiffStageIdentity(jobs: seq<DiffJob>)
    ensures FilterMap(DiffFiles, jobs) == jobs
  {
    FilterMapTotal(DiffFiles, jobs);
  }

  /** The filter stage emits the jobs whose inputs both exist, in input
      order, and nothing else. */
  lemma FilterStage(fs: FileSystem, jobs: seq<DiffJob>, job: DiffJob)
    ensures job in FilterMap(FilterTask(fs), jobs) <==>
      job in jobs && FileExists(fs, job.inFile1) && FileExists(fs, job.inFile2)
  {
    FilterMapMember(FilterTask(fs), jobs, job);
  }

  /** The whole sequential pipeline (job source, filter, diff stage) emits a
      job exactly for each ".png" entry of the first directory whose
      counterparts in both input directories exist. */
  lemma PipelineOutputs(fs: FileSystem, comparePath: Path, inDir1: Path, inDir2: Path, outDir: Path,
                        files: seq<string>, job: DiffJob)
    ensures var out := FilterMap(DiffFiles, FilterMap(FilterTask(fs), FilterMap(JobTask(comparePath, inDir1, inDir2, outDir), files)));
      job in out <==>
        exists i :: 0 <= i < |files| && Ext(files[i]) == ".png" &&
          FileExists(fs, Join(inDir1, files[i])) && FileExists(fs, Join(inDir2, files[i])) &&
          job == DiffJob(Join(inDir1, files[i]), Join(inDir2, files[i]), Join(outDir, files[i]), comparePath)
  {
    var generated := FilterMap(JobTask(comparePath, inDir1, inDir2, outDir), files);
    var filtered := FilterMap(FilterTask(fs), generated);
    DiffStageIdentity(filtered);
    FilterStage(fs, generated, job);
    GeneratedJobs(comparePath, inDir1, inDir2, outDir, files, job);
  }
}
