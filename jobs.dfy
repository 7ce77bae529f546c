/** The unit of work and the job source: one job per `.png` name in the
    first directory's listing. */
module Jobs {
  import opened Streams
  import opened Paths

  /** One comparison to perform: the two inputs, the composite's destination
      and the external comparison command to run. */
  datatype DiffJob = DiffJob(inFile1: Path, inFile2: Path, outFile: Path, comparePath: Path)

  /** The job for one listing entry, or none when its extension is not ".png". */
  function JobFor(comparePath: Path, inDir1: Path, inDir2: Path, outDir: Path, name: string): (r: Option<DiffJob>)
    ensures r.Some? <==> EndsWith(name, ".png")
    ensures r.Some? ==>
      && |r.value.inFile1| == |inDir1| + 1 + |name| && r.value.inFile1[..|inDir1|] == inDir1 && r.value.inFile1[|inDir1| + 1..] == name
      && |r.value.inFile2| == |inDir2| + 1 + |name| && r.value.inFile2[..|inDir2|] == inDir2 && r.value.inFile2[|inDir2| + 1..] == name
      && |r.value.outFile| == |outDir| + 1 + |name| && r.value.outFile[..|outDir|] == outDir && r.value.outFile[|outDir| + 1..] == name
      && r.value.comparePath == comparePath
  {
    PngExtension(name);
    if Ext(name) == ".png" then
      Some(DiffJob(Join(inDir1, name), Join(inDir2, name), Join(outDir, name), comparePath))
    else None
  }

  /** The job source's per-entry step as a task value. */
  function JobTask(comparePath: Path, inDir1: Path, inDir2: Path, outDir: Path): string -> Option<DiffJob>
  {
    name => JobFor(comparePath, inDir1, inDir2, outDir, name)
  }

  /** The jobs generated from directory listing `files`, in listing order. */
  method GrabJobs(comparePath: Path, inDir1: Path, inDir2: Path, outDir: Path, files: seq<string>)
    returns (jobs: seq<DiffJob>)
    ensures jobs == FilterMap(JobTask(comparePath, inDir1, inDir2, outDir), files)
  {
    ghost var task := JobTask(comparePath, inDir1, inDir2, outDir);
    jobs := [];
    for i := 0 to |files|
      invariant jobs == FilterMap(task, files[..i])
    {
      assert files[..i + 1][..i] == files[..i];
      if Ext(files[i]) == ".png" {
        var file1 := Join(inDir1, files[i]);
        var file2 := Join(inDir2, files[i]);
        var outFile := Join(outDir, files[i]);
        jobs := jobs + [DiffJob(file1, file2, outFile, comparePath)];
      }
    }
    assert files[..|files|] == files;
  }

  /** Each listing entry contributes its own job, in listing order, exactly
      when its extension is ".png": splitting the listing around one entry
      splits the job sequence around that entry's job. */
  lemma JobsInListingOrder(comparePath: Path, inDir1: Path, inDir2: Path, outDir: Path,
                           before: seq<string>, name: string, after: seq<string>)
    ensures var task := JobTask(comparePath, inDir1, inDir2, outDir);
      FilterMap(task, before + [name] + after) ==
        FilterMap(task, before)
        + (if Ext(name) == ".png"
           then [DiffJob(Join(inDir1, name), Join(inDir2, name), Join(outDir, name), comparePath)]
           else [])
        + FilterMap(task, after)
  {
    var task := JobTask(comparePath, inDir1, inDir2, outDir);
    FilterMapAppend(task, before + [name], after);
    FilterMapAppend(task, before, [name]);
    FilterMapSingle(task, name);
  }

  /** A job is generated exactly when some listing entry has extension
      ".png"; its three paths join their directories with that same name and
      it carries the comparison command unchanged. */
  lemma GeneratedJobs(comparePath: Path, inDir1: Path, inDir2: Path, outDir: Path, files: seq<string>, job: DiffJob)
    ensures job in FilterMap(JobTask(comparePath, inDir1, inDir2, outDir), files) <==>
      exists i :: 0 <= i < |files| && Ext(files[i]) == ".png" &&
        job == DiffJob(Join(inDir1, files[i]), Join(inDir2, files[i]), Join(outDir, files[i]), comparePath)
  {
    FilterMapMember(JobTask(comparePath, inDir1, inDir2, outDir), files, job);
  }

  /** The job for a name's entry has an output path that no job for other
      names has. */
  lemma OutFileNotEarlier(comparePath: Path, inDir1: Path, inDir2: Path, outDir: Path, front: seq<string>, last: string)
    requires last !in front && Ext(last) == ".png"
    ensures forall job: DiffJob :: job in FilterMap(JobTask(comparePath, inDir1, inDir2, outDir), front) ==>
      job.outFile != Join(outDir, last)
  {
    var task := JobTask(comparePath, inDir1, inDir2, outDir);
    forall job: DiffJob | job in FilterMap(task, front)
      ensures job.outFile != Join(outDir, last)
    {
      FilterMapMember(task, front, job);
      var k :| 0 <= k < |front| && task(front[k]) == Some(job);
      OtherNameOtherOutFile(comparePath, inDir1, inDir2, outDir, front[k], last);
    }
  }

  /** The jobs for two different names have different output paths. */
  lemma OtherNameOtherOutFile(comparePath: Path, inDir1: Path, inDir2: Path, outDir: Path, name: string, other: string)
    requires name != other
    ensures JobTask(comparePath, inDir1, inDir2, outDir)(name).Some? ==>
      JobTask(comparePath, inDir1, inDir2, outDir)(name).value.outFile != Join(outDir, other)
  {
    JoinInjectiveContra(outDir, name, other);
  }

  /** No two jobs of `jobs` write the same output path. */
  predicate DistinctOutputs(jobs: seq<DiffJob>)
  {
    forall i, j :: 0 <= i < j < |jobs| ==> jobs[i].outFile != jobs[j].outFile
  }

  /** Listing entries are distinct names, so the generated jobs have pairwise
      distinct output paths. */
  lemma {:induction false} DistinctOutFiles(comparePath: Path, inDir1: Path, inDir2: Path, outDir: Path, files: seq<string>)
    requires forall i, j :: 0 <= i < j < |files| ==> files[i] != files[j]
    ensures DistinctOutputs(FilterMap(JobTask(comparePath, inDir1, inDir2, outDir), files))
    decreases |files|
  {
    var task := JobTask(comparePath, inDir1, inDir2, outDir);
    if files != [] {
      var front := files[..|files| - 1];
      var last := files[|files| - 1];
      DistinctOutFiles(comparePath, inDir1, inDir2, outDir, front);
      var prev := FilterMap(task, front);
      var jobs := FilterMap(task, files);
      assert task(last) == JobFor(comparePath, inDir1, inDir2, outDir, last);
      if Ext(last) == ".png" {
        assert last !in front by {
          forall k | 0 <= k < |front| ensures front[k] != last {
            assert front[k] == files[k];
          }
        }
        OutFileNotEarlier(comparePath, inDir1, inDir2, outDir, front, last);
        assert jobs == prev + [task(last).value];
        forall i, j | 0 <= i < j < |jobs| ensures jobs[i].outFile != jobs[j].outFile {
          if j == |prev| {
            assert jobs[i] == prev[i] && prev[i] in prev;
            assert jobs[j].outFile == Join(outDir, last);
          } else {
            assert jobs[i] == prev[i] && jobs[j] == prev[j];
          }
        }
      } else {
        assert jobs == prev;
      }
    }
  }

  /** Distinct output paths give distinct temporary paths, so no two workers
      ever write the same temporary file. */
  lemma DistinctTempPaths(comparePath: Path, inDir1: Path, inDir2: Path, outDir: Path, files: seq<string>)
    requires forall i, j :: 0 <= i < j < |files| ==> files[i] != files[j]
    ensures var jobs := FilterMap(JobTask(comparePath, inDir1, inDir2, outDir), files);
      forall i, j :: 0 <= i < j < |jobs| ==> TempPath(jobs[i].outFile) != TempPath(jobs[j].outFile)
  {
    var jobs := FilterMap(JobTask(comparePath, inDir1, inDir2, outDir), files);
    DistinctOutFiles(comparePath, inDir1, inDir2, outDir, files);
    forall i, j | 0 <= i < j < |jobs|
      ensures TempPath(jobs[i].outFile) != TempPath(jobs[j].outFile)
    {
      assert jobs[i].outFile != jobs[j].outFile;
      TempPathInjective(jobs[i].outFile, jobs[j].outFile);
    }
  }
}
