# idiff core in Dafny

idiff compares two directories of PNG images pair by pair. For each `.png`
name in the first directory it builds a job, keeps the job only when the
same name exists as a non-directory file in both directories, and hands it to a
diff worker. The worker pads the shorter of the two images to the taller
one's bounds and lets an external comparison tool write a difference image.
It then writes a three-panel composite to the output directory: first
input, diff, second input.

This project models that core sequentially and proves its properties:

- `streams.dfy`, module `Streams`: a transform-or-drop stage run over a
  finite input is a filter-map (`FilterMap`). It keeps input order, drops
  exactly the items with no result and is never longer than its input.
- `paths.dfy`, module `Paths`: joining a directory with a name, the
  extension of a name (the suffix from the last `.` of its final element),
  and the worker's temporary path (`outFile` followed by `"tmp"`).
- `raster.dfy`, module `Raster`: a decoded image is an `array2` of opaque
  RGBA pixels indexed `[x, y]`. `Length0` is the image's `Max.X` and
  `Length1` its `Max.Y`, because decoded PNG bounds start at the origin.
  The module holds `intMax`, a clipping draw-at-offset, the three-panel
  compositor and the padding canvas.
- `jobs.dfy`, module `Jobs`: the `DiffJob` record and the job source's
  loop over a directory listing.
- `pipeline.dfy`, module `Pipeline`: the file-existence test, the filter
  task, the diff task, the stage loop `performDiffJobTask`, and the whole
  sequential pipeline.
- `worker.dfy`, module `Worker`: the height-normalisation decision and the
  per-job algorithm.

Two properties one might expect of the tool do not hold of its code, and
the model follows the code:

- The padded canvas takes the taller image's full bounds, width included.
  A shorter image that is wider than the taller one is therefore clipped on
  the right. It is not true that padding never crops; `PaddingKeepsSource`
  states the case in which it does not.
- When both heights are equal, nothing is padded even if the widths differ.
  The two images handed to the comparison tool then have different sizes.
  The code guarantees identical bounds only when the heights differ; with
  equal heights, only when the widths also agree.

## Model

| member | source | states |
|---|---|---|
| `Streams.FilterMap` | main.go:113-117 | a stage never emits more items than it reads |
| `Streams.FilterMapAppend` | main.go:113-117 | the stage's output on `a + b` is its output on `a`, then its output on `b`: input order is kept |
| `Streams.FilterMapSingle` | main.go:114-116 | one input item yields its task result when there is one and nothing when the result is nil |
| `Streams.FilterMapMember` | main.go:113-117 | an item is emitted if and only if the task maps some input item to it |
| `Streams.FilterMapTotal` | main.go:113-117 | when every task result is present, the output has the input's length and its k-th item is the k-th result |
| `Streams.FilterMapNone` | main.go:114-116 | when every task result is nil, nothing is emitted |
| `Paths.Join` | main.go:86-88 | the joined path is the directory, one separator, then the name |
| `Paths.JoinInjective` | main.go:86-88 | one directory joined with two different names gives two different paths |
| `Paths.Ext` | main.go:85 | the extension is empty or starts with `.` and is a suffix of the name; it holds no further `.` or separator; it is empty only when the final element has no `.` |
| `Paths.PngExtension` | main.go:85 | a name's extension is `.png` if and only if the name ends in `.png` |
| `Paths.TempPath` | main.go:161 | the temporary path is the output path followed by `tmp` |
| `Paths.TempPathInjective` | main.go:161 | two temporary paths are equal if and only if their output paths are; a temporary path never equals its own output path |
| `Raster.IntMax` | main.go:250-255 | the result is at least both arguments and equals one of them |
| `Raster.Draw` | main.go:223-225 | the source is copied at the column offset, top-aligned and clipped to the canvas; every other pixel is unchanged |
| `Raster.CombineImages` | main.go:214-225 | the canvas is exactly as wide as the three images together and as tall as the tallest; img1 sits at x-offset 0, img2 at img1's width, img3 at img1's and img2's widths together, with no vertical offset; every source pixel is unchanged there; every other pixel is zero |
| `Raster.CompositeFromPixels` | main.go:219-225 | a canvas of the composite's size whose every pixel is the one its panel places there is a composite of the three images |
| `Raster.CompositeUnique` | main.go:216-225 | two canvases that are both composites of the same three images have the same size and agree on every pixel |
| `Raster.ResizeImage` | main.go:204-206 | the new canvas has exactly the given bounds; source pixels inside them keep their coordinates; the rest of the canvas is zero; source parts outside the bounds are clipped, not scaled |
| `Raster.PaddingKeepsSource` | main.go:204-206 | padding onto a canvas at least as large as the source keeps every source pixel at its coordinates |
| `Jobs.JobFor` | main.go:85-90 | an entry yields a job if and only if its name ends in `.png`; the job's three paths are the first directory, the second directory and the output directory, each followed by a separator and the entry's name; the compare path is passed through |
| `Jobs.GrabJobs` | main.go:84-92 | the listing loop emits exactly the filter-map of the listing under the per-entry job rule |
| `Jobs.JobsInListingOrder` | main.go:84-92 | each listing entry contributes its own job in listing position if its extension is `.png`, and nothing otherwise |
| `Jobs.GeneratedJobs` | main.go:85-90 | a job is generated if and only if some `.png` entry's name, joined with each of the three directories, gives its three paths; the compare path is passed through unchanged |
| `Jobs.DistinctOutFiles` | main.go:88 | when the listing has no repeated names, the jobs have pairwise distinct output paths |
| `Jobs.DistinctTempPaths` | main.go:161 | when the listing has no repeated names, the jobs have pairwise distinct temporary paths, so no two workers write the same temporary file |
| `Pipeline.FileExists` | main.go:150-157 | a path passes if and only if its status query succeeds and does not report a directory |
| `Pipeline.DiffFiles` | main.go:58-61 | the diff task hands the job on unchanged |
| `Pipeline.FilterDiffJobs` | main.go:51-56 | the job comes back unchanged if both input paths are known and neither is a directory; otherwise the result is nil |
| `Pipeline.PerformDiffJobTask` | main.go:110-121 | the loop emits the filter-map of its input under the task, so it is never longer than its input |
| `Pipeline.DiffStageIdentity` | main.go:58-61 | a stage running the diff task emits its input unchanged |
| `Pipeline.FilterStage` | main.go:51-56 | the filter stage (main.go:42, looping as at main.go:113-117) emits a job if and only if the job is in its input and both its input files exist as non-directory files |
| `Pipeline.PipelineOutputs` | main.go:40-45 | the sequential pipeline emits a job if and only if some `.png` entry of the first listing exists as a non-directory file in both input directories, and then that entry's job |
| `Worker.PaddingFor` | main.go:192-201 | the padding decision looks only at the two heights: pad the second image if the first is strictly taller, pad the first if the second is strictly taller, pad neither on equal heights |
| `Worker.CommonSizeImageLengths` | main.go:188-202 | if img1 is strictly taller, the result is `(in1, out)` and img2 is padded to img1's bounds; if img2 is strictly taller, the result is `(out, in2)` and img1 is padded to img2's bounds; on equal heights the result is `(in1, in2)` and nothing is padded |
| `Worker.CompareFiles` | main.go:159-185 | the temporary path is `outFile + "tmp"`; the compared paths and the padded image follow the normalisation; the composite shows the normalised first image, the diff and the normalised second image; it is as tall as the tallest of the three and twice the taller input's width plus the diff's width wide when padding happened |

## Left out

- Concurrency: the goroutines, the channels, `fanOut`, `fanDiffJobsIn` and
  its wait group (main.go:99-146) only schedule work in parallel. The model
  runs one stage after the other. It does not capture completion order or
  the claim that the parallelism degree leaves the set of outputs unchanged.
  The single sequential diff stage of `Pipeline.PipelineOutputs` stands
  for a worker count of at least one: with `-t 0` or a negative count,
  `fanOut` starts no worker (main.go:103), the merged stream closes at once
  (main.go:127-143) and the program produces no output at all.
- External tool: the comparison command line (main.go:167) and the shell
  subprocess (main.go:168-172) are a foreign process call. The image the
  tool writes is a parameter of `Worker.CompareFiles`, and the command
  string is not modelled.
- PNG codec and files: opening, decoding, encoding, creating and removing
  files (main.go:183, 189-190, 175-177, 208-210, 227-229, 233-247) are I/O.
  Images arrive already decoded, and the images a worker would write are
  returned. The model assumes that re-decoding a file just written gives
  back the same pixels.
- Decode failures: a failed decode gives a nil image, and calling `Bounds()`
  on it stops the program. The model requires every decode to succeed.
- File-status queries and listing: the status query of main.go:150-157 is a
  map from path to `FileInfo`; a path missing from the map stands for a
  failed query. The listing of main.go:78 is an input sequence of names, and
  the fatal exit when the listing fails (main.go:80-82) is not modelled.
- `Pipeline.DiffFiles`: the per-job call `compareFiles(...)` at main.go:59
  is not made. On the stream the diff task only hands the job on; the
  worker it would run is modelled separately, over decoded images, as
  `Worker.CompareFiles`, and nothing in the model links the two.
- Paths.Join: does not apply the real join's path cleaning (removing `.`,
  `..` and doubled separators, dropping an empty directory).
- Colour-model conversion: drawing into an RGBA canvas converts source
  colours. Pixels here are opaque RGBA values copied verbatim.
- Integer width: image sizes are unbounded integers, not 64-bit `int`s.
  The width sum in main.go:216 could only wrap around for images far
  larger than any memory could hold.
- Command-line parsing, directory creation and printing (main.go:19-49) are
  not modelled.
- Cleanup: the temporary file's removal (main.go:183) is I/O and its error
  is ignored.
