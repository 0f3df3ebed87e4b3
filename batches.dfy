/**
 * The batching in `main` of extract_by_tld.py: the listed files are taken
 * `n_proc` at a time (`files[i:i + n_proc]` for `i` in
 * `range(0, len(files), n_proc)`), and each file of a batch becomes one job
 * reading `in_dir/name` and writing `out_dir/` plus the last `/`-segment of
 * its name. The same rule serves the fetch and the extract mode.
 */
module Batches {
  import opened Wrappers
  import opened Text

  /** One entry of `pool_args`: the file a worker reads and the file it writes. */
  datatype Job = Job(input: string, output: string)

  /** `range(0, len(files), 0)` raises ValueError: a zero step is refused. */
  datatype RangeError = ZeroStep

  /** The job for the listed file `name`. */
  function JobFor(name: string, inDir: string, outDir: string): Job {
    Job(inDir + "/" + name, outDir + "/" + LastPiece(name, "/"))
  }

  /** The `pool_args` of one batch: one job per file name, in order. */
  function JobsOf(names: seq<string>, inDir: string, outDir: string): seq<Job> {
    seq(|names|, k requires 0 <= k < |names| => JobFor(names[k], inDir, outDir))
  }

  /**
   * The slices `files[i:i + n]` for `i` in `range(0, len(files), n)`: the
   * first `n` files, then the batches of the rest; a last batch may be short.
   */
  function Chunks<T>(files: seq<T>, n: nat): seq<seq<T>>
    requires n >= 1
    decreases |files|
  {
    if |files| == 0 then []
    else if |files| <= n then [files]
    else [files[..n]] + Chunks(files[n..], n)
  }

  /** The batches of jobs `main` hands to the pool, batch by batch. */
  function Plan(files: seq<string>, n: nat, inDir: string, outDir: string): seq<seq<Job>>
    requires n >= 1
  {
    var cs := Chunks(files, n);
    seq(|cs|, k requires 0 <= k < |cs| => JobsOf(cs[k], inDir, outDir))
  }

  /** The files from index `i` on, or none once `i` is past the end. */
  function From<T>(files: seq<T>, i: nat): seq<T> {
    if i < |files| then files[i..] else []
  }

  /** The lists concatenated in order. */
  function Flatten<T>(ss: seq<seq<T>>): seq<T> {
    if |ss| == 0 then [] else ss[0] + Flatten(ss[1..])
  }

  /**
   * The batching of `main` for `n_proc` workers: a zero `n_proc` raises, a
   * negative one gives an empty range and so no batch, and a positive one
   * gives the batches of `Plan`.
   */
  method PlanBatches(files: seq<string>, inDir: string, outDir: string, nProc: int)
    returns (r: Result<seq<seq<Job>>, RangeError>)
    ensures r.Err? <==> nProc == 0
    ensures nProc < 0 ==> r == Ok([])
    ensures nProc > 0 ==> r == Ok(Plan(files, nProc, inDir, outDir))
  {
    if nProc == 0 {
      return Err(ZeroStep);
    }
    if nProc < 0 {
      return Ok([]);
    }
    var n: nat := nProc;
    var batches: seq<seq<Job>> := [];
    ghost var done: seq<seq<string>> := [];
    var i := 0;
    while i < |files|
      invariant Chunks(files, n) == done + Chunks(From(files, i), n)
      invariant |batches| == |done|
      invariant forall k :: 0 <= k < |done| ==> batches[k] == JobsOf(done[k], inDir, outDir)
      decreases |files| - i
    {
      var end := if i + n < |files| then i + n else |files|;
      var fileNames := files[i..end];
      ChunksStep(files, i, n);
      var poolArgs := PoolArgs(fileNames, inDir, outDir);
      assert done + ([fileNames] + Chunks(From(files, i + n), n))
          == (done + [fileNames]) + Chunks(From(files, i + n), n);
      batches := batches + [poolArgs];
      done := done + [fileNames];
      i := i + n;
    }
    assert From(files, i) == [];
    assert done + [] == done;
    assert batches == Plan(files, n, inDir, outDir);
    return Ok(batches);
  }

  /** The batch at index `i` and the batches after it. */
  lemma ChunksStep<T>(files: seq<T>, i: nat, n: nat)
    requires n >= 1 && i < |files|
    ensures var end := if i + n < |files| then i + n else |files|;
      Chunks(From(files, i), n) == [files[i..end]] + Chunks(From(files, i + n), n)
  {
    var rest := files[i..];
    if |rest| <= n {
      assert From(files, i + n) == [];
      assert files[i..|files|] == rest;
    } else {
      assert rest[..n] == files[i..i + n];
      assert rest[n..] == files[i + n..];
    }
  }

  /** The inner loop of `main`: `pool_args` for the file names of one batch. */
  method PoolArgs(fileNames: seq<string>, inDir: string, outDir: string) returns (args: seq<Job>)
    ensures args == JobsOf(fileNames, inDir, outDir)
  {
    args := [];
    for k := 0 to |fileNames|
      invariant |args| == k
      invariant forall j :: 0 <= j < k ==> args[j] == JobFor(fileNames[j], inDir, outDir)
    {
      var name := fileNames[k];
      var outfileName := outDir + "/" + LastPiece(name, "/");
      args := args + [Job(inDir + "/" + name, outfileName)];
    }
  }

  /** The batches, concatenated, are the listed files in their order. */
  lemma {:induction false} ChunksFlatten<T>(files: seq<T>, n: nat)
    requires n >= 1
    ensures Flatten(Chunks(files, n)) == files
    decreases |files|
  {
    if |files| == 0 {
    } else if |files| <= n {
      assert Flatten([files]) == files + Flatten([files][1..]);
      assert files + [] == files;
    } else {
      var (head, tail) := (files[..n], files[n..]);
      ChunksFlatten(tail, n);
      assert Chunks(files, n) == [head] + Chunks(tail, n);
      FlattenCons(head, Chunks(tail, n));
      assert files == head + tail;
    }
  }

  /** Flattening a list with a first element puts that element in front. */
  lemma FlattenCons<T>(head: seq<T>, rest: seq<seq<T>>)
    ensures Flatten([head] + rest) == head + Flatten(rest)
  {
    assert ([head] + rest)[1..] == rest;
  }

  /**
   * Every batch holds `n` files except the last, which holds between one and
   * `n`; so the number of batches is `len(files) / n` rounded up, as many as
   * the range has indices.
   */
  lemma {:induction false} ChunkSizes<T>(files: seq<T>, n: nat)
    requires n >= 1
    ensures var cs := Chunks(files, n);
      && (|cs| - 1) * n < |files| <= |cs| * n
      && (forall k :: 0 <= k < |cs| - 1 ==> |cs[k]| == n)
      && (|cs| >= 1 ==> 1 <= |cs[|cs| - 1]| <= n)
    decreases |files|
  {
    var cs := Chunks(files, n);
    if |files| > n {
      ChunkSizes(files[n..], n);
      var rest := Chunks(files[n..], n);
      assert cs == [files[..n]] + rest;
      assert (|cs| - 1) * n == (|rest| - 1) * n + n;
      assert |cs| * n == |rest| * n + n;
      forall k | 0 <= k < |cs| - 1 ensures |cs[k]| == n {
        if k > 0 { assert cs[k] == rest[k - 1]; }
      }
    }
  }

  /**
   * Each batch's jobs read the batch's files from `inDir` in order; each output
   * name is `outDir`, "/" and a `/`-free base name, which is the listed name
   * itself when that has no "/" (as the names `os.listdir` gives never do).
   */
  lemma JobNames(names: seq<string>, inDir: string, outDir: string)
    ensures var jobs := JobsOf(names, inDir, outDir);
      && |jobs| == |names|
      && forall k :: 0 <= k < |names| ==>
        && jobs[k].input == inDir + "/" + names[k]
        && |outDir| + 1 <= |jobs[k].output| && jobs[k].output[..|outDir| + 1] == outDir + "/"
        && '/' !in jobs[k].output[|outDir| + 1..]
        && ('/' !in names[k] ==> jobs[k].output == outDir + "/" + names[k])
  {
    forall k | 0 <= k < |names|
      ensures var o := JobFor(names[k], inDir, outDir).output;
        && |outDir| + 1 <= |o| && o[..|outDir| + 1] == outDir + "/"
        && '/' !in o[|outDir| + 1..]
        && ('/' !in names[k] ==> o == outDir + "/" + names[k])
    {
      var base := LastPiece(names[k], "/");
      SplitCharPieces(names[k], '/');
      var pieces := Split(names[k], "/");
      assert base in pieces;
      var o := outDir + "/" + base;
      assert o[|outDir| + 1..] == base;
      assert o[..|outDir| + 1] == outDir + "/";
      if '/' !in names[k] {
        SplitNoSep(names[k], '/');
      }
    }
  }
}
