/** The staged download of `download_artifact`, in closed form: what the filesystem looks like
    afterwards and how the call ends, given what curl left at the temp path. */
module Staging {
  import opened Wrappers
  import opened Files

  /** What running curl with `-o <temp>` produced: its exit status and the bytes at the temp
      path if it created the file (a failed run may leave partial bytes there). */
  datatype Staged = Staged(exitStatus: int, written: Option<Bytes>)

  /** How `download_artifact` fails: the collision abort, the download abort, or the exception
      `FileUtils.cp` raises. */
  datatype DownloadError = TempFileCollision | DownloadFailed | CopyFailed(reason: CopyError)

  /** The end state of `download_artifact` on `fs`. Only a successful run changes anything,
      and then only the output path. */
  function StagedDownload(fs: map<Path, Bytes>, temp: Path, output: Path, run: Staged)
    : (r: (Outcome<DownloadError>, map<Path, Bytes>))
    ensures temp in fs ==> r.0 == Fail(TempFileCollision) && r.1 == fs
    ensures temp !in fs ==> temp !in r.1
    ensures r.0.Pass? <==> temp !in fs && run.exitStatus == 0 && run.written.Some? && temp != output
    ensures r.0.Pass? ==> output in r.1 && r.1[output] == run.written.value
    ensures r.0.Fail? ==> r.1 == fs
    ensures forall p :: p != temp && p != output ==>
              (p in r.1 <==> p in fs) && (p in fs ==> r.1[p] == fs[p])
  {
    if temp in fs then (Fail(TempFileCollision), fs)
    else if run.exitStatus != 0 then (Fail(DownloadFailed), fs)
    else if run.written.None? then (Fail(CopyFailed(NoSuchFile)), fs)
    else if temp == output then (Fail(CopyFailed(SameFile)), fs)
    else (Pass, fs[output := run.written.value])
  }

  /** Removing a staged file that did not exist before restores the filesystem. */
  lemma DiscardStaged(fs: map<Path, Bytes>, temp: Path, staged: Bytes)
    requires temp !in fs
    ensures fs[temp := staged] - {temp} == fs
  {
  }

  /** Removing the staged file after copying it leaves only the copy. */
  lemma DiscardCopied(fs: map<Path, Bytes>, temp: Path, output: Path, staged: Bytes)
    requires temp !in fs && temp != output
    ensures fs[temp := staged][output := staged] - {temp} == fs[output := staged]
  {
  }
}
