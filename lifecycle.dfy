/** The run around the worker, over a file system of path-to-text entries: the file names
    the helper derives, one merge pass on files, the poll rounds of `blast_work` with the
    worker writing between them, the finishing tail, and the start decision of `main`. */
module Lifecycle {
  import opened PyText
  import opened Outcomes
  import opened Ledger

  /** Every file the helper touches, by path, with its decoded text. */
  type FileSystem = map<string, string>

  /** The worker's own output, `blast_output + '.tmp'`. */
  function TmpPath(out: string): string {
    out + ".tmp"
  }

  /** The completion marker, `blast_output + '.ok'`. */
  function OkPath(out: string): string {
    out + ".ok"
  }

  /** The resume file `prepare_subfasta` writes: `fasta_file + '.from_' + start_id + '.fasta'`. */
  function SubfastaPath(fastaFile: string, startId: string): (p: string)
    ensures p != fastaFile && StartsWith(p, fastaFile + ".from_")
    ensures |p| == |fastaFile| + |startId| + 12 && p[|fastaFile| + 6..|p| - 6] == startId
  {
    fastaFile + ".from_" + startId + ".fasta"
  }

  /** The input `blast_work` hands the worker: an argument starting with `id_` names a resume
      file by the ID after the prefix; any other argument is used as it is. */
  function QueryPath(fastaFile: string, query: string): (p: string)
    ensures !StartsWith(query, "id_") ==> p == query
    ensures StartsWith(query, "id_") ==> p == SubfastaPath(fastaFile, query[3..])
  {
    if StartsWith(query, "id_") then fastaFile + ".from_" + query[3..] + ".fasta" else query
  }

  /** The `'id_' + start_id` that `prepare_subfasta` returns leads `blast_work` back to
      the very file `prepare_subfasta` wrote. */
  lemma ResumeQueryRoundTrip(fastaFile: string, startId: string)
    ensures QueryPath(fastaFile, "id_" + startId) == SubfastaPath(fastaFile, startId)
  {
    assert StartsWith("id_" + startId, "id_");
    assert ("id_" + startId)[3..] == startId;
  }

  /** The original FASTA path reaches the worker unchanged exactly when it does not itself
      start with `id_`. */
  lemma OriginQueryPath(fastaFile: string)
    ensures QueryPath(fastaFile, fastaFile) == fastaFile <==> !StartsWith(fastaFile, "id_")
  {
    if StartsWith(fastaFile, "id_") {
      assert |QueryPath(fastaFile, fastaFile)| > |fastaFile|;
    }
  }

  /** The text of a file, empty when it does not exist. */
  function TextOf(fs: FileSystem, path: string): string {
    if path in fs then fs[path] else []
  }

  /** `parse_blast_id`: the ledger IDs, none when the ledger does not exist. */
  function LedgerIdsIn(fs: FileSystem, out: string): (ids: seq<string>)
    ensures out !in fs ==> ids == []
    ensures out in fs ==> |ids| == |Lines(fs[out])|
    ensures out in fs ==> forall i :: 0 <= i < |ids| ==> ids[i] <= Lines(fs[out])[i] && '\t' !in ids[i]
  {
    if out in fs then LedgerIds(Lines(fs[out])) else []
  }

  /** Writing `ls` line by line in append mode: the file is created by the first write and
      left alone when there is nothing to write. */
  function AppendLines(fs: FileSystem, path: string, ls: seq<string>): (r: FileSystem)
    ensures TextOf(r, path) == TextOf(fs, path) + Concat(ls)
    ensures path in r <==> path in fs || ls != []
    ensures forall p :: p != path ==> (p in r <==> p in fs) && (p in fs ==> r[p] == fs[p])
  {
    if ls == [] then fs else fs[path := TextOf(fs, path) + Concat(ls)]
  }

  /** Appending one more line to a file written line by line. */
  lemma AppendLinesStep(fs: FileSystem, path: string, ls: seq<string>, l: string)
    ensures var before := AppendLines(fs, path, ls);
      before[path := TextOf(before, path) + l] == AppendLines(fs, path, ls + [l])
  {
    ConcatAppend(ls, [l]);
    assert Concat([l]) == l;
    if ls == [] {
      assert ls + [l] == [l];
    } else {
      var before := AppendLines(fs, path, ls);
      assert TextOf(before, path) == TextOf(fs, path) + Concat(ls);
      assert TextOf(before, path) + l == TextOf(fs, path) + Concat(ls + [l]);
      assert before[path := TextOf(before, path) + l] == fs[path := TextOf(fs, path) + Concat(ls + [l])];
    }
  }

  /** The files after a step, and the exception that ended it, if any. */
  datatype Step = Step(fs: FileSystem, raised: Option<Exception>)

  /** `extract_blast_output` on files: nothing without a `.tmp` file; otherwise one merge pass
      against the ledger IDs read at the start. Only the ledger changes, and only at its end. */
  function MergeStep(fs: FileSystem, out: string): (s: Step)
    ensures TmpPath(out) !in fs ==> s == Step(fs, None)
    ensures TextOf(fs, out) <= TextOf(s.fs, out)
    ensures out in fs ==> out in s.fs
    ensures forall p :: p != out ==> (p in s.fs <==> p in fs) && (p in fs ==> s.fs[p] == fs[p])
    ensures s.raised.Some? ==> s.raised.value == IndexError
  {
    if TmpPath(out) !in fs then Step(fs, None)
    else
      var r := Merge(Lines(fs[TmpPath(out)]), LedgerIdsIn(fs, out));
      Step(AppendLines(fs, out, r.appended), if r.failed then Some(IndexError) else None)
  }

  /** The worker appends `chunk` to its `.tmp` output; a worker that has written nothing yet
      may not have created it. */
  function WorkerWrites(fs: FileSystem, out: string, chunk: string): (r: FileSystem)
    ensures TextOf(r, TmpPath(out)) == TextOf(fs, TmpPath(out)) + chunk
    ensures TmpPath(out) in r <==> TmpPath(out) in fs || chunk != []
    ensures forall p :: p != TmpPath(out) ==> (p in r <==> p in fs) && (p in fs ==> r[p] == fs[p])
  {
    if chunk == [] && TmpPath(out) !in fs then fs
    else fs[TmpPath(out) := TextOf(fs, TmpPath(out)) + chunk]
  }

  /** One iteration of the poll loop: the worker has written `chunk`, then `blast_last_result`
      (which raises `ValueError` for an unknown last ID) and `extract_blast_output` run. */
  function PollRound(fs: FileSystem, fastaIds: seq<string>, out: string, chunk: string): (s: Step)
    ensures TextOf(fs, out) <= TextOf(s.fs, out)
    ensures out in fs ==> out in s.fs
    ensures forall p :: p != out && p != TmpPath(out) ==> (p in s.fs <==> p in fs) && (p in fs ==> s.fs[p] == fs[p])
    ensures TextOf(s.fs, TmpPath(out)) == TextOf(fs, TmpPath(out)) + chunk
    ensures s.raised.Some? ==> s.raised.value == ValueError || s.raised.value == IndexError
  {
    var written := WorkerWrites(fs, out, chunk);
    var last := LastHitOf(fastaIds, LedgerIdsIn(written, out));
    if last.Err? then Step(written, Some(last.error)) else MergeStep(written, out)
  }

  /** The poll loop over the chunks the worker writes before each poll, stopping at the first
      exception. Across the whole loop the ledger only grows at its end, and no file but the
      ledger and `.tmp` changes. */
  function PollRounds(fs: FileSystem, fastaIds: seq<string>, out: string, rounds: seq<string>): (s: Step)
    ensures TextOf(fs, out) <= TextOf(s.fs, out)
    ensures out in fs ==> out in s.fs
    ensures forall p :: p != out && p != TmpPath(out) ==> (p in s.fs <==> p in fs) && (p in fs ==> s.fs[p] == fs[p])
    ensures s.raised.Some? ==> s.raised.value == ValueError || s.raised.value == IndexError
  {
    if rounds == [] then Step(fs, None)
    else
      var s := PollRounds(fs, fastaIds, out, rounds[..|rounds| - 1]);
      if s.raised.Some? then s else PollRound(s.fs, fastaIds, out, rounds[|rounds| - 1])
  }

  /** One more chunk: the loop over the first `i + 1` chunks is the loop over the first `i`,
      then one more poll unless it has raised. */
  lemma PollRoundsNext(fs: FileSystem, fastaIds: seq<string>, out: string, rounds: seq<string>, i: nat)
    requires i < |rounds|
    ensures var s := PollRounds(fs, fastaIds, out, rounds[..i]);
      PollRounds(fs, fastaIds, out, rounds[..i + 1])
        == if s.raised.Some? then s else PollRound(s.fs, fastaIds, out, rounds[i])
  {
    assert rounds[..i + 1][..i] == rounds[..i];
  }

  /** An exception ends the loop: once the first `n` chunks have raised, later chunks are
      never polled. */
  lemma {:induction false} PollRoundsStop(fs: FileSystem, fastaIds: seq<string>, out: string, rounds: seq<string>, n: nat)
    requires n <= |rounds|
    requires PollRounds(fs, fastaIds, out, rounds[..n]).raised.Some?
    ensures PollRounds(fs, fastaIds, out, rounds) == PollRounds(fs, fastaIds, out, rounds[..n])
    decreases |rounds|
  {
    if n == |rounds| {
      assert rounds[..n] == rounds;
    } else {
      var init := rounds[..|rounds| - 1];
      assert init[..n] == rounds[..n];
      PollRoundsStop(fs, fastaIds, out, init, n);
    }
  }

  /** The end of `blast_work`: `write_ok_mark` then `clean_tmp_file`. */
  function Finish(fs: FileSystem, out: string): (r: FileSystem)
    ensures OkPath(out) in r && r[OkPath(out)] == [] && TmpPath(out) !in r
    ensures forall p :: p != OkPath(out) && p != TmpPath(out) ==> (p in r <==> p in fs) && (p in fs ==> r[p] == fs[p])
  {
    fs[OkPath(out) := []] - {TmpPath(out)}
  }

  /** `blast_work` after the worker's launch: `clean_tmp_file`, the poll rounds, the `tail`
      the worker writes after the last poll, and the finish, which only a loop that raised
      nothing reaches. No merge follows the loop, so `tail` never reaches the ledger. */
  function WorkRun(fs: FileSystem, fastaIds: seq<string>, out: string, rounds: seq<string>, tail: string): (s: Step)
    ensures var run := PollRounds(fs - {TmpPath(out)}, fastaIds, out, rounds);
      && TextOf(fs, out) <= TextOf(s.fs, out)
      && (out in fs ==> out in s.fs)
      && (s.raised.None? ==> OkPath(out) in s.fs && s.fs[OkPath(out)] == [] && TmpPath(out) !in s.fs
                             && TextOf(s.fs, out) == TextOf(run.fs, out))
      && (s.raised.Some? ==> (OkPath(out) in s.fs <==> OkPath(out) in fs) && s == run)
    ensures s.raised.Some? ==> s.raised.value == ValueError || s.raised.value == IndexError
  {
    var run := PollRounds(fs - {TmpPath(out)}, fastaIds, out, rounds);
    if run.raised.Some? then run
    else Step(Finish(WorkerWrites(run.fs, out, tail), out), None)
  }

  /** `blast_work` on the files `fs`: `clean_tmp_file`, then the command line, which raises
      `TypeError` before any worker starts when `-others` was not given (`args.others` is then
      `None`); otherwise the run. */
  function BlastWorkRun(fs: FileSystem, fastaIds: seq<string>, out: string, othersGiven: bool, rounds: seq<string>, tail: string): (s: Step)
    ensures s.raised == Some(TypeError) <==> !othersGiven
    ensures !othersGiven ==> s.fs == fs - {TmpPath(out)}
    ensures TextOf(fs, out) <= TextOf(s.fs, out)
  {
    if othersGiven then WorkRun(fs, fastaIds, out, rounds, tail) else Step(fs - {TmpPath(out)}, Some(TypeError))
  }

  /** Whatever the worker writes after the last poll is lost: the run's outcome does not
      depend on it. */
  lemma TailNeverMerged(fs: FileSystem, fastaIds: seq<string>, out: string, rounds: seq<string>, tail: string, tail': string)
    ensures WorkRun(fs, fastaIds, out, rounds, tail) == WorkRun(fs, fastaIds, out, rounds, tail')
  {
    var run := PollRounds(fs - {TmpPath(out)}, fastaIds, out, rounds);
    if run.raised.None? {
      FinishDropsWrites(run.fs, out, tail);
      FinishDropsWrites(run.fs, out, tail');
    }
  }

  /** The finish removes `.tmp`, so what the worker wrote there just before makes no difference. */
  lemma FinishDropsWrites(fs: FileSystem, out: string, chunk: string)
    ensures Finish(WorkerWrites(fs, out, chunk), out) == Finish(fs, out)
  {
    var a, b := Finish(WorkerWrites(fs, out, chunk), out), Finish(fs, out);
    assert a.Keys == b.Keys;
    forall p | p in a
      ensures a[p] == b[p]
    {
    }
  }

  /** What `main` does on start-up. */
  datatype Decision = AlreadyFinished | Resume | FreshStart

  /** `main`: the ledger's existence is tested first and the `.ok` marker only when it exists. */
  function Decide(fs: FileSystem, out: string): (d: Decision)
    ensures d == AlreadyFinished <==> out in fs && OkPath(out) in fs
    ensures d == Resume <==> out in fs && OkPath(out) !in fs
    ensures d == FreshStart <==> out !in fs
  {
    if out in fs then (if OkPath(out) in fs then AlreadyFinished else Resume) else FreshStart
  }

  /** After a run that finished, the next start does nothing if and only if a ledger exists:
      a run that never appended a hit to an absent ledger leaves only the marker, and the next
      start runs everything again. */
  lemma FinishedRunIsFinal(fs: FileSystem, fastaIds: seq<string>, out: string, rounds: seq<string>, tail: string)
    requires WorkRun(fs, fastaIds, out, rounds, tail).raised.None?
    ensures var after := WorkRun(fs, fastaIds, out, rounds, tail).fs;
      var run := PollRounds(fs - {TmpPath(out)}, fastaIds, out, rounds);
      Decide(after, out) == AlreadyFinished <==> out in run.fs
  {
    var run := PollRounds(fs - {TmpPath(out)}, fastaIds, out, rounds);
    var after := WorkRun(fs, fastaIds, out, rounds, tail).fs;
    assert after == Finish(WorkerWrites(run.fs, out, tail), out);
    assert out != TmpPath(out) && out != OkPath(out);
  }
}
