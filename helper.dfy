/** The script itself: its two path arguments, the files it sees, and the module-global
    `fasta_ids` list, with one method per function of the script. */
module BatchHelper {
  import opened PyText
  import opened Outcomes
  import opened Fasta
  import opened Ledger
  import opened Lifecycle

  class Helper {
    /** `args.query` */
    const fastaFile: string
    /** `args.out`: the ledger */
    const blastOutput: string
    /** `args.others`: `None` when `-others` is not given, as it has no default */
    const others: Option<string>
    /** The files, by path. */
    var fs: FileSystem
    /** The module-global list `parse_fasta` appends to. */
    var fastaIds: seq<string>

    constructor (fastaFile: string, blastOutput: string, others: Option<string>, fs: FileSystem)
      ensures this.fastaFile == fastaFile && this.blastOutput == blastOutput && this.others == others
      ensures this.fs == fs && fastaIds == []
    {
      this.fastaFile := fastaFile;
      this.blastOutput := blastOutput;
      this.others := others;
      this.fs := fs;
      fastaIds := [];
    }

    /** `parse_fasta`: appends the ID of every header line to `fasta_ids`, in file order. */
    method ParseFasta() returns (r: Result<seq<string>>)
      modifies this`fastaIds
      ensures fastaFile !in fs ==> r == Err(FileNotFoundError(fastaFile)) && fastaIds == old(fastaIds)
      ensures fastaFile in fs ==> fastaIds == old(fastaIds) + FastaIds(Lines(fs[fastaFile]))
      ensures fastaFile in fs ==> r == Ok(fastaIds)
    {
      if fastaFile !in fs {
        return Err(FileNotFoundError(fastaFile));
      }
      var lines := Lines(fs[fastaFile]);
      var i := 0;
      while i < |lines|
        invariant 0 <= i <= |lines|
        invariant fastaIds == old(fastaIds) + FastaIds(lines[..i])
      {
        assert lines[..i + 1][..i] == lines[..i];
        if IsHeader(lines[i]) {
          fastaIds := fastaIds + [FastaId(lines[i])];
        }
        i := i + 1;
      }
      assert lines[..i] == lines;
      return Ok(fastaIds);
    }

    /** `parse_blast_id`: the text before the first tab of every ledger line, in order and
        with duplicates; nothing when the ledger does not exist. */
    method ParseBlastId() returns (ids: seq<string>)
      ensures blastOutput !in fs ==> ids == []
      ensures blastOutput in fs ==> |ids| == |Lines(fs[blastOutput])|
      ensures blastOutput in fs ==>
        forall i :: 0 <= i < |ids| ==> ids[i] == Before(Lines(fs[blastOutput])[i], '\t')
      ensures ids == LedgerIdsIn(fs, blastOutput)
    {
      ids := [];
      if blastOutput in fs {
        var lines := Lines(fs[blastOutput]);
        for i := 0 to |lines|
          invariant |ids| == i
          invariant forall k :: 0 <= k < i ==> ids[k] == Before(lines[k], '\t')
        {
          ids := ids + [Before(lines[i], '\t')];
        }
      }
    }

    /** `blast_last_result`: the `-1` sentinel with no hits, else the last hit's ID, with
        `ValueError` when that ID is not in `fasta_ids`. */
    method BlastLastResult() returns (r: Result<LastHit>)
      ensures r == LastHitOf(fastaIds, LedgerIdsIn(fs, blastOutput))
    {
      var blastIds := ParseBlastId();
      if |blastIds| > 0 {
        var last := blastIds[|blastIds| - 1];
        if last !in fastaIds {
          return Err(ValueError);
        }
        var finished := IndexOf(fastaIds, last) + 1;
        return Ok(Hit(last, finished));
      }
      return Ok(NoHits);
    }

    /** `prepare_subfasta`: with no hits, the original FASTA path; otherwise it removes any
        stale resume file, copies every line from the first one starting with `'>' + start_id`
        to the end of the FASTA file, and returns `'id_' + start_id`. */
    method PrepareSubfasta() returns (r: Result<string>)
      modifies this`fs
      ensures var last := LastHitOf(fastaIds, LedgerIdsIn(old(fs), blastOutput));
        last.Err? ==> r == Err(ValueError) && fs == old(fs)
      ensures var last := LastHitOf(fastaIds, LedgerIdsIn(old(fs), blastOutput));
        last == Ok(NoHits) ==> r == Ok(fastaFile) && fs == old(fs)
      ensures var last := LastHitOf(fastaIds, LedgerIdsIn(old(fs), blastOutput));
        last.Ok? && last.value.Hit? && ResumeStart(fastaIds, last.value.id).Err? ==>
          r == Err(IndexError) && fs == old(fs)
      ensures var last := LastHitOf(fastaIds, LedgerIdsIn(old(fs), blastOutput));
        last.Ok? && last.value.Hit? && ResumeStart(fastaIds, last.value.id).Ok? && fastaFile !in old(fs) ==>
          var startId := ResumeStart(fastaIds, last.value.id).value;
          r == Err(FileNotFoundError(fastaFile)) && fs == old(fs) - {SubfastaPath(fastaFile, startId)}
      ensures var last := LastHitOf(fastaIds, LedgerIdsIn(old(fs), blastOutput));
        last.Ok? && last.value.Hit? && ResumeStart(fastaIds, last.value.id).Ok? && fastaFile in old(fs) ==>
          var startId := ResumeStart(fastaIds, last.value.id).value;
          var sub := SubfastaPath(fastaFile, startId);
          && r == Ok("id_" + startId)
          && fs == AppendLines(old(fs) - {sub}, sub, SubfastaLines(Lines(old(fs)[fastaFile]), startId))
    {
      var lastHit := BlastLastResult();
      if lastHit.Err? {
        return Err(lastHit.error);
      }
      if lastHit.value.NoHits? {
        return Ok(fastaFile);
      }
      var k := IndexOf(fastaIds, lastHit.value.id);
      if k + 1 >= |fastaIds| {
        return Err(IndexError);
      }
      var startId := fastaIds[k + 1];
      var sub := fastaFile + ".from_" + startId + ".fasta";
      if sub in fs {
        fs := fs - {sub};
      }
      assert fs == old(fs) - {sub};
      assert sub != fastaFile by {
        assert |sub| > |fastaFile|;
      }
      if fastaFile !in fs {
        return Err(FileNotFoundError(fastaFile));
      }
      WriteSubfasta(sub, Lines(fs[fastaFile]), startId);
      return Ok("id_" + startId);
    }

    /** The copy loop of `prepare_subfasta`: the flag `subfile` is set by the first line that
        starts with `'>' + start_id` and never cleared, and every line from there on is
        appended to the resume file. */
    method WriteSubfasta(sub: string, lines: seq<string>, startId: string)
      requires sub !in fs
      modifies this`fs
      ensures fs == AppendLines(old(fs), sub, SubfastaLines(lines, startId))
    {
      var marker := ">" + startId;
      ghost var m := FirstMatch(lines, marker);
      var subfile := false;
      var i := 0;
      while i < |lines|
        invariant 0 <= i <= |lines|
        invariant subfile <==> m < i
        invariant fs == AppendLines(old(fs), sub, if subfile then lines[m..i] else [])
      {
        if StartsWith(lines[i], marker) {
          subfile := true;
        }
        if subfile {
          assert lines[m..i + 1] == lines[m..i] + [lines[i]];
          AppendLinesStep(old(fs), sub, lines[m..i], lines[i]);
          fs := fs[sub := TextOf(fs, sub) + lines[i]];
        }
        i := i + 1;
      }
      assert subfile ==> lines[m..i] == SubfastaLines(lines, startId);
      assert !subfile ==> SubfastaLines(lines, startId) == [];
    }

    /** `write_ok_mark`: creates (or empties) `file_name + '.ok'`. */
    method WriteOkMark(fileName: string)
      modifies this`fs
      ensures fs == old(fs)[OkPath(fileName) := []]
    {
      fs := fs[fileName + ".ok" := []];
    }

    /** `clean_tmp_file`: removes `file_name + '.tmp'` if it exists. */
    method CleanTmpFile(fileName: string)
      modifies this`fs
      ensures fs == old(fs) - {TmpPath(fileName)}
    {
      if fileName + ".tmp" in fs {
        fs := fs - {fileName + ".tmp"};
      }
    }

    /** `extract_blast_output`: with a `.tmp` file, appends to the ledger each `.tmp` line
        whose first token is not among the ledger IDs read at the start of the call. */
    method ExtractBlastOutput() returns (r: Result<()>)
      modifies this`fs
      ensures var step := MergeStep(old(fs), blastOutput);
        fs == step.fs && (r.Err? <==> step.raised.Some?) && (r.Err? ==> r.error == IndexError)
    {
      var tmp := blastOutput + ".tmp";
      if tmp !in fs {
        return Ok(());
      }
      var existingId := ParseBlastId();
      var lines := Lines(fs[tmp]);
      var i := 0;
      while i < |lines|
        invariant 0 <= i <= |lines|
        invariant !Merge(lines[..i], existingId).failed
        invariant fs == AppendLines(old(fs), blastOutput, Merge(lines[..i], existingId).appended)
      {
        MergeNext(lines, existingId, i);
        ghost var app := Merge(lines[..i], existingId).appended;
        var result := Split(lines[i]);
        if |result| == 0 {
          MergeStop(lines, existingId, i + 1);
          return Err(IndexError);
        }
        if result[0] !in existingId {
          AppendLinesStep(old(fs), blastOutput, app, lines[i]);
          fs := fs[blastOutput := TextOf(fs, blastOutput) + lines[i]];
          if |result| < 2 {
            MergeStop(lines, existingId, i + 1);
            return Err(IndexError);
          }
        }
        i := i + 1;
      }
      assert lines[..i] == lines;
      return Ok(());
    }

    /** One poll of `blast_work`'s loop, after the worker has written `chunk` to `.tmp`:
        `blast_last_result`, then `extract_blast_output`. */
    method PollOnce(chunk: string) returns (r: Result<()>)
      modifies this`fs
      ensures var s := PollRound(old(fs), fastaIds, blastOutput, chunk);
        fs == s.fs && (r.Err? <==> s.raised.Some?) && (r.Err? ==> r.error == s.raised.value)
    {
      var tmp := blastOutput + ".tmp";
      if chunk != [] || tmp in fs {
        fs := fs[tmp := TextOf(fs, tmp) + chunk];
      }
      var last := BlastLastResult();
      if last.Err? {
        return Err(last.error);
      }
      r := ExtractBlastOutput();
    }

    /** The poll loop of `blast_work`, one poll per chunk in `rounds`, ended by the first
        exception. */
    method PollLoop(rounds: seq<string>) returns (r: Result<()>)
      modifies this`fs
      ensures var run := PollRounds(old(fs), fastaIds, blastOutput, rounds);
        fs == run.fs && (r.Err? <==> run.raised.Some?) && (r.Err? ==> r.error == run.raised.value)
    {
      ghost var start := fs;
      var i := 0;
      while i < |rounds|
        invariant 0 <= i <= |rounds|
        invariant PollRounds(start, fastaIds, blastOutput, rounds[..i]).raised.None?
        invariant fs == PollRounds(start, fastaIds, blastOutput, rounds[..i]).fs
      {
        PollRoundsNext(start, fastaIds, blastOutput, rounds, i);
        r := PollOnce(rounds[i]);
        if r.Err? {
          PollRoundsStop(start, fastaIds, blastOutput, rounds, i + 1);
          return;
        }
        i := i + 1;
      }
      assert rounds[..i] == rounds;
      r := Ok(());
    }

    /** `blast_work` on the argument `fastaQuery`: clears `.tmp` and builds the command line,
        which raises `TypeError` when `-others` was not given. Otherwise it launches the worker
        on the input it derives from the argument, polls once per chunk in `rounds` (the
        worker's writes before each poll), lets the worker write `tail` after the last poll,
        then writes the marker and removes `.tmp`. Any exception in a poll ends it there. */
    method BlastWork(fastaQuery: string, rounds: seq<string>, tail: string) returns (launched: Option<string>, r: Result<()>)
      modifies this`fs
      ensures launched == if others.Some? then Some(QueryPath(fastaFile, fastaQuery)) else None
      ensures var run := BlastWorkRun(old(fs), fastaIds, blastOutput, others.Some?, rounds, tail);
        fs == run.fs && (r.Err? <==> run.raised.Some?) && (r.Err? ==> r.error == run.raised.value)
    {
      CleanTmpFile(blastOutput);
      var query;
      if StartsWith(fastaQuery, "id_") {
        query := fastaFile + ".from_" + fastaQuery[3..] + ".fasta";
      } else {
        query := fastaQuery;
      }
      if others.None? {
        return None, Err(TypeError);
      }
      launched := Some(query);
      r := PollLoop(rounds);
      if r.Err? {
        return;
      }
      var tmp := blastOutput + ".tmp";
      if tail != [] || tmp in fs {
        fs := fs[tmp := TextOf(fs, tmp) + tail];
      }
      WriteOkMark(blastOutput);
      CleanTmpFile(blastOutput);
      r := Ok(());
    }

    /** `main`: nothing when the ledger and its marker exist; a resumed run from the query after
        the last hit when only the ledger exists; a run over the whole FASTA file otherwise.
        `launched` is the input handed to the worker, if one is launched. */
    method Run(rounds: seq<string>, tail: string) returns (launched: Option<string>, r: Result<()>)
      modifies this`fs, this`fastaIds
      ensures Decide(old(fs), blastOutput) == AlreadyFinished ==>
        launched == None && r == Ok(()) && fs == old(fs) && fastaIds == old(fastaIds)
      ensures Decide(old(fs), blastOutput) != AlreadyFinished && fastaFile !in old(fs) ==>
        launched == None && r == Err(FileNotFoundError(fastaFile)) && fs == old(fs) && fastaIds == old(fastaIds)
      ensures Decide(old(fs), blastOutput) != AlreadyFinished && fastaFile in old(fs) ==>
        fastaIds == old(fastaIds) + FastaIds(Lines(old(fs)[fastaFile]))
      ensures Decide(old(fs), blastOutput) == FreshStart && fastaFile in old(fs) ==>
        var run := BlastWorkRun(old(fs), fastaIds, blastOutput, others.Some?, rounds, tail);
        && launched == (if others.Some? then Some(QueryPath(fastaFile, fastaFile)) else None)
        && fs == run.fs && (r.Err? <==> run.raised.Some?) && (r.Err? ==> r.error == run.raised.value)
      ensures var last := LastHitOf(fastaIds, LedgerIdsIn(old(fs), blastOutput));
        Decide(old(fs), blastOutput) == Resume && fastaFile in old(fs) && last.Err? ==>
          launched == None && r == Err(ValueError) && fs == old(fs)
      ensures var last := LastHitOf(fastaIds, LedgerIdsIn(old(fs), blastOutput));
        Decide(old(fs), blastOutput) == Resume && fastaFile in old(fs) && last == Ok(NoHits) ==>
          var run := BlastWorkRun(old(fs), fastaIds, blastOutput, others.Some?, rounds, tail);
          && launched == (if others.Some? then Some(QueryPath(fastaFile, fastaFile)) else None)
          && fs == run.fs && (r.Err? <==> run.raised.Some?) && (r.Err? ==> r.error == run.raised.value)
      ensures var last := LastHitOf(fastaIds, LedgerIdsIn(old(fs), blastOutput));
        Decide(old(fs), blastOutput) == Resume && fastaFile in old(fs) && last.Ok? && last.value.Hit?
          && ResumeStart(fastaIds, last.value.id).Err? ==>
          launched == None && r == Err(IndexError) && fs == old(fs)
      ensures var last := LastHitOf(fastaIds, LedgerIdsIn(old(fs), blastOutput));
        Decide(old(fs), blastOutput) == Resume && fastaFile in old(fs) && last.Ok? && last.value.Hit?
          && ResumeStart(fastaIds, last.value.id).Ok? ==>
          var startId := ResumeStart(fastaIds, last.value.id).value;
          var sub := SubfastaPath(fastaFile, startId);
          var prepared := AppendLines(old(fs) - {sub}, sub, SubfastaLines(Lines(old(fs)[fastaFile]), startId));
          var run := BlastWorkRun(prepared, fastaIds, blastOutput, others.Some?, rounds, tail);
          && launched == (if others.Some? then Some(sub) else None)
          && fs == run.fs && (r.Err? <==> run.raised.Some?) && (r.Err? ==> r.error == run.raised.value)
    {
      var decision := Decide(fs, blastOutput);
      if decision == AlreadyFinished {
        return None, Ok(());
      }
      var parsed := ParseFasta();
      if parsed.Err? {
        return None, Err(parsed.error);
      }
      var query := fastaFile;
      if decision == Resume {
        var prepared := PrepareSubfasta();
        if prepared.Err? {
          return None, Err(prepared.error);
        }
        query := prepared.value;
        if StartsWith(query, "id_") {
          ResumeQueryRoundTrip(fastaFile, query[3..]);
          assert "id_" + query[3..] == query;
        }
      }
      launched, r := BlastWork(query, rounds, tail);
    }
  }
}
