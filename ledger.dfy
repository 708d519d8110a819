/** The ledger side: the IDs read back from the result file (`parse_blast_id`), the last-hit
    decision (`blast_last_result`) and the line selection of `extract_blast_output`. */
module Ledger {
  import opened PyText
  import opened Outcomes
  import opened Fasta

  /** `line.split('\t')[0]` of every ledger line: one query ID per hit line, in file order,
      duplicates kept. */
  function LedgerIds(lines: seq<string>): (ids: seq<string>)
    ensures |ids| == |lines|
    ensures forall i :: 0 <= i < |lines| ==> ids[i] <= lines[i] && '\t' !in ids[i]
  {
    seq(|lines|, i requires 0 <= i < |lines| => Before(lines[i], '\t'))
  }

  /** What `blast_last_result` reports: no hits yet (the `-1` sentinel), or the last hit's ID
      together with the finished count `fasta_ids.index(id) + 1` it prints. */
  datatype LastHit = NoHits | Hit(id: string, finished: nat)

  /** `blast_last_result` over the global ID list and the ledger IDs; `list.index` raises
      `ValueError` when the last ledger ID is not a FASTA ID. */
  function LastHitOf(fastaIds: seq<string>, blastIds: seq<string>): (r: Result<LastHit>)
    ensures r == Ok(NoHits) <==> blastIds == []
    ensures r.Err? <==> blastIds != [] && blastIds[|blastIds| - 1] !in fastaIds
    ensures r.Err? ==> r.error == ValueError
    ensures r.Ok? && r.value.Hit? ==>
      && r.value.id == blastIds[|blastIds| - 1]
      && 1 <= r.value.finished <= |fastaIds|
      && fastaIds[r.value.finished - 1] == r.value.id
      && r.value.id !in fastaIds[..r.value.finished - 1]
  {
    if blastIds == [] then Ok(NoHits)
    else
      var last := blastIds[|blastIds| - 1];
      if last in fastaIds then Ok(Hit(last, IndexOf(fastaIds, last) + 1)) else Err(ValueError)
  }

  /** When no FASTA header has a description, every FASTA ID ends in '\n', so a ledger whose
      last first-field has no '\n' makes `blast_last_result` raise `ValueError`. */
  lemma BareHeadersBreakLookup(headerIds: seq<string>, blastIds: seq<string>)
    requires forall k :: 0 <= k < |headerIds| ==> ' ' !in headerIds[k]
    requires blastIds != [] && '\n' !in blastIds[|blastIds| - 1]
    ensures var fastaIds := seq(|headerIds|, k requires 0 <= k < |headerIds| => FastaId(">" + headerIds[k] + "\n"));
      LastHitOf(fastaIds, blastIds) == Err(ValueError)
  {
    var fastaIds := seq(|headerIds|, k requires 0 <= k < |headerIds| => FastaId(">" + headerIds[k] + "\n"));
    forall k | 0 <= k < |headerIds|
      ensures fastaIds[k] == headerIds[k] + "\n"
    {
      BareHeaderId(headerIds[k]);
    }
    var last := blastIds[|blastIds| - 1];
    forall k | 0 <= k < |fastaIds|
      ensures fastaIds[k] != last
    {
      assert fastaIds[k][|fastaIds[k]| - 1] == '\n';
    }
  }

  /** What one `extract_blast_output` pass does with the `.tmp` lines: the lines it appends to
      the ledger, and whether it stopped on an `IndexError`. */
  datatype MergeRun = MergeRun(appended: seq<string>, failed: bool)

  /** A `.tmp` line that raises `IndexError`: a blank line (`result[0]`), or a one-token line
      with a new ID, which is written before `result[1]` is printed. */
  predicate Breaks(line: string, existing: seq<string>) {
    var ts := Split(line);
    ts == [] || (ts[0] !in existing && |ts| < 2)
  }

  /** The loop of `extract_blast_output`: each line whose first `split()` token is not among
      the ledger IDs read once at the start of the call is appended, in order. */
  function Merge(tmpLines: seq<string>, existing: seq<string>): (r: MergeRun)
    ensures |r.appended| <= |tmpLines|
    ensures forall k :: 0 <= k < |r.appended| ==>
      Split(r.appended[k]) != [] && Split(r.appended[k])[0] !in existing
  {
    if tmpLines == [] then MergeRun([], false) else
      var r := Merge(tmpLines[..|tmpLines| - 1], existing);
      var line := tmpLines[|tmpLines| - 1];
      var ts := Split(line);
      if r.failed then r
      else if ts == [] then MergeRun(r.appended, true)
      else if ts[0] in existing then r
      else MergeRun(r.appended + [line], |ts| < 2)
  }

  /** A pass fails exactly when some `.tmp` line breaks it. */
  lemma {:induction false} MergeFails(tmpLines: seq<string>, existing: seq<string>)
    ensures Merge(tmpLines, existing).failed
      <==> exists i :: 0 <= i < |tmpLines| && Breaks(tmpLines[i], existing)
  {
    if tmpLines != [] {
      var init := tmpLines[..|tmpLines| - 1];
      MergeFails(init, existing);
      if exists i :: 0 <= i < |init| && Breaks(init[i], existing) {
        var i :| 0 <= i < |init| && Breaks(init[i], existing);
        assert tmpLines[i] == init[i];
      }
      if exists i :: 0 <= i < |tmpLines| && Breaks(tmpLines[i], existing) {
        var i :| 0 <= i < |tmpLines| && Breaks(tmpLines[i], existing);
        if i < |init| {
          assert init[i] == tmpLines[i];
        }
      }
    }
  }

  /** The snapshot of ledger IDs is not refreshed: a pass over `a + b` is a pass over `a`
      followed, unless it failed, by a pass over `b` against the same IDs. */
  lemma {:induction false} MergeSplit(a: seq<string>, b: seq<string>, existing: seq<string>)
    ensures var ra, rb := Merge(a, existing), Merge(b, existing);
      Merge(a + b, existing) == if ra.failed then ra else MergeRun(ra.appended + rb.appended, rb.failed)
    decreases |b|
  {
    if b == [] {
      assert a + b == a;
    } else {
      var b' := b[..|b| - 1];
      assert (a + b)[..|a + b| - 1] == a + b';
      assert (a + b)[|a + b| - 1] == b[|b| - 1];
      MergeSplit(a, b', existing);
      var ra := Merge(a, existing);
      if !ra.failed {
        assert (ra.appended + Merge(b', existing).appended) + [b[|b| - 1]]
          == ra.appended + (Merge(b', existing).appended + [b[|b| - 1]]);
      }
    }
  }

  /** The pass over the first `i + 1` lines is the pass over the first `i` lines followed by
      the step for line `i`. */
  lemma MergeNext(tmpLines: seq<string>, existing: seq<string>, i: nat)
    requires i < |tmpLines|
    ensures var r, ts := Merge(tmpLines[..i], existing), Split(tmpLines[i]);
      Merge(tmpLines[..i + 1], existing)
        == if r.failed then r
           else if ts == [] then MergeRun(r.appended, true)
           else if ts[0] in existing then r
           else MergeRun(r.appended + [tmpLines[i]], |ts| < 2)
  {
    assert tmpLines[..i + 1][..i] == tmpLines[..i];
  }

  /** A pass that has raised on the first `n` lines reads no further line. */
  lemma {:induction false} MergeStop(tmpLines: seq<string>, existing: seq<string>, n: nat)
    requires n <= |tmpLines|
    requires Merge(tmpLines[..n], existing).failed
    ensures Merge(tmpLines, existing) == Merge(tmpLines[..n], existing)
    decreases |tmpLines|
  {
    if n == |tmpLines| {
      assert tmpLines[..n] == tmpLines;
    } else {
      var init := tmpLines[..|tmpLines| - 1];
      assert init[..n] == tmpLines[..n];
      MergeStop(init, existing, n);
    }
  }

  /** Every appended line is a `.tmp` line. */
  lemma {:induction false} MergeFrom(tmpLines: seq<string>, existing: seq<string>)
    ensures forall k :: 0 <= k < |Merge(tmpLines, existing).appended| ==>
      Merge(tmpLines, existing).appended[k] in tmpLines
  {
    if tmpLines != [] {
      var init := tmpLines[..|tmpLines| - 1];
      MergeFrom(init, existing);
      assert forall l :: l in init ==> l in tmpLines;
    }
  }

  /** A pass that did not fail appended every line whose ID was new. */
  lemma {:induction false} MergeSelectsAll(tmpLines: seq<string>, existing: seq<string>)
    requires !Merge(tmpLines, existing).failed
    ensures forall i :: 0 <= i < |tmpLines| ==>
      Split(tmpLines[i]) != [] && (Split(tmpLines[i])[0] in existing || tmpLines[i] in Merge(tmpLines, existing).appended)
  {
    if tmpLines != [] {
      var init := tmpLines[..|tmpLines| - 1];
      assert !Merge(init, existing).failed;
      MergeSelectsAll(init, existing);
      forall i | 0 <= i < |init|
        ensures tmpLines[i] == init[i]
      {
      }
    }
  }

  /** The `.tmp` lines whose first token is `t`, in order: one query's hits. */
  function LinesOf(lines: seq<string>, t: string): seq<string> {
    if lines == [] then [] else
      var init := LinesOf(lines[..|lines| - 1], t);
      var line := lines[|lines| - 1];
      if Split(line) != [] && Split(line)[0] == t then init + [line] else init
  }

  lemma LinesOfSnoc(lines: seq<string>, line: string, t: string)
    ensures LinesOf(lines + [line], t)
      == LinesOf(lines, t) + if Split(line) != [] && Split(line)[0] == t then [line] else []
  {
    assert (lines + [line])[..|lines|] == lines;
  }

  /** A query new to this pass has all its hit lines appended, in order; a query already in
      the ledger has none. */
  lemma {:induction false} MergeKeepsQueries(tmpLines: seq<string>, existing: seq<string>, t: string)
    requires !Merge(tmpLines, existing).failed
    ensures LinesOf(Merge(tmpLines, existing).appended, t) == if t in existing then [] else LinesOf(tmpLines, t)
  {
    if tmpLines != [] {
      var init := tmpLines[..|tmpLines| - 1];
      var line := tmpLines[|tmpLines| - 1];
      var r := Merge(init, existing);
      assert !r.failed;
      MergeKeepsQueries(init, existing, t);
      var ts := Split(line);
      if ts[0] !in existing {
        LinesOfSnoc(r.appended, line, t);
      }
    }
  }

  /** A pass over lines that are all already in the ledger appends nothing and cannot fail. */
  lemma {:induction false} MergeNothingNew(tmpLines: seq<string>, existing: seq<string>)
    requires forall i :: 0 <= i < |tmpLines| ==> Split(tmpLines[i]) != [] && Split(tmpLines[i])[0] in existing
    ensures Merge(tmpLines, existing) == MergeRun([], false)
  {
    if tmpLines != [] {
      MergeNothingNew(tmpLines[..|tmpLines| - 1], existing);
    }
  }

  /** The lines appended from a `readlines()` result still have its shape. */
  lemma MergeShaped(tmpLines: seq<string>, existing: seq<string>)
    requires Shaped(tmpLines)
    ensures Shaped(Merge(tmpLines, existing).appended)
  {
    if tmpLines != [] {
      var init := tmpLines[..|tmpLines| - 1];
      MergeFrom(init, existing);
      MergeFrom(tmpLines, existing);
      var app := Merge(tmpLines, existing).appended;
      var app' := Merge(init, existing).appended;
      forall l | l in init
        ensures Terminated(l) && IsLine(l)
      {
        var i :| 0 <= i < |init| && init[i] == l;
        assert tmpLines[i] == l;
      }
      assert app == app' || app == app' + [tmpLines[|tmpLines| - 1]];
      forall k | 0 <= k < |app|
        ensures IsLine(app[k])
      {
        var i :| 0 <= i < |tmpLines| && tmpLines[i] == app[k];
      }
      forall k | 0 <= k < |app| - 1
        ensures Terminated(app[k])
      {
        assert app[k] == app'[k];
        assert app'[k] in init;
      }
    }
  }

  /** A `.tmp` line of the form `ID\t...` with an ID free of whitespace: its `split()` token
      and its first tab field agree. */
  predicate TabRecord(line: string) {
    var f := Before(line, '\t');
    f != [] && |f| < |line| && forall i :: 0 <= i < |f| ==> !IsSpace(f[i])
  }

  lemma LedgerIdsAppend(a: seq<string>, b: seq<string>)
    ensures LedgerIds(a + b) == LedgerIds(a) + LedgerIds(b)
  {
  }

  /** After a pass that did not fail over tab-separated records, every `.tmp` ID is either in
      the snapshot or the ID of a line the pass appended. */
  lemma MergedIdsKnown(tmpLines: seq<string>, existing: seq<string>)
    requires forall i :: 0 <= i < |tmpLines| ==> TabRecord(tmpLines[i])
    requires !Merge(tmpLines, existing).failed
    ensures var known := existing + LedgerIds(Merge(tmpLines, existing).appended);
      forall i :: 0 <= i < |tmpLines| ==> Split(tmpLines[i]) != [] && Split(tmpLines[i])[0] in known
  {
    var app := Merge(tmpLines, existing).appended;
    MergeSelectsAll(tmpLines, existing);
    forall i | 0 <= i < |tmpLines|
      ensures Split(tmpLines[i]) != [] && Split(tmpLines[i])[0] in existing + LedgerIds(app)
    {
      FirstTokenIsTabField(tmpLines[i]);
      if Split(tmpLines[i])[0] !in existing {
        var j :| 0 <= j < |app| && app[j] == tmpLines[i];
        assert LedgerIds(app)[j] == Before(tmpLines[i], '\t');
      }
    }
  }

  /** A second pass over an unchanged `.tmp` file, against the ledger the first pass left,
      appends nothing, provided the ledger ended with a complete line and every `.tmp` line
      is a tab-separated record. */
  lemma MergeIdempotent(ledgerText: string, tmpText: string)
    requires Terminated(ledgerText)
    requires forall i :: 0 <= i < |Lines(tmpText)| ==> TabRecord(Lines(tmpText)[i])
    requires !Merge(Lines(tmpText), LedgerIds(Lines(ledgerText))).failed
    ensures var app := Merge(Lines(tmpText), LedgerIds(Lines(ledgerText))).appended;
      Merge(Lines(tmpText), LedgerIds(Lines(ledgerText + Concat(app)))) == MergeRun([], false)
  {
    var tl := Lines(tmpText);
    var existing := LedgerIds(Lines(ledgerText));
    var app := Merge(tl, existing).appended;
    LinesShaped(tmpText);
    MergeShaped(tl, existing);
    LinesConcat(app);
    LinesAppend(ledgerText, Concat(app));
    LedgerIdsAppend(Lines(ledgerText), app);
    MergedIdsKnown(tl, existing);
    MergeNothingNew(tl, existing + LedgerIds(app));
  }

  /** No record is withheld: when the worker is mid-line, so that the `.tmp` text does not end
      with '\n', and that last line's query is new, the partial line is copied and the
      ledger is left without a final line break. */
  lemma PartialRecordCopied(ledgerText: string, tmpText: string)
    requires !Terminated(tmpText)
    requires var tl := Lines(tmpText); var ts := Split(tl[|tl| - 1]);
      ts != [] && ts[0] !in LedgerIds(Lines(ledgerText))
    requires !Merge(Lines(tmpText), LedgerIds(Lines(ledgerText))).failed
    ensures var tl := Lines(tmpText);
      var app := Merge(tl, LedgerIds(Lines(ledgerText))).appended;
      app != [] && app[|app| - 1] == tl[|tl| - 1] && !Terminated(ledgerText + Concat(app))
  {
    var tl := Lines(tmpText);
    var existing := LedgerIds(Lines(ledgerText));
    var last := tl[|tl| - 1];
    var r := Merge(tl[..|tl| - 1], existing);
    assert !r.failed;
    var app := r.appended + [last];
    assert Merge(tl, existing).appended == app;
    LastLineEndsText(tmpText);
    ConcatAppend(r.appended, [last]);
    assert Concat([last]) == last;
    var text := ledgerText + Concat(app);
    assert text[|text| - 1] == last[|last| - 1];
  }

  /** A line appended to a ledger that ends mid-line joins that line. When the unfinished line
      already holds its first tab, the ledger IDs do not change: the appended line's own ID
      never becomes a ledger ID. */
  lemma GluedLineHidesItsId(ledgerText: string, line: string)
    requires !Terminated(ledgerText)
    requires '\t' in Lines(ledgerText)[|Lines(ledgerText)| - 1]
    requires IsLine(line)
    ensures LedgerIds(Lines(ledgerText + line)) == LedgerIds(Lines(ledgerText))
  {
    var ls := Lines(ledgerText);
    var n := |ls| - 1;
    LinesAppendMidLine(ledgerText, line);
    var ls' := Lines(ledgerText + line);
    BeforeAppend(ls[n], line, '\t');
    var ids, ids' := LedgerIds(ls), LedgerIds(ls');
    forall k | 0 <= k < |ids|
      ensures ids'[k] == ids[k]
    {
      if k < n {
        assert ls'[k] == ls[k];
      } else {
        assert ls'[k] == ls[n] + line;
      }
    }
  }

  /** The harm of a copied half-written record: when the ledger ends mid-record and the next
      pass copies a single line, that line joins the unfinished record, and the pass after it,
      over the same `.tmp` text, copies the same line again. */
  lemma GluedRecordCopiedAgain(ledgerText: string, tmpText: string)
    requires !Terminated(ledgerText)
    requires '\t' in Lines(ledgerText)[|Lines(ledgerText)| - 1]
    requires |Merge(Lines(tmpText), LedgerIds(Lines(ledgerText))).appended| == 1
    ensures var first := Merge(Lines(tmpText), LedgerIds(Lines(ledgerText)));
      Merge(Lines(tmpText), LedgerIds(Lines(ledgerText + Concat(first.appended)))) == first
  {
    var app := Merge(Lines(tmpText), LedgerIds(Lines(ledgerText))).appended;
    LinesShaped(tmpText);
    MergeShaped(Lines(tmpText), LedgerIds(Lines(ledgerText)));
    assert Concat(app) == app[0];
    GluedLineHidesItsId(ledgerText, app[0]);
  }
}
