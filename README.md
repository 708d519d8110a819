# BLAST batch helper — a Dafny model of its resume bookkeeping

`blast_batch_helper.py` runs a BLAST search that may be killed and started again. The worker
writes tab-separated hits to `OUT.tmp`. While the worker runs, the helper polls it and copies
into the durable ledger `OUT` every `.tmp` line whose query ID the ledger does not yet hold.
When the worker exits, the helper writes the empty marker `OUT.ok` and removes `OUT.tmp`.

On start-up the helper acts on what it finds:
- With `OUT` and `OUT.ok`, it does nothing.
- With `OUT` only, it resumes. It finds the last query ID in the ledger, takes the FASTA ID
  right after it, and copies the FASTA file from that query's header to the end into
  `FASTA.from_ID.fasta`. The worker is then run on that file.
- Without `OUT`, it runs the worker on the whole FASTA file.

This model covers that bookkeeping. Each Python function becomes a method of
`BatchHelper.Helper`. The class holds the two path arguments, the optional `-others` argument,
the module-global `fasta_ids` list, and the files. Each method is proved against pure functions, and the properties of the
script are proved about those functions as lemmas.

The modules are:
- `Outcomes`: Python's exceptions (`FileNotFoundError`, `ValueError`, `IndexError`,
  `TypeError`) as an `Err` result.
- `PyText`: the string operations the script uses.
  - `split('\t')[0]` and `split(' ')[0]` are `Before`.
  - `split()` is `Split`, which splits on Python's `isspace` characters.
  - `readlines()` is `Lines`, and `Concat` turns lines back into text. Lemmas relate the two.
- `Fasta`: header IDs (`parse_fasta`), `list.index`, the ID to resume from, and the lines
  copied into a resume file.
- `Ledger`: ledger IDs (`parse_blast_id`), the last-hit decision (`blast_last_result`) and
  the line selection of `extract_blast_output`.
- `Lifecycle`: the files as a map from path to text, the derived file names, one merge, the
  poll rounds, the finish of `blast_work`, and `main`'s decision.
- `BatchHelper`: the class with one method per function of the script.

Each file is modelled by its text, not by a list of lines. Python's `write(line)` adds no line
break, so a last line copied without its '\n' runs into the next line appended. A list of
lines cannot show that; text can (`Ledger.PartialRecordCopied`).

The model follows the code as written. These behaviours are kept on purpose:
- A header with no space yields an ID that keeps its trailing '\n' (`Fasta.BareHeaderId`).
- The resume file starts at the first line that merely starts with `'>' + start_id`.
- Once copying starts, it runs to the end of the file.
- The ledger IDs are read once per merge and are not refreshed as lines are appended.
- A blank `.tmp` line raises `IndexError` at `result[0]`.
- A one-token `.tmp` line with a new ID is written, and then raises `IndexError` in the print
  of `result[1]`.
- No merge follows the poll loop, so whatever the worker writes after the last poll never
  reaches the ledger (`Lifecycle.TailNeverMerged`).
- A half-written last `.tmp` line is copied as it is (`Ledger.PartialRecordCopied`). The next
  line copied then joins it, so that line's ID never becomes a ledger ID, and a later pass
  over the same `.tmp` copies it again (`Ledger.GluedRecordCopiedAgain`).
- `-others` has no default. Without it, building the command line at
  blast_batch_helper.py:104 adds `None` to a string and raises `TypeError`. By then `.tmp` has
  been removed and, on a resume, the resume file has been written; no worker is started
  (`Lifecycle.BlastWorkRun`).

The script does not check that ledger lines have 12 tab fields. It does not sort queries into
finished, recheck and unfinished sets, and a resume file holds every line from the start
query's header on. It does not hold back the last, possibly unfinished, record when it
merges, it does not merge again after the worker exits, and it estimates no ETA. The model
does none of this either.

## Model

| member | source | states |
|---|---|---|
| PyText.Before | blast_batch_helper.py:34 | `split(sep)[0]` is a prefix of the line with no separator in it, ended by the separator or by the end of the line |
| PyText.BeforeAppend | blast_batch_helper.py:34 | text added after a line's first tab does not change the field `split('\t')[0]` reads |
| PyText.Split | blast_batch_helper.py:125 | every token of `split()` is non-empty and holds no whitespace |
| PyText.SplitEmpty | blast_batch_helper.py:125-126 | `split()` gives no token exactly when the line is all whitespace, which is when `result[0]` raises |
| PyText.FirstTokenIsTabField | blast_batch_helper.py:121-126 | for a record whose first tab field is non-empty and has no whitespace, the `split()` token the merge tests is the tab field `parse_blast_id` reads |
| PyText.Lines | blast_batch_helper.py:23 | `readlines()` gives no more lines than the text has characters, and no empty line |
| PyText.ConcatLines | blast_batch_helper.py:23 | writing back the lines `readlines()` returns gives the same text |
| PyText.LinesShaped | blast_batch_helper.py:23 | every line `readlines()` returns is non-empty, and every line but the last ends with '\n' |
| PyText.LinesConcat | blast_batch_helper.py:123 | reading back lines of that shape after writing them returns the same lines |
| PyText.LinesAppend | blast_batch_helper.py:127-129 | appending text to a file that ends with '\n' appends its lines to the lines read before |
| PyText.LinesAppendMidLine | blast_batch_helper.py:127-129 | appending a line to a file that ends without '\n' joins it to the file's last line instead of adding a line |
| Fasta.FastaId | blast_batch_helper.py:25 | the ID follows the '>' of its header, has no space, and ends at the first space or at the end of the header |
| Fasta.FastaIds | blast_batch_helper.py:21-27 | there are at most as many IDs as lines, and no ID contains a space |
| Fasta.FastaIdsAppend | blast_batch_helper.py:23-25 | the IDs of two joined pieces of a file are the IDs of the first piece followed by those of the second |
| Fasta.FastaIdsMember | blast_batch_helper.py:23-25 | a string is listed exactly when some header line has it as its ID |
| Fasta.FastaIdsCount | blast_batch_helper.py:21-27 | there are exactly as many IDs as header lines |
| Fasta.BareHeaderId | blast_batch_helper.py:25 | a header with no space keeps its '\n' in its ID |
| Fasta.IndexOf | blast_batch_helper.py:49 | `list.index` gives the position of the first occurrence |
| Fasta.ResumeStart | blast_batch_helper.py:63-65 | the start ID is the one right after the first occurrence of the last hit; `IndexError` exactly when no ID follows that occurrence |
| Fasta.SubfastaLines | blast_batch_helper.py:72-80 | the copied lines are a suffix of the FASTA file's lines, start with a line that starts with `'>' + start_id` when there are any, and no line before them starts with it |
| Fasta.FirstMatch | blast_batch_helper.py:72-76 | the copy starts at the first line that starts with the marker; no earlier line does |
| Fasta.HeaderMatch | blast_batch_helper.py:75 | for an ID with no space, the line test holds exactly for header lines whose ID has the start ID as a prefix |
| Fasta.SubfastaIds | blast_batch_helper.py:72-80 | the resume file's IDs are the original IDs from the first one that has the start ID as a prefix; there are none when no header matches |
| Fasta.ResumeFromNextQuery | blast_batch_helper.py:63-80 | the resume file holds exactly the queries after the last hit if and only if no ID up to the last hit has the start ID as a prefix |
| Ledger.LedgerIds | blast_batch_helper.py:33-34 | one ID per ledger line, in order; each is a prefix of its line and holds no tab |
| Ledger.LastHitOf | blast_batch_helper.py:41-55 | the `-1` sentinel iff the ledger is empty. Otherwise `ValueError` iff the last ledger ID is not a FASTA ID; else the last ledger ID with a finished count in `1..len(fasta_ids)` at its first occurrence |
| Ledger.BareHeadersBreakLookup | blast_batch_helper.py:46-49 | when no header has a description, a ledger whose last ID has no '\n' makes the lookup raise `ValueError` |
| Ledger.Merge | blast_batch_helper.py:120-130 | the lines written are `.tmp` lines, no more of them than `.tmp` has, and each one's first token is not among the ledger IDs |
| Ledger.MergeFails | blast_batch_helper.py:124-130 | a merge raises exactly when some `.tmp` line is blank, or has a new ID and a single token |
| Ledger.MergeSplit | blast_batch_helper.py:121 | the ID snapshot is not refreshed: merging `a + b` merges `a`, then, unless that raised, merges `b` against the same IDs |
| Ledger.MergeNext | blast_batch_helper.py:123-130 | the pass over one more `.tmp` line is the pass so far followed by that line's step: stop if already raised, raise on a blank line, skip a known ID, else write the line and raise if it has a single token |
| Ledger.MergeStop | blast_batch_helper.py:123-130 | once the pass has raised, no further `.tmp` line is read |
| Ledger.MergeFrom | blast_batch_helper.py:123-128 | every line written to the ledger is a `.tmp` line |
| Ledger.MergeSelectsAll | blast_batch_helper.py:123-129 | after a merge that raised nothing, every `.tmp` line's ID is either in the snapshot or its line was written |
| Ledger.MergeKeepsQueries | blast_batch_helper.py:123-129 | the hit lines of a query new to the ledger are all written, in `.tmp` order; a known query has none written |
| Ledger.MergeNothingNew | blast_batch_helper.py:126 | when every `.tmp` ID is already in the ledger, the merge writes nothing and raises nothing |
| Ledger.MergeShaped | blast_batch_helper.py:123-129 | the lines written keep the shape of `readlines()` output |
| Ledger.LedgerIdsAppend | blast_batch_helper.py:33-34 | the ledger IDs of two joined pieces of a ledger are those of the first piece followed by those of the second |
| Ledger.MergedIdsKnown | blast_batch_helper.py:121-129 | after a pass over tab-separated records that raised nothing, every `.tmp` ID is in the snapshot or is the ID of a line the pass wrote |
| Ledger.MergeIdempotent | blast_batch_helper.py:121-129 | with whitespace-free IDs and a ledger that ends with '\n', a second merge of the same `.tmp` file writes nothing, because the new IDs are in the re-read snapshot |
| Ledger.PartialRecordCopied | blast_batch_helper.py:123-129 | a half-written last line with a new ID is copied, and the ledger is left without a final '\n' |
| Ledger.GluedLineHidesItsId | blast_batch_helper.py:121-129 | a line appended to a ledger that ends mid-record, past that record's first tab, leaves the ledger IDs exactly as they were |
| Ledger.GluedRecordCopiedAgain | blast_batch_helper.py:121-129 | when the ledger ends mid-record and a pass copies one line, the next pass over the same `.tmp` text copies that line again |
| Lifecycle.LedgerIdsIn | blast_batch_helper.py:29-39 | no IDs without a ledger; otherwise one per ledger line, each a tab-free prefix of its line |
| Lifecycle.SubfastaPath | blast_batch_helper.py:66 | the resume file is never the FASTA file itself; its name is the FASTA path, `.from_`, the start ID and `.fasta`, and the start ID can be read back from it |
| Lifecycle.QueryPath | blast_batch_helper.py:99-102 | an argument without the `id_` prefix is the worker's input as it is; one with it names the resume file of the ID after the prefix |
| Lifecycle.ResumeQueryRoundTrip | blast_batch_helper.py:99-100 | the `'id_' + start_id` returned at :81 leads `blast_work` back to the exact file written at :66 |
| Lifecycle.OriginQueryPath | blast_batch_helper.py:99-102 | the FASTA path reaches the worker unchanged iff it does not itself start with `id_` |
| Lifecycle.AppendLines | blast_batch_helper.py:78-80 | writing lines one by one in append mode appends their text to the file, creates the file only when something is written, and changes no other file |
| Lifecycle.AppendLinesStep | blast_batch_helper.py:78-80 | appending one more line to a file written line by line appends it to the list of lines written |
| Lifecycle.WorkerWrites | blast_batch_helper.py:103-106 | the worker's output is appended to `.tmp`, which exists afterwards iff it existed or something was written; no other file changes |
| Lifecycle.MergeStep | blast_batch_helper.py:116-132 | without `.tmp` nothing changes. Otherwise only the ledger changes and its old text stays a prefix; an exception raised is `IndexError` |
| Lifecycle.PollRound | blast_batch_helper.py:107-109 | one poll keeps the ledger's old text as a prefix, leaves the worker's chunk appended to `.tmp`, and changes no other file; an exception raised is `ValueError` or `IndexError` |
| Lifecycle.PollRounds | blast_batch_helper.py:107-111 | across the whole poll loop the ledger only grows at its end, and no other file but `.tmp` changes; an exception raised is `ValueError` or `IndexError` |
| Lifecycle.PollRoundsNext | blast_batch_helper.py:107-109 | the loop over one more chunk is the loop so far, then one more poll unless it has already raised |
| Lifecycle.PollRoundsStop | blast_batch_helper.py:107-109 | once a poll raises, later worker output changes nothing |
| Lifecycle.Finish | blast_batch_helper.py:113-114 | the finish leaves an empty marker, no `.tmp`, and every other file as it was |
| Lifecycle.WorkRun | blast_batch_helper.py:98-114 | the ledger only grows. A run that raised nothing leaves the marker, no `.tmp`, and the ledger the poll loop left. A run that raised leaves the marker as it was, and raised `ValueError` or `IndexError` |
| Lifecycle.BlastWorkRun | blast_batch_helper.py:98-114 | `TypeError` exactly when `-others` is missing, and then only `.tmp` has been removed; in every case the ledger only grows |
| Lifecycle.FinishDropsWrites | blast_batch_helper.py:113-114 | the finish removes `.tmp`, so what the worker wrote there just before it makes no difference |
| Lifecycle.TailNeverMerged | blast_batch_helper.py:107-114 | what the worker writes after the last poll does not change the outcome |
| Lifecycle.Decide | blast_batch_helper.py:134-146 | finished iff ledger and marker both exist; resume iff the ledger exists without a marker; fresh start iff there is no ledger |
| Lifecycle.FinishedRunIsFinal | blast_batch_helper.py:134-137 | after a run that finished, the next start does nothing iff the ledger exists, so a run with no hits on a fresh start is repeated |
| BatchHelper.Helper.constructor | blast_batch_helper.py:12-19 | the two paths and `args.others` (absent when `-others` is not given) are fixed, and `fasta_ids` starts empty |
| BatchHelper.Helper.ParseFasta | blast_batch_helper.py:21-27 | `FileNotFoundError` without the FASTA file; otherwise `fasta_ids` gains the header IDs in file order and is returned |
| BatchHelper.Helper.ParseBlastId | blast_batch_helper.py:29-39 | nothing without a ledger; otherwise one entry per ledger line, in order, each the text before the line's first tab |
| BatchHelper.Helper.BlastLastResult | blast_batch_helper.py:41-55 | the result is the last-hit decision over `fasta_ids` and the ledger IDs |
| BatchHelper.Helper.PrepareSubfasta | blast_batch_helper.py:57-84 | an unknown last hit leaves the files as they were (`ValueError`), and so does one with no next ID (`IndexError`); no hits returns the FASTA path; otherwise any stale resume file is replaced by exactly the copied lines, and `'id_' + start_id` is returned |
| BatchHelper.Helper.WriteSubfasta | blast_batch_helper.py:72-80 | the new resume file receives exactly the lines from the first match to the end |
| BatchHelper.Helper.WriteOkMark | blast_batch_helper.py:86-88 | the marker exists and is empty; nothing else changes |
| BatchHelper.Helper.CleanTmpFile | blast_batch_helper.py:90-92 | `.tmp` is gone; nothing else changes |
| BatchHelper.Helper.ExtractBlastOutput | blast_batch_helper.py:116-132 | the files become those of one merge, and `IndexError` is raised exactly when that merge raises |
| BatchHelper.Helper.PollOnce | blast_batch_helper.py:107-109 | one poll: the files and the exception are those of one poll round |
| BatchHelper.Helper.PollLoop | blast_batch_helper.py:107-111 | the files and the exception are those of the whole poll loop over the chunks |
| BatchHelper.Helper.BlastWork | blast_batch_helper.py:94-114 | without `-others` no worker is launched and `TypeError` is raised after `.tmp` is removed; otherwise the worker gets the input derived from the argument. The files and the exception are those of the whole run |
| BatchHelper.Helper.Run | blast_batch_helper.py:134-146 | a finished run changes nothing. A missing FASTA file raises before any launch. A fresh start runs on the FASTA path. A resume raises `ValueError` or `IndexError` without launching, or runs on the FASTA path when the ledger holds no hits, or runs on exactly the resume file `prepare_subfasta` wrote. Every launch needs `-others`; without it the run raises `TypeError` where it would have launched |

## Left out

- Argument parsing: the FASTA path, the ledger path and `args.others` are the class's
  constants. `-others` has no default, so `args.others` is `None` when it is not given, and
  the command line at blast_batch_helper.py:104 then raises `TypeError`; the model keeps this
  case. The program name, database and thread count are required and only shape the command.
- The shell command and `subprocess.Popen`: the worker is a foreign process. What it writes
  to `.tmp` is given as input. `rounds` holds its writes before each poll, and `tail` holds
  what it writes after the last poll. A worker that has written nothing has not created
  `.tmp` in the model; the real BLAST may create it empty at start-up.
- BatchHelper.Helper.BlastWork: the worker's output does not depend on the input it is
  launched on, since BLAST itself is not modelled. `launched` only names that input.
- `poll()` and `time.sleep(20)`: process liveness and timing are replaced by the number of
  polls, which is the length of `rounds`.
- Ledger.LastHitOf: the finished percentage at blast_batch_helper.py:54 is floating-point
  output and is not modelled. Its divisor cannot be zero, because `list.index` has already
  raised `ValueError` on an empty list.
- All printing is left out, except the `IndexError` that the print at
  blast_batch_helper.py:130 raises.
- Real operating-system calls: `open`, `os.path.exists` and `os.remove` work on a map from
  path to text. Errors such as permissions, a full disk or a `UnicodeDecodeError` while
  reading a file that is not valid text are not modelled.
- Newline translation on reading is not modelled: files are taken to use '\n' line breaks.
- Paths are plain strings, so two spellings of one file are two entries.
