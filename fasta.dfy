/** The query side: FASTA header IDs (`parse_fasta`), the first-occurrence lookup of
    `list.index`, and the lines `prepare_subfasta` copies into a resume file. */
module Fasta {
  import opened PyText
  import opened Outcomes

  /** `line.startswith('>')`: a FASTA header line. */
  predicate IsHeader(line: string) {
    StartsWith(line, ">")
  }

  /** `line.split(' ')[0][1:]`: the header's text up to its first space, without the '>'.
      A header with no space keeps everything, its '\n' included. */
  function FastaId(header: string): (id: string)
    requires IsHeader(header)
    ensures StartsWith(header, ">" + id) && ' ' !in id
    ensures |id| + 1 == |header| || header[|id| + 1] == ' '
  {
    var b := Before(header, ' ');
    assert b != [] by { assert header[0] == '>'; }
    assert b == [b[0]] + b[1..];
    b[1..]
  }

  /** The IDs `parse_fasta` appends, one per header line, in file order. */
  function FastaIds(lines: seq<string>): (ids: seq<string>)
    ensures |ids| <= |lines|
    ensures forall k :: 0 <= k < |ids| ==> ' ' !in ids[k]
  {
    if lines == [] then [] else
      var init := FastaIds(lines[..|lines| - 1]);
      var last := lines[|lines| - 1];
      if IsHeader(last) then init + [FastaId(last)] else init
  }

  /** The positions of the header lines. */
  ghost function HeaderPositions(lines: seq<string>): set<nat> {
    set i: nat | i < |lines| && IsHeader(lines[i])
  }

  /** Splitting the file anywhere splits its ID list at the same place. */
  lemma {:induction false} FastaIdsAppend(a: seq<string>, b: seq<string>)
    ensures FastaIds(a + b) == FastaIds(a) + FastaIds(b)
    decreases |b|
  {
    if b == [] {
      assert a + b == a;
    } else {
      var b' := b[..|b| - 1];
      assert (a + b)[..|a + b| - 1] == a + b';
      assert (a + b)[|a + b| - 1] == b[|b| - 1];
      FastaIdsAppend(a, b');
    }
  }

  /** An ID is listed exactly when some header line carries it. */
  lemma {:induction false} FastaIdsMember(lines: seq<string>, x: string)
    ensures x in FastaIds(lines) <==> exists i :: 0 <= i < |lines| && IsHeader(lines[i]) && FastaId(lines[i]) == x
  {
    if lines != [] {
      var init := lines[..|lines| - 1];
      FastaIdsMember(init, x);
      if x in FastaIds(init) {
        var i :| 0 <= i < |init| && IsHeader(init[i]) && FastaId(init[i]) == x;
        assert lines[i] == init[i];
      }
      if exists i :: 0 <= i < |lines| && IsHeader(lines[i]) && FastaId(lines[i]) == x {
        var i :| 0 <= i < |lines| && IsHeader(lines[i]) && FastaId(lines[i]) == x;
        if i < |init| {
          assert init[i] == lines[i];
        }
      }
    }
  }

  /** There are as many IDs as header lines. */
  lemma {:induction false} FastaIdsCount(lines: seq<string>)
    ensures |FastaIds(lines)| == |HeaderPositions(lines)|
  {
    if lines == [] {
      assert HeaderPositions(lines) == {};
    } else {
      var n := |lines| - 1;
      var init := lines[..n];
      FastaIdsCount(init);
      if IsHeader(lines[n]) {
        assert HeaderPositions(lines) == HeaderPositions(init) + {n};
      } else {
        assert HeaderPositions(lines) == HeaderPositions(init);
      }
    }
  }

  /** A header with no description, `>ID\n`, yields `ID\n`: the line break stays in the ID. */
  lemma BareHeaderId(id: string)
    requires ' ' !in id
    ensures FastaId(">" + id + "\n") == id + "\n"
  {
    var h := ">" + id + "\n";
    assert ' ' !in h;
  }

  /** `s.index(x)`: the position of the first occurrence of `x` in `s`. */
  function IndexOf(s: seq<string>, x: string): (k: nat)
    requires x in s
    ensures k < |s| && s[k] == x && x !in s[..k]
  {
    if s[0] == x then 0 else
      var k := 1 + IndexOf(s[1..], x);
      assert s[..k] == [s[0]] + s[1..][..k - 1];
      k
  }

  /** `fasta_ids[fasta_ids.index(last_hit) + 1]`: the ID right after the first occurrence of
      the last hit, or `IndexError` when that occurrence is the final ID. */
  function ResumeStart(fastaIds: seq<string>, lastHit: string): (r: Result<string>)
    requires lastHit in fastaIds
    ensures r.Err? <==> lastHit !in fastaIds[..|fastaIds| - 1]
    ensures r.Err? ==> r.error == IndexError
    ensures r.Ok? ==> var k := IndexOf(fastaIds, lastHit); k + 1 < |fastaIds| && r.value == fastaIds[k + 1]
  {
    var k := IndexOf(fastaIds, lastHit);
    if k + 1 < |fastaIds| then
      assert fastaIds[..|fastaIds| - 1][k] == lastHit;
      Ok(fastaIds[k + 1])
    else
      assert fastaIds[..|fastaIds| - 1] == fastaIds[..k];
      Err(IndexError)
  }

  /** The position of the first line starting with `prefix`, or `|lines|` when none does. */
  function FirstMatch(lines: seq<string>, prefix: string): (m: nat)
    ensures m <= |lines|
    ensures forall j :: 0 <= j < m ==> !StartsWith(lines[j], prefix)
    ensures m < |lines| ==> StartsWith(lines[m], prefix)
  {
    if lines == [] then 0
    else if StartsWith(lines[0], prefix) then 0
    else
      var m := 1 + FirstMatch(lines[1..], prefix);
      assert forall j :: 1 <= j < m ==> lines[j] == lines[1..][j - 1];
      m
  }

  /** The lines `prepare_subfasta` copies: every line from the first one that starts with
      `'>' + startId` to the end of the file, since the copy flag is never switched off. */
  function SubfastaLines(lines: seq<string>, startId: string): (sub: seq<string>)
    ensures |sub| <= |lines| && sub == lines[|lines| - |sub|..]
    ensures sub != [] ==> StartsWith(sub[0], ">" + startId)
    ensures forall j :: 0 <= j < |lines| - |sub| ==> !StartsWith(lines[j], ">" + startId)
  {
    lines[FirstMatch(lines, ">" + startId)..]
  }

  /** With an ID free of spaces, the prefix test on a line is a prefix test on its header ID. */
  lemma HeaderMatch(line: string, startId: string)
    requires ' ' !in startId
    ensures StartsWith(line, ">" + startId) <==> IsHeader(line) && StartsWith(FastaId(line), startId)
  {
    var p := ">" + startId;
    if StartsWith(line, p) {
      var b := Before(line, ' ');
      forall i | 0 <= i < |p|
        ensures line[i] != ' '
      {
        assert line[i] == p[i];
        if i > 0 {
          assert p[i] == startId[i - 1];
        }
      }
      assert |b| >= |p|;
      assert b[..|p|] == line[..|p|];
      assert FastaId(line) == b[1..];
      assert b[1..][..|startId|] == startId;
    }
  }

  /** The queries of a resume file: the original ID list from its first ID that has `startId`
      as a prefix, which is also where the copy began. */
  lemma SubfastaIds(lines: seq<string>, startId: string)
    requires ' ' !in startId
    ensures var ids := FastaIds(lines);
      var c := |FastaIds(lines[..FirstMatch(lines, ">" + startId)])|;
      && c <= |ids|
      && FastaIds(SubfastaLines(lines, startId)) == ids[c..]
      && (forall j :: 0 <= j < c ==> !StartsWith(ids[j], startId))
      && (c < |ids| ==> StartsWith(ids[c], startId))
      && (FirstMatch(lines, ">" + startId) < |lines| <==> c < |ids|)
  {
    var m := FirstMatch(lines, ">" + startId);
    var before, after := lines[..m], lines[m..];
    assert lines == before + after;
    FastaIdsAppend(before, after);
    var ids := FastaIds(lines);
    var c := |FastaIds(before)|;
    forall j | 0 <= j < c
      ensures !StartsWith(ids[j], startId)
    {
      var x := ids[j];
      assert x in FastaIds(before);
      FastaIdsMember(before, x);
      var i :| 0 <= i < |before| && IsHeader(before[i]) && FastaId(before[i]) == x;
      HeaderMatch(before[i], startId);
    }
    if m < |lines| {
      HeaderMatch(lines[m], startId);
      assert after == [lines[m]] + after[1..];
      FastaIdsAppend([lines[m]], after[1..]);
      assert [lines[m]][..0] == [];
      assert FastaIds([lines[m]]) == [FastaId(lines[m])];
    } else {
      assert after == [];
    }
  }

  /** The resume file starts exactly at the query after the last hit, dropping every finished
      query before it, if and only if no query up to the last hit has the start ID as a prefix. */
  lemma ResumeFromNextQuery(lines: seq<string>, lastHit: string)
    requires lastHit in FastaIds(lines)
    requires ResumeStart(FastaIds(lines), lastHit).Ok?
    ensures var ids := FastaIds(lines);
      var k := IndexOf(ids, lastHit);
      var startId := ResumeStart(ids, lastHit).value;
      var resumed := FastaIds(SubfastaLines(lines, startId));
      resumed == ids[k + 1..] <==> forall j :: 0 <= j <= k ==> !StartsWith(ids[j], startId)
  {
    var ids := FastaIds(lines);
    var k := IndexOf(ids, lastHit);
    var startId := ids[k + 1];
    assert ' ' !in startId;
    SubfastaIds(lines, startId);
    var c := |FastaIds(lines[..FirstMatch(lines, ">" + startId)])|;
    assert StartsWith(ids[k + 1], startId);
    assert c <= k + 1;
    if c < k + 1 {
      assert |ids[c..]| != |ids[k + 1..]|;
    }
  }
}
