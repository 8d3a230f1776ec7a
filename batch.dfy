/** The batch-add parser (`batch_add`, app.py): one player per line, written
    `name,job[,note]`; bad lines are reported by line number and skipped. */
module Batch {
  import opened Text
  import opened Roster

  /** A rejected line, numbered from 1: too few fields, or an unknown job. */
  datatype LineError = FormatError(line: nat) | JobError(line: nat, job: string)

  /** The fields of a new player read off one accepted line. */
  datatype Draft = Draft(name: string, job: string, note: Option<string>)

  datatype LineOutcome = Accept(draft: Draft) | Reject(error: LineError)

  /** `request.form.get('players', '')`. */
  function FormText(players: Option<string>): string {
    match players
    case None => ""
    case Some(s) => s
  }

  /** The lines of the submitted text: stripped as a whole, then split at
      line boundaries. A blank submission has no lines at all. */
  function BatchLines(text: string): (lines: seq<string>)
    ensures lines == [] <==> AllSpace(text)
    ensures forall k :: 0 <= k < |lines| ==> NoLineBreak(lines[k])
  {
    StripEmptyIffAllSpace(text);
    SplitLines(Strip(text))
  }

  /** The comma-separated fields of a line, each stripped. */
  function Fields(line: string): (fields: seq<string>)
    ensures |fields| == Occurrences(line, ',') + 1
  {
    var parts := Split(line, ',');
    seq(|parts|, i requires 0 <= i < |parts| => Strip(parts[i]))
  }

  /** What the parser makes of line number `idx`. */
  function ParseLine(line: string, idx: nat): (r: LineOutcome)
    ensures r.Reject? ==> r.error.line == idx
    ensures r == Reject(FormatError(idx)) <==> Occurrences(line, ',') == 0
    ensures r.Accept? <==> Occurrences(line, ',') >= 1 && Fields(line)[1] in JOBS
    ensures r.Accept? ==> r.draft.job in JOBS
    ensures r.Accept? ==> (r.draft.note.Some? <==> Occurrences(line, ',') >= 2)
  {
    var parts := Fields(line);
    if |parts| < 2 then Reject(FormatError(idx))
    else if parts[1] !in JOBS then Reject(JobError(idx, parts[1]))
    else Accept(Draft(parts[0], parts[1], if |parts| > 2 then Some(parts[2]) else None))
  }

  /** A line is a format error exactly when it has no comma. */
  lemma FormatErrorIffNoComma(line: string, idx: nat)
    ensures ParseLine(line, idx) == Reject(FormatError(idx)) <==> ',' !in line
  {
    OccurrencesZero(line, ',');
  }

  /** The outcome of every line, numbered from 1. */
  function Outcomes(lines: seq<string>): (outs: seq<LineOutcome>)
    ensures |outs| == |lines|
  {
    seq(|lines|, i requires 0 <= i < |lines| => ParseLine(lines[i], i + 1))
  }

  /** The drafts of the accepted lines, in line order. */
  function Drafts(outs: seq<LineOutcome>): (ds: seq<Draft>)
    ensures |ds| <= |outs|
  {
    if outs == [] then []
    else
      var last := outs[|outs| - 1];
      Drafts(outs[..|outs| - 1]) + (if last.Accept? then [last.draft] else [])
  }

  /** The errors of the rejected lines, in line order. */
  function Errors(outs: seq<LineOutcome>): (es: seq<LineError>)
    ensures |es| <= |outs|
  {
    if outs == [] then []
    else
      var last := outs[|outs| - 1];
      Errors(outs[..|outs| - 1]) + (if last.Reject? then [last.error] else [])
  }

  /** The parsing loop of `batch_add`: `added_count`, the pending new players
      and the error list, line by line. */
  method ParseBatch(lines: seq<string>) returns (added: nat, drafts: seq<Draft>, errors: seq<LineError>)
    ensures drafts == Drafts(Outcomes(lines))
    ensures errors == Errors(Outcomes(lines))
    ensures added == |drafts|
  {
    added, drafts, errors := 0, [], [];
    ghost var outs := Outcomes(lines);
    var idx := 1;
    while idx <= |lines|
      invariant 1 <= idx <= |lines| + 1
      invariant drafts == Drafts(outs[..idx - 1])
      invariant errors == Errors(outs[..idx - 1])
      invariant added == |drafts|
    {
      var line := lines[idx - 1];
      var parts := Fields(line);
      ghost var done := outs[..idx];
      assert done[..idx - 1] == outs[..idx - 1];
      assert done[idx - 1] == ParseLine(line, idx);
      assert Drafts(done) == drafts + (if done[idx - 1].Accept? then [done[idx - 1].draft] else []);
      assert Errors(done) == errors + (if done[idx - 1].Reject? then [done[idx - 1].error] else []);
      if |parts| < 2 {
        errors := errors + [FormatError(idx)];
      } else if parts[1] !in JOBS {
        errors := errors + [JobError(idx, parts[1])];
      } else {
        var note := if |parts| > 2 then Some(parts[2]) else None;
        drafts := drafts + [Draft(parts[0], parts[1], note)];
        added := added + 1;
      }
      idx := idx + 1;
    }
    assert outs[..|lines|] == outs;
  }

  // ------------------------------------------------------------ properties

  /** Line numbers run 1, 2, ... in the outcome list. */
  ghost predicate Numbered(outs: seq<LineOutcome>) {
    forall i :: 0 <= i < |outs| && outs[i].Reject? ==> outs[i].error.line == i + 1
  }

  lemma OutcomesNumbered(lines: seq<string>)
    ensures Numbered(Outcomes(lines))
  {
  }

  /** Every line either adds a player or yields exactly one error. */
  lemma {:induction false} EveryLineAccountedFor(outs: seq<LineOutcome>)
    ensures |Drafts(outs)| + |Errors(outs)| == |outs|
  {
    if outs != [] {
      EveryLineAccountedFor(outs[..|outs| - 1]);
    }
  }

  /** Each error names a rejected line and carries that line's error. */
  lemma {:induction false} ErrorsNameRejectedLines(outs: seq<LineOutcome>)
    requires Numbered(outs)
    ensures forall j :: 0 <= j < |Errors(outs)| ==>
      1 <= Errors(outs)[j].line <= |outs| && outs[Errors(outs)[j].line - 1] == Reject(Errors(outs)[j])
  {
    if outs != [] {
      var n := |outs| - 1;
      var front := outs[..n];
      assert Numbered(front) by {
        forall i | 0 <= i < n && front[i].Reject? ensures front[i].error.line == i + 1 {
          assert front[i] == outs[i];
        }
      }
      ErrorsNameRejectedLines(front);
      var errs := Errors(outs);
      var before := Errors(front);
      forall j | 0 <= j < |errs|
        ensures 1 <= errs[j].line <= |outs| && outs[errs[j].line - 1] == Reject(errs[j])
      {
        if j < |before| {
          assert errs[j] == before[j];
          assert front[before[j].line - 1] == outs[before[j].line - 1];
        } else {
          assert errs[j] == outs[n].error;
        }
      }
    }
  }

  /** The errors come in line order, one per line at most. */
  lemma {:induction false} ErrorsInLineOrder(outs: seq<LineOutcome>)
    requires Numbered(outs)
    ensures forall j, k :: 0 <= j < k < |Errors(outs)| ==> Errors(outs)[j].line < Errors(outs)[k].line
  {
    if outs != [] {
      var n := |outs| - 1;
      var front := outs[..n];
      assert Numbered(front) by {
        forall i | 0 <= i < n && front[i].Reject? ensures front[i].error.line == i + 1 {
          assert front[i] == outs[i];
        }
      }
      ErrorsInLineOrder(front);
      ErrorsNameRejectedLines(front);
      var errs := Errors(outs);
      var before := Errors(front);
      forall j, k | 0 <= j < k < |errs| ensures errs[j].line < errs[k].line {
        assert errs[j] == before[j];
        if k < |before| {
          assert errs[k] == before[k];
        } else {
          assert errs[k] == outs[n].error;
        }
      }
    }
  }

  /** Every rejected line has its error in the list. */
  lemma {:induction false} RejectedLinesReported(outs: seq<LineOutcome>)
    ensures forall i :: 0 <= i < |outs| && outs[i].Reject? ==> outs[i].error in Errors(outs)
  {
    if outs != [] {
      var n := |outs| - 1;
      var front := outs[..n];
      RejectedLinesReported(front);
      forall i | 0 <= i < |outs| && outs[i].Reject? ensures outs[i].error in Errors(outs) {
        if i < n {
          assert front[i] == outs[i];
        }
      }
    }
  }

  /** The indices of the accepted lines, in line order. */
  function AcceptedAt(outs: seq<LineOutcome>): (at: seq<nat>)
    ensures forall j :: 0 <= j < |at| ==> at[j] < |outs|
  {
    if outs == [] then []
    else
      var n := |outs| - 1;
      AcceptedAt(outs[..n]) + (if outs[n].Accept? then [n] else [])
  }

  lemma {:induction false} AcceptedAtSelect(outs: seq<LineOutcome>)
    ensures |AcceptedAt(outs)| == |Drafts(outs)|
    ensures forall j :: 0 <= j < |AcceptedAt(outs)| ==> outs[AcceptedAt(outs)[j]] == Accept(Drafts(outs)[j])
  {
    if outs != [] {
      var n := |outs| - 1;
      var front := outs[..n];
      AcceptedAtSelect(front);
      var before := AcceptedAt(front);
      var fd := Drafts(front);
      forall j | 0 <= j < |before| ensures outs[before[j]] == Accept(fd[j]) {
        assert front[before[j]] == outs[before[j]];
      }
      if outs[n].Accept? {
        assert AcceptedAt(outs) == before + [n];
        assert Drafts(outs) == fd + [outs[n].draft];
      } else {
        assert AcceptedAt(outs) == before;
        assert Drafts(outs) == fd;
      }
    }
  }

  lemma {:induction false} AcceptedAtIncreasing(outs: seq<LineOutcome>)
    ensures forall j, k :: 0 <= j < k < |AcceptedAt(outs)| ==> AcceptedAt(outs)[j] < AcceptedAt(outs)[k]
  {
    if outs != [] {
      var n := |outs| - 1;
      AcceptedAtIncreasing(outs[..n]);
    }
  }

  lemma {:induction false} AcceptedAtComplete(outs: seq<LineOutcome>, i: nat) returns (j: nat)
    requires i < |outs| && outs[i].Accept?
    ensures j < |AcceptedAt(outs)| && AcceptedAt(outs)[j] == i
  {
    var n := |outs| - 1;
    var front := outs[..n];
    var before := AcceptedAt(front);
    if i == n {
      j := |before|;
      assert AcceptedAt(outs) == before + [n];
    } else {
      assert front[i] == outs[i];
      j := AcceptedAtComplete(front, i);
      assert AcceptedAt(outs)[..|before|] == before;
    }
  }

  /** The drafts are those of the accepted lines, one each, in line order:
      `at` lists the accepted line indices. */
  lemma DraftsFollowAcceptedLines(outs: seq<LineOutcome>) returns (at: seq<nat>)
    ensures |at| == |Drafts(outs)|
    ensures forall j :: 0 <= j < |at| ==> at[j] < |outs| && outs[at[j]] == Accept(Drafts(outs)[j])
    ensures forall j, k :: 0 <= j < k < |at| ==> at[j] < at[k]
    ensures forall i :: 0 <= i < |outs| && outs[i].Accept? ==> i in at
  {
    at := AcceptedAt(outs);
    AcceptedAtSelect(outs);
    AcceptedAtIncreasing(outs);
    forall i | 0 <= i < |outs| && outs[i].Accept? ensures i in at {
      var j := AcceptedAtComplete(outs, i);
    }
  }

  /** Rendering a draft as `name,job[,note]` and parsing it gives the draft
      back, when its fields are already stripped and free of commas; an empty
      name is accepted. */
  function Render(d: Draft): string {
    d.name + [','] + d.job + (match d.note case None => "" case Some(n) => [','] + n)
  }

  lemma RenderParses(d: Draft, idx: nat)
    requires d.job in JOBS
    requires ',' !in d.name && ',' !in d.job
    requires Strip(d.name) == d.name && Strip(d.job) == d.job
    requires d.note.Some? ==> ',' !in d.note.value && Strip(d.note.value) == d.note.value
    ensures ParseLine(Render(d), idx) == Accept(d)
  {
    var line := Render(d);
    match d.note
    case None =>
      assert line == Join([d.name, d.job], ',');
      SplitJoin([d.name, d.job], ',');
    case Some(n) =>
      assert Join([d.job, n], ',') == d.job + [','] + n;
      assert line == d.name + [','] + (d.job + [','] + n);
      assert line == Join([d.name, d.job, n], ',');
      SplitJoin([d.name, d.job, n], ',');
  }

  /** Whatever follows the third field is ignored. */
  lemma ExtraFieldsIgnored(line: string, extra: string, idx: nat)
    requires Occurrences(line, ',') >= 2
    ensures ParseLine(line + [','] + extra, idx) == ParseLine(line, idx)
  {
    var longer := line + [','] + extra;
    SplitConcat(line, ',', extra);
    var p := Split(line, ',');
    var q := Split(longer, ',');
    assert |p| >= 3 && |q| >= |p|;
    assert p[0] == q[0] && p[1] == q[1] && p[2] == q[2];
    var f := Fields(line);
    var g := Fields(longer);
    assert f[0] == g[0] && f[1] == g[1] && f[2] == g[2];
    assert |f| > 2 && |g| > 2;
  }

  /** Blank lines before the first entry do not count: line numbers start at
      the first non-blank line. */
  lemma LeadingBlankLinesSkipped(ws: string, text: string)
    requires AllSpace(ws)
    ensures BatchLines(ws + text) == BatchLines(text)
  {
    StripSkipsLeadingSpace(ws, text);
  }

  /** An empty line is a format error. */
  lemma EmptyLineIsFormatError(idx: nat)
    ensures ParseLine("", idx) == Reject(FormatError(idx))
  {
    assert Occurrences("", ',') == 0;
  }

  /** A blank line inside the text is kept as an empty line ... */
  lemma BlankInteriorLineKept(a: string, b: string)
    requires a != [] && !IsSpace(a[0]) && NoLineBreak(a)
    requires b != [] && !IsSpace(b[|b| - 1])
    ensures BatchLines(a + "\n\n" + b) == [a, ""] + SplitLines(b)
  {
    var s := a + "\n\n" + b;
    assert s[0] == a[0];
    assert s[|s| - 1] == b[|b| - 1];
    StripKeepsTrimmed(s);
    BlankLineKept(a, b);
  }

  /** ... which is reported as a format error of its own line number. */
  lemma BlankInteriorLineIsError(a: string, b: string)
    requires a != [] && !IsSpace(a[0]) && NoLineBreak(a)
    requires b != [] && !IsSpace(b[|b| - 1])
    ensures |BatchLines(a + "\n\n" + b)| >= 2
    ensures Outcomes(BatchLines(a + "\n\n" + b))[1] == Reject(FormatError(2))
  {
    var lines := BatchLines(a + "\n\n" + b);
    BlankInteriorLineKept(a, b);
    assert lines[1] == "";
    EmptyLineIsFormatError(2);
  }

  /** Lines submitted with `"\r\n"` breaks, as browsers send a textarea,
      are numbered as the user sees them: no empty line between `'\r'` and
      `'\n'`. */
  lemma CRLFLinesCountOnce(a: string, b: string)
    requires a != [] && !IsSpace(a[0]) && NoLineBreak(a)
    requires b != [] && !IsSpace(b[|b| - 1]) && NoLineBreak(b)
    ensures BatchLines(a + "\r\n" + b) == [a, b]
  {
    var s := a + "\r\n" + b;
    assert s[0] == a[0];
    assert s[|s| - 1] == b[|b| - 1];
    StripKeepsTrimmed(s);
    TwoLinesCRLF(a, b);
  }

  /** The fields of a two-field line whose fields are already stripped. */
  lemma TwoFields(a: string, b: string)
    requires ',' !in a && ',' !in b && Strip(a) == a && Strip(b) == b
    ensures Fields(a + "," + b) == [a, b]
  {
    SplitTwo(a, ',', b);
    FieldsOfTwoParts(a + "," + b, a, b);
  }

  lemma FieldsOfTwoParts(line: string, a: string, b: string)
    requires Split(line, ',') == [a, b]
    ensures Fields(line) == [Strip(a), Strip(b)]
  {
    var f := Fields(line);
    assert |f| == 2 && f[0] == Strip(a) && f[1] == Strip(b);
  }

  lemma ExampleFirstLine()
    ensures SplitLines("A,鐵衣\nB,不存在\nC,血河") == ["A,鐵衣"] + SplitLines("B,不存在\nC,血河")
  {
    assert "A,鐵衣\nB,不存在\nC,血河" == "A,鐵衣" + "\n" + "B,不存在\nC,血河";
    SplitLinesAfterNewline("A,鐵衣", "B,不存在\nC,血河");
  }

  lemma ExampleLaterLines()
    ensures SplitLines("B,不存在\nC,血河") == ["B,不存在", "C,血河"]
  {
    assert "B,不存在\nC,血河" == "B,不存在" + "\n" + "C,血河";
    TwoLines("B,不存在", "C,血河");
  }

  lemma ExampleLines()
    ensures BatchLines("A,鐵衣\nB,不存在\nC,血河") == ["A,鐵衣", "B,不存在", "C,血河"]
  {
    StripKeepsTrimmed("A,鐵衣\nB,不存在\nC,血河");
    ExampleFirstLine();
    ExampleLaterLines();
  }

  lemma ParseTwoFields(line: string, a: string, b: string, idx: nat)
    requires Fields(line) == [a, b]
    ensures ParseLine(line, idx) == if b in JOBS then Accept(Draft(a, b, None)) else Reject(JobError(idx, b))
  {
  }

  /** A line `name,job` of two clean fields: accepted without a note when
      the job is valid, otherwise a job error naming it. */
  lemma ParseNameJob(a: string, b: string, idx: nat)
    requires ',' !in a && ',' !in b && Strip(a) == a && Strip(b) == b
    ensures ParseLine(a + "," + b, idx) == if b in JOBS then Accept(Draft(a, b, None)) else Reject(JobError(idx, b))
  {
    TwoFields(a, b);
    ParseTwoFields(a + "," + b, a, b, idx);
  }

  /** Whitespace pads hold no comma, so padding a comma-free field keeps it
      comma-free. */
  lemma NoCommaInPadded(w: string, s: string, w': string)
    requires AllSpace(w) && AllSpace(w') && ',' !in s
    ensures ',' !in w + s + w'
  {
    assert !IsSpace(',');
    forall k | 0 <= k < |w + s + w'| ensures (w + s + w')[k] != ',' {
      if k < |w| {
        assert (w + s + w')[k] == w[k];
      } else if k < |w| + |s| {
        assert (w + s + w')[k] == s[k - |w|];
      } else {
        assert (w + s + w')[k] == w'[k - |w| - |s|];
      }
    }
  }

  /** Whitespace around the fields is stripped off: a padded `name,job`
      line parses to the bare name and job. */
  lemma PaddedNameJobParses(w0: string, a: string, w1: string, w2: string, b: string, w3: string, idx: nat)
    requires AllSpace(w0) && AllSpace(w1) && AllSpace(w2) && AllSpace(w3)
    requires ',' !in a && ',' !in b && Trimmed(a) && Trimmed(b)
    ensures ParseLine(w0 + a + w1 + "," + w2 + b + w3, idx)
      == if b in JOBS then Accept(Draft(a, b, None)) else Reject(JobError(idx, b))
  {
    var x := w0 + a + w1;
    var y := w2 + b + w3;
    var line := x + [','] + y;
    assert w0 + a + w1 + "," + w2 + b + w3 == line;
    NoCommaInPadded(w0, a, w1);
    NoCommaInPadded(w2, b, w3);
    SplitTwo(x, ',', y);
    FieldsOfTwoParts(line, x, y);
    StripPadded(w0, a, w1);
    StripPadded(w2, b, w3);
    ParseTwoFields(line, a, b, idx);
  }

  /** The same with a third field: a padded `name,job,note` line parses to
      the bare name, job and note. */
  lemma PaddedNoteLineParses(w0: string, a: string, w1: string, w2: string, b: string, w3: string,
                             w4: string, n: string, w5: string, idx: nat)
    requires AllSpace(w0) && AllSpace(w1) && AllSpace(w2) && AllSpace(w3) && AllSpace(w4) && AllSpace(w5)
    requires ',' !in a && ',' !in b && ',' !in n && Trimmed(a) && Trimmed(b) && Trimmed(n)
    ensures ParseLine(w0 + a + w1 + "," + w2 + b + w3 + "," + w4 + n + w5, idx)
      == if b in JOBS then Accept(Draft(a, b, Some(n))) else Reject(JobError(idx, b))
  {
    var x := w0 + a + w1;
    var y := w2 + b + w3;
    var z := w4 + n + w5;
    var tail := y + [','] + z;
    var line := x + [','] + tail;
    assert w0 + a + w1 + "," + w2 + b + w3 + "," + w4 + n + w5 == line;
    NoCommaInPadded(w0, a, w1);
    NoCommaInPadded(w2, b, w3);
    NoCommaInPadded(w4, n, w5);
    SplitAfterHead(x, ',', tail);
    SplitTwo(y, ',', z);
    assert Split(line, ',') == [x, y, z];
    StripPadded(w0, a, w1);
    StripPadded(w2, b, w3);
    StripPadded(w4, n, w5);
    var f := Fields(line);
    assert |f| == 3 && f[0] == a && f[1] == b && f[2] == n;
  }

  lemma OutcomesOfThree(l0: string, l1: string, l2: string)
    ensures Outcomes([l0, l1, l2]) == [ParseLine(l0, 1), ParseLine(l1, 2), ParseLine(l2, 3)]
  {
  }

  lemma ExampleLineA() ensures ParseLine("A,鐵衣", 1) == Accept(Draft("A", "鐵衣", None)) {
    StripKeepsTrimmed("A");
    StripKeepsTrimmed("鐵衣");
    assert "A,鐵衣" == "A" + "," + "鐵衣";
    ParseNameJob("A", "鐵衣", 1);
  }

  lemma ExampleLineB() ensures ParseLine("B,不存在", 2) == Reject(JobError(2, "不存在")) {
    StripKeepsTrimmed("B");
    StripKeepsTrimmed("不存在");
    assert "B,不存在" == "B" + "," + "不存在";
    assert "不存在" !in JOBS;
    ParseNameJob("B", "不存在", 2);
  }

  /** The third line is the rendering of its own draft. */
  lemma ExampleLineC() ensures ParseLine("C,血河", 3) == Accept(Draft("C", "血河", None)) {
    StripKeepsTrimmed("C");
    StripKeepsTrimmed("血河");
    assert Render(Draft("C", "血河", None)) == "C,血河";
    RenderParses(Draft("C", "血河", None), 3);
  }

  lemma ExampleOutcomes()
    ensures Outcomes(["A,鐵衣", "B,不存在", "C,血河"])
      == [Accept(Draft("A", "鐵衣", None)), Reject(JobError(2, "不存在")), Accept(Draft("C", "血河", None))]
  {
    ExampleLineA();
    ExampleLineB();
    ExampleLineC();
    OutcomesOfThree("A,鐵衣", "B,不存在", "C,血河");
  }

  lemma SplitOutcomesOfThree(o0: LineOutcome, o1: LineOutcome, o2: LineOutcome)
    ensures Drafts([o0, o1, o2]) == Drafts([o0]) + Drafts([o1]) + Drafts([o2])
    ensures Errors([o0, o1, o2]) == Errors([o0]) + Errors([o1]) + Errors([o2])
  {
    assert [o0, o1, o2][..2] == [o0, o1];
    assert [o0, o1][..1] == [o0];
    assert [o0][..0] == [];
    assert [o1][..0] == [];
    assert [o2][..0] == [];
  }

  /** A worked batch: the middle line names an unknown job, so the players
      of lines 1 and 3 are added ... */
  lemma MixedBatchAddsValidLines()
    ensures Drafts(Outcomes(BatchLines("A,鐵衣\nB,不存在\nC,血河")))
      == [Draft("A", "鐵衣", None), Draft("C", "血河", None)]
  {
    var o0, o1, o2 := Accept(Draft("A", "鐵衣", None)), Reject(JobError(2, "不存在")), Accept(Draft("C", "血河", None));
    calc {
      Drafts(Outcomes(BatchLines("A,鐵衣\nB,不存在\nC,血河")));
    == { ExampleLines(); }
      Drafts(Outcomes(["A,鐵衣", "B,不存在", "C,血河"]));
    == { ExampleOutcomes(); }
      Drafts([o0, o1, o2]);
    == { SplitOutcomesOfThree(o0, o1, o2); }
      [Draft("A", "鐵衣", None), Draft("C", "血河", None)];
    }
  }

  /** ... and the one error reports line 2. */
  lemma MixedBatchReportsLineTwo()
    ensures Errors(Outcomes(BatchLines("A,鐵衣\nB,不存在\nC,血河"))) == [JobError(2, "不存在")]
  {
    var o0, o1, o2 := Accept(Draft("A", "鐵衣", None)), Reject(JobError(2, "不存在")), Accept(Draft("C", "血河", None));
    calc {
      Errors(Outcomes(BatchLines("A,鐵衣\nB,不存在\nC,血河")));
    == { ExampleLines(); }
      Errors(Outcomes(["A,鐵衣", "B,不存在", "C,血河"]));
    == { ExampleOutcomes(); }
      Errors([o0, o1, o2]);
    == { SplitOutcomesOfThree(o0, o1, o2); }
      [JobError(2, "不存在")];
    }
  }
}
