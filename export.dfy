/** The roster export (`export_all`, app.py): every player as a six-column
    row, written to a main sheet, one sheet per group and a sheet of the
    players without a team. The workbook is modelled as its list of sheets;
    the spreadsheet encoding is not part of this model. */
module Export {
  import opened Text
  import opened Roster

  /** The six columns, in order: 分組 (group), 隊伍 (team), 名字 (name),
      職業 (job), 備註 (note), 狀態 (status). */
  datatype Row = Row(group: Option<string>, team: Option<string>, name: string, job: string,
                     note: Option<string>, status: string)

  datatype Sheet = Sheet(title: string, rows: seq<Row>)

  /** The export request failed: the named column does not exist in the frame. */
  datatype ExportError = MissingColumn(column: string)

  datatype ExportResult = Exported(book: seq<Sheet>) | ExportFailed(error: ExportError)

  const MAIN_SHEET := "大表"
  const CANDIDATE_SHEET := "候補"
  const STATUS_FIT := "能打"
  const STATUS_LEAVE := "請假"

  function Project(p: Player): Row {
    Row(p.groupName, p.teamName, p.name, p.job, p.roleNote, if p.canFight then STATUS_FIT else STATUS_LEAVE)
  }

  /** The frame's rows, one per player in table order. */
  function Rows(ps: seq<Player>): seq<Row> {
    seq(|ps|, i requires 0 <= i < |ps| => Project(ps[i]))
  }

  /** The distinct non-null groups, in order of first appearance
      (`df["分組"].dropna().unique()`). */
  function UniqueGroups(rows: seq<Row>): (gs: seq<string>)
    ensures forall i, j :: 0 <= i < j < |gs| ==> gs[i] != gs[j]
  {
    if rows == [] then []
    else
      var front := UniqueGroups(rows[..|rows| - 1]);
      var last := rows[|rows| - 1];
      if last.group.Some? && last.group.value !in front then front + [last.group.value] else front
  }

  /** Every listed group is the group of some row. */
  lemma {:induction false} UniqueGroupsSound(rows: seq<Row>, i: nat) returns (k: nat)
    requires i < |UniqueGroups(rows)|
    ensures k < |rows| && rows[k].group == Some(UniqueGroups(rows)[i])
  {
    var n := |rows| - 1;
    var front := rows[..n];
    if i < |UniqueGroups(front)| {
      k := UniqueGroupsSound(front, i);
      assert front[k] == rows[k];
    } else {
      k := n;
    }
  }

  /** Every non-null group of a row is listed. */
  lemma {:induction false} UniqueGroupsComplete(rows: seq<Row>, k: nat)
    requires k < |rows| && rows[k].group.Some?
    ensures rows[k].group.value in UniqueGroups(rows)
  {
    var n := |rows| - 1;
    var front := rows[..n];
    if k < n {
      assert front[k] == rows[k];
      UniqueGroupsComplete(front, k);
    }
  }

  /** First-appearance order: for two listed groups, the earlier one occurs
      in some row before every row of the later one. */
  lemma {:induction false} UniqueGroupsInFirstAppearanceOrder(rows: seq<Row>, i: nat, j: nat, k: nat)
    requires i < j < |UniqueGroups(rows)| && k < |rows|
    requires rows[k].group == Some(UniqueGroups(rows)[j])
    ensures exists m :: 0 <= m < k && rows[m].group == Some(UniqueGroups(rows)[i])
  {
    var n := |rows| - 1;
    var front := rows[..n];
    var gs := UniqueGroups(rows);
    var fgs := UniqueGroups(front);
    if j < |fgs| {
      assert gs[i] == fgs[i] && gs[j] == fgs[j];
      if k < n {
        assert front[k] == rows[k];
        UniqueGroupsInFirstAppearanceOrder(front, i, j, k);
      } else {
        var k' := UniqueGroupsSound(front, j);
        UniqueGroupsInFirstAppearanceOrder(front, i, j, k');
      }
      var m :| 0 <= m < n && front[m].group == Some(fgs[i]);
      assert front[m] == rows[m];
    } else {
      assert gs[i] == fgs[i];
      assert gs[j] == rows[n].group.value;
      if k < n {
        assert front[k] == rows[k];
        UniqueGroupsComplete(front, k);
        assert false;
      }
      var m := UniqueGroupsSound(front, i);
      assert front[m] == rows[m];
    }
  }

  /** `df[df["分組"] == group]`: the rows of one group, in table order. */
  function InGroup(rows: seq<Row>, g: string): (r: seq<Row>)
    ensures |r| <= |rows|
    ensures forall i :: 0 <= i < |r| ==> r[i].group == Some(g)
  {
    if rows == [] then []
    else
      var last := rows[|rows| - 1];
      InGroup(rows[..|rows| - 1], g) + (if last.group == Some(g) then [last] else [])
  }

  /** Every row of a group's selection is a row of the frame ... */
  lemma {:induction false} InGroupFrom(rows: seq<Row>, g: string, i: nat) returns (k: nat)
    requires i < |InGroup(rows, g)|
    ensures k < |rows| && rows[k] == InGroup(rows, g)[i]
  {
    var front := rows[..|rows| - 1];
    if i < |InGroup(front, g)| {
      k := InGroupFrom(front, g, i);
    } else {
      k := |rows| - 1;
    }
  }

  /** ... and every row of the group is selected. */
  lemma {:induction false} InGroupHas(rows: seq<Row>, g: string, k: nat) returns (i: nat)
    requires k < |rows| && rows[k].group == Some(g)
    ensures i < |InGroup(rows, g)| && InGroup(rows, g)[i] == rows[k]
  {
    var front := rows[..|rows| - 1];
    if k < |front| {
      i := InGroupHas(front, g, k);
    } else {
      i := |InGroup(front, g)|;
    }
  }

  /** The selection keeps every row of the group, duplicates included, in
      frame order: `at` lists the selected rows' indices. */
  lemma {:induction false} InGroupInFrameOrder(rows: seq<Row>, g: string) returns (at: seq<nat>)
    ensures |at| == |InGroup(rows, g)|
    ensures forall j :: 0 <= j < |at| ==> at[j] < |rows| && rows[at[j]] == InGroup(rows, g)[j]
    ensures forall j, k :: 0 <= j < k < |at| ==> at[j] < at[k]
    ensures forall i :: 0 <= i < |rows| && rows[i].group == Some(g) ==> i in at
  {
    if rows == [] {
      at := [];
    } else {
      var n := |rows| - 1;
      var front := rows[..n];
      var before := InGroupInFrameOrder(front, g);
      var fs := InGroup(front, g);
      if rows[n].group == Some(g) {
        assert InGroup(rows, g) == fs + [rows[n]];
        at := before + [n];
        forall j | 0 <= j < |at| ensures at[j] < |rows| && rows[at[j]] == InGroup(rows, g)[j] {
          if j < |before| {
            assert front[before[j]] == rows[before[j]];
          }
        }
      } else {
        assert InGroup(rows, g) == fs;
        at := before;
        forall j | 0 <= j < |at| ensures at[j] < |rows| && rows[at[j]] == InGroup(rows, g)[j] {
          assert front[before[j]] == rows[before[j]];
        }
      }
      forall i | 0 <= i < |rows| && rows[i].group == Some(g) ensures i in at {
        if i < n {
          assert front[i] == rows[i];
          assert i in before;
        }
      }
    }
  }

  /** A bench row: its team is null or the empty string (not merely blank). */
  predicate IsCandidate(row: Row) {
    row.team.None? || row.team == Some("")
  }

  /** `df[df["隊伍"].isna() | (df["隊伍"] == "")]`: the bench rows, in table order. */
  function Candidates(rows: seq<Row>): (r: seq<Row>)
    ensures |r| <= |rows|
    ensures forall i :: 0 <= i < |r| ==> IsCandidate(r[i])
  {
    if rows == [] then []
    else
      var last := rows[|rows| - 1];
      Candidates(rows[..|rows| - 1]) + (if IsCandidate(last) then [last] else [])
  }

  /** Every bench row is a row of the frame ... */
  lemma {:induction false} CandidatesFrom(rows: seq<Row>, i: nat) returns (k: nat)
    requires i < |Candidates(rows)|
    ensures k < |rows| && rows[k] == Candidates(rows)[i]
  {
    var front := rows[..|rows| - 1];
    if i < |Candidates(front)| {
      k := CandidatesFrom(front, i);
    } else {
      k := |rows| - 1;
    }
  }

  /** ... and every team-less row is on the bench. */
  lemma {:induction false} CandidatesHas(rows: seq<Row>, k: nat) returns (i: nat)
    requires k < |rows| && IsCandidate(rows[k])
    ensures i < |Candidates(rows)| && Candidates(rows)[i] == rows[k]
  {
    var front := rows[..|rows| - 1];
    if k < |front| {
      i := CandidatesHas(front, k);
    } else {
      i := |Candidates(front)|;
    }
  }

  /** The bench keeps every team-less row, duplicates included, in frame
      order: `at` lists the bench rows' indices. */
  lemma {:induction false} CandidatesInFrameOrder(rows: seq<Row>) returns (at: seq<nat>)
    ensures |at| == |Candidates(rows)|
    ensures forall j :: 0 <= j < |at| ==> at[j] < |rows| && rows[at[j]] == Candidates(rows)[j]
    ensures forall j, k :: 0 <= j < k < |at| ==> at[j] < at[k]
    ensures forall i :: 0 <= i < |rows| && IsCandidate(rows[i]) ==> i in at
  {
    if rows == [] {
      at := [];
    } else {
      var n := |rows| - 1;
      var front := rows[..n];
      var before := CandidatesInFrameOrder(front);
      var fs := Candidates(front);
      if IsCandidate(rows[n]) {
        assert Candidates(rows) == fs + [rows[n]];
        at := before + [n];
        forall j | 0 <= j < |at| ensures at[j] < |rows| && rows[at[j]] == Candidates(rows)[j] {
          if j < |before| {
            assert front[before[j]] == rows[before[j]];
          }
        }
      } else {
        assert Candidates(rows) == fs;
        at := before;
        forall j | 0 <= j < |at| ensures at[j] < |rows| && rows[at[j]] == Candidates(rows)[j] {
          assert front[before[j]] == rows[before[j]];
        }
      }
      forall i | 0 <= i < |rows| && IsCandidate(rows[i]) ensures i in at {
        if i < n {
          assert front[i] == rows[i];
          assert i in before;
        }
      }
    }
  }

  /** The group loop of `export_all`: for each listed group whose name is not
      all whitespace, a sheet titled with it holding its rows. A name is all
      whitespace exactly when `group.strip()` is empty (StripEmptyIffAllSpace). */
  function GroupSheets(rows: seq<Row>, gs: seq<string>): (sheets: seq<Sheet>)
    ensures |sheets| <= |gs|
  {
    if gs == [] then []
    else
      var g := gs[|gs| - 1];
      GroupSheets(rows, gs[..|gs| - 1]) + (if !AllSpace(g) then [Sheet(g, InGroup(rows, g))] else [])
  }

  lemma GroupSheetsSnoc(rows: seq<Row>, gs: seq<string>, g: string)
    ensures GroupSheets(rows, gs + [g]) ==
      GroupSheets(rows, gs) + (if !AllSpace(g) then [Sheet(g, InGroup(rows, g))] else [])
  {
    assert (gs + [g])[..|gs|] == gs;
  }

  /** Each group sheet is titled with a listed group whose name is not blank,
      and holds that group's rows. */
  lemma {:induction false} GroupSheetsTitled(rows: seq<Row>, gs: seq<string>, x: nat) returns (t: nat)
    requires x < |GroupSheets(rows, gs)|
    ensures t < |gs| && GroupSheets(rows, gs)[x].title == gs[t] && !AllSpace(gs[t])
    ensures GroupSheets(rows, gs)[x].rows == InGroup(rows, gs[t])
  {
    var front := gs[..|gs| - 1];
    if x < |GroupSheets(rows, front)| {
      t := GroupSheetsTitled(rows, front, x);
    } else {
      t := |gs| - 1;
    }
  }

  /** Every listed group whose name is not blank gets a sheet. */
  lemma {:induction false} GroupSheetsCover(rows: seq<Row>, gs: seq<string>, t: nat) returns (x: nat)
    requires t < |gs| && !AllSpace(gs[t])
    ensures x < |GroupSheets(rows, gs)| && GroupSheets(rows, gs)[x].title == gs[t]
  {
    var front := gs[..|gs| - 1];
    if t == |gs| - 1 {
      x := |GroupSheets(rows, front)|;
    } else {
      x := GroupSheetsCover(rows, front, t);
    }
  }

  /** Distinct groups give sheets with distinct titles. */
  lemma {:induction false} GroupSheetsDistinct(rows: seq<Row>, gs: seq<string>, x: nat, y: nat)
    requires forall i, j :: 0 <= i < j < |gs| ==> gs[i] != gs[j]
    requires x < y < |GroupSheets(rows, gs)|
    ensures GroupSheets(rows, gs)[x].title != GroupSheets(rows, gs)[y].title
  {
    var front := gs[..|gs| - 1];
    var sheets := GroupSheets(rows, front);
    if y < |sheets| {
      GroupSheetsDistinct(rows, front, x, y);
    } else {
      var t := GroupSheetsTitled(rows, front, x);
    }
  }

  /** The group sheets follow the order of the listed groups: `at` gives, for
      each sheet, the index of its group, strictly increasing and covering
      every listed group whose name is not blank. */
  lemma {:induction false} GroupSheetsInListOrder(rows: seq<Row>, gs: seq<string>) returns (at: seq<nat>)
    ensures |at| == |GroupSheets(rows, gs)|
    ensures forall j :: 0 <= j < |at| ==>
      at[j] < |gs| && GroupSheets(rows, gs)[j] == Sheet(gs[at[j]], InGroup(rows, gs[at[j]]))
    ensures forall j, k :: 0 <= j < k < |at| ==> at[j] < at[k]
    ensures forall t :: 0 <= t < |gs| && !AllSpace(gs[t]) ==> t in at
  {
    if gs == [] {
      at := [];
    } else {
      var n := |gs| - 1;
      var front := gs[..n];
      var before := GroupSheetsInListOrder(rows, front);
      var fs := GroupSheets(rows, front);
      if !AllSpace(gs[n]) {
        assert GroupSheets(rows, gs) == fs + [Sheet(gs[n], InGroup(rows, gs[n]))];
        at := before + [n];
        forall j | 0 <= j < |at|
          ensures at[j] < |gs| && GroupSheets(rows, gs)[j] == Sheet(gs[at[j]], InGroup(rows, gs[at[j]]))
        {
          if j < |before| {
            assert front[before[j]] == gs[before[j]];
          }
        }
      } else {
        assert GroupSheets(rows, gs) == fs;
        at := before;
        forall j | 0 <= j < |at|
          ensures at[j] < |gs| && GroupSheets(rows, gs)[j] == Sheet(gs[at[j]], InGroup(rows, gs[at[j]]))
        {
          assert front[before[j]] == gs[before[j]];
        }
      }
      forall t | 0 <= t < |gs| && !AllSpace(gs[t]) ensures t in at {
        if t < n {
          assert front[t] == gs[t];
          assert t in before;
        }
      }
    }
  }

  /** The group sheets of the workbook, in first-appearance order of groups. */
  function BookGroups(ps: seq<Player>): seq<Sheet> {
    GroupSheets(Rows(ps), UniqueGroups(Rows(ps)))
  }

  /** The exported workbook, sheet by sheet. */
  function Workbook(ps: seq<Player>): seq<Sheet> {
    var rows := Rows(ps);
    var cands := Candidates(rows);
    [Sheet(MAIN_SHEET, rows)]
      + BookGroups(ps)
      + (if cands == [] then [] else [Sheet(CANDIDATE_SHEET, cands)])
  }

  /** `export_all` with the empty roster handled: the main sheet, then a
      sheet per group as the group loop meets them, then the bench sheet if
      there is one. On a non-empty roster this is the code's own result. */
  method ExportAll(ps: seq<Player>) returns (book: seq<Sheet>)
    ensures book == Workbook(ps)
  {
    var rows := Rows(ps);
    var sheets := WriteGroupSheets(rows, UniqueGroups(rows));
    book := [Sheet(MAIN_SHEET, rows)] + sheets;
    var candidates := Candidates(rows);
    if candidates != [] {
      book := book + [Sheet(CANDIDATE_SHEET, candidates)];
    }
  }

  /** The group loop itself, one listed group at a time. */
  method WriteGroupSheets(rows: seq<Row>, groups: seq<string>) returns (sheets: seq<Sheet>)
    ensures sheets == GroupSheets(rows, groups)
  {
    sheets := [];
    for i := 0 to |groups|
      invariant sheets == GroupSheets(rows, groups[..i])
    {
      var g := groups[i];
      assert groups[..i + 1] == groups[..i] + [g];
      GroupSheetsSnoc(rows, groups[..i], g);
      StripEmptyIffAllSpace(g);
      if Strip(g) != "" {
        sheets := sheets + [Sheet(g, InGroup(rows, g))];
      }
    }
    assert groups[..|groups|] == groups;
  }

  // ------------------------------------------------------------ the frame

  /** The column labels of the frame. Every player's dictionary
      (app.py:120-127) has these keys, in this order. */
  const GROUP_COLUMN := "分組"
  const TEAM_COLUMN := "隊伍"
  const RECORD_KEYS: seq<string> := [GROUP_COLUMN, TEAM_COLUMN, "名字", "職業", "備註", "狀態"]

  /** A data frame: its column labels and its rows. */
  datatype Frame = Frame(columns: seq<string>, rows: seq<Row>)

  /** Appends the keys not yet among the columns, in the order met. */
  function AddColumns(cols: seq<string>, keys: seq<string>): (r: seq<string>)
    ensures |r| <= |cols| + |keys|
    decreases keys
  {
    if keys == [] then cols
    else AddColumns(if keys[0] in cols then cols else cols + [keys[0]], keys[1..])
  }

  lemma {:induction false} AddColumnsHas(cols: seq<string>, keys: seq<string>, x: string)
    ensures x in AddColumns(cols, keys) <==> x in cols || x in keys
    decreases keys
  {
    if keys != [] {
      var next := if keys[0] in cols then cols else cols + [keys[0]];
      AddColumnsHas(next, keys[1..], x);
      assert keys == [keys[0]] + keys[1..];
    }
  }

  /** The columns `pd.DataFrame` gives a list of dictionaries: the union of
      their keys in first-seen order. A list without dictionaries has none. */
  function ColumnsOf(rows: seq<Row>): seq<string> {
    if rows == [] then [] else AddColumns(ColumnsOf(rows[..|rows| - 1]), RECORD_KEYS)
  }

  /** `pd.DataFrame(data)`. */
  function DataFrame(rows: seq<Row>): Frame {
    Frame(ColumnsOf(rows), rows)
  }

  /** A name is a column of the frame exactly when there is at least one row
      and the name is one of the dictionary keys. */
  lemma {:induction false} ColumnsOfHas(rows: seq<Row>, x: string)
    ensures x in ColumnsOf(rows) <==> rows != [] && x in RECORD_KEYS
  {
    if rows != [] {
      var front := rows[..|rows| - 1];
      ColumnsOfHas(front, x);
      AddColumnsHas(ColumnsOf(front), RECORD_KEYS, x);
    }
  }

  /** One cell of a row, by column label. */
  function Cell(row: Row, name: string): Option<string> {
    if name == GROUP_COLUMN then row.group
    else if name == TEAM_COLUMN then row.team
    else if name == "名字" then Some(row.name)
    else if name == "職業" then Some(row.job)
    else if name == "備註" then row.note
    else Some(row.status)
  }

  /** `df[name]`: the column's cells, or nothing when the frame has no such
      column (pandas raises `KeyError`). */
  function Column(df: Frame, name: string): (r: Option<seq<Option<string>>>)
    ensures r.Some? <==> name in df.columns
    ensures r.Some? ==> |r.value| == |df.rows|
  {
    if name in df.columns then Some(seq(|df.rows|, i requires 0 <= i < |df.rows| => Cell(df.rows[i], name)))
    else None
  }

  /** `export_all` as written: the frame is built from the list of player
      dictionaries, the main sheet is written, and then the group column is
      looked up for the group loop and the team column for the bench. */
  function ExportAsWritten(ps: seq<Player>): (r: ExportResult)
    ensures ps == [] <==> r.ExportFailed?
    ensures r.ExportFailed? ==> r.error == MissingColumn(GROUP_COLUMN)
    ensures ps != [] ==> r == Exported(Workbook(ps))
  {
    var df := DataFrame(Rows(ps));
    ColumnsOfHas(df.rows, GROUP_COLUMN);
    ColumnsOfHas(df.rows, TEAM_COLUMN);
    match Column(df, GROUP_COLUMN)
    case None => ExportFailed(MissingColumn(GROUP_COLUMN))
    case Some(_) =>
      match Column(df, TEAM_COLUMN)
      case None => ExportFailed(MissingColumn(TEAM_COLUMN))
      case Some(_) =>
        var bench := Candidates(df.rows);
        Exported([Sheet(MAIN_SHEET, df.rows)]
          + GroupSheets(df.rows, UniqueGroups(df.rows))
          + (if bench == [] then [] else [Sheet(CANDIDATE_SHEET, bench)]))
  }

  // ------------------------------------------------------------ properties

  /** The layout of the workbook: main sheet, group sheets, then the bench
      sheet when there is a bench. */
  lemma WorkbookLayout(ps: seq<Player>)
    ensures |Workbook(ps)| == 1 + |BookGroups(ps)| + (if Candidates(Rows(ps)) == [] then 0 else 1)
    ensures Workbook(ps)[0] == Sheet(MAIN_SHEET, Rows(ps))
    ensures forall x :: 1 <= x <= |BookGroups(ps)| ==> Workbook(ps)[x] == BookGroups(ps)[x - 1]
    ensures Candidates(Rows(ps)) != [] ==>
      Workbook(ps)[|Workbook(ps)| - 1] == Sheet(CANDIDATE_SHEET, Candidates(Rows(ps)))
  {
  }

  /** The main sheet comes first and lists every player once, in table
      order, with a status name that says whether they can fight. */
  lemma MainSheetListsEveryone(ps: seq<Player>)
    ensures |Workbook(ps)| >= 1 && Workbook(ps)[0].title == MAIN_SHEET
    ensures |Workbook(ps)[0].rows| == |ps|
    ensures forall i :: 0 <= i < |ps| ==>
      && Workbook(ps)[0].rows[i].name == ps[i].name
      && Workbook(ps)[0].rows[i].job == ps[i].job
      && Workbook(ps)[0].rows[i].group == ps[i].groupName
      && Workbook(ps)[0].rows[i].team == ps[i].teamName
      && Workbook(ps)[0].rows[i].note == ps[i].roleNote
      && (Workbook(ps)[0].rows[i].status == STATUS_FIT <==> ps[i].canFight)
      && (Workbook(ps)[0].rows[i].status == STATUS_LEAVE <==> !ps[i].canFight)
  {
    WorkbookLayout(ps);
  }

  /** Every player whose group is not blank appears on a group sheet titled
      with that group, and on no other group sheet. */
  lemma GroupedRowHasOneSheet(ps: seq<Player>, k: nat) returns (s: nat)
    requires k < |ps| && ps[k].groupName.Some? && !AllSpace(ps[k].groupName.value)
    ensures 1 <= s <= |BookGroups(ps)| && Workbook(ps)[s].title == ps[k].groupName.value
    ensures Rows(ps)[k] in Workbook(ps)[s].rows
    ensures forall x :: 1 <= x <= |BookGroups(ps)| && x != s ==> Workbook(ps)[x].title != ps[k].groupName.value
  {
    var rows := Rows(ps);
    var gs := UniqueGroups(rows);
    var g := ps[k].groupName.value;
    assert rows[k].group == Some(g);
    UniqueGroupsComplete(rows, k);
    var t :| 0 <= t < |gs| && gs[t] == g;
    var x0 := GroupSheetsCover(rows, gs, t);
    s := 1 + x0;
    WorkbookLayout(ps);
    var t' := GroupSheetsTitled(rows, gs, x0);
    assert gs[t'] == g;
    var i := InGroupHas(rows, g, k);
    assert Workbook(ps)[s].rows[i] == rows[k];
    forall x | 1 <= x <= |BookGroups(ps)| && x != s ensures Workbook(ps)[x].title != g {
      if x < s {
        GroupSheetsDistinct(rows, gs, x - 1, x0);
      } else {
        GroupSheetsDistinct(rows, gs, x0, x - 1);
      }
    }
  }

  /** A group sheet's title is not blank, and each of its rows is the row of
      a player of that group. */
  lemma GroupSheetRowsBelong(ps: seq<Player>, x: nat, i: nat) returns (k: nat)
    requires 1 <= x <= |BookGroups(ps)| && i < |Workbook(ps)[x].rows|
    ensures !AllSpace(Workbook(ps)[x].title)
    ensures k < |ps| && Workbook(ps)[x].rows[i] == Rows(ps)[k]
    ensures ps[k].groupName == Some(Workbook(ps)[x].title)
  {
    var rows := Rows(ps);
    var gs := UniqueGroups(rows);
    WorkbookLayout(ps);
    var t := GroupSheetsTitled(rows, gs, x - 1);
    k := InGroupFrom(rows, gs[t], i);
    assert rows[k].group == Some(gs[t]);
  }

  /** The bench sheet exists exactly when some player's team is null or
      empty; it comes last and holds exactly those players' rows. */
  lemma CandidateSheetIsTheBench(ps: seq<Player>)
    ensures Candidates(Rows(ps)) != [] <==> exists k :: 0 <= k < |ps| && IsCandidate(Rows(ps)[k])
    ensures Candidates(Rows(ps)) != [] ==>
      Workbook(ps)[|Workbook(ps)| - 1] == Sheet(CANDIDATE_SHEET, Candidates(Rows(ps)))
    ensures forall k :: 0 <= k < |ps| && (ps[k].teamName.None? || ps[k].teamName == Some("")) ==>
      Rows(ps)[k] in Candidates(Rows(ps))
  {
    var rows := Rows(ps);
    WorkbookLayout(ps);
    if Candidates(rows) != [] {
      var k := CandidatesFrom(rows, 0);
    }
    forall k | 0 <= k < |ps| && (ps[k].teamName.None? || ps[k].teamName == Some(""))
      ensures rows[k] in Candidates(rows)
    {
      var i := CandidatesHas(rows, k);
    }
  }

  /** The empty roster: the code as written fails, while the intended export
      is a workbook holding only an empty main sheet. */
  lemma EmptyRosterExport()
    ensures ExportAsWritten([]) == ExportFailed(MissingColumn("分組"))
    ensures Workbook([]) == [Sheet(MAIN_SHEET, [])]
  {
    assert Rows([]) == [];
    ColumnsOfHas([], GROUP_COLUMN);
  }
}
