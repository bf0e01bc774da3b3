/** Creating a project line: the line is stored first, then one cell per day
    of the project window is created on it, each with the default quantity. */
module Lines {
  import opened Wrappers
  import opened DateRange
  import opened Records
  import opened Cells

  /** The values of a line create; absent keys are `None`. */
  datatype LineVals = LineVals(projectId: Option<ProjectId>, name: Option<string>, price: Option<real>)

  /** One default-quantity cell per date, in the order of the dates. */
  function DefaultCells(dates: seq<Date>): (r: seq<Cell>)
    ensures |r| == |dates|
    ensures forall i :: 0 <= i < |r| ==> r[i].date == dates[i] && r[i].quantity == DefaultQuantity
  {
    seq(|dates|, i requires 0 <= i < |dates| => Cell(dates[i], DefaultQuantity))
  }

  /** Creates a default cell on line `li` for each date in turn; the first
      rejected create aborts the whole sequence. */
  function CreateCells(p: Project, li: nat, dates: seq<Date>): (r: Result<Project, Error>)
    requires li < |p.lines|
    ensures r.Success? ==> |r.value.lines| == |p.lines|
    decreases |dates|
  {
    if dates == [] then Success(p)
    else
      var p1 :- InsertCell(p, li, Cell(dates[0], DefaultQuantity));
      CreateCells(p1, li, dates[1..])
  }

  /** The cells of a new line: one per day of the project window. */
  function GenerateCells(p: Project, li: nat): (r: Result<Project, Error>)
    requires li < |p.lines|
    ensures r.Success? ==> |r.value.lines| == |p.lines|
  {
    CreateCells(p, li, Range(p.startDate, p.endDate, 1))
  }

  /** On a valid project, creating default cells for distinct in-window dates
      the line does not have yet succeeds, appends exactly those cells to the
      line, leaves every other line and the window alone, and keeps the
      project valid. */
  lemma {:induction false} CreateCellsSucceeds(p: Project, li: nat, dates: seq<Date>)
    requires ValidProject(p) && li < |p.lines|
    requires forall i :: 0 <= i < |dates| ==> p.startDate <= dates[i] <= p.endDate
    requires forall i, j :: 0 <= i < j < |dates| ==> dates[i] != dates[j]
    requires forall i, k :: 0 <= i < |dates| && 0 <= k < |p.lines[li].cells| ==> p.lines[li].cells[k].date != dates[i]
    ensures CreateCells(p, li, dates).Success?
    ensures CreateCells(p, li, dates).value == WithCells(p, li, p.lines[li].cells + DefaultCells(dates))
    ensures ValidProject(CreateCells(p, li, dates).value)
    decreases |dates|
  {
    if dates == [] {
      assert p.lines[li].cells + DefaultCells(dates) == p.lines[li].cells;
      assert WithCells(p, li, p.lines[li].cells) == p;
    } else {
      var c := Cell(dates[0], DefaultQuantity);
      FirstCellAccepted(p, li, dates);
      var p1 := InsertCell(p, li, c).value;
      assert CreateCells(p, li, dates) == CreateCells(p1, li, dates[1..]);
      CreateCellsSucceeds(p1, li, dates[1..]);
      DefaultCellsCons(p.lines[li].cells, dates);
      WithCellsTwice(p, li, p.lines[li].cells + [c], p.lines[li].cells + DefaultCells(dates));
    }
  }

  /** The first default cell is accepted, and what remains meets the
      preconditions of the generation on the grown line. */
  lemma FirstCellAccepted(p: Project, li: nat, dates: seq<Date>)
    requires ValidProject(p) && li < |p.lines| && dates != []
    requires forall i :: 0 <= i < |dates| ==> p.startDate <= dates[i] <= p.endDate
    requires forall i, j :: 0 <= i < j < |dates| ==> dates[i] != dates[j]
    requires forall i, k :: 0 <= i < |dates| && 0 <= k < |p.lines[li].cells| ==> p.lines[li].cells[k].date != dates[i]
    ensures InsertCell(p, li, Cell(dates[0], DefaultQuantity)).Success?
    ensures var p1 := InsertCell(p, li, Cell(dates[0], DefaultQuantity)).value;
      && ValidProject(p1) && li < |p1.lines|
      && p1.startDate == p.startDate && p1.endDate == p.endDate
      && p1.lines[li].cells == p.lines[li].cells + [Cell(dates[0], DefaultQuantity)]
      && (forall i :: 0 <= i < |dates[1..]| ==> p1.startDate <= dates[1..][i] <= p1.endDate)
      && (forall i, j :: 0 <= i < j < |dates[1..]| ==> dates[1..][i] != dates[1..][j])
      && forall i, k :: 0 <= i < |dates[1..]| && 0 <= k < |p1.lines[li].cells| ==> p1.lines[li].cells[k].date != dates[1..][i]
  {
    var c := Cell(dates[0], DefaultQuantity);
    var cells := p.lines[li].cells;
    assert forall k :: 0 <= k < |cells| ==> cells[k].date != c.date;
    assert InsertCell(p, li, c).Success?;
    var p1 := WithCells(p, li, cells + [c]);
    assert InsertCell(p, li, c).value == p1;
    InsertCellPreservesValidity(p, li, c);
    var rest := dates[1..];
    TailDates(dates, p.startDate, p.endDate);
    forall i, k | 0 <= i < |rest| && 0 <= k < |cells + [c]|
      ensures (cells + [c])[k].date != rest[i]
    {
      assert rest[i] == dates[i + 1];
      if k < |cells| {
        assert (cells + [c])[k] == cells[k];
      }
    }
  }

  /** The dates after the first stay in the window and distinct, and differ
      from the first. */
  lemma TailDates(dates: seq<Date>, start: Date, end: Date)
    requires dates != []
    requires forall i :: 0 <= i < |dates| ==> start <= dates[i] <= end
    requires forall i, j :: 0 <= i < j < |dates| ==> dates[i] != dates[j]
    ensures forall i :: 0 <= i < |dates[1..]| ==> start <= dates[1..][i] <= end && dates[1..][i] != dates[0]
    ensures forall i, j :: 0 <= i < j < |dates[1..]| ==> dates[1..][i] != dates[1..][j]
  {
    assert forall i :: 0 <= i < |dates[1..]| ==> dates[1..][i] == dates[i + 1];
  }

  lemma DefaultCellsCons(prior: seq<Cell>, dates: seq<Date>)
    requires dates != []
    ensures prior + [Cell(dates[0], DefaultQuantity)] + DefaultCells(dates[1..]) == prior + DefaultCells(dates)
  {
    assert DefaultCells(dates) == [Cell(dates[0], DefaultQuantity)] + DefaultCells(dates[1..]);
  }

  lemma WithCellsTwice(p: Project, li: nat, first: seq<Cell>, second: seq<Cell>)
    requires li < |p.lines|
    ensures WithCells(WithCells(p, li, first), li, second) == WithCells(p, li, second)
  {
  }

  /** Creates a line on project `vals.projectId`: the project and the name
      are required and the project must exist. The new line gets the next
      line id and its default cells. */
  function CreateLine(s: Store, vals: LineVals): (r: Result<(Store, LineId), Error>)
    ensures r.Success? ==> vals.projectId.Some? && vals.name.Some? && vals.projectId.value in s.projects
    ensures r.Success? ==> r.value.1 == s.nextLineId && r.value.0.nextLineId == s.nextLineId + 1
    ensures r.Success? ==> r.value.0.projects.Keys == s.projects.Keys && r.value.0.nextProjectId == s.nextProjectId
    ensures r.Success? ==> forall q :: q in s.projects && q != vals.projectId.value ==> r.value.0.projects[q] == s.projects[q]
    ensures vals.projectId.None? ==> r == Failure(MissingRequiredField("project_id"))
    ensures vals.projectId.Some? && vals.name.None? ==> r == Failure(MissingRequiredField("name"))
  {
    if vals.projectId.None? then Failure(MissingRequiredField("project_id"))
    else if vals.name.None? then Failure(MissingRequiredField("name"))
    else if vals.projectId.value !in s.projects then Failure(MissingRecord)
    else
      var pid := vals.projectId.value;
      var p := s.projects[pid];
      var line := Line(s.nextLineId, vals.name.value, vals.price.GetOr(0.0), []);
      var withLine := p.(lines := p.lines + [line]);
      var p' :- GenerateCells(withLine, |p.lines|);
      Success((s.(projects := s.projects[pid := p'], nextLineId := s.nextLineId + 1), s.nextLineId))
  }

  /** On a valid store, creating a line with its required values succeeds:
      the project gains exactly one line, carrying one zero-quantity cell for
      every day of the window, in date order; its other lines are unchanged
      and the store stays valid. */
  lemma CreateLineGeneratesCalendar(s: Store, vals: LineVals)
    requires ValidStore(s)
    requires vals.projectId.Some? && vals.name.Some? && vals.projectId.value in s.projects
    ensures CreateLine(s, vals).Success?
    ensures var p := s.projects[vals.projectId.value];
      var p' := CreateLine(s, vals).value.0.projects[vals.projectId.value];
      && p'.name == p.name && p'.startDate == p.startDate && p'.endDate == p.endDate
      && p'.lines[..|p.lines|] == p.lines
      && |p'.lines| == |p.lines| + 1
      && p'.lines[|p.lines|].id == s.nextLineId
      && p'.lines[|p.lines|].name == vals.name.value
      && p'.lines[|p.lines|].cells == DefaultCells(Range(p.startDate, p.endDate, 1))
    ensures ValidStore(CreateLine(s, vals).value.0)
  {
    var pid := vals.projectId.value;
    var p := s.projects[pid];
    var line := Line(s.nextLineId, vals.name.value, vals.price.GetOr(0.0), []);
    var withLine := p.(lines := p.lines + [line]);
    var dates := Range(p.startDate, p.endDate, 1);
    var p' := NewLineProject(p, line);
    assert CreateLine(s, vals) == Success((s.(projects := s.projects[pid := p'], nextLineId := s.nextLineId + 1), s.nextLineId));
    forall i | 0 <= i < |p.lines|
      ensures p'.lines[i] == p.lines[i]
    {
      assert withLine.lines[i] == p.lines[i];
    }
    assert p'.lines[..|p.lines|] == p.lines;
    NewLineKeepsStore(s, pid, p');
  }

  /** The project after a line without cells is added and its cells generated. */
  function NewLineProject(p: Project, line: Line): (p': Project)
    requires ValidProject(p) && line.cells == []
    ensures GenerateCells(p.(lines := p.lines + [line]), |p.lines|) == Success(p')
    ensures p' == WithCells(p.(lines := p.lines + [line]), |p.lines|, DefaultCells(Range(p.startDate, p.endDate, 1)))
    ensures ValidProject(p')
  {
    var withLine := p.(lines := p.lines + [line]);
    AppendEmptyLineValid(p, line);
    GenerateCellsFillsWindow(withLine, |p.lines|);
    GenerateCells(withLine, |p.lines|).value
  }

  /** On a valid project, generating the cells of a line that has none
      succeeds and gives the line one default cell per day of the window, in
      date order, leaving the other lines alone; the project stays valid. */
  lemma GenerateCellsFillsWindow(p: Project, li: nat)
    requires ValidProject(p) && li < |p.lines| && p.lines[li].cells == []
    ensures GenerateCells(p, li) == Success(WithCells(p, li, DefaultCells(Range(p.startDate, p.endDate, 1))))
    ensures ValidProject(GenerateCells(p, li).value)
  {
    var dates := Range(p.startDate, p.endDate, 1);
    RangeIsDateRange(p.startDate, p.endDate, 1);
    RangeStrictlyIncreasing(p.startDate, p.endDate, 1);
    CreateCellsSucceeds(p, li, dates);
    assert [] + DefaultCells(dates) == DefaultCells(dates);
  }

  /** Adding a line without cells keeps a project valid. */
  lemma AppendEmptyLineValid(p: Project, line: Line)
    requires ValidProject(p) && line.cells == []
    ensures ValidProject(p.(lines := p.lines + [line]))
  {
    var withLine := p.(lines := p.lines + [line]);
    forall i | 0 <= i < |withLine.lines|
      ensures ValidLine(withLine.lines[i], withLine)
    {
      if i < |p.lines| {
        assert withLine.lines[i] == p.lines[i];
      }
    }
  }

  /** Storing the grown project under the next line id keeps the store valid. */
  lemma NewLineKeepsStore(s: Store, pid: ProjectId, p': Project)
    requires ValidStore(s) && pid in s.projects && ValidProject(p')
    requires |p'.lines| == |s.projects[pid].lines| + 1
    requires forall i :: 0 <= i < |s.projects[pid].lines| ==> p'.lines[i].id == s.projects[pid].lines[i].id
    requires p'.lines[|s.projects[pid].lines|].id == s.nextLineId
    ensures ValidStore(s.(projects := s.projects[pid := p'], nextLineId := s.nextLineId + 1))
  {
  }

  /** A new line covers its project's window day by day: with `n` days in
      the window it has `n` cells, the `i`-th dated `startDate + i` with
      quantity zero, so a date has a cell exactly when it lies in the window. */
  lemma NewLineCoversWindow(p: Project)
    requires ValidProject(p)
    ensures var cells := DefaultCells(Range(p.startDate, p.endDate, 1));
      && |cells| == p.endDate - p.startDate + 1
      && (forall i :: 0 <= i < |cells| ==> cells[i] == Cell(p.startDate + i, 0.0))
      && (forall d :: d in Dates(cells) <==> p.startDate <= d <= p.endDate)
  {
    var dates := Range(p.startDate, p.endDate, 1);
    var cells := DefaultCells(dates);
    RangeUnitStep(p.startDate, p.endDate);
    assert Dates(cells) == dates;
    forall d
      ensures d in Dates(cells) <==> p.startDate <= d <= p.endDate
    {
      RangeMembership(p.startDate, p.endDate, 1, d);
    }
  }
}
