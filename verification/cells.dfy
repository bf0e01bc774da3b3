/** Creating and writing project cells. The record store writes the
    candidate row first and then runs the cell constraints on it; a
    violation rolls the write back, which here is a `Failure`. */
module Cells {
  import opened Wrappers
  import opened DateRange
  import opened Records

  /** The values of a cell create or write; absent keys are `None`. */
  datatype CellVals = CellVals(date: Option<Date>, quantity: Option<real>)

  /** `p` with the cells of line `li` replaced by `cells`. */
  function WithCells(p: Project, li: nat, cells: seq<Cell>): (q: Project)
    requires li < |p.lines|
    ensures q.name == p.name && q.startDate == p.startDate && q.endDate == p.endDate
    ensures |q.lines| == |p.lines| && q.lines[li].cells == cells
    ensures q.lines[li] == p.lines[li].(cells := cells)
    ensures forall i :: 0 <= i < |p.lines| && i != li ==> q.lines[i] == p.lines[i]
  {
    p.(lines := p.lines[li := p.lines[li].(cells := cells)])
  }

  /** Creates cell `c` on line `li`: accepted exactly when its quantity is
      not negative, its date is in the project window and the line has no
      cell on that date yet. */
  function InsertCell(p: Project, li: nat, c: Cell): (r: Result<Project, Error>)
    requires li < |p.lines|
    ensures r.Success? <==>
      && c.quantity >= 0.0
      && p.startDate <= c.date <= p.endDate
      && forall k :: 0 <= k < |p.lines[li].cells| ==> p.lines[li].cells[k].date != c.date
    ensures r.Success? ==> r.value == WithCells(p, li, p.lines[li].cells + [c])
    ensures r.Failure? ==> r.error.ValidateError?
    ensures r.Failure? ==>
      && (NegativeQuantity in r.error.violated <==> c.quantity < 0.0)
      && (DateOutOfRange in r.error.violated <==> c.date < p.startDate || c.date > p.endDate)
      && (DuplicateDate in r.error.violated <==> c.date in Dates(p.lines[li].cells))
  {
    var cells := p.lines[li].cells;
    var q := WithCells(p, li, cells + [c]);
    DateCountAppend(cells, c, c.date);
    DateCountZero(cells, c.date);
    var v := CellViolations(c, q.lines[li], q);
    if v == [] then Success(q) else Failure(ValidateError(v))
  }

  /** Rewrites cell `k` of line `li` to `c`: accepted exactly when the new
      quantity is not negative, the new date is in the project window and
      no other cell of the line has that date. */
  function UpdateCell(p: Project, li: nat, k: nat, c: Cell): (r: Result<Project, Error>)
    requires li < |p.lines| && k < |p.lines[li].cells|
    ensures r.Success? <==>
      && c.quantity >= 0.0
      && p.startDate <= c.date <= p.endDate
      && forall j :: 0 <= j < |p.lines[li].cells| && j != k ==> p.lines[li].cells[j].date != c.date
    ensures r.Success? ==> r.value == WithCells(p, li, p.lines[li].cells[k := c])
    ensures r.Failure? ==> r.error.ValidateError?
    ensures r.Failure? ==>
      && (NegativeQuantity in r.error.violated <==> c.quantity < 0.0)
      && (DateOutOfRange in r.error.violated <==> c.date < p.startDate || c.date > p.endDate)
      && (DuplicateDate in r.error.violated <==>
            exists j :: 0 <= j < |p.lines[li].cells| && j != k && p.lines[li].cells[j].date == c.date)
  {
    var cells := p.lines[li].cells[k := c];
    var q := WithCells(p, li, cells);
    UniqueDateCount(cells, k);
    assert forall j :: 0 <= j < |cells| && j != k ==> cells[j] == p.lines[li].cells[j];
    var v := CellViolations(c, q.lines[li], q);
    if v == [] then Success(q) else Failure(ValidateError(v))
  }

  /** Cell `k` is counted once exactly when no other cell shares its date. */
  lemma UniqueDateCount(cells: seq<Cell>, k: nat)
    requires k < |cells|
    ensures DateCount(cells, cells[k].date) <= 1 <==>
      forall j :: 0 <= j < |cells| && j != k ==> cells[j].date != cells[k].date
  {
    if forall j :: 0 <= j < |cells| && j != k ==> cells[j].date != cells[k].date {
      DateCountOne(cells, k);
    } else {
      var j :| 0 <= j < |cells| && j != k && cells[j].date == cells[k].date;
      if j < k {
        DateCountTwo(cells, j, k);
      } else {
        DateCountTwo(cells, k, j);
      }
    }
  }

  /** Creating a cell keeps a valid project valid. */
  lemma InsertCellPreservesValidity(p: Project, li: nat, c: Cell)
    requires ValidProject(p) && li < |p.lines|
    requires InsertCell(p, li, c).Success?
    ensures ValidProject(InsertCell(p, li, c).value)
  {
    var prior := p.lines[li].cells;
    var cells := prior + [c];
    ValidLineIff(p.lines[li], p);
    forall i, j | 0 <= i < j < |cells|
      ensures cells[i].date != cells[j].date
    {
      assert cells[i] == prior[i];
      if j < |prior| {
        assert cells[j] == prior[j];
      }
    }
    forall k | 0 <= k < |cells|
      ensures cells[k].quantity >= 0.0 && p.startDate <= cells[k].date <= p.endDate
    {
      if k < |prior| {
        assert cells[k] == prior[k];
      }
    }
    LineStaysValid(p, li, cells);
  }

  /** Writing a cell keeps a valid project valid. */
  lemma UpdateCellPreservesValidity(p: Project, li: nat, k: nat, c: Cell)
    requires ValidProject(p) && li < |p.lines| && k < |p.lines[li].cells|
    requires UpdateCell(p, li, k, c).Success?
    ensures ValidProject(UpdateCell(p, li, k, c).value)
  {
    var prior := p.lines[li].cells;
    var cells := prior[k := c];
    ValidLineIff(p.lines[li], p);
    forall i, j | 0 <= i < j < |cells|
      ensures cells[i].date != cells[j].date
    {
      if i != k && j != k {
        assert cells[i] == prior[i] && cells[j] == prior[j];
      }
    }
    forall m | 0 <= m < |cells|
      ensures cells[m].quantity >= 0.0 && p.startDate <= cells[m].date <= p.endDate
    {
      if m != k {
        assert cells[m] == prior[m];
      }
    }
    LineStaysValid(p, li, cells);
  }

  /** Replacing the cells of one line by cells that pass the quantity and
      date checks and have distinct dates keeps the project valid. */
  lemma LineStaysValid(p: Project, li: nat, cells: seq<Cell>)
    requires ValidProject(p) && li < |p.lines|
    requires forall k :: 0 <= k < |cells| ==> cells[k].quantity >= 0.0
    requires forall k :: 0 <= k < |cells| ==> p.startDate <= cells[k].date <= p.endDate
    requires DistinctDates(cells)
    ensures ValidProject(WithCells(p, li, cells))
  {
    var q := WithCells(p, li, cells);
    forall i | 0 <= i < |q.lines|
      ensures ValidLine(q.lines[i], q)
    {
      ValidLineIff(p.lines[i], p);
      ValidLineIff(q.lines[i], q);
    }
  }

  /** Creates a cell on line `lineId` of project `pid`; the quantity
      defaults to zero and the date is required. The create is accepted
      exactly when the project and the line exist, a date is given and the
      line accepts the cell; the project then holds the accepted line. */
  function CreateCell(s: Store, pid: ProjectId, lineId: LineId, vals: CellVals): (r: Result<Store, Error>)
    ensures r.Success? ==> r.value.projects.Keys == s.projects.Keys
    ensures r.Success? <==>
      && pid in s.projects
      && vals.date.Some?
      && FindLine(s.projects[pid].lines, lineId).Some?
      && InsertCell(s.projects[pid], FindLine(s.projects[pid].lines, lineId).value,
                    Cell(vals.date.value, vals.quantity.GetOr(DefaultQuantity))).Success?
    ensures r.Success? ==>
      r.value.projects[pid] == InsertCell(s.projects[pid], FindLine(s.projects[pid].lines, lineId).value,
                                          Cell(vals.date.value, vals.quantity.GetOr(DefaultQuantity))).value
    ensures r.Success? ==> r.value.nextProjectId == s.nextProjectId && r.value.nextLineId == s.nextLineId
    ensures r.Success? ==> forall q :: q in s.projects && q != pid ==> r.value.projects[q] == s.projects[q]
  {
    if pid !in s.projects then Failure(MissingRecord)
    else if vals.date.None? then Failure(MissingRequiredField("date"))
    else
      var p := s.projects[pid];
      match FindLine(p.lines, lineId)
      case None => Failure(MissingRecord)
      case Some(li) =>
        var p' :- InsertCell(p, li, Cell(vals.date.value, vals.quantity.GetOr(DefaultQuantity)));
        Success(s.(projects := s.projects[pid := p']))
  }

  /** Writes the cell dated `date` on line `lineId` of project `pid`; keys
      absent from `vals` keep their stored value. */
  function WriteCell(s: Store, pid: ProjectId, lineId: LineId, date: Date, vals: CellVals): (r: Result<Store, Error>)
    ensures r.Success? ==> r.value.projects.Keys == s.projects.Keys
    ensures r.Success? <==>
      && pid in s.projects
      && FindLine(s.projects[pid].lines, lineId).Some?
      && FindCell(s.projects[pid].lines[FindLine(s.projects[pid].lines, lineId).value].cells, date).Some?
      && UpdatedCell(s.projects[pid], FindLine(s.projects[pid].lines, lineId).value, date, vals).Success?
    ensures r.Success? ==>
      r.value.projects[pid] == UpdatedCell(s.projects[pid], FindLine(s.projects[pid].lines, lineId).value, date, vals).value
    ensures r.Success? ==> r.value.nextProjectId == s.nextProjectId && r.value.nextLineId == s.nextLineId
    ensures r.Success? ==> forall q :: q in s.projects && q != pid ==> r.value.projects[q] == s.projects[q]
    ensures vals.quantity.Some? && vals.quantity.value < 0.0 ==> r.Failure?
  {
    if pid !in s.projects then Failure(MissingRecord)
    else
      var p := s.projects[pid];
      match FindLine(p.lines, lineId)
      case None => Failure(MissingRecord)
      case Some(li) =>
        if FindCell(p.lines[li].cells, date).None? then Failure(MissingRecord)
        else
          var p' :- UpdatedCell(p, li, date, vals);
          Success(s.(projects := s.projects[pid := p']))
  }

  /** Writes `vals` to the first cell dated `date` of line `li`; keys absent
      from `vals` keep their stored value. The write is accepted exactly when
      the resulting cell passes the three checks against the other cells of
      the line, and then replaces that cell in place. A negative quantity is
      always rejected and reported. */
  function UpdatedCell(p: Project, li: nat, date: Date, vals: CellVals): (r: Result<Project, Error>)
    requires li < |p.lines| && FindCell(p.lines[li].cells, date).Some?
    ensures var cells := p.lines[li].cells;
      var k := FindCell(cells, date).value;
      var c := Cell(vals.date.GetOr(date), vals.quantity.GetOr(cells[k].quantity));
      && (r.Success? <==>
            && c.quantity >= 0.0
            && p.startDate <= c.date <= p.endDate
            && forall j :: 0 <= j < |cells| && j != k ==> cells[j].date != c.date)
      && (r.Success? ==> r.value == WithCells(p, li, cells[k := c]))
    ensures vals.quantity.Some? && vals.quantity.value < 0.0 ==>
      r.Failure? && r.error.ValidateError? && NegativeQuantity in r.error.violated
  {
    var k := FindCell(p.lines[li].cells, date).value;
    var prior := p.lines[li].cells[k];
    UpdateCell(p, li, k, Cell(vals.date.GetOr(prior.date), vals.quantity.GetOr(prior.quantity)))
  }

  /** A project whose lines are kept in place and whose ids are unchanged
      stays well stored when it stays valid. */
  lemma ReplaceKeepsStore(s: Store, pid: ProjectId, p': Project)
    requires ValidStore(s) && pid in s.projects
    requires ValidProject(p') && |p'.lines| == |s.projects[pid].lines|
    requires forall i :: 0 <= i < |p'.lines| ==> p'.lines[i].id == s.projects[pid].lines[i].id
    ensures ValidStore(s.(projects := s.projects[pid := p']))
  {
  }

  /** Creating a cell keeps a valid store valid, and a created cell carries
      the requested date and the given or default quantity. */
  lemma CreateCellPreservesValidity(s: Store, pid: ProjectId, lineId: LineId, vals: CellVals)
    requires ValidStore(s)
    requires CreateCell(s, pid, lineId, vals).Success?
    ensures ValidStore(CreateCell(s, pid, lineId, vals).value)
    ensures var p := s.projects[pid];
      var li := FindLine(p.lines, lineId).value;
      CreateCell(s, pid, lineId, vals).value.projects[pid].lines[li].cells
        == p.lines[li].cells + [Cell(vals.date.value, vals.quantity.GetOr(DefaultQuantity))]
  {
    var p := s.projects[pid];
    var li := FindLine(p.lines, lineId).value;
    var c := Cell(vals.date.value, vals.quantity.GetOr(DefaultQuantity));
    InsertCellPreservesValidity(p, li, c);
    ReplaceKeepsStore(s, pid, InsertCell(p, li, c).value);
  }

  /** Writing a cell keeps a valid store valid; a rejected write changes
      nothing, since the caller keeps its store. */
  lemma WriteCellPreservesValidity(s: Store, pid: ProjectId, lineId: LineId, date: Date, vals: CellVals)
    requires ValidStore(s)
    requires WriteCell(s, pid, lineId, date, vals).Success?
    ensures ValidStore(WriteCell(s, pid, lineId, date, vals).value)
  {
    var p := s.projects[pid];
    var li := FindLine(p.lines, lineId).value;
    var k := FindCell(p.lines[li].cells, date).value;
    var prior := p.lines[li].cells[k];
    var c := Cell(vals.date.GetOr(prior.date), vals.quantity.GetOr(prior.quantity));
    UpdateCellPreservesValidity(p, li, k, c);
    ReplaceKeepsStore(s, pid, UpdateCell(p, li, k, c).value);
  }
}
