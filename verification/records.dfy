/** The records of the project matrix — project, line, cell — held in a
    functional store, and the constraints the record store checks on them. */
module Records {
  import opened Wrappers
  import opened DateRange

  type ProjectId = nat
  type LineId = nat

  /** The quantity recorded for one line on one day. */
  datatype Cell = Cell(date: Date, quantity: real)

  /** A priced row of a project, owning its cells. */
  datatype Line = Line(id: LineId, name: string, price: real, cells: seq<Cell>)

  /** A project: a date window `[startDate, endDate]` and its lines. */
  datatype Project = Project(name: string, startDate: Date, endDate: Date, lines: seq<Line>)

  /** All projects by id, with the next ids the record store will hand out,
      and the day the project model was loaded: the default window of a new
      project is computed once from that day, when the model is loaded, so
      every create of the running server sees the same defaults. */
  datatype Store = Store(projects: map<ProjectId, Project>, nextProjectId: ProjectId, nextLineId: LineId, loadDay: Date)

  /** Default quantity of a new cell. */
  const DefaultQuantity: real := 0.0

  /** A new project's window ends this many days after it starts. */
  const DefaultWindowDays: int := 7

  /** The declared constraints, in declaration order. */
  datatype Constraint =
    | StartAfterEnd     // "Start date can't be greater than end date."
    | NegativeQuantity  // "Quantity can't be negative."
    | DateOutOfRange    // "Cell date is out of the project date range."
    | DuplicateDate     // "Two cells can't share the same date."

  /** Why an operation was rolled back. */
  datatype Error =
    | ValidateError(violated: seq<Constraint>)
    | MissingRecord
    | MissingRequiredField(field: string)

  /** `d` is neither before `start` nor after `end`; both the date check and
      the pruning of outdated cells use exactly this test. */
  predicate InWindow(d: Date, start: Date, end: Date) {
    !(d < start || d > end)
  }

  /** The project constraint: the end date is not before the start date. */
  predicate CheckDateRange(p: Project) {
    !(p.endDate < p.startDate)
  }

  /** First cell constraint: the quantity is not negative. */
  predicate CheckQuantity(c: Cell) {
    !(c.quantity < 0.0)
  }

  /** Second cell constraint: the date lies in the window of the line's project. */
  predicate CheckDate(c: Cell, p: Project) {
    InWindow(c.date, p.startDate, p.endDate)
  }

  /** How many cells of `cells` carry date `d` (the size of the search on
      `(date, line)` the duplicate check runs). */
  function DateCount(cells: seq<Cell>, d: Date): nat {
    if cells == [] then 0
    else (if cells[0].date == d then 1 else 0) + DateCount(cells[1..], d)
  }

  /** Third cell constraint: the search for cells of the same line and date
      finds no more than the cell itself. */
  predicate CheckDuplicate(c: Cell, line: Line) {
    !(DateCount(line.cells, c.date) > 1)
  }

  /** The constraints cell `c` of `line` in project `p` violates, in
      declaration order; the write is rejected with all of them at once. */
  function CellViolations(c: Cell, line: Line, p: Project): (v: seq<Constraint>)
    ensures NegativeQuantity in v <==> c.quantity < 0.0
    ensures DateOutOfRange in v <==> c.date < p.startDate || c.date > p.endDate
    ensures DuplicateDate in v <==> DateCount(line.cells, c.date) > 1
    ensures StartAfterEnd !in v
  {
    (if CheckQuantity(c) then [] else [NegativeQuantity])
    + (if CheckDate(c, p) then [] else [DateOutOfRange])
    + (if CheckDuplicate(c, line) then [] else [DuplicateDate])
  }

  /** A cell passes all three constraints. */
  predicate ValidCell(c: Cell, line: Line, p: Project) {
    CellViolations(c, line, p) == []
  }

  predicate ValidLine(line: Line, p: Project) {
    forall k :: 0 <= k < |line.cells| ==> ValidCell(line.cells[k], line, p)
  }

  /** No two cells of `cells` share a date. */
  predicate DistinctDates(cells: seq<Cell>) {
    forall i, j :: 0 <= i < j < |cells| ==> cells[i].date != cells[j].date
  }

  /** No two lines share an id. */
  predicate DistinctIds(lines: seq<Line>) {
    forall i, j :: 0 <= i < j < |lines| ==> lines[i].id != lines[j].id
  }

  /** A project whose window and every cell pass their constraints. */
  predicate ValidProject(p: Project) {
    && CheckDateRange(p)
    && forall i :: 0 <= i < |p.lines| ==> ValidLine(p.lines[i], p)
  }

  /** A stored project: valid, its lines' ids distinct and already handed out. */
  predicate WellStored(p: Project, nextLineId: LineId) {
    && ValidProject(p)
    && DistinctIds(p.lines)
    && forall i :: 0 <= i < |p.lines| ==> p.lines[i].id < nextLineId
  }

  predicate ValidStore(s: Store) {
    forall pid :: pid in s.projects ==> pid < s.nextProjectId && WellStored(s.projects[pid], s.nextLineId)
  }

  /** The dates of `cells`, in order. */
  function Dates(cells: seq<Cell>): (r: seq<Date>)
    ensures |r| == |cells| && forall i :: 0 <= i < |r| ==> r[i] == cells[i].date
  {
    seq(|cells|, i requires 0 <= i < |cells| => cells[i].date)
  }

  /** Position of the first line with id `id`, if any. */
  function FindLine(lines: seq<Line>, id: LineId): (r: Option<nat>)
    ensures r.Some? ==> r.value < |lines| && lines[r.value].id == id
    ensures r.None? <==> forall i :: 0 <= i < |lines| ==> lines[i].id != id
  {
    if lines == [] then None
    else if lines[0].id == id then Some(0)
    else match FindLine(lines[1..], id)
      case None => None
      case Some(k) => Some(k + 1)
  }

  /** Position of the first cell dated `d`, if any. */
  function FindCell(cells: seq<Cell>, d: Date): (r: Option<nat>)
    ensures r.Some? ==> r.value < |cells| && cells[r.value].date == d
    ensures r.None? <==> forall i :: 0 <= i < |cells| ==> cells[i].date != d
  {
    if cells == [] then None
    else if cells[0].date == d then Some(0)
    else match FindCell(cells[1..], d)
      case None => None
      case Some(k) => Some(k + 1)
  }

  /** The duplicate search finds nothing exactly when no cell has the date. */
  lemma {:induction false} DateCountZero(cells: seq<Cell>, d: Date)
    ensures DateCount(cells, d) == 0 <==> forall k :: 0 <= k < |cells| ==> cells[k].date != d
  {
    if cells != [] {
      DateCountZero(cells[1..], d);
      assert forall k :: 1 <= k < |cells| ==> cells[k] == cells[1..][k - 1];
    }
  }

  /** Appending a cell adds one to the count of its own date only. */
  lemma {:induction false} DateCountAppend(cells: seq<Cell>, c: Cell, d: Date)
    ensures DateCount(cells + [c], d) == DateCount(cells, d) + (if c.date == d then 1 else 0)
  {
    if cells != [] {
      assert (cells + [c])[1..] == cells[1..] + [c];
      DateCountAppend(cells[1..], c, d);
    }
  }

  /** Two cells with the same date make the count at least two. */
  lemma {:induction false} DateCountTwo(cells: seq<Cell>, i: nat, j: nat)
    requires i < j < |cells| && cells[i].date == cells[j].date
    ensures DateCount(cells, cells[i].date) >= 2
  {
    var d := cells[i].date;
    if i == 0 {
      DateCountZero(cells[1..], d);
      assert cells[1..][j - 1] == cells[j];
    } else {
      assert cells[1..][i - 1] == cells[i] && cells[1..][j - 1] == cells[j];
      DateCountTwo(cells[1..], i - 1, j - 1);
    }
  }

  /** A cell whose date no other cell shares is counted exactly once. */
  lemma {:induction false} DateCountOne(cells: seq<Cell>, i: nat)
    requires i < |cells|
    requires forall j :: 0 <= j < |cells| && j != i ==> cells[j].date != cells[i].date
    ensures DateCount(cells, cells[i].date) == 1
  {
    var d := cells[i].date;
    if i == 0 {
      DateCountZero(cells[1..], d);
      assert forall k :: 0 <= k < |cells[1..]| ==> cells[1..][k] == cells[k + 1];
    } else {
      assert cells[1..][i - 1] == cells[i];
      forall j | 0 <= j < |cells[1..]| && j != i - 1
        ensures cells[1..][j].date != d
      {
        assert cells[1..][j] == cells[j + 1];
      }
      DateCountOne(cells[1..], i - 1);
    }
  }

  /** The duplicate check as written (a search count of at most one) accepts
      every cell of a line exactly when the line's dates are pairwise distinct. */
  lemma DuplicateCheckIffDistinct(line: Line)
    ensures (forall k :: 0 <= k < |line.cells| ==> CheckDuplicate(line.cells[k], line))
        <==> DistinctDates(line.cells)
  {
    var cells := line.cells;
    if DistinctDates(cells) {
      forall k | 0 <= k < |cells|
        ensures CheckDuplicate(cells[k], line)
      {
        DateCountOne(cells, k);
      }
    } else {
      var i, j :| 0 <= i < j < |cells| && cells[i].date == cells[j].date;
      DateCountTwo(cells, i, j);
      assert !CheckDuplicate(cells[i], line);
    }
  }

  /** A line is valid exactly when every quantity is non-negative, every date
      is in the project's window and no two cells share a date. */
  lemma ValidLineIff(line: Line, p: Project)
    ensures ValidLine(line, p) <==>
      && (forall k :: 0 <= k < |line.cells| ==> line.cells[k].quantity >= 0.0)
      && (forall k :: 0 <= k < |line.cells| ==> p.startDate <= line.cells[k].date <= p.endDate)
      && DistinctDates(line.cells)
  {
    DuplicateCheckIffDistinct(line);
    if !ValidLine(line, p) {
      var k :| 0 <= k < |line.cells| && !ValidCell(line.cells[k], line, p);
      var v := CellViolations(line.cells[k], line, p);
      assert v != [];
      assert NegativeQuantity in v || DateOutOfRange in v || DuplicateDate in v;
    }
  }
}
