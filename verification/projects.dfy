/** Project window management: a write of the window is checked against the
    date-range constraint and, when it touched either date, followed by the
    removal of every cell the new window no longer covers. */
module Projects {
  import opened Wrappers
  import opened DateRange
  import opened Records

  /** The values of a project create or write; absent keys are `None`. */
  datatype ProjectVals = ProjectVals(name: Option<string>, startDate: Option<Date>, endDate: Option<Date>)

  /** The write names the start date or the end date. */
  predicate TouchesWindow(vals: ProjectVals) {
    vals.startDate.Some? || vals.endDate.Some?
  }

  /** The cells of `cells` inside `[start, end]`, in their order. */
  function PruneCells(cells: seq<Cell>, start: Date, end: Date): (r: seq<Cell>)
    ensures forall i :: 0 <= i < |r| ==> InWindow(r[i].date, start, end)
    ensures forall c :: multiset(r)[c] == if InWindow(c.date, start, end) then multiset(cells)[c] else 0
    ensures |r| <= |cells|
  {
    if cells == [] then []
    else
      assert cells == [cells[0]] + cells[1..];
      (if InWindow(cells[0].date, start, end) then [cells[0]] else []) + PruneCells(cells[1..], start, end)
  }

  /** Removes every out-of-window cell from every line of the project: the
      lines themselves stay, in order, with the same id, name and price;
      every surviving cell is in the window; every cell in the window
      survives, with its quantity, as often as before. */
  function RemoveOutdatedCells(p: Project): (r: Project)
    ensures r.name == p.name && r.startDate == p.startDate && r.endDate == p.endDate
    ensures |r.lines| == |p.lines|
    ensures forall i :: 0 <= i < |r.lines| ==>
      r.lines[i].id == p.lines[i].id && r.lines[i].name == p.lines[i].name && r.lines[i].price == p.lines[i].price
    ensures forall i, k :: 0 <= i < |r.lines| && 0 <= k < |r.lines[i].cells| ==>
      p.startDate <= r.lines[i].cells[k].date <= p.endDate
    ensures forall i, c :: 0 <= i < |r.lines| ==>
      multiset(r.lines[i].cells)[c] == if InWindow(c.date, p.startDate, p.endDate) then multiset(p.lines[i].cells)[c] else 0
  {
    p.(lines := seq(|p.lines|, i requires 0 <= i < |p.lines| =>
      p.lines[i].(cells := PruneCells(p.lines[i].cells, p.startDate, p.endDate))))
  }

  /** Writes `vals` to one project: the project constraint is checked on the
      written record, and outdated cells are removed when a date was written. */
  function WriteProject(p: Project, vals: ProjectVals): (r: Result<Project, Error>)
    ensures r.Success? <==> vals.startDate.GetOr(p.startDate) <= vals.endDate.GetOr(p.endDate)
    ensures r.Failure? ==> r.error == ValidateError([StartAfterEnd])
    ensures r.Success? ==>
      && r.value.name == vals.name.GetOr(p.name)
      && r.value.startDate == vals.startDate.GetOr(p.startDate)
      && r.value.endDate == vals.endDate.GetOr(p.endDate)
      && |r.value.lines| == |p.lines|
  {
    var q := p.(name := vals.name.GetOr(p.name),
                startDate := vals.startDate.GetOr(p.startDate),
                endDate := vals.endDate.GetOr(p.endDate));
    if !CheckDateRange(q) then Failure(ValidateError([StartAfterEnd]))
    else if TouchesWindow(vals) then Success(RemoveOutdatedCells(q))
    else Success(q)
  }

  /** Writes `vals` to every project of `ids` in turn; one rejected or
      missing project rolls back the whole write. */
  function Write(s: Store, ids: seq<ProjectId>, vals: ProjectVals): (r: Result<Store, Error>)
    ensures r.Success? ==> forall i :: 0 <= i < |ids| ==> ids[i] in s.projects
    ensures r.Success? ==> r.value.projects.Keys == s.projects.Keys
    ensures r.Success? ==> r.value.nextProjectId == s.nextProjectId && r.value.nextLineId == s.nextLineId
    ensures r.Success? ==> r.value.loadDay == s.loadDay
    ensures r.Success? ==> forall q :: q in s.projects && q !in ids ==> r.value.projects[q] == s.projects[q]
    decreases |ids|
  {
    if ids == [] then Success(s)
    else if ids[0] !in s.projects then Failure(MissingRecord)
    else
      var p' :- WriteProject(s.projects[ids[0]], vals);
      Write(s.(projects := s.projects[ids[0] := p']), ids[1..], vals)
  }

  /** Creates a project; a window bound not given defaults to the load day
      of the model and that day plus seven days. */
  function CreateProject(s: Store, vals: ProjectVals): (r: Result<(Store, ProjectId), Error>)
    ensures r.Success? <==> vals.startDate.GetOr(s.loadDay) <= vals.endDate.GetOr(s.loadDay + DefaultWindowDays)
    ensures r.Failure? ==> r.error == ValidateError([StartAfterEnd])
    ensures r.Success? ==> r.value.1 == s.nextProjectId && r.value.0.nextProjectId == s.nextProjectId + 1
    ensures r.Success? ==> r.value.0.nextLineId == s.nextLineId && r.value.0.loadDay == s.loadDay
    ensures r.Success? ==> r.value.1 in r.value.0.projects
    ensures r.Success? ==>
      r.value.0.projects[r.value.1] ==
        Project(vals.name.GetOr(""), vals.startDate.GetOr(s.loadDay), vals.endDate.GetOr(s.loadDay + DefaultWindowDays), [])
    ensures r.Success? ==> forall q :: q in s.projects && q != s.nextProjectId ==> q in r.value.0.projects && r.value.0.projects[q] == s.projects[q]
  {
    var p := Project(vals.name.GetOr(""), vals.startDate.GetOr(s.loadDay), vals.endDate.GetOr(s.loadDay + DefaultWindowDays), []);
    if !CheckDateRange(p) then Failure(ValidateError([StartAfterEnd]))
    else
      Success((s.(projects := s.projects[s.nextProjectId := p], nextProjectId := s.nextProjectId + 1), s.nextProjectId))
  }

  /** The default window of a project created without dates is valid and
      spans eight days from the load day. */
  lemma DefaultWindowValid(s: Store, name: Option<string>)
    ensures var r := CreateProject(s, ProjectVals(name, None, None));
      && r.Success?
      && r.value.0.projects[r.value.1].startDate == s.loadDay
      && r.value.0.projects[r.value.1].endDate == s.loadDay + 7
  {
  }

  /** The defaults are fixed at load: two projects created one after the
      other without dates get the same window. */
  lemma DefaultsFixedAtLoad(s: Store, name1: Option<string>, name2: Option<string>)
    ensures var r1 := CreateProject(s, ProjectVals(name1, None, None));
      var r2 := CreateProject(r1.value.0, ProjectVals(name2, None, None));
      && r1.Success? && r2.Success?
      && r2.value.0.projects[r2.value.1].startDate == r1.value.0.projects[r1.value.1].startDate
      && r2.value.0.projects[r2.value.1].endDate == r1.value.0.projects[r1.value.1].endDate
  {
    DefaultWindowValid(s, name1);
    DefaultWindowValid(CreateProject(s, ProjectVals(name1, None, None)).value.0, name2);
  }

  /** Creating a project keeps a valid store valid and, since the new id is
      fresh, keeps every project already stored. */
  lemma CreateProjectPreservesValidity(s: Store, vals: ProjectVals)
    requires ValidStore(s)
    requires CreateProject(s, vals).Success?
    ensures ValidStore(CreateProject(s, vals).value.0)
    ensures CreateProject(s, vals).value.1 !in s.projects
    ensures forall q :: q in s.projects ==> CreateProject(s, vals).value.0.projects[q] == s.projects[q]
  {
    var s' := CreateProject(s, vals).value.0;
    forall pid | pid in s'.projects
      ensures pid < s'.nextProjectId && WellStored(s'.projects[pid], s'.nextLineId)
    {
      if pid != s.nextProjectId {
        assert pid in s.projects;
      }
    }
  }

  /** Pruning cells that are all inside the window keeps them all. */
  lemma {:induction false} PruneKeepsInWindow(cells: seq<Cell>, start: Date, end: Date)
    requires forall k :: 0 <= k < |cells| ==> InWindow(cells[k].date, start, end)
    ensures PruneCells(cells, start, end) == cells
  {
    if cells != [] {
      PruneKeepsInWindow(cells[1..], start, end);
      assert cells == [cells[0]] + cells[1..];
    }
  }

  /** Pruning never raises the number of cells on a date. */
  lemma {:induction false} PruneDateCount(cells: seq<Cell>, start: Date, end: Date, d: Date)
    ensures DateCount(PruneCells(cells, start, end), d) <= DateCount(cells, d)
  {
    if cells != [] {
      PruneDateCount(cells[1..], start, end, d);
      var rest := PruneCells(cells[1..], start, end);
      var here := if cells[0].date == d then 1 else 0;
      assert DateCount(cells, d) == here + DateCount(cells[1..], d);
      if InWindow(cells[0].date, start, end) {
        var pruned := [cells[0]] + rest;
        assert PruneCells(cells, start, end) == pruned;
        assert pruned[0] == cells[0] && pruned[1..] == rest;
        assert DateCount(pruned, d) == here + DateCount(rest, d);
      } else {
        assert PruneCells(cells, start, end) == [] + rest == rest;
      }
    }
  }

  /** Pruning a second time removes nothing more. */
  lemma RemoveOutdatedCellsIdempotent(p: Project)
    ensures RemoveOutdatedCells(RemoveOutdatedCells(p)) == RemoveOutdatedCells(p)
  {
    var r := RemoveOutdatedCells(p);
    var rr := RemoveOutdatedCells(r);
    forall i | 0 <= i < |r.lines|
      ensures rr.lines[i] == r.lines[i]
    {
      PruneKeepsInWindow(r.lines[i].cells, p.startDate, p.endDate);
    }
  }

  /** Pruning a project with a valid window whose cells all passed the
      quantity and duplicate checks (under whatever window they were created)
      yields a valid project. */
  lemma RemoveOutdatedCellsRestoresValidity(p: Project)
    requires CheckDateRange(p)
    requires forall i, k :: 0 <= i < |p.lines| && 0 <= k < |p.lines[i].cells| ==>
      CheckQuantity(p.lines[i].cells[k]) && CheckDuplicate(p.lines[i].cells[k], p.lines[i])
    ensures ValidProject(RemoveOutdatedCells(p))
  {
    var r := RemoveOutdatedCells(p);
    forall i | 0 <= i < |r.lines|
      ensures ValidLine(r.lines[i], r)
    {
      assert r.lines[i] == p.lines[i].(cells := PruneCells(p.lines[i].cells, p.startDate, p.endDate));
      PrunedLineValid(p.lines[i], r);
    }
  }

  /** The pruned cells of a line whose cells pass the quantity and duplicate
      checks pass all three checks in the window they were pruned to. */
  lemma PrunedLineValid(line: Line, r: Project)
    requires forall k :: 0 <= k < |line.cells| ==> CheckQuantity(line.cells[k]) && CheckDuplicate(line.cells[k], line)
    ensures ValidLine(line.(cells := PruneCells(line.cells, r.startDate, r.endDate)), r)
  {
    var cells := line.cells;
    var pruned := line.(cells := PruneCells(cells, r.startDate, r.endDate));
    forall k | 0 <= k < |pruned.cells|
      ensures ValidCell(pruned.cells[k], pruned, r)
    {
      var c := pruned.cells[k];
      assert c in multiset(pruned.cells);
      assert c in cells;
      var j :| 0 <= j < |cells| && cells[j] == c;
      PruneDateCount(cells, r.startDate, r.endDate, c.date);
    }
  }

  /** A successful write keeps a valid project valid. */
  lemma WriteProjectPreservesValidity(p: Project, vals: ProjectVals)
    requires ValidProject(p)
    requires WriteProject(p, vals).Success?
    ensures ValidProject(WriteProject(p, vals).value)
  {
    var q := p.(name := vals.name.GetOr(p.name),
                startDate := vals.startDate.GetOr(p.startDate),
                endDate := vals.endDate.GetOr(p.endDate));
    forall i, k | 0 <= i < |q.lines| && 0 <= k < |q.lines[i].cells|
      ensures CheckQuantity(q.lines[i].cells[k]) && CheckDuplicate(q.lines[i].cells[k], q.lines[i])
    {
      assert ValidLine(p.lines[i], p);
      assert ValidCell(p.lines[i].cells[k], p.lines[i], p);
    }
    if TouchesWindow(vals) {
      RemoveOutdatedCellsRestoresValidity(q);
    }
  }

  /** After a write that names a date, every cell of every line lies in the
      new window, and every cell already in it is kept unchanged. */
  lemma WriteProjectPrunesExactly(p: Project, vals: ProjectVals)
    requires TouchesWindow(vals) && WriteProject(p, vals).Success?
    ensures var r := WriteProject(p, vals).value;
      && (forall i, k :: 0 <= i < |r.lines| && 0 <= k < |r.lines[i].cells| ==>
            r.startDate <= r.lines[i].cells[k].date <= r.endDate)
      && (forall i, c: Cell :: 0 <= i < |r.lines| && r.startDate <= c.date <= r.endDate ==>
            multiset(r.lines[i].cells)[c] == multiset(p.lines[i].cells)[c])
  {
  }

  /** A write naming neither date leaves every line and cell as it was. */
  lemma WriteProjectWithoutDatesKeepsCells(p: Project, vals: ProjectVals)
    requires !TouchesWindow(vals) && WriteProject(p, vals).Success?
    ensures WriteProject(p, vals).value.lines == p.lines
  {
  }

  /** A write never adds a cell: widening the window leaves the new days
      without cells. */
  lemma WriteProjectNeverAddsCells(p: Project, vals: ProjectVals)
    requires WriteProject(p, vals).Success?
    ensures var r := WriteProject(p, vals).value;
      forall i, c :: 0 <= i < |r.lines| ==> multiset(r.lines[i].cells)[c] <= multiset(p.lines[i].cells)[c]
  {
  }

  /** On a valid project a write that keeps or widens the window removes no
      cell. */
  lemma WideningWriteKeepsCells(p: Project, vals: ProjectVals)
    requires ValidProject(p) && WriteProject(p, vals).Success?
    requires vals.startDate.GetOr(p.startDate) <= p.startDate && p.endDate <= vals.endDate.GetOr(p.endDate)
    ensures WriteProject(p, vals).value.lines == p.lines
  {
    var r := WriteProject(p, vals).value;
    if TouchesWindow(vals) {
      forall i | 0 <= i < |p.lines|
        ensures r.lines[i] == p.lines[i]
      {
        assert ValidLine(p.lines[i], p);
        forall k | 0 <= k < |p.lines[i].cells|
          ensures InWindow(p.lines[i].cells[k].date, r.startDate, r.endDate)
        {
          assert ValidCell(p.lines[i].cells[k], p.lines[i], p);
        }
        PruneKeepsInWindow(p.lines[i].cells, r.startDate, r.endDate);
      }
    }
  }

  /** A successful write keeps a valid store valid, and leaves the projects
      it does not name untouched. */
  lemma {:induction false} WritePreservesValidity(s: Store, ids: seq<ProjectId>, vals: ProjectVals)
    requires ValidStore(s)
    requires Write(s, ids, vals).Success?
    ensures ValidStore(Write(s, ids, vals).value)
    decreases |ids|
  {
    if ids != [] {
      var p := s.projects[ids[0]];
      var p' := WriteProject(p, vals).value;
      WriteProjectPreservesValidity(p, vals);
      var s1 := s.(projects := s.projects[ids[0] := p']);
      assert ValidStore(s1) by {
        forall pid | pid in s1.projects
          ensures pid < s1.nextProjectId && WellStored(s1.projects[pid], s1.nextLineId)
        {
          if pid == ids[0] {
            assert forall i :: 0 <= i < |p'.lines| ==> p'.lines[i].id == p.lines[i].id;
          }
        }
      }
      WritePreservesValidity(s1, ids[1..], vals);
    }
  }

  /** A store-level write naming neither date changes no line of any project. */
  lemma {:induction false} WriteWithoutDatesKeepsCells(s: Store, ids: seq<ProjectId>, vals: ProjectVals)
    requires !TouchesWindow(vals)
    requires Write(s, ids, vals).Success?
    ensures forall q :: q in s.projects ==> Write(s, ids, vals).value.projects[q].lines == s.projects[q].lines
    decreases |ids|
  {
    if ids != [] {
      var p' := WriteProject(s.projects[ids[0]], vals).value;
      var s1 := s.(projects := s.projects[ids[0] := p']);
      WriteWithoutDatesKeepsCells(s1, ids[1..], vals);
    }
  }

  /** Writing the same values a second time changes nothing more. */
  lemma WriteProjectIdempotent(p: Project, vals: ProjectVals)
    requires WriteProject(p, vals).Success?
    ensures WriteProject(WriteProject(p, vals).value, vals) == WriteProject(p, vals)
  {
    var q := p.(name := vals.name.GetOr(p.name),
                startDate := vals.startDate.GetOr(p.startDate),
                endDate := vals.endDate.GetOr(p.endDate));
    if TouchesWindow(vals) {
      RemoveOutdatedCellsIdempotent(q);
    }
  }

  /** A store-level write succeeds exactly when every named project exists
      and accepts the values, and it then leaves each named project as a
      single write of the values would, however often the project is named. */
  lemma {:induction false} WriteAppliesToEachNamed(s: Store, ids: seq<ProjectId>, vals: ProjectVals)
    ensures Write(s, ids, vals).Success? <==>
      forall i :: 0 <= i < |ids| ==> ids[i] in s.projects && WriteProject(s.projects[ids[i]], vals).Success?
    ensures Write(s, ids, vals).Success? ==> forall i :: 0 <= i < |ids| ==>
      Write(s, ids, vals).value.projects[ids[i]] == WriteProject(s.projects[ids[i]], vals).value
    decreases |ids|
  {
    if ids != [] && ids[0] in s.projects && WriteProject(s.projects[ids[0]], vals).Success? {
      var id := ids[0];
      var p' := WriteProject(s.projects[id], vals).value;
      WriteProjectIdempotent(s.projects[id], vals);
      var s1 := s.(projects := s.projects[id := p']);
      assert Write(s, ids, vals) == Write(s1, ids[1..], vals);
      WriteAppliesToEachNamed(s1, ids[1..], vals);
      assert forall j :: 0 <= j < |ids[1..]| ==> ids[1..][j] == ids[j + 1];
      forall i | 0 <= i < |ids| && ids[i] in s.projects
        ensures WriteProject(s1.projects[ids[i]], vals) == WriteProject(s.projects[ids[i]], vals)
      {
      }
      if Write(s, ids, vals).Success? {
        var r := Write(s, ids, vals).value;
        forall i | 0 <= i < |ids|
          ensures r.projects[ids[i]] == WriteProject(s.projects[ids[i]], vals).value
        {
          if i > 0 {
            assert ids[i] == ids[1..][i - 1];
          } else if id in ids[1..] {
            var j :| 0 <= j < |ids[1..]| && ids[1..][j] == id;
            assert r.projects[id] == WriteProject(s1.projects[id], vals).value;
          }
        }
      }
    }
  }
}
