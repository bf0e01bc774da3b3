# Project matrix calendar cells, modelled in Dafny

This project models the calendar-cell logic of the `smile_matrix` module: a
*project* owns a date window `[start_date, end_date]` and a list of *lines*;
each line owns *cells*, one quantity per day. The model covers:

- the date-range enumerator `get_date_range` (every date from start to end,
  a fixed number of days apart);
- the constraints the record store checks: a project's end date is not before
  its start date; a cell's quantity is not negative, its date is inside its
  project's window, and no other cell of the same line has the same date;
- line creation, which generates one zero-quantity cell per day of the
  project window;
- project writes, which remove every cell outside the new window when the
  write names either date.

Dates are day ordinals (`int`), so `timedelta(days=k)` is `+ k`. Quantities
and prices are `real`. Records are immutable datatypes in a `Store` (a map from
project id to project, plus the next ids the record store will hand out).
Every mutating operation returns a `Result`. On `Failure` the caller keeps its
previous store, which is how the model expresses the transaction rollback on a
constraint violation. The store also holds the day the project model was
loaded: the source computes the default window of a new project once, at load
time (smile_matrix/smile_project.py:40-43), so every create of a running
server sees the same defaults, however many days later it happens.

Files, one module each:

- `wrappers.dfy` (`Wrappers`): `Option` and `Result`.
- `date_range.dfy` (`DateRange`): `Range`, the loop `GetDateRange`, and the
  description `IsDateRange` proved equivalent to `Range`.
- `records.dfy` (`Records`): the `Cell`, `Line`, `Project` and `Store`
  datatypes, the four constraint checks written as the source writes them, and
  the validity predicates.
- `cells.dfy` (`Cells`): creating and writing a cell.
- `lines.dfy` (`Lines`): creating a line and generating its cells.
- `projects.dfy` (`Projects`): pruning, project writes and project creation.

In three places the model follows the code where a reader might expect otherwise:

- Pruning runs only when the written values contain `start_date` or
  `end_date` (smile_matrix/smile_project.py:66), not after every write.
- Pruning never adds cells. After a window is widened, the new days have no
  cells (`Projects.WriteProjectNeverAddsCells`). Only line creation fills a
  whole window.
- The record store's 6.x-era validation runs every constraint of a model on
  each create and write, whatever fields were written. It rejects the write
  with the messages of all failing constraints at once. `Records.CellViolations`
  lists them in declaration order. That framework code is not part of this
  model; this behaviour is an assumption about it.

## Model

| member | source | states |
|---|---|---|
| `DateRange.GetDateRange` | smile_matrix/smile_project.py:73-85 | the source loop (append the date, advance by `day_delta`, stop once past `end`) returns exactly `Range(start, end, day_delta)` for any positive step |
| `DateRange.RangeIsDateRange` | smile_matrix/smile_project.py:81-84 | the range is empty iff `start > end`; otherwise it starts at `start`, neighbours differ by exactly the step, every date is in `[start, end]`, and one more step would pass `end` |
| `DateRange.RangeUnique` | smile_matrix/smile_project.py:81-84 | a sequence meets that description if and only if it is the range, so the description fully specifies the enumerator |
| `DateRange.RangeUnitStep` | smile_matrix/smile_project.py:73-85 | with the default step of one day and `start <= end`: exactly `end - start + 1` dates, the first is `start`, the last is `end`, and the `i`-th is `start + i` |
| `DateRange.RangeStrictlyIncreasing` | smile_matrix/smile_project.py:81-84 | with a positive step the dates are strictly increasing |
| `DateRange.RangeElement` | smile_matrix/smile_project.py:81-84 | the `i`-th date is `start + i * step` |
| `DateRange.RangeLength` | smile_matrix/smile_project.py:81-84 | for `start <= end` the range holds `(end - start) / step + 1` dates |
| `DateRange.RangeMembership` | smile_matrix/smile_project.py:81-84 | a date is listed iff it lies in `[start, end]` and is a whole number of steps after `start` |
| `Records.CellViolations` | smile_matrix/smile_project.py:215-219 | the rejected constraints of a cell name the negative-quantity failure iff the quantity is below zero, the date failure iff the date is before the start or after the end, and the duplicate failure iff the line has more than one cell on that date |
| `Records.DuplicateCheckIffDistinct` | smile_matrix/smile_project.py:209-213 | the duplicate check as written (a search on line and date finds at most one cell) accepts every cell of a line iff no two cells of the line share a date |
| `Records.ValidLineIff` | smile_matrix/smile_project.py:193-213 | a line passes all three cell checks iff every quantity is non-negative, every date is inside the project window and the dates are pairwise distinct |
| `Cells.InsertCell` | smile_matrix/smile_project.py:193-219 | creating a cell is accepted iff its quantity is non-negative, its date is in the project window and the line has no cell on that date; when accepted the cell is appended and nothing else changes; when rejected the error names exactly the failing checks |
| `Cells.UpdateCell` | smile_matrix/smile_project.py:193-219 | rewriting a cell is accepted iff the new quantity is non-negative, the new date is in the window and no other cell of the line has that date; when accepted only that cell changes; when rejected, a negative quantity, an out-of-window date and a date another cell of the line already has are each reported exactly when they occur |
| `Cells.InsertCellPreservesValidity` | smile_matrix/smile_project.py:193-219 | an accepted cell create keeps a valid project valid |
| `Cells.UpdateCellPreservesValidity` | smile_matrix/smile_project.py:193-219 | an accepted cell write keeps a valid project valid |
| `Cells.CreateCell` | smile_matrix/smile_project.py:180-219 | a cell create is accepted iff the project and line exist, a date is given and the cell, with quantity 0 when none is given, passes the three checks as a new cell of that line; the stored project is then that line with the cell appended; other projects and the id counters are unchanged |
| `Cells.UpdatedCell` | smile_matrix/smile_project.py:193-219 | a write to the cell dated `date` keeps the stored date and quantity where no value is given; it is accepted iff the resulting cell has a non-negative quantity, a date in the window and a date no other cell of the line has, and then only that cell changes; a negative quantity is always rejected and reported |
| `Cells.WriteCell` | smile_matrix/smile_project.py:193-219 | a cell write is accepted iff the project, the line and a cell on the given date exist and the rewritten cell passes the three checks; the stored project is then the rewritten one; a negative quantity is always rejected; other projects and the id counters are unchanged |
| `Cells.CreateCellPreservesValidity` | smile_matrix/smile_project.py:180-219 | on a valid store an accepted cell create keeps the store valid, and the line gains exactly the requested cell, with quantity 0 when none is given |
| `Cells.WriteCellPreservesValidity` | smile_matrix/smile_project.py:193-219 | on a valid store an accepted cell write keeps the store valid |
| `Lines.CreateCellsSucceeds` | smile_matrix/smile_project.py:157-168 | on a valid project, creating default cells for distinct in-window dates that the line lacks succeeds; the line gains exactly one zero-quantity cell per date, in order; nothing else changes; the project stays valid |
| `Lines.GenerateCellsFillsWindow` | smile_matrix/smile_project.py:157-168 | on a valid project, generating the cells of a line that has none succeeds, gives that line one zero-quantity cell per day of the window in date order, changes nothing else and keeps the project valid |
| `Lines.CreateLine` | smile_matrix/smile_project.py:137-152 | a line create fails when the project or the name is missing; when it succeeds the line gets the next line id and only its own project changes |
| `Lines.CreateLineGeneratesCalendar` | smile_matrix/smile_project.py:147-168 | on a valid store, a line create with its required values always succeeds. The project gains exactly one line, whose cells are one zero-quantity cell per date of the project window. The other lines, the window and every other project are unchanged, and the store stays valid |
| `Lines.NewLineCoversWindow` | smile_matrix/smile_project.py:157-168 | the generated cells number `end - start + 1`; the `i`-th is dated `start + i` with quantity 0; a date has a cell iff it is in the window |
| `Projects.PruneCells` | smile_matrix/smile_project.py:96-101 | the kept cells all lie in the window; a cell in the window is kept exactly as often as it occurred, and one outside it is never kept |
| `Projects.RemoveOutdatedCells` | smile_matrix/smile_project.py:87-105 | no line is removed and ids, names and prices stay the same; every surviving cell of every line is in the window; every in-window cell is kept with its quantity |
| `Projects.PruneKeepsInWindow` | smile_matrix/smile_project.py:96-101 | pruning cells that are all in the window keeps them all, in order |
| `Projects.RemoveOutdatedCellsIdempotent` | smile_matrix/smile_project.py:87-105 | pruning twice is the same as pruning once |
| `Projects.RemoveOutdatedCellsRestoresValidity` | smile_matrix/smile_project.py:87-105 | pruning a project with a valid window whose cells passed the quantity and duplicate checks yields a project that passes every constraint |
| `Projects.WriteProject` | smile_matrix/smile_project.py:48-68 | a project write is accepted iff the resulting end date is not before the resulting start date. A rejected write reports the date-range constraint. An accepted write sets the given fields and keeps the lines |
| `Projects.WriteProjectPreservesValidity` | smile_matrix/smile_project.py:63-68 | an accepted write keeps a valid project valid |
| `Projects.WriteProjectPrunesExactly` | smile_matrix/smile_project.py:63-104 | after an accepted write naming a date, every cell lies in the new window and every cell already in it is kept unchanged |
| `Projects.WriteProjectWithoutDatesKeepsCells` | smile_matrix/smile_project.py:66-67 | an accepted write naming neither date leaves every line and cell unchanged |
| `Projects.WriteProjectNeverAddsCells` | smile_matrix/smile_project.py:63-68 | a write never adds a cell to any line |
| `Projects.WideningWriteKeepsCells` | smile_matrix/smile_project.py:63-104 | on a valid project, a write that keeps or widens the window removes no cell |
| `Projects.Write` | smile_matrix/smile_project.py:63-68 | a write to several projects fails when one is missing; an accepted one leaves unnamed projects, the id counters and the load day untouched |
| `Projects.WriteProjectIdempotent` | smile_matrix/smile_project.py:63-104 | writing the same values to a project a second time changes nothing more |
| `Projects.WriteAppliesToEachNamed` | smile_matrix/smile_project.py:63-68 | a write to several projects succeeds iff every named project exists and accepts the values on its own; each named project then ends up exactly as one write of the values makes it, even when it is named twice |
| `Projects.WritePreservesValidity` | smile_matrix/smile_project.py:63-68 | an accepted write to several projects keeps a valid store valid |
| `Projects.WriteWithoutDatesKeepsCells` | smile_matrix/smile_project.py:63-68 | an accepted store write naming neither date leaves the lines and cells of every project unchanged |
| `Projects.CreateProject` | smile_matrix/smile_project.py:40-58 | a project create is accepted iff the end date, or the load day plus seven days when none is given, is not before the start date, or the load day when none is given; a rejected create reports the date-range constraint. The new project gets the next id, the given or default name and window, and no lines; other projects, the line counter and the load day are unchanged |
| `Projects.DefaultWindowValid` | smile_matrix/smile_project.py:40-43 | a project created without dates is accepted with the window `[loadDay, loadDay + 7]` |
| `Projects.DefaultsFixedAtLoad` | smile_matrix/smile_project.py:40-43 | two projects created one after the other without dates get the same window, since the defaults are computed once when the model is loaded |
| `Projects.CreateProjectPreservesValidity` | smile_matrix/smile_project.py:40-58 | on a valid store an accepted project create keeps the store valid, uses a fresh id and keeps every stored project |

## Left out

- `get_date_range` with `day_delta <= 0`: for `start <= end` the source loop never ends. The model requires a positive step, and every caller in the source uses the default step of one day.
- `matrix()` (smile_matrix/smile_project.py:107-128): it builds a UI action from helpers of another model that are not part of this model. It seeds the grid from `line.price`, not from cell quantities.
- `smile_decimal_precision/models/ir_http.py`: a display override of a framework method, with no logic of its own.
- Date strings and the clock: `strptime('%Y-%m-%d')` parsing is replaced by day ordinals. The value of `datetime.today()` when the model is loaded becomes the `loadDay` field of the store; the model does not say which day that is.
- Calendar bounds: day ordinals are unbounded, while Python dates stop at 9999-12-31. In the source, a line create on a project whose window ends on that day raises `OverflowError` when the date-range loop steps past it (smile_matrix/smile_project.py:84), and the create is rolled back.
- `Lines.CreateLineGeneratesCalendar`: states that the create always succeeds on a valid store, which in the source fails only for a window ending on 9999-12-31, as described in the line above.
- Float semantics: quantities and prices are `real`. A NaN quantity, which passes the source's `quantity < 0` test, is not representable.
- The `size=32` limit on names and the `_order` clauses. The model keeps cells in creation order, and generated cells are in date order anyway.
- Deleting projects, lines or single cells, and the cascade-delete of lines and cells: these are record-store operations outside this module's code. Pruning is the only deletion modelled.
- Record ids of cells: a cell is addressed by its line and its date, the key that the duplicate check makes unique.
- Which error a call reports when it has several problems at once (a missing record together with a failing constraint, say) follows the order of the model's checks. The source leaves that order to the record store.
