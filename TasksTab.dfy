/**
  The task tab of the model window: the table that edits the task set of a
  configuration cell by cell, adds and removes tasks and fills the "Followed by"
  boxes; the bar that replaces the schema of custom data fields; and the
  generation of a whole task set.
 */
module TasksTab {
  import opened PyText
  import opened Rows
  import opened Tasks

  /** What one cellChanged notification comes to. */
  datatype Outcome =
    | Ignored     // the table is writing its own cells: _ignore_cell_changed is set
    | Echo        // the first notification after a rollback: it only re-arms the handler
    | Committed   // the try block ran to its end: the edit is assigned
    | RolledBack  // ValueError or AssertionError: nothing is assigned, the old text is put back
    | Raised      // another exception leaves the handler

  /** What the try block and its except clause leave behind: the outcome, the task
      set, and _manual_change (cleared once the except clause has started). */
  datatype SetEdit = SetEdit(outcome: Outcome, tasks: seq<Task>, armed: bool)

  /** Every task of the set given n criticality levels. */
  function AllWithCritLevels(tasks: seq<Task>, n: int): (r: seq<Task>)
    ensures |r| == |tasks|
    ensures forall i :: 0 <= i < |tasks| ==> r[i] == WithCritLevels(tasks[i], n)
  {
    seq(|tasks|, i requires 0 <= i < |tasks| => WithCritLevels(tasks[i], n))
  }

  /** The nr_crit_levels branch: int() must read a number of at least 1 (otherwise
      ValueError or AssertionError), which every task of the set then gets. */
  function CritLevelsEdit(tasks: seq<Task>, text: string): (r: SetEdit)
    ensures r.outcome == Committed || r.outcome == RolledBack
    ensures |r.tasks| == |tasks|
    ensures r.outcome == RolledBack ==> r.tasks == tasks && !r.armed
    ensures r.outcome == Committed ==> r.armed
  {
    match ParseInt(text)
    case None => SetEdit(RolledBack, tasks, false)
    case Some(n) =>
      if n >= 1 then SetEdit(Committed, AllWithCritLevels(tasks, n), true)
      else SetEdit(RolledBack, tasks, false)
  }

  /** Every other column: the edit of the task of the row is assigned, rolled back,
      or (an exception the except clause does not catch) left half done. */
  function RowEdit(tasks: seq<Task>, row: int, col: Column, cell: Cell, fields: map<string, FieldType>): (r: SetEdit)
    requires 0 <= row < |tasks| && !col.NrCritLevels?
    ensures r.outcome == Committed || r.outcome == RolledBack || r.outcome == Raised
    ensures |r.tasks| == |tasks|
    ensures r.outcome == RolledBack ==> r.tasks == tasks && !r.armed
    ensures r.outcome == Committed ==> r.armed
    ensures forall i :: 0 <= i < |tasks| && i != row ==> r.tasks[i] == tasks[i]
    ensures AgreeOutside(tasks[row], r.tasks[row], Writes(col))
  {
    EditTaskWrites(tasks[row], col, cell, fields);
    Settle(tasks, row, EditTask(tasks[row], col, cell, fields))
  }

  /** What the handler leaves once the try block of row ended with e. */
  function Settle(tasks: seq<Task>, row: int, e: EditResult): SetEdit
    requires 0 <= row < |tasks|
  {
    match e
    case Accepted(u) => SetEdit(Committed, tasks[row := u], true)
    case Rejected => SetEdit(RolledBack, tasks, false)
    case Escaped(u, inHandler) => SetEdit(Raised, tasks[row := u], !inHandler)
  }

  /** The cell-change handler once both flags let it through, on the task set of
      the configuration: the nr_crit_levels column rewrites every task, every other
      column at most the task of its row. */
  function EditTaskSet(tasks: seq<Task>, row: int, col: Column, cell: Cell, fields: map<string, FieldType>): (r: SetEdit)
    requires 0 <= row < |tasks|
    ensures r.outcome == Committed || r.outcome == RolledBack || r.outcome == Raised
    ensures |r.tasks| == |tasks|
    ensures r.outcome == RolledBack ==> r.tasks == tasks && !r.armed
    ensures r.outcome == Committed ==> r.armed
    ensures !col.NrCritLevels? ==> forall i :: 0 <= i < |tasks| && i != row ==> r.tasks[i] == tasks[i]
    ensures !col.NrCritLevels? ==> AgreeOutside(tasks[row], r.tasks[row], Writes(col))
  {
    if col.NrCritLevels? then CritLevelsEdit(tasks, cell.text) else RowEdit(tasks, row, col, cell, fields)
  }

  /** An nr_crit_levels edit is committed exactly when int() reads a number of at
      least 1; it then gives every task of the set, not only the edited one, that
      number of levels, empty lists of WCETs and deviations and a WCET of 0, and
      keeps the criticality level and every other attribute of each task. */
  lemma NrCritLevelsEdit(tasks: seq<Task>, row: int, cell: Cell, fields: map<string, FieldType>)
    requires 0 <= row < |tasks|
    ensures var r := EditTaskSet(tasks, row, NrCritLevels, cell, fields);
            var n := ParseInt(cell.text);
            && (r.outcome == Committed <==> n.Some? && n.value >= 1)
            && (r.outcome != Committed ==> r.outcome == RolledBack)
            && (r.outcome == Committed ==>
                  forall i :: 0 <= i < |tasks| ==>
                    && r.tasks[i].nrCritLevels == n.value
                    && r.tasks[i].listWcets == [] && r.tasks[i].wcetDeviations == [] && r.tasks[i].wcet == 0.0
                    && r.tasks[i].critLevel == tasks[i].critLevel
                    && AgreeOutside(tasks[i], r.tasks[i], Writes(NrCritLevels)))
  {
    match ParseInt(cell.text)
    case None =>
    case Some(n) =>
      if n >= 1 {
        var r := EditTaskSet(tasks, row, NrCritLevels, cell, fields);
        assert r == CritLevelsEdit(tasks, cell.text);
        assert r.tasks == AllWithCritLevels(tasks, n);
      }
  }

  /** After a committed nr_crit_levels edit, every task of the set has the same
      number of levels, so a WCET list that fits one row fits every row. */
  lemma CritLevelsShared(tasks: seq<Task>, row: int, cell: Cell, fields: map<string, FieldType>, i: int, j: int)
    requires 0 <= row < |tasks| && 0 <= i < |tasks| && 0 <= j < |tasks|
    requires EditTaskSet(tasks, row, NrCritLevels, cell, fields).outcome == Committed
    ensures var r := EditTaskSet(tasks, row, NrCritLevels, cell, fields);
            r.tasks[i].nrCritLevels == r.tasks[j].nrCritLevels >= 1
  {
    NrCritLevelsEdit(tasks, row, cell, fields);
  }

  /** Either the whole edit of a row is assigned, or (ValueError, AssertionError)
      none of it: the task of the row is then the one before the edit. */
  lemma CommitOrUnchanged(tasks: seq<Task>, row: int, col: Column, cell: Cell, fields: map<string, FieldType>)
    requires 0 <= row < |tasks| && !col.NrCritLevels?
    ensures var r := EditTaskSet(tasks, row, col, cell, fields);
            var e := EditTask(tasks[row], col, cell, fields);
            && (r.outcome == Committed <==> e.Accepted?)
            && (r.outcome == Committed ==> r.tasks == tasks[row := e.task])
            && (r.outcome == RolledBack <==> e.Rejected?)
            && (r.outcome == Raised ==> r.tasks[row] == e.task)
  {
  }

  // ================================================================ task set generation

  /** One task of the set the generator dialog drew: its WCET, its period and,
      for mixed-criticality sets, its criticality level. */
  datatype Triple = Triple(wcet: real, period: real, critLevel: int)

  /** The random draws of the generator library, for the task at position i (from 1):
      gen_arrivals(period, 0, duration_ms), gen_list_wcets(wcet, nr_crit_levels,
      crit_level) and gen_wcet_deviations(wcets, nr_crit_levels). */
  datatype Draws = Draws(
    arrivals: (int, real, real) -> seq<real>,
    listWcets: (int, real, int, int) -> seq<real>,
    deviations: (int, seq<real>, int) -> seq<real>)

  /** The i-th task (from 1) of a generated set: the first `periodic` tasks keep the
      default type, the others are sporadic with drawn activation dates; the
      periodic tasks of a mixed-criticality set also get its class, levels and
      drawn WCET lists. */
  function GeneratedTask(defaults: Task, taskClass: string, periodic: int, nrCritLevels: int,
                         i: int, triple: Triple, draws: Draws, durationMs: real): Task
  {
    var base := defaults.(name := "Task " + IntToString(i), identifier := i,
                          period := triple.period, wcet := triple.wcet, deadline := triple.period);
    if i > periodic then
      base.(taskType := "Sporadic", listActivationDates := draws.arrivals(i, triple.period, durationMs))
    else if taskClass == "Generic" then
      base
    else
      var wcets := draws.listWcets(i, triple.wcet, nrCritLevels, triple.critLevel);
      base.(taskClass := taskClass, nrCritLevels := nrCritLevels, critLevel := triple.critLevel,
            listWcets := wcets, wcetDeviations := draws.deviations(i, wcets, nrCritLevels))
  }

  /** The attributes every generated task is given; the others come from the
      configuration defaults. */
  const GivenFields: set<Field> := {IdentifierField, NameField, PeriodField, WcetField, DeadlineField}

  /** The whole generated set, task i + 1 from the i-th triple. */
  function GeneratedTasks(defaults: Task, taskClass: string, periodic: int, nrCritLevels: int,
                          taskset: seq<Triple>, draws: Draws, durationMs: real): (tasks: seq<Task>)
    ensures |tasks| == |taskset|
    ensures forall i :: 0 <= i < |tasks| ==>
              && tasks[i].identifier == i + 1
              && tasks[i].name == "Task " + IntToString(i + 1)
              && tasks[i].period == tasks[i].deadline == taskset[i].period
              && tasks[i].wcet == taskset[i].wcet
              && (tasks[i].taskType == "Sporadic" || i < periodic)
              && (i < periodic ==> tasks[i].taskType == defaults.taskType
                                   && tasks[i].listActivationDates == defaults.listActivationDates)
              && (i < periodic && taskClass != "Generic" ==>
                    && tasks[i].taskClass == taskClass
                    && tasks[i].nrCritLevels == nrCritLevels
                    && tasks[i].critLevel == taskset[i].critLevel)
              && (i >= periodic || taskClass == "Generic" ==> tasks[i].taskClass == defaults.taskClass)
  {
    seq(|taskset|, i requires 0 <= i < |taskset| =>
      GeneratedTask(defaults, taskClass, periodic, nrCritLevels, i + 1, taskset[i], draws, durationMs))
  }

  /** A generated task is the configuration defaults except for the attributes its
      branch of the generation loop passes to add_task. */
  lemma GeneratedDefaults(defaults: Task, taskClass: string, periodic: int, nrCritLevels: int,
                          taskset: seq<Triple>, draws: Draws, durationMs: real, i: int)
    requires 0 <= i < |taskset|
    ensures var t := GeneratedTasks(defaults, taskClass, periodic, nrCritLevels, taskset, draws, durationMs)[i];
            && (i < periodic && taskClass == "Generic" ==> AgreeOutside(defaults, t, GivenFields))
            && (i < periodic && taskClass != "Generic" ==>
                  AgreeOutside(defaults, t, GivenFields + {TaskClassField, NrCritLevelsField, CritLevelField,
                                                           WcetsField, WcetDeviationsField}))
            && (i >= periodic ==> AgreeOutside(defaults, t, GivenFields + {TaskTypeField, ActivationDatesField}))
  {
    var t := GeneratedTasks(defaults, taskClass, periodic, nrCritLevels, taskset, draws, durationMs)[i];
    assert t == GeneratedTask(defaults, taskClass, periodic, nrCritLevels, i + 1, taskset[i], draws, durationMs);
  }

  /** The identifiers of a generated set are 1 to n, so the next task added by hand
      gets n + 1. */
  lemma GeneratedIdentifiers(defaults: Task, taskClass: string, periodic: int, nrCritLevels: int,
                             taskset: seq<Triple>, draws: Draws, durationMs: real)
    ensures var tasks := GeneratedTasks(defaults, taskClass, periodic, nrCritLevels, taskset, draws, durationMs);
            && (forall i, j :: 0 <= i < j < |tasks| ==> tasks[i].identifier != tasks[j].identifier)
            && SmallestUnused(|tasks| + 1, tasks)
  {
    var tasks := GeneratedTasks(defaults, taskClass, periodic, nrCritLevels, taskset, draws, durationMs);
    var ids := Identifiers(tasks);
    forall k | 1 <= k < |tasks| + 1 ensures k in ids {
      assert ids[k - 1] == k;
    }
  }

  // ================================================================ the widgets

  /** The index a "Followed by" box shows: when followed_by is set (and not 0), the
      first item ending with ' (<followed_by>)', found by a scan that stops there;
      otherwise, or when no item matches, the blank item 0. */
  method FindFollowed(items: seq<string>, followed: Option<int>) returns (index: nat)
    ensures index == 0 || (followed.Some? && index < |items| && EndsWith(items[index], " (" + IntToString(followed.value) + ")"))
    ensures index > 0 ==> NoneEndsWith(items, " (" + IntToString(followed.value) + ")", 0, index)
    ensures followed.Some? && followed.value != 0 && index == 0 ==>
              (|items| > 0 && EndsWith(items[0], " (" + IntToString(followed.value) + ")"))
              || NoneEndsWith(items, " (" + IntToString(followed.value) + ")", 0, |items|)
    ensures index == SelectedItem(items, followed)
  {
    index := 0;
    if followed.Some? && followed.value != 0 {
      var suffix := " (" + IntToString(followed.value) + ")";
      var k := 0;
      while k < |items|
        invariant 0 <= k <= |items| && index == 0
        invariant FirstEndingWith(items, suffix, k) == FirstEndingWith(items, suffix, 0)
      {
        if EndsWith(items[k], suffix) {
          index := k;
          break;
        }
        k := k + 1;
      }
    }
  }

  /** The part of the configuration the task tab reads and writes. */
  class Configuration {
    var tasks: seq<Task>                      // task_info_list
    var dataFields: map<string, FieldType>    // task_data_fields
    const defaults: Task                      // what add_task fills in when not told otherwise
    const durationMs: real                    // duration_ms

    constructor (tasks: seq<Task>, dataFields: map<string, FieldType>, defaults: Task, durationMs: real)
      ensures this.tasks == tasks && this.dataFields == dataFields
      ensures this.defaults == defaults && this.durationMs == durationMs
    {
      this.tasks := tasks;
      this.dataFields := dataFields;
      this.defaults := defaults;
      this.durationMs := durationMs;
    }

    /** add_task: the new task record goes at the end of the task list. */
    method AddTask(t: Task)
      modifies this
      ensures tasks == old(tasks) + [t]
      ensures dataFields == old(dataFields)
    {
      tasks := tasks + [t];
    }
  }

  /** The table widget: one row per task of the configuration, and in each row a
      "Followed by" box with its items and the index it shows. */
  class TasksTable {
    const configuration: Configuration
    var ignoreCellChanged: bool
    var manualChange: bool
    var rows: nat
    var followedItems: seq<seq<string>>
    var followedSelected: seq<nat>

    /** One row of widgets per row of the table. */
    predicate Shaped()
      reads this
    {
      |followedItems| == rows && |followedSelected| == rows
    }

    /** One row per task. */
    predicate Valid()
      reads this, configuration
    {
      Shaped() && rows == |configuration.tasks|
    }

    /** Every box lists the candidates of its row and shows its task's followed_by. */
    predicate FollowedFresh()
      reads this, configuration
      requires Valid()
    {
      forall r :: 0 <= r < rows ==>
        && followedItems[r] == FollowedByCandidates(configuration.tasks, r)
        && followedSelected[r] == SelectedItem(followedItems[r], configuration.tasks[r].followedBy)
    }

    constructor (configuration: Configuration)
      ensures this.configuration == configuration
      ensures Valid() && FollowedFresh() && manualChange && !ignoreCellChanged
    {
      this.configuration := configuration;
      ignoreCellChanged := false;
      manualChange := true;
      rows := 0;
      followedItems := [];
      followedSelected := [];
      new;
      RefreshTable();
    }

    /** refresh_table: one fresh row per task, then the boxes are filled. */
    method RefreshTable()
      modifies this
      ensures Valid() && FollowedFresh()
      ensures manualChange && !ignoreCellChanged
    {
      manualChange := true;
      rows := |configuration.tasks|;
      followedItems := seq(rows, _ => []);
      followedSelected := seq(rows, _ => 0);
      UpdateFollowedBy();
    }

    /** _update_followed_by: for every row, the items are the blank and the other
        APeriodic tasks, and the box shows the first item ending with
        ' (<followed_by>)' when followed_by is set, the blank otherwise. */
    method UpdateFollowedBy()
      requires Valid()
      modifies this
      ensures Valid() && FollowedFresh()
      ensures rows == old(rows) && manualChange == old(manualChange) && !ignoreCellChanged
    {
      ignoreCellChanged := true;
      var tasks := configuration.tasks;
      var row := 0;
      while row < |tasks|
        invariant 0 <= row <= |tasks| == rows
        invariant Shaped() && rows == old(rows) && manualChange == old(manualChange)
        invariant forall r :: 0 <= r < row ==>
                    && followedItems[r] == FollowedByCandidates(tasks, r)
                    && followedSelected[r] == SelectedItem(followedItems[r], tasks[r].followedBy)
      {
        FillBox(row);
        row := row + 1;
      }
      ignoreCellChanged := false;
    }

    /** One pass of that loop: the box of the row gets its candidates and shows the
        item of the task's followed_by; no other box changes. */
    method FillBox(row: nat)
      requires Shaped() && row < rows <= |configuration.tasks|
      modifies this
      ensures followedItems == old(followedItems)[row := FollowedByCandidates(configuration.tasks, row)]
      ensures followedSelected == old(followedSelected)[row := SelectedItem(followedItems[row], configuration.tasks[row].followedBy)]
      ensures rows == old(rows) && manualChange == old(manualChange) && ignoreCellChanged == old(ignoreCellChanged)
    {
      var tasks := configuration.tasks;
      var items := FollowedByCandidates(tasks, row);
      var index := FindFollowed(items, tasks[row].followedBy);
      followedItems := followedItems[row := items];
      followedSelected := followedSelected[row := index];
    }

    /** The nr_crit_levels branch once n is accepted: every task of the set gets n
        levels, empty WCET and deviation lists and a WCET of 0; then the boxes are
        filled again. */
    method CommitCritLevels(n: int)
      requires Valid()
      modifies this, configuration
      ensures configuration.tasks == AllWithCritLevels(old(configuration.tasks), n)
      ensures Valid() && FollowedFresh()
      ensures configuration.dataFields == old(configuration.dataFields)
      ensures manualChange == old(manualChange) && !ignoreCellChanged
    {
      var tasks := configuration.tasks;
      var i := 0;
      while i < |configuration.tasks|
        invariant 0 <= i <= |configuration.tasks| == |tasks|
        invariant forall k :: 0 <= k < i ==> configuration.tasks[k] == WithCritLevels(tasks[k], n)
        invariant forall k :: i <= k < |tasks| ==> configuration.tasks[k] == tasks[k]
        invariant configuration.dataFields == old(configuration.dataFields)
        invariant Valid() && unchanged(this)
      {
        configuration.tasks := configuration.tasks[i := WithCritLevels(configuration.tasks[i], n)];
        i := i + 1;
      }
      assert configuration.tasks == AllWithCritLevels(tasks, n);
      UpdateFollowedBy();
    }

    /** _cell_changed(row, col), the text or check state of the cell being cell. The
        row may lie past the table: a combo built for a row before rows above it
        were removed still reports that row, and task_info_list[row] then raises
        IndexError before the try block. */
    method CellChanged(row: nat, col: Column, cell: Cell) returns (outcome: Outcome)
      requires Valid()
      modifies this, configuration
      ensures Valid()
      ensures configuration.dataFields == old(configuration.dataFields)
      ensures ignoreCellChanged == old(ignoreCellChanged)
      ensures outcome == Ignored <==> old(ignoreCellChanged)
      ensures outcome == Echo <==> !old(ignoreCellChanged) && !old(manualChange)
      ensures outcome == Ignored || outcome == Echo ==>
                && configuration.tasks == old(configuration.tasks)
                && followedItems == old(followedItems) && followedSelected == old(followedSelected)
                && manualChange == (outcome == Echo || old(manualChange))
      ensures !old(ignoreCellChanged) && old(manualChange) && row < old(rows) ==>
                var r := EditTaskSet(old(configuration.tasks), row, col, cell, old(configuration.dataFields));
                && outcome == r.outcome && configuration.tasks == r.tasks && manualChange == r.armed
      ensures !old(ignoreCellChanged) && old(manualChange) && row >= old(rows) ==>
                && outcome == Raised && configuration.tasks == old(configuration.tasks) && manualChange
      ensures outcome == Committed ==> FollowedFresh()
      ensures outcome == RolledBack || outcome == Raised ==>
                followedItems == old(followedItems) && followedSelected == old(followedSelected)
    {
      if ignoreCellChanged {
        return Ignored;
      }
      if !manualChange {
        manualChange := true;
        return Echo;
      }
      if row >= rows {
        return Raised;
      }
      outcome := TryEdit(row, col, cell);
    }

    /** The try block of _cell_changed and its except clause. */
    method TryEdit(row: int, col: Column, cell: Cell) returns (outcome: Outcome)
      requires Valid() && 0 <= row < rows && manualChange && !ignoreCellChanged
      modifies this, configuration
      ensures var r := EditTaskSet(old(configuration.tasks), row, col, cell, old(configuration.dataFields));
              outcome == r.outcome && configuration.tasks == r.tasks && manualChange == r.armed
      ensures Valid() && !ignoreCellChanged
      ensures configuration.dataFields == old(configuration.dataFields)
      ensures outcome == Committed ==> FollowedFresh()
      ensures outcome != Committed ==> followedItems == old(followedItems) && followedSelected == old(followedSelected)
    {
      if col.NrCritLevels? {
        outcome := EditCritLevels(cell.text);
      } else {
        var e := EditTask(configuration.tasks[row], col, cell, configuration.dataFields);
        outcome := SettleRow(row, e);
      }
    }

    /** The try block for the nr_crit_levels column: int() of the text, the
        assertion that it is at least 1, then every task is rewritten. */
    method EditCritLevels(text: string) returns (outcome: Outcome)
      requires Valid() && manualChange && !ignoreCellChanged
      modifies this, configuration
      ensures var r := CritLevelsEdit(old(configuration.tasks), text);
              outcome == r.outcome && configuration.tasks == r.tasks && manualChange == r.armed
      ensures Valid() && !ignoreCellChanged
      ensures configuration.dataFields == old(configuration.dataFields)
      ensures outcome == Committed ==> FollowedFresh()
      ensures outcome != Committed ==> followedItems == old(followedItems) && followedSelected == old(followedSelected)
    {
      ghost var r := CritLevelsEdit(configuration.tasks, text);
      var parsed := ParseInt(text);
      if parsed.None? || parsed.value < 1 {
        assert r == SetEdit(RolledBack, configuration.tasks, false);
        manualChange := false;
        outcome := RolledBack;
      } else {
        assert r == SetEdit(Committed, AllWithCritLevels(configuration.tasks, parsed.value), true);
        CommitCritLevels(parsed.value);
        outcome := Committed;
      }
    }

    /** The end of the try block for a column that edits the task of its row only,
        once that edit came to e: the task is assigned and the boxes are filled
        again; or nothing is assigned and the old text is put back; or the task is
        assigned and the exception leaves the handler. */
    method SettleRow(row: int, e: EditResult) returns (outcome: Outcome)
      requires Valid() && 0 <= row < rows && manualChange && !ignoreCellChanged
      modifies this, configuration
      ensures var r := Settle(old(configuration.tasks), row, e);
              outcome == r.outcome && configuration.tasks == r.tasks && manualChange == r.armed
      ensures Valid() && !ignoreCellChanged
      ensures configuration.dataFields == old(configuration.dataFields)
      ensures outcome == Committed ==> FollowedFresh()
      ensures outcome != Committed ==> followedItems == old(followedItems) && followedSelected == old(followedSelected)
    {
      match e
      case Accepted(u) =>
        configuration.tasks := configuration.tasks[row := u];
        UpdateFollowedBy();
        outcome := Committed;
      case Rejected =>
        manualChange := false;
        outcome := RolledBack;
      case Escaped(u, inHandler) =>
        configuration.tasks := configuration.tasks[row := u];
        if inHandler {
          manualChange := false;
        }
        outcome := Raised;
    }

    /** remove_all_tasks: the first task and row are deleted until no task is left. */
    method RemoveAllTasks()
      requires Valid()
      modifies this, configuration
      ensures Valid() && configuration.tasks == [] && rows == 0
      ensures configuration.dataFields == old(configuration.dataFields)
      ensures manualChange == old(manualChange) && ignoreCellChanged == old(ignoreCellChanged)
    {
      while configuration.tasks != []
        invariant Valid()
        invariant configuration.tasks == old(configuration.tasks)[|old(configuration.tasks)| - rows..]
        invariant configuration.dataFields == old(configuration.dataFields)
        invariant manualChange == old(manualChange) && ignoreCellChanged == old(ignoreCellChanged)
        decreases rows
      {
        configuration.tasks := configuration.tasks[1..];
        rows := rows - 1;
        followedItems := followedItems[1..];
        followedSelected := followedSelected[1..];
      }
    }

    /** del task_info_list[index] and removeRow(index). */
    method DeleteRow(index: int)
      requires Valid() && 0 <= index < rows
      modifies this, configuration
      ensures Valid() && rows == old(rows) - 1
      ensures configuration.tasks == old(configuration.tasks[..index] + configuration.tasks[index + 1..])
      ensures followedItems == old(followedItems[..index] + followedItems[index + 1..])
      ensures followedSelected == old(followedSelected[..index] + followedSelected[index + 1..])
      ensures configuration.dataFields == old(configuration.dataFields)
      ensures manualChange == old(manualChange) && ignoreCellChanged == old(ignoreCellChanged)
    {
      configuration.tasks := configuration.tasks[..index] + configuration.tasks[index + 1..];
      rows := rows - 1;
      followedItems := followedItems[..index] + followedItems[index + 1..];
      followedSelected := followedSelected[..index] + followedSelected[index + 1..];
    }

    /** One pass of the deletion loop of remove_selected_tasks: when the rows left
        are the original ones without those of done, all above index, deleting
        index leaves the original ones without those of done and index. */
    method DeleteKept(index: int, ghost done: set<int>, ghost tasks0: seq<Task>,
                      ghost items0: seq<seq<string>>, ghost shown0: seq<nat>)
      requires Valid() && 0 <= index < |tasks0| == |items0| == |shown0|
      requires forall d :: d in done ==> index < d
      requires configuration.tasks == Keep(tasks0, done, 0)
      requires followedItems == Keep(items0, done, 0) && followedSelected == Keep(shown0, done, 0)
      modifies this, configuration
      ensures Valid()
      ensures configuration.tasks == Keep(tasks0, done + {index}, 0)
      ensures followedItems == Keep(items0, done + {index}, 0)
      ensures followedSelected == Keep(shown0, done + {index}, 0)
      ensures configuration.dataFields == old(configuration.dataFields)
      ensures manualChange == old(manualChange) && ignoreCellChanged == old(ignoreCellChanged)
    {
      DeleteNext(tasks0, done, index);
      DeleteNext(items0, done, index);
      DeleteNext(shown0, done, index);
      DeleteRow(index);
    }

    /** remove_selected_tasks: the distinct selected rows are deleted, highest first,
        from the task list and from the table. What is left is the unselected tasks
        in their order (Rows.RemoveRows). */
    method RemoveSelectedTasks(selected: seq<int>)
      requires Valid()
      requires forall i :: 0 <= i < |selected| ==> 0 <= selected[i] < rows
      modifies this, configuration
      ensures Valid()
      ensures configuration.tasks == Keep(old(configuration.tasks), Elements(selected), 0)
      ensures followedItems == Keep(old(followedItems), Elements(selected), 0)
      ensures followedSelected == Keep(old(followedSelected), Elements(selected), 0)
      ensures configuration.dataFields == old(configuration.dataFields)
      ensures manualChange == old(manualChange) && ignoreCellChanged == old(ignoreCellChanged)
    {
      var toDelete := DescendingDistinct(selected);
      ghost var tasks0, items0, shown0 := configuration.tasks, followedItems, followedSelected;
      assert Elements(toDelete[..0]) == {};
      KeepNothing(tasks0, {}, 0);
      KeepNothing(items0, {}, 0);
      KeepNothing(shown0, {}, 0);
      var i := 0;
      while i < |toDelete|
        invariant 0 <= i <= |toDelete|
        invariant Valid()
        invariant configuration.tasks == Keep(tasks0, Elements(toDelete[..i]), 0)
        invariant followedItems == Keep(items0, Elements(toDelete[..i]), 0)
        invariant followedSelected == Keep(shown0, Elements(toDelete[..i]), 0)
        invariant configuration.dataFields == old(configuration.dataFields)
        invariant manualChange == old(manualChange) && ignoreCellChanged == old(ignoreCellChanged)
      {
        var index := toDelete[i];
        assert index in selected;
        ghost var done := Elements(toDelete[..i]);
        DescendingPrefix(toDelete, i);
        DeleteKept(index, done, tasks0, items0, shown0);
        i := i + 1;
      }
      assert toDelete[..i] == toDelete;
      assert Elements(toDelete) == Elements(selected);
    }

    /** add_task(task): the identifier is the smallest positive one no task has.
        Without a task, the configuration's add_task appends a default task with that
        identifier and the name "TASK T<identifier>"; a given task is already the
        last of the list. Either way the table gets a row for it. */
    method AddTask(task: Option<Task>) returns (identifier: int)
      requires Shaped()
      requires task.None? ==> rows == |configuration.tasks|
      requires task.Some? ==> rows + 1 == |configuration.tasks| && configuration.tasks[rows] == task.value
      modifies this, configuration
      ensures SmallestUnused(identifier, old(configuration.tasks))
      ensures task.None? ==> configuration.tasks == old(configuration.tasks) + [NewTask(configuration.defaults, identifier)]
      ensures task.Some? ==> configuration.tasks == old(configuration.tasks)
      ensures Valid() && FollowedFresh() && rows == old(rows) + 1
      ensures configuration.dataFields == old(configuration.dataFields)
      ensures manualChange == old(manualChange) && !ignoreCellChanged
    {
      var ids := Identifiers(configuration.tasks);
      identifier := 1;
      while identifier in ids
        invariant 1 <= identifier <= |ids| + 1
        invariant forall k :: 1 <= k < identifier ==> k in ids
        invariant unchanged(this) && unchanged(configuration)
        decreases |ids| + 1 - identifier
      {
        CoveredBound(ids, identifier);
        identifier := identifier + 1;
      }
      if task.None? {
        configuration.AddTask(NewTask(configuration.defaults, identifier));
      }
      rows := rows + 1;
      followedItems := followedItems + [[]];
      followedSelected := followedSelected + [0];
      UpdateFollowedBy();
    }
  }

  /** The bar under the table whose button edits the schema of custom data fields. */
  class CustomDataBar {
    const configuration: Configuration
    const table: TasksTable

    constructor (table: TasksTable)
      ensures this.table == table && configuration == table.configuration
    {
      this.table := table;
      configuration := table.configuration;
    }

    /** edit: when the dialog is accepted with the schema fields, the schema is
        replaced, every task keeps only the data of fields still in it, and the
        table is rebuilt. */
    method Edit(accepted: bool, fields: map<string, FieldType>)
      requires table.configuration == configuration
      modifies configuration, table
      ensures !accepted ==> unchanged(configuration) && unchanged(table)
      ensures accepted ==>
                && configuration.dataFields == fields
                && |configuration.tasks| == |old(configuration.tasks)|
                && (forall i :: 0 <= i < |configuration.tasks| ==>
                      configuration.tasks[i] == old(configuration.tasks[i]).(data := PruneData(old(configuration.tasks[i]).data, fields)))
                && table.Valid() && table.FollowedFresh() && table.manualChange
    {
      if accepted {
        configuration.dataFields := fields;
        var tasks := configuration.tasks;
        var i := 0;
        while i < |configuration.tasks|
          invariant 0 <= i <= |configuration.tasks| == |tasks|
          invariant forall k :: 0 <= k < i ==> configuration.tasks[k] == tasks[k].(data := PruneData(tasks[k].data, fields))
          invariant forall k :: i <= k < |tasks| ==> configuration.tasks[k] == tasks[k]
          invariant configuration.dataFields == fields
        {
          var t := configuration.tasks[i];
          configuration.tasks := configuration.tasks[i := t.(data := PruneData(t.data, fields))];
          i := i + 1;
        }
        table.RefreshTable();
      }
    }
  }

  /** The task tab: the table, the data bar under it and the generate button. */
  class TaskTab {
    const configuration: Configuration
    const table: TasksTable
    const dataBar: CustomDataBar

    constructor (configuration: Configuration)
      ensures this.configuration == configuration
      ensures fresh(table) && table.configuration == configuration && dataBar.table == table
      ensures table.Valid() && table.FollowedFresh() && table.manualChange && !table.ignoreCellChanged
    {
      this.configuration := configuration;
      var table := new TasksTable(configuration);
      this.table := table;
      dataBar := new CustomDataBar(table);
    }

    /** One generated task: the configuration records it, then the table adds its row. */
    method AddGenerated(task: Task)
      requires table.configuration == configuration && table.Valid()
      modifies configuration, table
      ensures configuration.tasks == old(configuration.tasks) + [task]
      ensures configuration.dataFields == old(configuration.dataFields)
      ensures table.Valid() && table.FollowedFresh()
    {
      configuration.AddTask(task);
      var _ := table.AddTask(Some(task));
    }

    /** generate: when the generator dialog is accepted, every task is removed and
        the drawn set is added in order, task i + 1 from the i-th triple. */
    method Generate(accepted: bool, taskClass: string, periodic: int, nrCritLevels: int,
                    taskset: seq<Triple>, draws: Draws)
      requires table.configuration == configuration && table.Valid()
      modifies configuration, table
      ensures !accepted ==> unchanged(configuration) && unchanged(table)
      ensures accepted ==>
                && configuration.tasks == GeneratedTasks(configuration.defaults, taskClass, periodic, nrCritLevels,
                                                         taskset, draws, configuration.durationMs)
                && table.Valid() && table.FollowedFresh()
      ensures configuration.dataFields == old(configuration.dataFields)
    {
      if accepted {
        ghost var target := GeneratedTasks(configuration.defaults, taskClass, periodic, nrCritLevels,
                                           taskset, draws, configuration.durationMs);
        table.RemoveAllTasks();
        var i := 0;
        while i < |taskset|
          invariant 0 <= i <= |taskset|
          invariant table.Valid() && table.FollowedFresh()
          invariant configuration.tasks == target[..i]
          invariant configuration.dataFields == old(configuration.dataFields)
        {
          var task := GeneratedTask(configuration.defaults, taskClass, periodic, nrCritLevels,
                                    i + 1, taskset[i], draws, configuration.durationMs);
          assert task == target[i];
          AddGenerated(task);
          assert target[..i + 1] == target[..i] + [task];
          i := i + 1;
        }
        assert target[..i] == target;
      }
    }
  }
}
