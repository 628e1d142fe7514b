/**
  The task record the task table edits, and what one edit of one cell does to
  the record of its row: the parse, the check and the assignment of
  TasksTable._cell_changed, without the widget calls around them.
 */
module Tasks {
  import opened PyText
  import opened Rows

  /** Value of a custom data field. */
  datatype DataValue = IntValue(i: int) | FloatValue(r: real) | BoolValue(b: bool) | StrValue(s: string)

  /** The type names a custom data field may be registered under ('int', 'float', 'bool', 'str'). */
  datatype FieldType = IntType | FloatType | BoolType | StrType

  /** One task of the task set, as the table reads and writes it. */
  datatype Task = Task(
    identifier: int,
    name: string,
    taskClass: string,
    taskType: string,
    abortOnMiss: bool,
    activationDate: real,
    period: real,
    listActivationDates: seq<real>,
    deadline: real,
    wcet: real,
    acet: real,
    etStddev: real,
    baseCpi: real,
    nInstr: int,
    mix: real,
    stackFile: string,
    preemptionCost: int,
    followedBy: Option<int>,
    nrCritLevels: int,
    critLevel: int,
    listWcets: seq<real>,
    wcetDeviations: seq<real>,
    data: map<string, DataValue>)

  /** The attributes of a task, to say which of them an operation may write. */
  datatype Field =
    | IdentifierField | NameField | TaskClassField | TaskTypeField | AbortField
    | ActivationDateField | PeriodField | ActivationDatesField | DeadlineField
    | WcetField | AcetField | EtStddevField | BaseCpiField | NInstrField | MixField
    | StackFileField | PreemptionCostField | FollowedByField | NrCritLevelsField
    | CritLevelField | WcetsField | WcetDeviationsField | DataField

  /** t and u agree on every attribute outside fs. */
  predicate AgreeOutside(t: Task, u: Task, fs: set<Field>) {
    && (IdentifierField !in fs ==> t.identifier == u.identifier)
    && (NameField !in fs ==> t.name == u.name)
    && (TaskClassField !in fs ==> t.taskClass == u.taskClass)
    && (TaskTypeField !in fs ==> t.taskType == u.taskType)
    && (AbortField !in fs ==> t.abortOnMiss == u.abortOnMiss)
    && (ActivationDateField !in fs ==> t.activationDate == u.activationDate)
    && (PeriodField !in fs ==> t.period == u.period)
    && (ActivationDatesField !in fs ==> t.listActivationDates == u.listActivationDates)
    && (DeadlineField !in fs ==> t.deadline == u.deadline)
    && (WcetField !in fs ==> t.wcet == u.wcet)
    && (AcetField !in fs ==> t.acet == u.acet)
    && (EtStddevField !in fs ==> t.etStddev == u.etStddev)
    && (BaseCpiField !in fs ==> t.baseCpi == u.baseCpi)
    && (NInstrField !in fs ==> t.nInstr == u.nInstr)
    && (MixField !in fs ==> t.mix == u.mix)
    && (StackFileField !in fs ==> t.stackFile == u.stackFile)
    && (PreemptionCostField !in fs ==> t.preemptionCost == u.preemptionCost)
    && (FollowedByField !in fs ==> t.followedBy == u.followedBy)
    && (NrCritLevelsField !in fs ==> t.nrCritLevels == u.nrCritLevels)
    && (CritLevelField !in fs ==> t.critLevel == u.critLevel)
    && (WcetsField !in fs ==> t.listWcets == u.listWcets)
    && (WcetDeviationsField !in fs ==> t.wcetDeviations == u.wcetDeviations)
    && (DataField !in fs ==> t.data == u.data)
  }

  /** The columns of the task table: one per attribute shown, then one per custom data field. */
  datatype Column =
    | Id | Name | TaskClass | TaskType | Abort | ActivationDate | Period
    | ListActivationDates | Deadline | Wcet | Acet | EtStddev | BaseCpi | NInstr
    | Mix | StackFile | PreemptionCost | FollowedBy | NrCritLevels | CritLevel
    | ListWcets | WcetDeviations | Custom(key: string)

  /** The attributes an accepted edit of a column assigns. The stack-file column
      has no branch in the handler and assigns nothing. */
  function Writes(col: Column): set<Field> {
    match col
    case Id => {IdentifierField}
    case Name => {NameField}
    case TaskClass => {TaskClassField}
    case TaskType => {TaskTypeField}
    case Abort => {AbortField}
    case ActivationDate => {ActivationDateField}
    case Period => {PeriodField}
    case ListActivationDates => {ActivationDatesField}
    case Deadline => {DeadlineField}
    case Wcet => {WcetField}
    case Acet => {AcetField}
    case EtStddev => {EtStddevField}
    case BaseCpi => {BaseCpiField}
    case NInstr => {NInstrField}
    case Mix => {MixField}
    case StackFile => {}
    case PreemptionCost => {PreemptionCostField}
    case FollowedBy => {FollowedByField}
    case NrCritLevels => {NrCritLevelsField, WcetsField, WcetDeviationsField, WcetField}
    case CritLevel => {CritLevelField}
    case ListWcets => {WcetsField, WcetField}
    case WcetDeviations => {WcetDeviationsField}
    case Custom(_) => {DataField}
  }

  /** The edited cell: its text (for a combo box, the text of the current item)
      and its check box (read only by the abort-on-miss column). */
  datatype Cell = Cell(text: string, checked: bool)

  /** What the handler's try block does to the task of the edited row. */
  datatype EditResult =
    | Accepted(task: Task)
      // every parse and check passed; the task with the new value assigned
    | Rejected
      // ValueError or AssertionError before any assignment: the handler restores the old text
    | Escaped(task: Task, inHandler: bool)
      // another exception leaves the handler; task is the record as it was when it was raised,
      // inHandler says whether it was raised while the except clause ran

  // ---------------------------------------------------------------- names

  predicate IsAsciiLetter(c: char) { 'a' <= c <= 'z' || 'A' <= c <= 'Z' }

  /** re.match('^[a-zA-Z][a-zA-Z0-9 _-]+$', s) for a string that does not end in a line break. */
  predicate NamePattern(s: string) {
    && |s| >= 2
    && IsAsciiLetter(s[0])
    && forall i :: 1 <= i < |s| ==> IsAsciiLetter(s[i]) || IsDigit(s[i]) || s[i] in " _-"
  }

  // ---------------------------------------------------------------- lists

  /** s[i] with Python's negative indices; None where Python raises IndexError. */
  function PyIndex(s: seq<real>, i: int): Option<real> {
    if 0 <= i < |s| then Some(s[i])
    else if -|s| <= i < 0 then Some(s[|s| + i])
    else None
  }

  /** The values of a comma-separated cell: list(map(float, text.split(','))). */
  function ParseList(text: string): Option<seq<real>> {
    ParseFloats(Split(text, ','))
  }

  // ---------------------------------------------------------------- custom data

  /** convert_function[type](text): int() and float() may refuse the text; bool()
      of any non-empty string is True; str() keeps the text. */
  function Convert(ty: FieldType, text: string): Option<DataValue> {
    match ty
    case IntType => (match ParseInt(text) case Some(i) => Some(IntValue(i)) case None => None)
    case FloatType => (match ParseFloat(text) case Some(r) => Some(FloatValue(r)) case None => None)
    case BoolType => Some(BoolValue(text != ""))
    case StrType => Some(StrValue(text))
  }

  // ---------------------------------------------------------------- followed by

  /** The text of a task's item in a "Followed by" combo box: '{} ({})'.format(name, identifier). */
  function ItemText(t: Task): string {
    t.name + " (" + IntToString(t.identifier) + ")"
  }

  /** The group re.match('.+\((.+)\)', s) captures, if it matches. '.' does not
      match a line break and both '.+' are greedy, so the group ends at the last ')'
      of the first line and starts after the last '(' at a position from 1 on that
      leaves at least one character before that ')'. */
  function ParenGroup(s: string): Option<string> {
    var line := s[..FirstIndexOf(s, '\n')];
    match LastIndexOf(line, ')')
    case None => None
    case Some(close) =>
      if close < 2 then None
      else match LastIndexOf(line[..close - 1], '(')
        case None => None
        case Some(open) => if open >= 1 then Some(line[open + 1..close]) else None
  }

  /** Rows that the combo box of row does not offer: row itself and every task that is not APeriodic. */
  function NotFollowable(tasks: seq<Task>, row: int): set<int> {
    set j | 0 <= j < |tasks| && (j == row || tasks[j].taskType != "APeriodic")
  }

  /** The rows whose tasks the "Followed by" box of row offers: the other APeriodic tasks, in table order. */
  function FollowableRows(tasks: seq<Task>, row: int): (rows: seq<int>)
    ensures forall j :: j in rows <==> 0 <= j < |tasks| && j != row && tasks[j].taskType == "APeriodic"
    ensures forall i :: 0 <= i < |rows| ==> 0 <= rows[i] < |tasks|
    ensures forall i, k :: 0 <= i < k < |rows| ==> rows[i] < rows[k]
  {
    KeptPositions(0, |tasks|, NotFollowable(tasks, row));
    var rows := Kept(0, |tasks|, NotFollowable(tasks, row));
    assert forall i :: 0 <= i < |rows| ==> rows[i] in rows;
    rows
  }

  /** The items of the "Followed by" box of row: a blank, then one item per followable task. */
  function FollowedByCandidates(tasks: seq<Task>, row: int): (items: seq<string>)
    ensures |items| == |FollowableRows(tasks, row)| + 1 && items[0] == ""
    ensures forall i :: 1 <= i < |items| ==> items[i] == ItemText(tasks[FollowableRows(tasks, row)[i - 1]])
  {
    var rows := FollowableRows(tasks, row);
    [""] + seq(|rows|, i requires 0 <= i < |rows| => ItemText(tasks[rows[i]]))
  }

  // ---------------------------------------------------------------- one edit

  /** The columns that hold one real number. */
  predicate IsRealColumn(col: Column) {
    col.ActivationDate? || col.Period? || col.Deadline? || col.Wcet? || col.Acet?
    || col.EtStddev? || col.BaseCpi? || col.Mix?
  }

  /** The assertion a real column checks: activation_date and et_stddev >= 0,
      0 <= mix <= 1, period, deadline, wcet, acet and base_cpi > 0. */
  predicate InRange(col: Column, v: real)
    requires IsRealColumn(col)
  {
    if col.ActivationDate? || col.EtStddev? then v >= 0.0
    else if col.Mix? then 0.0 <= v <= 1.0
    else v > 0.0
  }

  /** The attribute a real column shows. */
  function RealAt(t: Task, col: Column): real
    requires IsRealColumn(col)
  {
    match col
    case ActivationDate => t.activationDate
    case Period => t.period
    case Deadline => t.deadline
    case Wcet => t.wcet
    case Acet => t.acet
    case EtStddev => t.etStddev
    case BaseCpi => t.baseCpi
    case _ => t.mix
  }

  /** t with the attribute of a real column set to v. */
  function WithReal(t: Task, col: Column, v: real): (u: Task)
    requires IsRealColumn(col)
    ensures RealAt(u, col) == v && AgreeOutside(t, u, Writes(col))
  {
    match col
    case ActivationDate => t.(activationDate := v)
    case Period => t.(period := v)
    case Deadline => t.(deadline := v)
    case Wcet => t.(wcet := v)
    case Acet => t.(acet := v)
    case EtStddev => t.(etStddev := v)
    case BaseCpi => t.(baseCpi := v)
    case _ => t.(mix := v)
  }

  /** The attribute an integer column shows. */
  function IntAt(t: Task, col: Column): int
    requires col.Id? || col.NInstr? || col.PreemptionCost? || col.CritLevel?
  {
    match col
    case Id => t.identifier
    case NInstr => t.nInstr
    case PreemptionCost => t.preemptionCost
    case _ => t.critLevel
  }

  /** x = float(text); assert <range of col>; task.<col> = x */
  function EditReal(t: Task, col: Column, text: string): EditResult
    requires IsRealColumn(col)
  {
    match ParseFloat(text)
    case Some(v) => if InRange(col, v) then Accepted(WithReal(t, col, v)) else Rejected
    case None => Rejected
  }

  /** x = int(text); assert x >= 0; task.<col> = x  (n_instr, preemption_cost) */
  function EditCount(t: Task, col: Column, text: string): EditResult
    requires col.NInstr? || col.PreemptionCost?
  {
    match ParseInt(text)
    case Some(v) =>
      if v < 0 then Rejected
      else if col.NInstr? then Accepted(t.(nInstr := v))
      else Accepted(t.(preemptionCost := v))
    case None => Rejected
  }

  function EditIdentifier(t: Task, text: string): EditResult {
    match ParseInt(text)
    case Some(v) => Accepted(t.(identifier := v))
    case None => Rejected
  }

  /** The name is checked stripped and stored as typed. */
  function EditName(t: Task, text: string): EditResult {
    if NamePattern(Strip(text)) then Accepted(t.(name := text)) else Rejected
  }

  function EditDates(t: Task, text: string): EditResult {
    match ParseList(text)
    case Some(dates) => Accepted(t.(listActivationDates := SortAscending(dates)))
    case None => Rejected
  }

  function EditFollowed(t: Task, text: string): EditResult {
    match ParenGroup(text)
    case None => Accepted(t.(followedBy := None))
    case Some(group) =>
      match ParseInt(group)
      case Some(id) => Accepted(t.(followedBy := Some(id)))
      // int() raises ValueError; the except clause then fails restoring the text of a
      // cell that holds a combo box
      case None => Escaped(t, true)
  }

  function EditCritLevel(t: Task, text: string): EditResult {
    match ParseInt(text)
    case Some(v) => if 0 <= v < t.nrCritLevels then Accepted(t.(critLevel := v)) else Rejected
    case None => Rejected
  }

  function EditWcets(t: Task, text: string): EditResult {
    match ParseList(text)
    case Some(wcets) => StoreWcets(t, wcets)
    case None => Rejected
  }

  /** The list_wcets branch once the list is read: the length check, then the list
      and the WCET at the task's level are assigned. */
  function StoreWcets(t: Task, wcets: seq<real>): EditResult {
    if t.nrCritLevels >= 1 && |wcets| == t.nrCritLevels then
      var stored := t.(listWcets := wcets);
      match PyIndex(wcets, t.critLevel)
      case Some(w) => Accepted(stored.(wcet := w))
      // IndexError: not caught, and list_wcets is already assigned
      case None => Escaped(stored, false)
    else Rejected
  }

  function EditDeviations(t: Task, text: string): EditResult {
    match ParseList(text)
    case Some(deviations) =>
      if t.nrCritLevels >= 1 && |deviations| == t.nrCritLevels then
        Accepted(t.(wcetDeviations := deviations))
      else Rejected
    case None => Rejected
  }

  /** task.data[key] = convert_function[task_data_fields[key]](text) */
  function EditCustom(t: Task, key: string, text: string, dataFields: map<string, FieldType>): EditResult {
    if key !in dataFields then Escaped(t, false)  // KeyError: not caught
    else match Convert(dataFields[key], text)
      case Some(v) => Accepted(t.(data := t.data[key := v]))
      case None => Rejected
  }

  /** The try block of the cell-change handler for a column whose edit writes
      only the row's own task (the nr_crit_levels column rewrites every task and
      is handled by the table). */
  function EditTask(t: Task, col: Column, cell: Cell, dataFields: map<string, FieldType>): (r: EditResult)
    requires !col.NrCritLevels?
  {
    var text := cell.text;
    match col
    case Id => EditIdentifier(t, text)
    case Name => EditName(t, text)
    case TaskClass => Accepted(t.(taskClass := text))
    case TaskType => Accepted(t.(taskType := text))
    case Abort => Accepted(t.(abortOnMiss := cell.checked))
    case ActivationDate => EditReal(t, col, text)
    case Period => EditReal(t, col, text)
    case ListActivationDates => EditDates(t, text)
    case Deadline => EditReal(t, col, text)
    case Wcet => EditReal(t, col, text)
    case Acet => EditReal(t, col, text)
    case EtStddev => EditReal(t, col, text)
    case BaseCpi => EditReal(t, col, text)
    case NInstr => EditCount(t, col, text)
    case Mix => EditReal(t, col, text)
    case StackFile => Accepted(t)
    case PreemptionCost => EditCount(t, col, text)
    case FollowedBy => EditFollowed(t, text)
    case CritLevel => EditCritLevel(t, text)
    case ListWcets => EditWcets(t, text)
    case WcetDeviations => EditDeviations(t, text)
    case Custom(key) => EditCustom(t, key, text, dataFields)
  }

  /** What an accepted nr_crit_levels edit assigns to each task of the set. */
  function WithCritLevels(t: Task, n: int): (u: Task)
    ensures AgreeOutside(t, u, Writes(NrCritLevels))
    ensures u.nrCritLevels == n && u.listWcets == [] && u.wcetDeviations == [] && u.wcet == 0.0
  {
    t.(nrCritLevels := n, listWcets := [], wcetDeviations := [], wcet := 0.0)
  }

  /** The custom data of a task once the field schema is replaced by fields:
      the entries whose key is still a field, with their values. */
  function PruneData(data: map<string, DataValue>, fields: map<string, FieldType>): (r: map<string, DataValue>)
    ensures r.Keys == data.Keys * fields.Keys
    ensures forall k :: k in r ==> r[k] == data[k]
  {
    map k | k in data && k in fields :: data[k]
  }

  // ---------------------------------------------------------------- identifiers

  /** [x.identifier for x in tasks] */
  function Identifiers(tasks: seq<Task>): (ids: seq<int>)
    ensures |ids| == |tasks|
  {
    seq(|tasks|, i requires 0 <= i < |tasks| => tasks[i].identifier)
  }

  /** id is the smallest positive integer no task of tasks has as identifier. */
  predicate SmallestUnused(id: int, tasks: seq<Task>) {
    && id >= 1
    && id !in Identifiers(tasks)
    && forall k :: 1 <= k < id ==> k in Identifiers(tasks)
  }

  /** The record a manual "Add task" asks the configuration for: the
      configuration's defaults with the new identifier and the name "TASK T<id>". */
  function NewTask(defaults: Task, id: int): (t: Task)
    ensures AgreeOutside(defaults, t, {IdentifierField, NameField})
    ensures t.identifier == id && t.name == "TASK T" + IntToString(id)
  {
    defaults.(identifier := id, name := "TASK T" + IntToString(id))
  }

  /** The item the "Followed by" box of a task shows: the first one that ends with
      ' (<followed_by>)', or the blank when followed_by is None or 0 (both false in
      a test) or when no item ends that way. */
  function SelectedItem(items: seq<string>, followedBy: Option<int>): nat {
    if followedBy.None? || followedBy.value == 0 then 0
    else FirstEndingWith(items, " (" + IntToString(followedBy.value) + ")", 0)
  }

  /** No item from position `from` up to `to` ends with suffix. */
  predicate NoneEndsWith(items: seq<string>, suffix: string, from: nat, to: nat)
    requires to <= |items|
  {
    forall m :: from <= m < to ==> !EndsWith(items[m], suffix)
  }

  /** The first position from `from` on whose item ends with suffix, or 0 if there is none. */
  function FirstEndingWith(items: seq<string>, suffix: string, from: nat): (k: nat)
    ensures k == 0 || (from <= k < |items| && EndsWith(items[k], suffix))
    ensures k > 0 ==> NoneEndsWith(items, suffix, from, k)
    ensures k == 0 ==> (from == 0 && |items| > 0 && EndsWith(items[0], suffix))
                       || NoneEndsWith(items, suffix, from, |items|)
    decreases |items| - from
  {
    if from >= |items| then 0
    else if EndsWith(items[from], suffix) then from
    else FirstEndingWith(items, suffix, from + 1)
  }

  // ================================================================ properties of one edit

  /** A real column accepts exactly the numbers float() reads in its range, stores
      that number and writes nothing else; any other text is rejected. */
  lemma RealColumnEdit(t: Task, col: Column, text: string)
    requires IsRealColumn(col)
    ensures var r := EditReal(t, col, text);
            && (r.Accepted? <==> ParseFloat(text).Some? && InRange(col, ParseFloat(text).value))
            && (r.Accepted? ==> RealAt(r.task, col) == ParseFloat(text).value
                                && AgreeOutside(t, r.task, Writes(col)))
            && (!r.Accepted? ==> r.Rejected?)
  {
  }

  /** n_instr and preemption_cost accept exactly the non-negative integers int() reads. */
  lemma CountColumnEdit(t: Task, col: Column, text: string)
    requires col.NInstr? || col.PreemptionCost?
    ensures var r := EditCount(t, col, text);
            && (r.Accepted? <==> ParseInt(text).Some? && ParseInt(text).value >= 0)
            && (r.Accepted? ==> IntAt(r.task, col) == ParseInt(text).value
                                && AgreeOutside(t, r.task, Writes(col)))
            && (!r.Accepted? ==> r.Rejected?)
  {
    if col.NInstr? {
      assert Writes(col) == {NInstrField};
    } else {
      assert Writes(col) == {PreemptionCostField};
    }
  }

  /** The identifier column accepts any integer: negative, zero, or one another task
      already has. */
  lemma IdentifierEdit(t: Task, text: string)
    ensures var r := EditIdentifier(t, text);
            && (r.Accepted? <==> ParseInt(text).Some?)
            && (r.Accepted? ==> r.task.identifier == ParseInt(text).value
                                && AgreeOutside(t, r.task, {IdentifierField}))
            && (!r.Accepted? ==> r.Rejected?)
  {
  }

  /** crit_level accepts exactly the integers in [0, nr_crit_levels) and writes nothing else. */
  lemma CritLevelEdit(t: Task, text: string)
    ensures var r := EditCritLevel(t, text);
            && (r.Accepted? <==> ParseInt(text).Some? && 0 <= ParseInt(text).value < t.nrCritLevels)
            && (r.Accepted? ==> r.task.critLevel == ParseInt(text).value
                                && AgreeOutside(t, r.task, {CritLevelField}))
            && (!r.Accepted? ==> r.Rejected?)
  {
  }

  /** Committing the text str() shows for the identifier gives the task back unchanged. */
  lemma ReenterIdentifier(t: Task)
    ensures EditIdentifier(t, IntToString(t.identifier)) == Accepted(t)
  {
    ParseIntOfIntToString(t.identifier);
  }

  /** Committing the text str() shows for a criticality level the column accepts gives
      the task back unchanged. */
  lemma ReenterCritLevel(t: Task)
    requires 0 <= t.critLevel < t.nrCritLevels
    ensures EditCritLevel(t, IntToString(t.critLevel)) == Accepted(t)
  {
    ParseIntOfIntToString(t.critLevel);
  }

  /** Committing the text str() shows for a non-negative n_instr gives the task back unchanged. */
  lemma ReenterNInstr(t: Task)
    requires t.nInstr >= 0
    ensures EditCount(t, NInstr, IntToString(t.nInstr)) == Accepted(t)
  {
    ParseIntOfIntToString(t.nInstr);
  }

  /** Committing the text str() shows for a non-negative preemption_cost gives the
      task back unchanged. */
  lemma ReenterPreemptionCost(t: Task)
    requires t.preemptionCost >= 0
    ensures EditCount(t, PreemptionCost, IntToString(t.preemptionCost)) == Accepted(t)
  {
    ParseIntOfIntToString(t.preemptionCost);
  }

  /** A name is accepted iff its stripped text matches the name pattern, so it has at
      least two characters; the text is stored as typed, surrounding whitespace included. */
  lemma NameEdit(t: Task, text: string)
    ensures var r := EditName(t, text);
            && (r.Accepted? <==> NamePattern(Strip(text)))
            && (r.Accepted? ==> r.task.name == text && |Strip(text)| >= 2
                                && AgreeOutside(t, r.task, {NameField}))
            && (!r.Accepted? ==> r.Rejected?)
  {
  }

  /** The name "TASK T<id>" given to a new task is one the name column accepts. */
  lemma NewTaskNameAccepted(defaults: Task, id: int)
    ensures var t := NewTask(defaults, id);
            EditName(t, t.name) == Accepted(t)
  {
    var digits := IntToString(id);
    var s := "TASK T" + digits;
    IntToStringNoSpace(id);
    assert s[|s| - 1] == digits[|digits| - 1];
    StripUnpadded(s);
    forall i | 1 <= i < |s| ensures IsAsciiLetter(s[i]) || IsDigit(s[i]) || s[i] in " _-" {
      if i >= 6 {
        assert s[i] == digits[i - 6];
      }
    }
  }

  /** list_wcets: the text is rejected unless every piece parses, nr_crit_levels >= 1
      and there are exactly nr_crit_levels values. Otherwise the list is assigned;
      wcet then becomes the value at crit_level (a Python index, so a negative level
      counts from the end), and a level outside [-n, n) raises an IndexError the
      handler does not catch, after the list was assigned. */
  lemma ListWcetsEdit(t: Task, text: string)
    ensures var r := EditWcets(t, text);
            var parsed := ParseList(text);
            var n := t.nrCritLevels;
            && (r.Rejected? <==> parsed.None? || n < 1 || |parsed.value| != n)
            && (!r.Rejected? ==> r.task.listWcets == parsed.value
                                 && AgreeOutside(t, r.task, {WcetsField, WcetField}))
            && (r.Accepted? <==> !r.Rejected? && -n <= t.critLevel < n)
            && (r.Accepted? && 0 <= t.critLevel ==> r.task.wcet == parsed.value[t.critLevel])
            && (r.Accepted? && t.critLevel < 0 ==> r.task.wcet == parsed.value[n + t.critLevel])
            && (r.Escaped? ==> r.task.wcet == t.wcet && !r.inHandler)
  {
    match ParseList(text)
    case None =>
    case Some(wcets) => WcetsStored(t, wcets);
  }

  /** ListWcetsEdit once the list is read. */
  lemma WcetsStored(t: Task, wcets: seq<real>)
    ensures var r := StoreWcets(t, wcets);
            var n := t.nrCritLevels;
            && (r.Rejected? <==> n < 1 || |wcets| != n)
            && (!r.Rejected? ==> r.task.listWcets == wcets && AgreeOutside(t, r.task, {WcetsField, WcetField}))
            && (r.Accepted? <==> !r.Rejected? && -n <= t.critLevel < n)
            && (r.Accepted? && 0 <= t.critLevel ==> r.task.wcet == wcets[t.critLevel])
            && (r.Accepted? && t.critLevel < 0 ==> r.task.wcet == wcets[n + t.critLevel])
            && (r.Escaped? ==> r.task.wcet == t.wcet && !r.inHandler)
  {
    if t.nrCritLevels >= 1 && |wcets| == t.nrCritLevels {
      var r := StoreWcets(t, wcets);
      if -|wcets| <= t.critLevel < |wcets| {
        assert r == Accepted(t.(listWcets := wcets, wcet := PyIndex(wcets, t.critLevel).value));
      } else {
        assert r == Escaped(t.(listWcets := wcets), false);
      }
    }
  }

  /** With a criticality level inside [0, nr_crit_levels), a list_wcets edit never
      escapes the handler, and an accepted one makes wcet the list's entry for that level. */
  lemma ListWcetsAtLevel(t: Task, text: string)
    requires 0 <= t.critLevel < t.nrCritLevels
    ensures var r := EditWcets(t, text);
            && !r.Escaped?
            && (r.Accepted? ==> |r.task.listWcets| == t.nrCritLevels
                                && r.task.wcet == r.task.listWcets[t.critLevel])
  {
    ListWcetsEdit(t, text);
  }

  /** nr_crit_levels keeps crit_level, so lowering it to n <= crit_level leaves the
      task in a state where every well-formed list_wcets edit assigns the list and then
      raises an uncaught IndexError. */
  lemma StaleCritLevel(t: Task, n: int, text: string)
    requires 1 <= n <= t.critLevel
    requires ParseList(text).Some? && |ParseList(text).value| == n
    ensures var u := WithCritLevels(t, n);
            EditWcets(u, text) == Escaped(u.(listWcets := ParseList(text).value), false)
  {
  }

  /** wcet_deviations follows the same length rule as list_wcets but leaves wcet and
      list_wcets alone. */
  lemma WcetDeviationsEdit(t: Task, text: string)
    ensures var r := EditDeviations(t, text);
            var parsed := ParseList(text);
            && (r.Accepted? <==> parsed.Some? && t.nrCritLevels >= 1 && |parsed.value| == t.nrCritLevels)
            && (r.Accepted? ==> r.task.wcetDeviations == parsed.value
                                && AgreeOutside(t, r.task, {WcetDeviationsField}))
            && (!r.Accepted? ==> r.Rejected?)
  {
  }

  /** list_activation_dates accepts any list float() reads, with no range check, and
      stores its values in ascending order: a sorted permutation of what was typed. */
  lemma ActivationDatesEdit(t: Task, text: string)
    ensures var r := EditDates(t, text);
            var parsed := ParseList(text);
            && (r.Accepted? <==> parsed.Some?)
            && (r.Accepted? ==> Ascending(r.task.listActivationDates)
                                && multiset(r.task.listActivationDates) == multiset(parsed.value)
                                && AgreeOutside(t, r.task, {ActivationDatesField}))
            && (!r.Accepted? ==> r.Rejected?)
  {
  }

  /** The stored dates are THE ascending arrangement of the typed values: any
      ascending permutation of them is equal to it. */
  lemma ActivationDatesCanonical(t: Task, text: string, dates: seq<real>)
    requires ParseList(text).Some?
    requires Ascending(dates) && multiset(dates) == multiset(ParseList(text).value)
    ensures EditDates(t, text) == Accepted(t.(listActivationDates := dates))
  {
    var parsed := ParseList(text).value;
    AscendingUnique(SortAscending(parsed), dates);
  }

  /** A custom field: a key missing from the schema raises an uncaught KeyError with
      the task unchanged; otherwise the value converts under the registered type or
      the edit is rejected, and only that key of the task's data changes. */
  lemma CustomFieldEdit(t: Task, key: string, text: string, fields: map<string, FieldType>)
    ensures var r := EditCustom(t, key, text, fields);
            && (r.Escaped? <==> key !in fields)
            && (r.Escaped? ==> r.task == t && !r.inHandler)
            && (key in fields ==> (r.Accepted? <==> Convert(fields[key], text).Some?))
            && (r.Accepted? ==> r.task.data == t.data[key := Convert(fields[key], text).value]
                                && AgreeOutside(t, r.task, {DataField}))
  {
  }

  /** bool() of a non-empty string is True: a bool field accepts every text, and
      "False" is stored as true. */
  lemma BoolFieldAcceptsAnyText(t: Task, key: string, text: string, fields: map<string, FieldType>)
    requires key in fields && fields[key] == BoolType
    ensures EditCustom(t, key, text, fields) == Accepted(t.(data := t.data[key := BoolValue(text != "")]))
    ensures EditCustom(t, key, "False", fields) == Accepted(t.(data := t.data[key := BoolValue(true)]))
  {
  }

  /** An accepted edit of an integer column writes only its column. */
  lemma IntWrites(t: Task, col: Column, cell: Cell, fields: map<string, FieldType>)
    requires col.Id? || col.NInstr? || col.PreemptionCost? || col.CritLevel?
    ensures var r := EditTask(t, col, cell, fields);
            r.Accepted? || r.Escaped? ==> AgreeOutside(t, r.task, Writes(col))
  {
    var text := cell.text;
    match col
    case Id => IdentifierEdit(t, text);
    case NInstr => CountColumnEdit(t, col, text);
    case PreemptionCost => CountColumnEdit(t, col, text);
    case CritLevel => CritLevelEdit(t, text);
  }

  /** An accepted edit of a choice or check-box column writes only its column. */
  lemma ChoiceWrites(t: Task, col: Column, cell: Cell, fields: map<string, FieldType>)
    requires col.TaskClass? || col.TaskType? || col.Abort? || col.StackFile?
    ensures var r := EditTask(t, col, cell, fields);
            r.Accepted? || r.Escaped? ==> AgreeOutside(t, r.task, Writes(col))
  {
    match col
    case TaskClass =>
      assert EditTask(t, col, cell, fields) == Accepted(t.(taskClass := cell.text));
    case TaskType =>
      assert EditTask(t, col, cell, fields) == Accepted(t.(taskType := cell.text));
    case Abort =>
      assert EditTask(t, col, cell, fields) == Accepted(t.(abortOnMiss := cell.checked));
    case StackFile =>
      assert EditTask(t, col, cell, fields) == Accepted(t);
  }

  /** An accepted edit of the name column writes only the name. */
  lemma NameWrites(t: Task, col: Column, cell: Cell, fields: map<string, FieldType>)
    requires col.Name?
    ensures var r := EditTask(t, col, cell, fields);
            r.Accepted? || r.Escaped? ==> AgreeOutside(t, r.task, Writes(col))
  {
    assert EditTask(t, col, cell, fields) == EditName(t, cell.text);
    NameEdit(t, cell.text);
  }

  /** A "Followed by" edit that is accepted, or that raises after assigning, writes
      only followed_by. */
  lemma FollowedWrites(t: Task, col: Column, cell: Cell, fields: map<string, FieldType>)
    requires col.FollowedBy?
    ensures var r := EditTask(t, col, cell, fields);
            r.Accepted? || r.Escaped? ==> AgreeOutside(t, r.task, Writes(col))
  {
    assert EditTask(t, col, cell, fields) == EditFollowed(t, cell.text);
    FollowedEdit(t, cell.text);
  }

  /** A "Followed by" edit assigns followed_by and nothing else, even when int() then raises. */
  lemma FollowedEdit(t: Task, text: string)
    ensures var r := EditFollowed(t, text);
            r.Accepted? || r.Escaped? ==> AgreeOutside(t, r.task, {FollowedByField})
  {
    var group := ParenGroup(text);
    if group.Some? && ParseInt(group.value).Some? {
      assert EditFollowed(t, text) == Accepted(t.(followedBy := ParseInt(group.value)));
    }
  }

  /** An accepted edit of a list or custom column writes only its column. */
  lemma ListWrites(t: Task, col: Column, cell: Cell, fields: map<string, FieldType>)
    requires col.ListActivationDates? || col.ListWcets? || col.WcetDeviations? || col.Custom?
    ensures var r := EditTask(t, col, cell, fields);
            r.Accepted? || r.Escaped? ==> AgreeOutside(t, r.task, Writes(col))
  {
    var text := cell.text;
    match col
    case ListActivationDates => ActivationDatesEdit(t, text);
    case ListWcets => ListWcetsEdit(t, text);
    case WcetDeviations => WcetDeviationsEdit(t, text);
    case Custom(key) => CustomFieldEdit(t, key, text, fields);
  }

  /** An edit that is accepted, or that raises after assigning, writes only the
      attributes of its column. */
  lemma EditTaskWrites(t: Task, col: Column, cell: Cell, fields: map<string, FieldType>)
    requires !col.NrCritLevels?
    ensures var r := EditTask(t, col, cell, fields);
            r.Accepted? || r.Escaped? ==> AgreeOutside(t, r.task, Writes(col))
  {
    if IsRealColumn(col) {
      RealColumnEdit(t, col, cell.text);
      assert EditTask(t, col, cell, fields) == EditReal(t, col, cell.text);
    } else if col.ListActivationDates? || col.ListWcets? || col.WcetDeviations? || col.Custom? {
      ListWrites(t, col, cell, fields);
    } else if col.Id? || col.NInstr? || col.PreemptionCost? || col.CritLevel? {
      IntWrites(t, col, cell, fields);
    } else if col.Name? {
      NameWrites(t, col, cell, fields);
    } else if col.FollowedBy? {
      FollowedWrites(t, col, cell, fields);
    } else {
      ChoiceWrites(t, col, cell, fields);
    }
  }

  // ================================================================ followed by

  /** The text of a task's item gives back its identifier as the captured group, as
      long as the name has no line break. */
  lemma ParenGroupOfItemText(t: Task)
    requires '\n' !in t.name
    ensures ParenGroup(ItemText(t)) == Some(IntToString(t.identifier))
  {
    var d := IntToString(t.identifier);
    IntToStringNoSpace(t.identifier);
    var n := |t.name|;
    var s := ItemText(t);
    assert s == t.name + " (" + d + ")";
    forall i | 0 <= i < |s| ensures s[i] != '\n' {
      if i < n {
        assert s[i] == t.name[i];
      } else if n + 2 <= i < n + 2 + |d| {
        assert s[i] == d[i - n - 2];
      }
    }
    assert s[..FirstIndexOf(s, '\n')] == s;
    var close := |s| - 1;
    LastIndexAt(s, ')', close);
    var head := s[..close - 1];
    forall k | n + 1 < k < |head| ensures head[k] != '(' {
      assert head[k] == d[k - n - 2];
    }
    LastIndexAt(head, '(', n + 1);
    assert s[n + 2..close] == d;
  }

  /** The items of a "Followed by" box: the blank clears followed_by, and the item of
      a task sets followed_by to that task's identifier; every such task is another
      row's and is APeriodic. */
  lemma FollowedByChoice(tasks: seq<Task>, row: int, k: int, t: Task)
    requires 0 <= k < |FollowedByCandidates(tasks, row)|
    ensures var items := FollowedByCandidates(tasks, row);
            var r := EditFollowed(t, items[k]);
            && (k == 0 ==> r == Accepted(t.(followedBy := None)))
            && (k > 0 ==> var j := FollowableRows(tasks, row)[k - 1];
                          && j != row && tasks[j].taskType == "APeriodic"
                          && ('\n' !in tasks[j].name ==> r == Accepted(t.(followedBy := Some(tasks[j].identifier)))))
  {
    var items := FollowedByCandidates(tasks, row);
    if k == 0 {
      assert ParenGroup(items[0]) == None;
    } else {
      var j := FollowableRows(tasks, row)[k - 1];
      assert FollowableRows(tasks, row)[k - 1] in FollowableRows(tasks, row);
      if '\n' !in tasks[j].name {
        ParenGroupOfItemText(tasks[j]);
        ParseIntOfIntToString(tasks[j].identifier);
      }
    }
  }

  /** An item "name (a)" ends with " (b)" only when a is b, for a and b without '('. */
  lemma SuffixOfItemText(name: string, a: string, b: string)
    requires '(' !in a && '(' !in b
    requires EndsWith(name + " (" + a + ")", " (" + b + ")")
    ensures a == b
  {
    var s := name + " (" + a + ")";
    var suffix := " (" + b + ")";
    var off := |s| - |suffix|;
    var n := |name|;
    forall k | n + 1 < k < |s| ensures s[k] != '(' {
      if k < n + 2 + |a| {
        assert s[k] == a[k - n - 2];
      }
    }
    LastIndexAt(s, '(', n + 1);
    forall k | off + 1 < k < |s| ensures s[k] != '(' {
      assert s[k] == suffix[k - off];
      if k - off < 2 + |b| {
        assert suffix[k - off] == b[k - off - 2];
      }
    }
    assert s[off + 1] == suffix[1];
    LastIndexAt(s, '(', off + 1);
    assert off == n;
    assert a == s[n + 2..|s| - 1];
    assert b == suffix[2..|suffix| - 1];
  }

  /** The box of a row selects an item whose commit leaves the task as it is; when it
      selects the blank, committing it clears followed_by (the task follows None or 0,
      or a task that is not another APeriodic row). */
  lemma FollowedByShown(tasks: seq<Task>, row: int)
    requires 0 <= row < |tasks|
    requires forall j :: 0 <= j < |tasks| ==> '\n' !in tasks[j].name
    ensures var items := FollowedByCandidates(tasks, row);
            var k := SelectedItem(items, tasks[row].followedBy);
            && k < |items|
            && EditFollowed(tasks[row], items[k])
               == Accepted(if k == 0 then tasks[row].(followedBy := None) else tasks[row])
  {
    var items := FollowedByCandidates(tasks, row);
    var t := tasks[row];
    var k := SelectedItem(items, t.followedBy);
    if k == 0 {
      FollowedByChoice(tasks, row, 0, t);
    } else {
      var suffix := " (" + IntToString(t.followedBy.value) + ")";
      assert k == FirstEndingWith(items, suffix, 0);
      assert EndsWith(items[k], suffix);
      var rows := FollowableRows(tasks, row);
      var j := rows[k - 1];
      assert 0 <= j < |tasks|;
      assert items[k] == ItemText(tasks[j]);
      FollowedItemCommit(t, tasks[j]);
    }
  }

  /** Committing the item of a task whose identifier the box's suffix names gives the
      task back unchanged. */
  lemma FollowedItemCommit(t: Task, other: Task)
    requires t.followedBy.Some? && '\n' !in other.name
    requires EndsWith(ItemText(other), " (" + IntToString(t.followedBy.value) + ")")
    ensures EditFollowed(t, ItemText(other)) == Accepted(t)
  {
    ParenGroupOfItemText(other);
    ParseIntOfIntToString(other.identifier);
    ItemIdentifier(other, t.followedBy.value);
    assert t.(followedBy := Some(other.identifier)) == t;
  }

  /** When a row follows the identifier of another APeriodic row, its box shows that
      row's item (or an earlier one with the same identifier), not the blank, and
      committing what it shows leaves the task as it is. */
  lemma FollowedByFound(tasks: seq<Task>, row: int, j: int)
    requires 0 <= row < |tasks| && 0 <= j < |tasks| && j != row
    requires tasks[j].taskType == "APeriodic"
    requires tasks[row].followedBy == Some(tasks[j].identifier) && tasks[j].identifier != 0
    requires forall i :: 0 <= i < |tasks| ==> '\n' !in tasks[i].name
    ensures var items := FollowedByCandidates(tasks, row);
            var k := SelectedItem(items, tasks[row].followedBy);
            && 0 < k < |items|
            && EditFollowed(tasks[row], items[k]) == Accepted(tasks[row])
  {
    var items := FollowedByCandidates(tasks, row);
    var rows := FollowableRows(tasks, row);
    var p :| 0 <= p < |rows| && rows[p] == j;
    var d := IntToString(tasks[j].identifier);
    var suffix := " (" + d + ")";
    assert items[p + 1] == tasks[j].name + suffix;
    assert EndsWith(items[p + 1], suffix) by {
      assert (tasks[j].name + suffix)[|tasks[j].name|..] == suffix;
    }
    assert !EndsWith(items[0], suffix);
    var k := FirstEndingWith(items, suffix, 0);
    assert k == SelectedItem(items, tasks[row].followedBy);
    assert k > 0;
    FollowedByShown(tasks, row);
  }

  /** The item of a task ends with " (v)" only when v is that task's identifier. */
  lemma ItemIdentifier(t: Task, v: int)
    requires EndsWith(ItemText(t), " (" + IntToString(v) + ")")
    ensures t.identifier == v
  {
    var id := t.identifier;
    IntToStringNoSpace(id);
    IntToStringNoSpace(v);
    SuffixOfItemText(t.name, IntToString(id), IntToString(v));
    ParseIntOfIntToString(id);
    ParseIntOfIntToString(v);
  }

  // ================================================================ identifiers

  /** If 1..n all occur in ids, ids has at least n entries. */
  lemma {:induction false} CoveredBound(ids: seq<int>, n: int)
    requires forall k :: 1 <= k <= n ==> k in ids
    ensures n <= |ids|
  {
    if n > 0 {
      assert n in ids;
      var i :| 0 <= i < |ids| && ids[i] == n;
      var rest := ids[..i] + ids[i + 1..];
      forall k | 1 <= k <= n - 1 ensures k in rest {
        assert k in ids;
        var j :| 0 <= j < |ids| && ids[j] == k;
        if j < i {
          assert rest[j] == k;
        } else {
          assert rest[j - 1] == k;
        }
      }
      CoveredBound(rest, n - 1);
    }
  }

  /** The smallest unused identifier is at most one more than the number of tasks. */
  lemma SmallestUnusedBound(id: int, tasks: seq<Task>)
    requires SmallestUnused(id, tasks)
    ensures 1 <= id <= |tasks| + 1
  {
    CoveredBound(Identifiers(tasks), id - 1);
  }

  /** There is one smallest unused identifier. */
  lemma SmallestUnusedUnique(a: int, b: int, tasks: seq<Task>)
    requires SmallestUnused(a, tasks) && SmallestUnused(b, tasks)
    ensures a == b
  {
  }
}
