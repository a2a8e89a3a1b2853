/** The value choices `renderTasks` makes for each task: row background by
    priority, name colour by importance, strike-through and button label by
    completion, and the Yes/No labels. Building the markup and assigning the
    styles are not modelled; only which strings get chosen. */
module Render {
  import opened TaskStore

  /** The priorities the page has a colour for. */
  const KnownPriorities: set<string> := {"High", "Medium", "Low"}

  /** Row background by priority; any other priority string gets no colour. */
  function Background(priority: string): (color: string)
    ensures priority == "High" ==> color == "#ffe5e5"
    ensures priority == "Medium" ==> color == "#fff8e1"
    ensures priority == "Low" ==> color == "#e6ffed"
    ensures color == "" <==> priority !in KnownPriorities
  {
    if priority == "High" then "#ffe5e5"
    else if priority == "Medium" then "#fff8e1"
    else if priority == "Low" then "#e6ffed"
    else ""
  }

  /** The three known priorities are told apart by their colour. */
  lemma BackgroundInjective(p: string, q: string)
    requires p in KnownPriorities && q in KnownPriorities
    requires Background(p) == Background(q)
    ensures p == q
  {
  }

  /** Name colour: important tasks are red, others get the default colour. */
  function NameColor(isImportant: bool): (color: string)
    ensures color == "red" <==> isImportant
    ensures !isImportant ==> color == ""
  {
    if isImportant then "red" else ""
  }

  /** Completed tasks are struck through. */
  function TextDecoration(isCompleted: bool): (decoration: string)
    ensures decoration == "line-through" <==> isCompleted
    ensures !isCompleted ==> decoration == "none"
  {
    if isCompleted then "line-through" else "none"
  }

  /** The toggle button names the state a click moves the task to. */
  function ToggleLabel(isCompleted: bool): (text: string)
    ensures text == "Mark Complete" <==> !isCompleted
    ensures isCompleted ==> text == "Mark Incomplete"
  {
    if isCompleted then "Mark Incomplete" else "Mark Complete"
  }

  function YesNo(b: bool): (text: string)
    ensures text == "Yes" <==> b
    ensures !b ==> text == "No"
  {
    if b then "Yes" else "No"
  }

  /** Everything the page derives from one task for display. */
  datatype TaskStyle = TaskStyle(
    background: string,
    nameColor: string,
    textDecoration: string,
    toggleLabel: string,
    importantText: string,
    completedText: string)

  /** The style of one task. Each part is chosen from the matching task
      field, and the parts agree with each other: the Yes/No texts match the
      colour and the strike-through, and the button offers the opposite of
      what the strike-through shows. */
  function StyleOf(t: Task): (s: TaskStyle)
    ensures s.nameColor == "red" <==> t.isImportant
    ensures s.importantText == "Yes" <==> t.isImportant
    ensures s.textDecoration == "line-through" <==> t.isCompleted
    ensures s.completedText == "Yes" <==> t.isCompleted
    ensures s.toggleLabel == "Mark Complete" <==> !t.isCompleted
    ensures s.background == Background(t.priority)
    ensures s.importantText == "Yes" <==> s.nameColor == "red"
    ensures s.completedText == "Yes" <==> s.textDecoration == "line-through"
    ensures s.toggleLabel == "Mark Complete" <==> s.textDecoration == "none"
    ensures s.background == "" <==> t.priority !in KnownPriorities
  {
    TaskStyle(
      Background(t.priority),
      NameColor(t.isImportant),
      TextDecoration(t.isCompleted),
      ToggleLabel(t.isCompleted),
      YesNo(t.isImportant),
      YesNo(t.isCompleted))
  }

  /** The styling pass looks each rendered row's task up by id and skips the
      row when no task has that id. */
  function StyleFor(st: Store, id: nat): (r: Option<TaskStyle>)
    ensures r.None? <==> forall k :: 0 <= k < |st.tasks| ==> st.tasks[k].id != id
  {
    match FindIndex(st.tasks, id)
    case None => None
    case Some(k) => Some(StyleOf(st.tasks[k]))
  }

  /** In a valid store the first task with an id is the only one. */
  lemma ValidFindsOwnPosition(st: Store, k: int)
    requires Valid(st) && 0 <= k < |st.tasks|
    ensures IsFirstWithId(st.tasks, k, st.tasks[k].id)
    ensures FindIndex(st.tasks, st.tasks[k].id) == Some(k)
  {
    forall j | 0 <= j < k ensures st.tasks[j].id != st.tasks[k].id {
      ValidIdsDistinct(st, j, k);
    }
  }

  /** Each rendered row, which carries its task's id, is styled after that
      very task. */
  lemma RowStyledByOwnTask(st: Store, k: int)
    requires Valid(st) && 0 <= k < |st.tasks|
    ensures StyleFor(st, st.tasks[k].id) == Some(StyleOf(st.tasks[k]))
  {
    ValidFindsOwnPosition(st, k);
  }

  /** Clicking a task's toggle button does what the button says: after
      "Mark Complete" the task is shown struck through, after
      "Mark Incomplete" it is not. */
  lemma ToggleDoesWhatLabelSays(st: Store, k: int)
    requires Valid(st) && 0 <= k < |st.tasks|
    ensures var after := Toggle(st, st.tasks[k].id).tasks[k];
      StyleOf(after).textDecoration ==
        (if StyleOf(st.tasks[k]).toggleLabel == "Mark Complete" then "line-through" else "none")
  {
    ValidFindsOwnPosition(st, k);
  }
}
