/** The task list of the task manager: an ordered sequence of task records and
    the counter that hands out ids, with the three operations the page
    performs on them (add on form submit, delete, toggle completion). */
module TaskStore {
  import Text

  /** The moment a task was added. The page reads a clock for it; here the
      caller supplies it and nothing but `Submit` ever stores one. */
  datatype Timestamp = Timestamp(millis: int)

  datatype Task = Task(
    id: nat,
    name: string,
    priority: string,
    isImportant: bool,
    isCompleted: bool,
    date: Timestamp)

  /** The two globals of the page: the task array and `nextTaskId`. */
  datatype Store = Store(tasks: seq<Task>, nextId: nat)

  datatype Option<T> = None | Some(value: T)

  /** Ids grow strictly along the sequence (so no id appears twice). */
  predicate IdsIncreasing(ts: seq<Task>) {
    forall i, j :: 0 <= i < j < |ts| ==> ts[i].id < ts[j].id
  }

  /** Every id is positive and has already been handed out by the counter. */
  predicate IdsIssued(ts: seq<Task>, nextId: nat) {
    forall i :: 0 <= i < |ts| ==> 0 < ts[i].id < nextId
  }

  predicate Valid(st: Store) {
    && 1 <= st.nextId
    && IdsIncreasing(st.tasks)
    && IdsIssued(st.tasks, st.nextId)
  }

  /** The store as the page starts: no tasks, first id 1. */
  function Initial(): (st: Store)
    ensures Valid(st) && |st.tasks| == 0 && st.nextId == 1
  {
    Store([], 1)
  }

  /** Increasing ids are in particular pairwise distinct. */
  lemma ValidIdsDistinct(st: Store, i: int, j: int)
    requires Valid(st)
    requires 0 <= i < |st.tasks| && 0 <= j < |st.tasks| && i != j
    ensures st.tasks[i].id != st.tasks[j].id
  {
    if i < j {
      assert st.tasks[i].id < st.tasks[j].id;
    } else {
      assert st.tasks[j].id < st.tasks[i].id;
    }
  }

  // ---------------------------------------------------------------------
  // Add (the form-submit handler)

  datatype Outcome = Added(task: Task) | RejectedEmptyName

  /** The store after a submission, and what became of the submission. */
  datatype Submission = Submission(store: Store, outcome: Outcome)

  /** Submitting the form: the typed name is trimmed; an empty result is
      rejected and nothing changes; otherwise a task with the current counter
      value as id is appended and the counter moves on by one. The priority
      is stored as given, whatever string it is. */
  function Submit(st: Store, input: string, priority: string, isImportant: bool,
                  isCompleted: bool, date: Timestamp): (r: Submission)
    ensures r.outcome.RejectedEmptyName? <==> Text.AllWhitespace(input)
    ensures r.outcome.RejectedEmptyName? ==> r.store == st
    ensures r.outcome.Added? ==>
      var t := r.outcome.task;
      && r.store.tasks == st.tasks + [t]
      && r.store.nextId == st.nextId + 1
      && t.id == st.nextId
      && t.name != [] && Text.Trimmed(t.name) && Text.IsTrimOf(input, t.name)
      && t.priority == priority
      && t.isImportant == isImportant
      && t.isCompleted == isCompleted
      && t.date == date
  {
    var name := Text.Trim(input);
    if name == [] then
      Submission(st, RejectedEmptyName)
    else
      var t := Task(st.nextId, name, priority, isImportant, isCompleted, date);
      assert Text.Trimmed(name) by {
        var i, j :| Text.CutAt(input, i, j, name);
      }
      Submission(Store(st.tasks + [t], st.nextId + 1), Added(t))
  }

  lemma SubmitPreservesValid(st: Store, input: string, priority: string, isImportant: bool,
                             isCompleted: bool, date: Timestamp)
    requires Valid(st)
    ensures Valid(Submit(st, input, priority, isImportant, isCompleted, date).store)
  {
    var r := Submit(st, input, priority, isImportant, isCompleted, date);
    if r.outcome.Added? {
      AppendPreservesValid(st, r.outcome.task);
    }
  }

  /** Appending a task that carries the counter's value, then advancing the
      counter, keeps ids increasing and issued. */
  lemma AppendPreservesValid(st: Store, t: Task)
    requires Valid(st) && t.id == st.nextId
    ensures Valid(Store(st.tasks + [t], st.nextId + 1))
  {
    var ts := st.tasks + [t];
    assert forall i :: 0 <= i < |st.tasks| ==> ts[i] == st.tasks[i];
  }

  // ---------------------------------------------------------------------
  // Delete

  /** `a` is `b` with some elements left out, the rest in their order. */
  ghost predicate Subsequence<T>(a: seq<T>, b: seq<T>)
    decreases |b|
  {
    if a == [] then true
    else if b == [] then false
    else (a[0] == b[0] && Subsequence(a[1..], b[1..])) || Subsequence(a, b[1..])
  }

  /** `Array.prototype.filter` keeping the tasks whose id differs from `id`. */
  function WithoutId(ts: seq<Task>, id: nat): (r: seq<Task>)
    ensures Subsequence(r, ts)
    ensures forall k :: 0 <= k < |r| ==> r[k].id != id
    ensures forall t: Task :: t.id != id ==> multiset(r)[t] == multiset(ts)[t]
    ensures (forall k :: 0 <= k < |ts| ==> ts[k].id != id) ==> r == ts
  {
    if ts == [] then []
    else
      var rest := WithoutId(ts[1..], id);
      assert ts == [ts[0]] + ts[1..];
      if ts[0].id == id then rest else [ts[0]] + rest
  }

  /** `deleteTask`: every task with the id goes, the others stay in order. */
  function Delete(st: Store, id: nat): (r: Store)
    ensures r.nextId == st.nextId
    ensures Subsequence(r.tasks, st.tasks)
    ensures forall t :: t in r.tasks <==> t in st.tasks && t.id != id
    ensures forall t: Task :: t.id != id ==> multiset(r.tasks)[t] == multiset(st.tasks)[t]
    ensures (forall k :: 0 <= k < |st.tasks| ==> st.tasks[k].id != id) ==> r == st
  {
    var r := Store(WithoutId(st.tasks, id), st.nextId);
    forall t ensures t in r.tasks <==> t in st.tasks && t.id != id {
      if t in r.tasks {
        assert t.id != id;
      }
    }
    r
  }

  /** A subsequence of a sequence with increasing ids has increasing ids. */
  lemma {:induction false} SubsequenceKeepsOrder(a: seq<Task>, b: seq<Task>)
    requires Subsequence(a, b) && IdsIncreasing(b)
    ensures IdsIncreasing(a)
    ensures forall x :: x in a ==> x in b
    decreases |b|
  {
    if a == [] {
    } else if a[0] == b[0] && Subsequence(a[1..], b[1..]) {
      SubsequenceKeepsOrder(a[1..], b[1..]);
      forall j | 0 < j < |a| ensures a[0].id < a[j].id {
        assert a[j] in a[1..];
        var m :| 0 <= m < |b[1..]| && b[1..][m] == a[j];
        assert b[1 + m] == a[j];
      }
      forall x | x in a ensures x in b {
        if x != a[0] {
          assert x in a[1..];
        }
      }
    } else {
      SubsequenceKeepsOrder(a, b[1..]);
    }
  }

  lemma DeletePreservesValid(st: Store, id: nat)
    requires Valid(st)
    ensures Valid(Delete(st, id))
  {
    SubsequenceKeepsOrder(Delete(st, id).tasks, st.tasks);
  }

  /** Deleting the same id a second time finds nothing left to delete. */
  lemma DeleteIdempotent(st: Store, id: nat)
    ensures Delete(Delete(st, id), id) == Delete(st, id)
  {
  }

  // ---------------------------------------------------------------------
  // Toggle completion

  /** `Array.prototype.find` by id, as a position: the first task with `id`. */
  function FindIndex(ts: seq<Task>, id: nat): (r: Option<nat>)
    ensures r.Some? ==> IsFirstWithId(ts, r.value, id)
    ensures r.None? <==> forall k :: 0 <= k < |ts| ==> ts[k].id != id
  {
    if ts == [] then None
    else if ts[0].id == id then Some(0)
    else
      match FindIndex(ts[1..], id)
      case None => None
      case Some(k) => Some(k + 1)
  }

  /** Position `k` holds the first task with `id`. */
  predicate IsFirstWithId(ts: seq<Task>, k: int, id: nat) {
    && 0 <= k < |ts|
    && ts[k].id == id
    && forall j :: 0 <= j < k ==> ts[j].id != id
  }

  function Flip(t: Task): Task {
    t.(isCompleted := !t.isCompleted)
  }

  /** `toggleTaskCompletion`: the first task with the id has its completion
      flag flipped; an id that is not present changes nothing. */
  function Toggle(st: Store, id: nat): (r: Store)
    ensures r.nextId == st.nextId
    ensures |r.tasks| == |st.tasks|
    ensures forall k :: 0 <= k < |st.tasks| ==>
      if IsFirstWithId(st.tasks, k, id) then
        && r.tasks[k].isCompleted == !st.tasks[k].isCompleted
        && r.tasks[k].(isCompleted := st.tasks[k].isCompleted) == st.tasks[k]
      else r.tasks[k] == st.tasks[k]
    ensures (forall k :: 0 <= k < |st.tasks| ==> st.tasks[k].id != id) ==> r == st
  {
    match FindIndex(st.tasks, id)
    case None => st
    case Some(k) => st.(tasks := st.tasks[k := Flip(st.tasks[k])])
  }

  /** Toggling keeps every id in its place. */
  lemma ToggleKeepsIds(st: Store, id: nat, k: int)
    requires 0 <= k < |st.tasks|
    ensures Toggle(st, id).tasks[k].id == st.tasks[k].id
  {
  }

  lemma TogglePreservesValid(st: Store, id: nat)
    requires Valid(st)
    ensures Valid(Toggle(st, id))
  {
    var r := Toggle(st, id);
    forall k | 0 <= k < |r.tasks| ensures r.tasks[k].id == st.tasks[k].id {
      ToggleKeepsIds(st, id, k);
    }
  }

  /** Toggling twice restores the store. */
  lemma ToggleInvolution(st: Store, id: nat)
    ensures Toggle(Toggle(st, id), id) == st
  {
    var r := Toggle(st, id);
    var r2 := Toggle(r, id);
    forall k | 0 <= k < |st.tasks|
      ensures IsFirstWithId(r.tasks, k, id) == IsFirstWithId(st.tasks, k, id)
    {
      forall j | 0 <= j <= k ensures r.tasks[j].id == st.tasks[j].id {
        ToggleKeepsIds(st, id, j);
      }
    }
    assert r2.tasks == st.tasks;
  }
}
