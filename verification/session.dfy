/** A page session: the sequence of user events the handlers react to, each
    turned into one store operation. */
module Session {
  import opened TaskStore
  import Text

  /** A form submission or a click on a task's delete or toggle button. */
  datatype Event =
    | SubmitForm(input: string, priority: string, isImportant: bool,
                 isCompleted: bool, date: Timestamp)
    | ClickDelete(id: nat)
    | ClickToggle(id: nat)

  function Step(st: Store, e: Event): Store {
    match e
    case SubmitForm(input, priority, imp, done, date) =>
      Submit(st, input, priority, imp, done, date).store
    case ClickDelete(id) => Delete(st, id)
    case ClickToggle(id) => Toggle(st, id)
  }

  function Run(st: Store, es: seq<Event>): Store
    decreases |es|
  {
    if es == [] then st else Run(Step(st, es[0]), es[1..])
  }

  /** The ids present in a list of tasks. */
  function Ids(ts: seq<Task>): set<nat> {
    set t | t in ts :: t.id
  }

  lemma SubmitIds(st: Store, input: string, priority: string, isImportant: bool,
                  isCompleted: bool, date: Timestamp)
    ensures var r := Submit(st, input, priority, isImportant, isCompleted, date).store;
      Ids(r.tasks) <= Ids(st.tasks) + {st.nextId}
  {
    var s := Submit(st, input, priority, isImportant, isCompleted, date);
    if s.outcome.Added? {
      forall x | x in Ids(s.store.tasks) ensures x in Ids(st.tasks) + {st.nextId} {
        var t :| t in s.store.tasks && t.id == x;
        if t != s.outcome.task {
          assert t in st.tasks;
        }
      }
    }
  }

  lemma DeleteIds(st: Store, id: nat)
    ensures Ids(Delete(st, id).tasks) <= Ids(st.tasks)
  {
    forall x | x in Ids(Delete(st, id).tasks) ensures x in Ids(st.tasks) {
      var t :| t in Delete(st, id).tasks && t.id == x;
    }
  }

  lemma ToggleIds(st: Store, id: nat)
    ensures Ids(Toggle(st, id).tasks) <= Ids(st.tasks)
  {
    var r := Toggle(st, id);
    forall x | x in Ids(r.tasks) ensures x in Ids(st.tasks) {
      var t :| t in r.tasks && t.id == x;
      var k :| 0 <= k < |r.tasks| && r.tasks[k] == t;
      ToggleKeepsIds(st, id, k);
      assert st.tasks[k] in st.tasks;
    }
  }

  /** One event keeps the store valid, never moves the counter back, and
      brings in at most the one id the counter was offering. */
  lemma StepInvariant(st: Store, e: Event)
    requires Valid(st)
    ensures Valid(Step(st, e))
    ensures st.nextId <= Step(st, e).nextId
    ensures Ids(Step(st, e).tasks) <= Ids(st.tasks) + {st.nextId}
  {
    match e
    case SubmitForm(input, priority, imp, done, date) =>
      SubmitPreservesValid(st, input, priority, imp, done, date);
      SubmitIds(st, input, priority, imp, done, date);
    case ClickDelete(id) =>
      DeletePreservesValid(st, id);
      DeleteIds(st, id);
    case ClickToggle(id) =>
      TogglePreservesValid(st, id);
      ToggleIds(st, id);
  }

  /** Whatever the user does, the store stays valid and the counter never
      goes back. */
  lemma {:induction false} RunPreservesValid(st: Store, es: seq<Event>)
    requires Valid(st)
    ensures Valid(Run(st, es))
    ensures st.nextId <= Run(st, es).nextId
    decreases |es|
  {
    if es != [] {
      StepInvariant(st, es[0]);
      RunPreservesValid(Step(st, es[0]), es[1..]);
    }
  }

  /** Ids are never reused: after any run of events, every id below the
      counter's starting value belongs to a task that was already there at
      the start (tasks deleted meanwhile do not come back under new data). */
  lemma {:induction false} RunNeverReusesIds(st: Store, es: seq<Event>)
    requires Valid(st)
    ensures forall x :: x in Ids(Run(st, es).tasks) && x < st.nextId ==> x in Ids(st.tasks)
    decreases |es|
  {
    if es != [] {
      var st1 := Step(st, es[0]);
      StepInvariant(st, es[0]);
      RunNeverReusesIds(st1, es[1..]);
    }
  }

  /** A name typed with padding is stored without it: "  Call bank " loses
      two leading spaces and one trailing space. */
  lemma TrimPaddedName()
    ensures Text.Trim("  Call bank ") == "Call bank"
  {
    var b := "  Call bank ";
    assert b[2..11] == "Call bank" && b[..2] == "  " && b[11..] == " ";
    assert Text.CutAt(b, 2, 11, "Call bank");
    Text.TrimUnique(b, "Call bank");
  }

  /** A typical short session, for any two names: add the first
      as a high-priority important task, complete it, add the second as a
      low-priority task, delete the first. */
  function WalkThrough(n1: string, n2: string, d1: Timestamp, d2: Timestamp): seq<Event> {
    [ SubmitForm(n1, "High", true, false, d1),
      ClickToggle(1),
      SubmitForm(n2, "Low", false, false, d2),
      ClickDelete(1) ]
  }

  /** A submission whose name needs no trimming appends it as typed. */
  lemma SubmitTrimmedName(st: Store, name: string, priority: string, imp: bool,
                          done: bool, date: Timestamp)
    requires name != [] && Text.Trimmed(name)
    ensures Step(st, SubmitForm(name, priority, imp, done, date))
      == Store(st.tasks + [Task(st.nextId, name, priority, imp, done, date)], st.nextId + 1)
  {
    Text.TrimKeepsTrimmed(name);
  }

  /** The walk-through after its first event. */
  lemma WalkThroughAfterFirst(n1: string, n2: string, d1: Timestamp, d2: Timestamp)
    requires n2 != [] && Text.Trimmed(n2)
    ensures Run(Store([Task(1, n1, "High", true, false, d1)], 2), WalkThrough(n1, n2, d1, d2)[1..])
      == Store([Task(2, n2, "Low", false, false, d2)], 3)
  {
    var es := WalkThrough(n1, n2, d1, d2);
    var s1 := Store([Task(1, n1, "High", true, false, d1)], 2);
    var s2 := Store([Task(1, n1, "High", true, true, d1)], 2);
    var s3 := Store([Task(1, n1, "High", true, true, d1), Task(2, n2, "Low", false, false, d2)], 3);
    var s4 := Store([Task(2, n2, "Low", false, false, d2)], 3);
    assert Step(s1, es[1]) == s2 by {
      assert FindIndex(s1.tasks, 1) == Some(0);
    }
    assert Step(s2, es[2]) == s3 by {
      SubmitTrimmedName(s2, n2, "Low", false, false, d2);
    }
    assert Step(s3, es[3]) == s4 by {
      assert s3.tasks[1..] == [s4.tasks[0]];
      assert WithoutId([s4.tasks[0]], 1) == s4.tasks;
    }
    assert Run(s4, es[4..]) == s4;
    assert Run(s3, es[3..]) == s4;
    assert Run(s2, es[2..]) == s4;
  }

  /** Only the second task is left at the end of the walk-through, with the
      id 2 and the counter at 3. */
  lemma WalkThroughResult(n1: string, n2: string, d1: Timestamp, d2: Timestamp)
    requires n1 != [] && Text.Trimmed(n1)
    requires n2 != [] && Text.Trimmed(n2)
    ensures Run(Initial(), WalkThrough(n1, n2, d1, d2))
      == Store([Task(2, n2, "Low", false, false, d2)], 3)
  {
    var es := WalkThrough(n1, n2, d1, d2);
    SubmitTrimmedName(Initial(), n1, "High", true, false, d1);
    assert Step(Initial(), es[0]) == Store([Task(1, n1, "High", true, false, d1)], 2);
    WalkThroughAfterFirst(n1, n2, d1, d2);
  }

  /** The walk-through with the names "Buy milk" and "Call bank". */
  lemma Scenario(d1: Timestamp, d2: Timestamp)
    ensures Run(Initial(), WalkThrough("Buy milk", "Call bank", d1, d2))
      == Store([Task(2, "Call bank", "Low", false, false, d2)], 3)
  {
    var a := "Buy milk";
    var b := "Call bank";
    assert !Text.IsWhitespace(a[0]) && !Text.IsWhitespace(a[|a| - 1]);
    assert !Text.IsWhitespace(b[0]) && !Text.IsWhitespace(b[|b| - 1]);
    WalkThroughResult(a, b, d1, d2);
  }
}
