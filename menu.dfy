/**
 * The menu actions of ToDoList.py that change the store: adding a task,
 * deleting a task by its number, and updating one field of a task chosen
 * by its number. What the user types is given as parameters: each
 * validated answer as the list of answers the validator reads in turn,
 * and the task number as the integer `int(...)` already made of it.
 */
module Menu {
  import opened Wrappers
  import opened Text
  import opened Tasks
  import opened Store

  /**
   * How a menu action ends: it completes, it raises an exception that the
   * menu's `except` clause reports, or a validator is still waiting for an
   * answer it accepts.
   */
  datatype Reply = Finished | Raised(error: Error) | AwaitingInput

  /** The three update selections: a new description, status or priority. */
  datatype Edit = NewDesc(desc: string) | NewStatus(answers: seq<string>) | NewPriority(answers: seq<string>)

  /**
   * The description, status and priority `update_task` is called with for
   * the task `t` the user chose: the chosen field from the input (validated
   * for a status or priority), the other two as `t` has them.
   */
  function EditedFields(t: Task, edit: Edit): Option<(string, string, string)> {
    match edit
    case NewDesc(d) => Some((d, t.status, t.priority))
    case NewStatus(a) =>
      (match Accepted(STATUS_LEVELS, a)
       case None => None
       case Some(s) => Some((t.desc, s, t.priority)))
    case NewPriority(a) =>
      match Accepted(PRIORITY_LEVELS, a)
      case None => None
      case Some(p) => Some((t.desc, t.status, p))
  }

  /** Menu option 2: validate the status and the priority, build the task and add it. */
  method AddEntered(store: TaskStore, desc: string, statusAnswers: seq<string>, priorityAnswers: seq<string>) returns (r: Reply)
    requires store.Valid()
    modifies store
    ensures store.Valid()
    ensures match (Accepted(STATUS_LEVELS, statusAnswers), Accepted(PRIORITY_LEVELS, priorityAnswers))
      case (Some(s), Some(p)) =>
        && r == Finished
        && store.groups == Add(old(store.groups), Task(old(store.nextId), desc, s, p))
        && store.nextId == old(store.nextId) + 1
      case _ =>
        r == AwaitingInput && store.groups == old(store.groups) && store.nextId == old(store.nextId)
  {
    var status := Validator(STATUS_LEVELS, statusAnswers);
    if status.None? {
      return AwaitingInput;
    }
    var priority := Validator(PRIORITY_LEVELS, priorityAnswers);
    if priority.None? {
      return AwaitingInput;
    }
    AcceptedStatus(statusAnswers);
    AcceptedPriority(priorityAnswers);
    var t := store.NewTask(desc, Capitalize(status.value), Capitalize(priority.value));
    store.AddTask(t);
    r := Finished;
  }

  /**
   * A task added from the menu is never lost: it becomes the last task of
   * the group its validated status names, the other groups are unchanged,
   * and the store holds one task more. When its id is fresh, as the
   * store's counter makes it, the store holds exactly one copy of it.
   */
  lemma AddEnteredAppends(gs: Groups, n: nat, desc: string, statusAnswers: seq<string>, p: string)
    requires Accepted(STATUS_LEVELS, statusAnswers).Some?
    ensures var s := Accepted(STATUS_LEVELS, statusAnswers).value;
      KeyOf(s).Some? &&
      var g := KeyOf(s).value;
      var r := Add(gs, Task(n, desc, s, p));
      && r.Get(g) == gs.Get(g) + [Task(n, desc, s, p)]
      && (forall h :: h != g ==> r.Get(h) == gs.Get(h))
      && Total(r) == Total(gs) + 1
      && (IdsBelow(gs, n) ==> multiset(All(r))[Task(n, desc, s, p)] == 1)
  {
    var s := Accepted(STATUS_LEVELS, statusAnswers).value;
    var t := Task(n, desc, s, p);
    AcceptedStatus(statusAnswers);
    AddRouted(gs, t, KeyOf(s).value);
    AddSpec(gs, t);
    if IdsBelow(gs, n) {
      CountAppended(gs, KeyOf(s).value, t);
    }
  }

  /** Menu option 3: validate the category, then `tasks_dict[category].pop(num - 1)`. */
  method DeleteEntered(store: TaskStore, categoryAnswers: seq<string>, num: int) returns (r: Reply)
    requires store.Valid()
    modifies store
    ensures store.Valid() && store.nextId == old(store.nextId)
    ensures match Accepted(STATUS_LEVELS, categoryAnswers)
      case None => r == AwaitingInput && store.groups == old(store.groups)
      case Some(c) =>
        match Pop(old(store.groups), c, num)
        case Success(gs) => r == Finished && store.groups == gs
        case Failure(e) => r == Raised(e) && store.groups == old(store.groups)
  {
    var category := Validator(STATUS_LEVELS, categoryAnswers);
    if category.None? {
      return AwaitingInput;
    }
    PopKeeps(store.groups, category.value, num, store.nextId);
    var key := KeyOf(category.value);
    if key.None? {
      return Raised(KeyError);
    }
    var tasks := store.groups.Get(key.value);
    var k := PyIndex(|tasks|, num - 1);
    if k.None? {
      return Raised(IndexError);
    }
    store.groups := store.groups.Set(key.value, tasks[..k.value] + tasks[k.value + 1..]);
    r := Finished;
  }

  /**
   * Deleting from the menu never raises KeyError, since the category is
   * validated: it succeeds exactly when `num` is between 1 - length and
   * length of the chosen group, and raises IndexError otherwise.
   */
  lemma DeleteEnteredRange(gs: Groups, categoryAnswers: seq<string>, num: int)
    requires Accepted(STATUS_LEVELS, categoryAnswers).Some?
    ensures var c := Accepted(STATUS_LEVELS, categoryAnswers).value;
      KeyOf(c).Some? &&
      var s := gs.Get(KeyOf(c).value);
      && (Pop(gs, c, num).Success? <==> 1 - |s| <= num <= |s|)
      && (Pop(gs, c, num).Failure? ==> Pop(gs, c, num).error == IndexError)
  {
    AcceptedStatus(categoryAnswers);
  }

  /**
   * Menu option 4: validate the category, select task `num` of it, read
   * the new field, then `update_task` with the result.
   */
  method UpdateEntered(store: TaskStore, categoryAnswers: seq<string>, num: int, edit: Edit) returns (r: Reply)
    requires store.Valid()
    modifies store
    ensures store.Valid()
    ensures match Accepted(STATUS_LEVELS, categoryAnswers)
      case None => r == AwaitingInput && store.groups == old(store.groups) && store.nextId == old(store.nextId)
      case Some(c) =>
        match Select(old(store.groups), c, num)
        case Failure(e) => r == Raised(e) && store.groups == old(store.groups) && store.nextId == old(store.nextId)
        case Success(t) =>
          match EditedFields(t, edit)
          case None => r == AwaitingInput && store.groups == old(store.groups) && store.nextId == old(store.nextId)
          case Some(f) =>
            && store.nextId == old(store.nextId) + 1
            && match Update(old(store.groups), t, Task(old(store.nextId), f.0, f.1, f.2))
               case Success(gs) => r == Finished && store.groups == gs
               case Failure(e) => r == Raised(e) && store.groups == old(store.groups)
  {
    var category := Validator(STATUS_LEVELS, categoryAnswers);
    if category.None? {
      return AwaitingInput;
    }
    var selected := Select(store.groups, category.value, num);
    if selected.Failure? {
      return Raised(selected.error);
    }
    var oldTask := selected.value;
    var desc, status, priority := oldTask.desc, oldTask.status, oldTask.priority;
    match edit {
      case NewDesc(d) =>
        desc := d;
      case NewStatus(a) =>
        var s := Validator(STATUS_LEVELS, a);
        if s.None? {
          return AwaitingInput;
        }
        status := s.value;
      case NewPriority(a) =>
        var p := Validator(PRIORITY_LEVELS, a);
        if p.None? {
          return AwaitingInput;
        }
        priority := p.value;
    }
    var outcome := store.UpdateTask(oldTask, desc, status, priority);
    r := if outcome.Pass? then Finished else Raised(outcome.error);
  }

  /**
   * In a store where every task sits in its own group, updating the task
   * the user selected succeeds exactly when its status is exactly the key
   * of its group; any other status (one loaded from a file in another
   * case, say) makes `update_task` raise KeyError, and nothing changes.
   */
  lemma UpdateSelected(gs: Groups, g: Group, num: int, nt: Task)
    requires Coherent(gs)
    requires Select(gs, Name(g), num).Success?
    ensures var t := Select(gs, Name(g), num).value;
      && (Update(gs, t, nt).Success? <==> t.status == Name(g))
      && (t.status != Name(g) ==> Update(gs, t, nt) == Failure(KeyError))
  {
    var t := Select(gs, Name(g), num).value;
    KeyOfName(g);
    var k := PyIndex(|gs.Get(g)|, num - 1).value;
    assert gs.Get(g)[k] == t;
    assert GroupOf(t.status) == Some(g);
    match KeyOf(t.status)
    case None =>
    case Some(h) =>
      GroupOfName(h);
      assert t in gs.Get(g);
  }

  /**
   * When the selected task's status is exactly its group's key, an update
   * keeps the number of tasks. A new description or priority moves the
   * task, rebuilt, to the last position of the same group; a new status
   * makes the rebuilt task the last one of the group that status names,
   * and the only copy of it in the store.
   */
  lemma UpdateEnteredMoves(gs: Groups, n: nat, g: Group, num: int, edit: Edit)
    requires Coherent(gs) && IdsBelow(gs, n)
    requires Select(gs, Name(g), num).Success?
    requires Select(gs, Name(g), num).value.status == Name(g)
    requires EditedFields(Select(gs, Name(g), num).value, edit).Some?
    ensures var t := Select(gs, Name(g), num).value;
      var f := EditedFields(t, edit).value;
      var nt := Task(n, f.0, f.1, f.2);
      && Update(gs, t, nt).Success?
      && Total(Update(gs, t, nt).value) == Total(gs)
      && (!edit.NewStatus? ==> Update(gs, t, nt).value == gs.Set(g, RemoveFirst(gs.Get(g), t) + [nt]))
      && (edit.NewStatus? ==>
            KeyOf(f.1).Some? &&
            var h := KeyOf(f.1).value;
            var r := Update(gs, t, nt).value;
            |r.Get(h)| > 0 && r.Get(h)[|r.Get(h)| - 1] == nt && multiset(All(r))[nt] == 1)
  {
    var t := Select(gs, Name(g), num).value;
    var f := EditedFields(t, edit).value;
    var nt := Task(n, f.0, f.1, f.2);
    KeyOfName(g);
    var k := PyIndex(|gs.Get(g)|, num - 1).value;
    assert gs.Get(g)[k] == t;
    assert t in gs.Get(g);
    assert Remove(gs, t).Success?;
    assert forall h :: nt !in gs.Get(h);
    if edit.NewStatus? {
      AcceptedStatus(edit.answers);
      UpdateReplaces(gs, t, nt, KeyOf(f.1).value);
    } else {
      UpdateSameStatus(gs, t, nt, g);
      GroupOfName(g);
      UpdateCount(gs, t, nt);
    }
  }
}
