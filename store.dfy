/**
 * `Task.tasks_dict`, the store every task lives in: its operations as
 * functions on the dictionary value, what they promise as lemmas, and the
 * class that holds the dictionary and updates it in place.
 */
module Store {
  import opened Wrappers
  import opened Text
  import opened Tasks

  /** The dictionary's value: the list of each of its three keys, in list order. */
  datatype Groups = Groups(backlog: seq<Task>, ongoing: seq<Task>, done: seq<Task>) {

    /** `tasks_dict[Name(g)]`. */
    function Get(g: Group): seq<Task> {
      match g
      case Backlog => backlog
      case Ongoing => ongoing
      case Done => done
    }

    /** The dictionary with the list of `g` replaced by `s`. */
    function Set(g: Group, s: seq<Task>): (r: Groups)
      ensures r.Get(g) == s
      ensures forall h :: h != g ==> r.Get(h) == Get(h)
    {
      match g
      case Backlog => this.(backlog := s)
      case Ongoing => this.(ongoing := s)
      case Done => this.(done := s)
    }
  }

  /** The exceptions the store operations raise. */
  datatype Error = KeyError | ValueError | IndexError

  function EmptyGroups(): Groups {
    Groups([], [], [])
  }

  /** Every task, in the order the dictionary iterates: Backlog, Ongoing, Done. */
  function All(gs: Groups): seq<Task> {
    gs.Get(Backlog) + gs.Get(Ongoing) + gs.Get(Done)
  }

  function Total(gs: Groups): nat {
    |All(gs)|
  }

  /** Each task sits in the group its status routes to. */
  ghost predicate Coherent(gs: Groups) {
    forall g, i :: 0 <= i < |gs.Get(g)| ==> GroupOf(gs.Get(g)[i].status) == Some(g)
  }

  /** Every task in the store was created before the `n`-th task object. */
  ghost predicate IdsBelow(gs: Groups, n: nat) {
    forall g, i :: 0 <= i < |gs.Get(g)| ==> gs.Get(g)[i].id < n
  }

  /** `add_task`: the task goes to the end of the group its status routes to. */
  function Add(gs: Groups, t: Task): Groups {
    match GroupOf(t.status)
    case Some(g) => gs.Set(g, gs.Get(g) + [t])
    case None => gs
  }

  /** Two dictionaries with the same list under every key are the same. */
  lemma GroupsEq(a: Groups, b: Groups)
    requires forall g :: a.Get(g) == b.Get(g)
    ensures a == b
  {
    assert a.Get(Backlog) == b.Get(Backlog);
    assert a.Get(Ongoing) == b.Get(Ongoing);
    assert a.Get(Done) == b.Get(Done);
  }

  /** Replacing the list of `g` twice keeps the second list only. */
  lemma SetTwice(gs: Groups, g: Group, s: seq<Task>, u: seq<Task>)
    ensures gs.Set(g, s).Set(g, u) == gs.Set(g, u)
  {
    GroupsEq(gs.Set(g, s).Set(g, u), gs.Set(g, u));
  }

  lemma AddRouted(gs: Groups, t: Task, g: Group)
    requires GroupOf(t.status) == Some(g)
    ensures Add(gs, t) == gs.Set(g, gs.Get(g) + [t])
  {
  }

  /**
   * `add_task` appends the task to the group whose name equals its status
   * case-insensitively and leaves the other groups as they were; a status
   * that names no group changes nothing.
   */
  lemma AddSpec(gs: Groups, t: Task)
    ensures forall g :: Add(gs, t).Get(g) == if Lower(t.status) == Lower(Name(g)) then gs.Get(g) + [t] else gs.Get(g)
    ensures Total(Add(gs, t)) == Total(gs) + if GroupOf(t.status).Some? then 1 else 0
    ensures GroupOf(t.status).None? ==> Add(gs, t) == gs
  {
    LowerNameIs(Backlog);
    LowerNameIs(Ongoing);
    LowerNameIs(Done);
  }

  /** Adding a task that was already created keeps every task in its own group. */
  lemma AddKeeps(gs: Groups, t: Task, n: nat)
    requires Coherent(gs) && IdsBelow(gs, n) && t.id < n
    ensures Coherent(Add(gs, t)) && IdsBelow(Add(gs, t), n)
  {
  }

  /** The position of the first occurrence of `x` in `s`. */
  function FirstIndex(s: seq<Task>, x: Task): (k: nat)
    requires x in s
    ensures k < |s| && s[k] == x
    ensures x !in s[..k]
  {
    if s[0] == x then 0
    else
      assert x in s[1..];
      var k := 1 + FirstIndex(s[1..], x);
      assert s[..k] == [s[0]] + s[1..][..k - 1];
      k
  }

  /** `list.remove(x)`: the list without its first occurrence of `x`. */
  function RemoveFirst(s: seq<Task>, x: Task): seq<Task>
    requires x in s
  {
    var k := FirstIndex(s, x);
    s[..k] + s[k + 1..]
  }

  /**
   * `list.remove(x)` takes out exactly one `x`, the first one, and keeps
   * the other elements in their order.
   */
  lemma RemoveFirstSpec(s: seq<Task>, x: Task)
    requires x in s
    ensures |RemoveFirst(s, x)| == |s| - 1
    ensures multiset(RemoveFirst(s, x)) == multiset(s) - multiset{x}
    ensures exists k :: 0 <= k < |s| && s[k] == x && x !in s[..k] && RemoveFirst(s, x) == s[..k] + s[k + 1..]
  {
    var k := FirstIndex(s, x);
    assert s == s[..k] + [x] + s[k + 1..];
  }

  /**
   * `remove_task`: `tasks_dict[t.status].remove(t)`. The status must be a
   * key exactly (KeyError otherwise) and the task must be in that group
   * (ValueError otherwise).
   */
  function Remove(gs: Groups, t: Task): Result<Groups, Error> {
    match KeyOf(t.status)
    case None => Failure(KeyError)
    case Some(g) =>
      if t in gs.Get(g) then Success(gs.Set(g, RemoveFirst(gs.Get(g), t))) else Failure(ValueError)
  }

  /**
   * `remove_task` succeeds exactly when the task's status is a key and the
   * task is in that group; then that group loses the first occurrence of
   * the task and nothing else, and the other groups are unchanged.
   */
  lemma RemoveSpec(gs: Groups, t: Task)
    ensures Remove(gs, t) == Failure(KeyError) <==> forall g :: t.status != Name(g)
    ensures forall g :: t.status == Name(g) ==>
      && (Remove(gs, t).Failure? <==> t !in gs.Get(g))
      && (Remove(gs, t).Failure? ==> Remove(gs, t).error == ValueError)
      && (Remove(gs, t).Success? ==>
            && |Remove(gs, t).value.Get(g)| == |gs.Get(g)| - 1
            && multiset(Remove(gs, t).value.Get(g)) == multiset(gs.Get(g)) - multiset{t}
            && Remove(gs, t).value.Get(g) == RemoveFirst(gs.Get(g), t)
            && forall h :: h != g ==> Remove(gs, t).value.Get(h) == gs.Get(h))
    ensures Remove(gs, t).Success? ==> Total(Remove(gs, t).value) == Total(gs) - 1
  {
    forall g | t.status == Name(g)
      ensures && (Remove(gs, t).Failure? <==> t !in gs.Get(g))
        && (Remove(gs, t).Failure? ==> Remove(gs, t).error == ValueError)
        && (Remove(gs, t).Success? ==>
              && |Remove(gs, t).value.Get(g)| == |gs.Get(g)| - 1
              && multiset(Remove(gs, t).value.Get(g)) == multiset(gs.Get(g)) - multiset{t}
              && Remove(gs, t).value.Get(g) == RemoveFirst(gs.Get(g), t)
              && forall h :: h != g ==> Remove(gs, t).value.Get(h) == gs.Get(h))
    {
      RemoveAt(gs, t, g);
    }
    RemoveTotal(gs, t);
  }

  /** `remove_task` for a task whose status is exactly the key of `g`. */
  lemma RemoveAt(gs: Groups, t: Task, g: Group)
    requires t.status == Name(g)
    ensures Remove(gs, t).Failure? <==> t !in gs.Get(g)
    ensures Remove(gs, t).Failure? ==> Remove(gs, t).error == ValueError
    ensures Remove(gs, t).Success? ==>
      && |Remove(gs, t).value.Get(g)| == |gs.Get(g)| - 1
      && multiset(Remove(gs, t).value.Get(g)) == multiset(gs.Get(g)) - multiset{t}
      && Remove(gs, t).value.Get(g) == RemoveFirst(gs.Get(g), t)
      && forall h :: h != g ==> Remove(gs, t).value.Get(h) == gs.Get(h)
  {
    KeyOfName(g);
    if t in gs.Get(g) {
      RemoveFirstSpec(gs.Get(g), t);
    }
  }

  /** A successful `remove_task` lowers the number of tasks by one. */
  lemma RemoveTotal(gs: Groups, t: Task)
    ensures Remove(gs, t).Success? ==> Total(Remove(gs, t).value) == Total(gs) - 1
  {
    if Remove(gs, t).Success? {
      var g := KeyOf(t.status).value;
      var r := Remove(gs, t).value;
      RemoveFirstSpec(gs.Get(g), t);
      assert |r.Get(g)| == |gs.Get(g)| - 1;
      SizesOf(gs);
      SizesOf(r);
    }
  }

  /** The number of tasks is the sum of the three list lengths. */
  lemma SizesOf(gs: Groups)
    ensures Total(gs) == |gs.backlog| + |gs.ongoing| + |gs.done|
  {
    assert All(gs) == gs.backlog + gs.ongoing + gs.done;
  }

  /** Removing a task keeps every remaining task in its own group. */
  lemma RemoveKeeps(gs: Groups, t: Task, n: nat)
    requires Coherent(gs) && IdsBelow(gs, n)
    ensures Remove(gs, t).Success? ==> Coherent(Remove(gs, t).value) && IdsBelow(Remove(gs, t).value, n)
  {
    if Remove(gs, t).Success? {
      var g := KeyOf(t.status).value;
      var s := gs.Get(g);
      var k := FirstIndex(s, t);
      DropOneWithin(s, k, s[..k] + s[k + 1..]);
      SetWithin(gs, g, s[..k] + s[k + 1..]);
      KeepsWithin(gs, Remove(gs, t).value, n);
    }
  }

  /** A list with one element dropped holds only elements of the list. */
  lemma DropOneWithin(s: seq<Task>, k: nat, r: seq<Task>)
    requires k < |s| && r == s[..k] + s[k + 1..]
    ensures forall i :: 0 <= i < |r| ==> r[i] in s
  {
    forall i | 0 <= i < |r| ensures r[i] in s {
      if i < k {
        assert r[i] == s[i];
      } else {
        assert r[i] == s[i + 1];
      }
    }
  }

  /** Replacing the list of `g` by one holding only tasks of it leaves every list holding only its old tasks. */
  lemma SetWithin(gs: Groups, g: Group, s: seq<Task>)
    requires forall i :: 0 <= i < |s| ==> s[i] in gs.Get(g)
    ensures forall h, i :: 0 <= i < |gs.Set(g, s).Get(h)| ==> gs.Set(g, s).Get(h)[i] in gs.Get(h)
  {
  }

  /** A store whose lists hold only tasks of the same lists of a good store is good. */
  lemma KeepsWithin(gs: Groups, r: Groups, n: nat)
    requires Coherent(gs) && IdsBelow(gs, n)
    requires forall h, i :: 0 <= i < |r.Get(h)| ==> r.Get(h)[i] in gs.Get(h)
    ensures Coherent(r) && IdsBelow(r, n)
  {
    forall h, i | 0 <= i < |r.Get(h)|
      ensures GroupOf(r.Get(h)[i].status) == Some(h) && r.Get(h)[i].id < n
    {
      var j :| 0 <= j < |gs.Get(h)| && gs.Get(h)[j] == r.Get(h)[i];
    }
  }

  /**
   * `update_task(t, …)` with the replacement `nt` it builds: remove `t`;
   * if that raised, stop there; otherwise add `nt` as `add_task` would.
   */
  function Update(gs: Groups, t: Task, nt: Task): Result<Groups, Error> {
    match Remove(gs, t)
    case Failure(e) => Failure(e)
    case Success(r) => Success(Add(r, nt))
  }

  /**
   * If removing the original raises, `update_task` raises the same error
   * and appends nothing. Otherwise the total changes only when the new
   * status routes to no group, in which case the task is lost.
   */
  lemma UpdateCount(gs: Groups, t: Task, nt: Task)
    ensures Remove(gs, t).Failure? ==> Update(gs, t, nt) == Failure(Remove(gs, t).error)
    ensures Remove(gs, t).Success? ==>
      && Update(gs, t, nt).Success?
      && Total(Update(gs, t, nt).value) == Total(gs) - 1 + if GroupOf(nt.status).Some? then 1 else 0
  {
    RemoveSpec(gs, t);
    if Remove(gs, t).Success? {
      AddSpec(Remove(gs, t).value, nt);
    }
  }

  lemma MultisetAll(gs: Groups, x: Task)
    ensures multiset(All(gs))[x] == multiset(gs.Get(Backlog))[x] + multiset(gs.Get(Ongoing))[x] + multiset(gs.Get(Done))[x]
  {
  }

  /** Removing from a list that does not hold `y` leaves a list that does not hold `y`. */
  lemma RemoveFirstAbsent(s: seq<Task>, x: Task, y: Task)
    requires x in s && y !in s
    ensures y !in RemoveFirst(s, x)
  {
    var r := RemoveFirst(s, x);
    DropOneWithin(s, FirstIndex(s, x), r);
  }

  /** A task that is in no group occurs once after it is appended to one of them. */
  lemma CountAppended(gs: Groups, h: Group, x: Task)
    requires forall g :: x !in gs.Get(g)
    ensures multiset(All(gs.Set(h, gs.Get(h) + [x])))[x] == 1
  {
    var r := gs.Set(h, gs.Get(h) + [x]);
    forall g ensures multiset(r.Get(g))[x] == if g == h then 1 else 0 {
      assert x !in gs.Get(g);
    }
    MultisetAll(r, x);
  }

  /**
   * When the replacement is a new object and its status routes to group
   * `h`, a successful update leaves it in the store exactly once, as the
   * last task of `h`, and the total number of tasks is unchanged.
   */
  lemma UpdateReplaces(gs: Groups, t: Task, nt: Task, h: Group)
    requires Remove(gs, t).Success?
    requires GroupOf(nt.status) == Some(h)
    requires forall g :: nt !in gs.Get(g)
    ensures Update(gs, t, nt).Success?
    ensures var r := Update(gs, t, nt).value;
      && Total(r) == Total(gs)
      && multiset(All(r))[nt] == 1
      && |r.Get(h)| > 0 && r.Get(h)[|r.Get(h)| - 1] == nt
      && forall g :: g != h ==> nt !in r.Get(g)
  {
    var g0 := KeyOf(t.status).value;
    var mid := Remove(gs, t).value;
    assert forall g :: nt !in mid.Get(g) by {
      assert mid == gs.Set(g0, RemoveFirst(gs.Get(g0), t));
      RemoveFirstAbsent(gs.Get(g0), t, nt);
    }
    var r := mid.Set(h, mid.Get(h) + [nt]);
    assert Update(gs, t, nt) == Success(r);
    assert Total(r) == Total(gs) by {
      UpdateCount(gs, t, nt);
    }
    CountAppended(mid, h, nt);
  }

  /**
   * Changing only the description or the priority of a task whose status
   * is exactly its group's key moves the task to the last position of that
   * same group, after the others in their old order.
   */
  lemma UpdateSameStatus(gs: Groups, t: Task, nt: Task, g: Group)
    requires t.status == Name(g) && t in gs.Get(g)
    requires nt.status == t.status
    ensures Update(gs, t, nt) == Success(gs.Set(g, RemoveFirst(gs.Get(g), t) + [nt]))
  {
    KeyOfName(g);
    GroupOfName(g);
    var mid := gs.Set(g, RemoveFirst(gs.Get(g), t));
    assert Remove(gs, t) == Success(mid);
    AddRouted(mid, nt, g);
    SetTwice(gs, g, RemoveFirst(gs.Get(g), t), RemoveFirst(gs.Get(g), t) + [nt]);
  }

  /** Updating keeps every task in its own group, when the replacement is new. */
  lemma UpdateKeeps(gs: Groups, t: Task, nt: Task, n: nat)
    requires Coherent(gs) && IdsBelow(gs, n) && nt.id < n
    ensures Update(gs, t, nt).Success? ==> Coherent(Update(gs, t, nt).value) && IdsBelow(Update(gs, t, nt).value, n)
  {
    RemoveKeeps(gs, t, n);
    if Remove(gs, t).Success? {
      AddKeeps(Remove(gs, t).value, nt, n);
    }
  }

  /** Python's reading of index `i` into a list of length `n`: a negative index counts from the end. */
  function PyIndex(n: nat, i: int): Option<nat> {
    if 0 <= i < n then Some(i)
    else if -(n as int) <= i < 0 then Some(n + i)
    else None
  }

  /** `tasks_dict[key][num - 1]`, the task a user's 1-based number selects. */
  function Select(gs: Groups, key: string, num: int): Result<Task, Error> {
    match KeyOf(key)
    case None => Failure(KeyError)
    case Some(g) =>
      match PyIndex(|gs.Get(g)|, num - 1)
      case None => Failure(IndexError)
      case Some(k) => Success(gs.Get(g)[k])
  }

  /** `tasks_dict[key].pop(num - 1)`. */
  function Pop(gs: Groups, key: string, num: int): Result<Groups, Error> {
    match KeyOf(key)
    case None => Failure(KeyError)
    case Some(g) =>
      match PyIndex(|gs.Get(g)|, num - 1)
      case None => Failure(IndexError)
      case Some(k) => Success(gs.Set(g, gs.Get(g)[..k] + gs.Get(g)[k + 1..]))
  }

  /**
   * The number the user gives selects task `num` of the group for `num` in
   * [1, length]; 0 selects the last task and other numbers down to
   * 1 - length count back from the end; anything outside raises IndexError.
   */
  lemma SelectSpec(gs: Groups, g: Group, num: int)
    ensures 1 <= num <= |gs.Get(g)| ==> Select(gs, Name(g), num) == Success(gs.Get(g)[num - 1])
    ensures num == 0 && |gs.Get(g)| > 0 ==> Select(gs, Name(g), num) == Success(gs.Get(g)[|gs.Get(g)| - 1])
    ensures 1 - |gs.Get(g)| <= num <= 0 ==> Select(gs, Name(g), num) == Success(gs.Get(g)[|gs.Get(g)| + num - 1])
    ensures (num > |gs.Get(g)| || num < 1 - |gs.Get(g)|) ==> Select(gs, Name(g), num) == Failure(IndexError)
  {
  }

  /**
   * Deleting task `num` for `num` in [1, length] removes exactly that task
   * and keeps the rest of the group in order; `num` = 0 removes the last
   * task; a number past the end, or before 1 - length, raises IndexError.
   */
  lemma PopSpec(gs: Groups, g: Group, num: int)
    ensures 1 <= num <= |gs.Get(g)| ==> Pop(gs, Name(g), num) == Success(gs.Set(g, gs.Get(g)[..num - 1] + gs.Get(g)[num..]))
    ensures num == 0 && |gs.Get(g)| > 0 ==> Pop(gs, Name(g), num) == Success(gs.Set(g, gs.Get(g)[..|gs.Get(g)| - 1]))
    ensures (num > |gs.Get(g)| || num < 1 - |gs.Get(g)|) ==> Pop(gs, Name(g), num) == Failure(IndexError)
  {
    var s := gs.Get(g);
    KeyOfName(g);
    if num == 0 && |s| > 0 {
      assert s[..|s| - 1] + s[|s|..] == s[..|s| - 1];
    }
  }

  /**
   * A successful delete takes out one task, the one the same number
   * selects, and changes no other group.
   */
  lemma PopTakesSelected(gs: Groups, key: string, num: int)
    requires Pop(gs, key, num).Success?
    ensures Select(gs, key, num).Success?
    ensures var r := Pop(gs, key, num).value; var g := KeyOf(key).value;
      && Total(r) == Total(gs) - 1
      && (forall h :: h != g ==> r.Get(h) == gs.Get(h))
      && multiset(r.Get(g)) == multiset(gs.Get(g)) - multiset{Select(gs, key, num).value}
  {
    var g := KeyOf(key).value;
    var s := gs.Get(g);
    var k := PyIndex(|s|, num - 1).value;
    var rest := s[..k] + s[k + 1..];
    var r := gs.Set(g, rest);
    assert Pop(gs, key, num).value == r;
    assert Select(gs, key, num).value == s[k];
    DropOneCount(s, k, rest);
    SizesOf(gs);
    SizesOf(r);
  }

  /** Dropping the element at `k` takes one copy of it out of the list and nothing else. */
  lemma DropOneCount(s: seq<Task>, k: nat, r: seq<Task>)
    requires k < |s| && r == s[..k] + s[k + 1..]
    ensures |r| == |s| - 1
    ensures multiset(r) == multiset(s) - multiset{s[k]}
  {
    assert s == s[..k] + [s[k]] + s[k + 1..];
  }

  /** Popping keeps every remaining task in its own group. */
  lemma PopKeeps(gs: Groups, key: string, num: int, n: nat)
    requires Coherent(gs) && IdsBelow(gs, n)
    ensures Pop(gs, key, num).Success? ==> Coherent(Pop(gs, key, num).value) && IdsBelow(Pop(gs, key, num).value, n)
  {
    if Pop(gs, key, num).Success? {
      var g := KeyOf(key).value;
      var s := gs.Get(g);
      var k := PyIndex(|s|, num - 1).value;
      DropOneWithin(s, k, s[..k] + s[k + 1..]);
      SetWithin(gs, g, s[..k] + s[k + 1..]);
      KeepsWithin(gs, Pop(gs, key, num).value, n);
    }
  }

  /**
   * `Task.tasks_dict` together with the allocation of task objects: the
   * dictionary is updated in place, and `nextId` is the identity the next
   * task object gets.
   */
  class TaskStore {
    var groups: Groups
    var nextId: nat

    ghost predicate Valid()
      reads this
    {
      Coherent(groups) && IdsBelow(groups, nextId)
    }

    /** The dictionary as the class defines it, with three empty lists. */
    constructor ()
      ensures Valid()
      ensures groups == EmptyGroups() && nextId == 0
    {
      groups := EmptyGroups();
      nextId := 0;
    }

    /** `Task(desc, status, priority)`: a new task object, distinct from every earlier one. */
    method NewTask(desc: string, status: string, priority: string) returns (t: Task)
      requires Valid()
      modifies this
      ensures Valid()
      ensures t == Task(old(nextId), desc, status, priority)
      ensures groups == old(groups) && nextId == old(nextId) + 1
    {
      t := Task(nextId, desc, status, priority);
      nextId := nextId + 1;
    }

    /** `task.add_task()` for a task object that has been created. */
    method AddTask(t: Task)
      requires Valid() && t.id < nextId
      modifies this
      ensures Valid() && nextId == old(nextId)
      ensures groups == Add(old(groups), t)
    {
      AddKeeps(groups, t, nextId);
      var status := Lower(t.status);
      if status == "backlog" {
        groups := groups.Set(Backlog, groups.Get(Backlog) + [t]);
      } else if status == "ongoing" {
        groups := groups.Set(Ongoing, groups.Get(Ongoing) + [t]);
      } else if status == "done" {
        groups := groups.Set(Done, groups.Get(Done) + [t]);
      }
    }

    /** `task.remove_task()`; on an exception the dictionary is unchanged. */
    method RemoveTask(t: Task) returns (r: Outcome<Error>)
      requires Valid()
      modifies this
      ensures Valid() && nextId == old(nextId)
      ensures match Remove(old(groups), t)
        case Success(gs) => r == Pass && groups == gs
        case Failure(e) => r == Fail(e) && groups == old(groups)
    {
      RemoveKeeps(groups, t, nextId);
      var key := KeyOf(t.status);
      if key.None? {
        return Fail(KeyError);
      }
      var g := key.value;
      if t !in groups.Get(g) {
        return Fail(ValueError);
      }
      groups := groups.Set(g, RemoveFirst(groups.Get(g), t));
      r := Pass;
    }

    /**
     * `task.update_task(newDesc, newStatus, newPriority)`: build the
     * replacement, remove `t` (an exception ends the update), then append the
     * replacement to the group `newStatus` routes to.
     */
    method UpdateTask(t: Task, newDesc: string, newStatus: string, newPriority: string) returns (r: Outcome<Error>)
      requires Valid()
      modifies this
      ensures Valid() && nextId == old(nextId) + 1
      ensures match Update(old(groups), t, Task(old(nextId), newDesc, newStatus, newPriority))
        case Success(gs) => r == Pass && groups == gs
        case Failure(e) => r == Fail(e) && groups == old(groups)
    {
      var nt := NewTask(newDesc, newStatus, newPriority);
      r := RemoveTask(t);
      if r.Pass? {
        AddTask(nt);
      }
    }
  }
}
