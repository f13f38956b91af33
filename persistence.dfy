/**
 * `write_list_to_file` and `load_list_from_file`: the task file is one line
 * `desc,status,priority` per task. The file's text is a string here; opening
 * the file is left to the caller.
 */
module Persistence {
  import opened Wrappers
  import opened Text
  import opened Tasks
  import opened Store

  /** The record written for a task, without its newline. */
  function Record(t: Task): string {
    t.desc + "," + t.status + "," + t.priority
  }

  /** The text written for a list of tasks: each record and a newline, in list order. */
  function Lines(ts: seq<Task>): string
    decreases |ts|
  {
    if ts == [] then "" else Record(ts[0]) + "\n" + Lines(ts[1..])
  }

  /** The text written for the groups `cats` of `gs`, in that order. */
  function LinesOfGroups(gs: Groups, cats: seq<Group>): string
    decreases |cats|
  {
    if cats == [] then "" else LinesOfGroups(gs, cats[..|cats| - 1]) + Lines(gs.Get(cats[|cats| - 1]))
  }

  /** The whole file `write_list_to_file` writes: the groups in dictionary order. */
  function Serialize(gs: Groups): string {
    LinesOfGroups(gs, Order)
  }

  lemma {:induction false} LinesAppend(a: seq<Task>, b: seq<Task>)
    ensures Lines(a + b) == Lines(a) + Lines(b)
    decreases |a|
  {
    if a != [] {
      var ab, head := a + b, Record(a[0]) + "\n";
      assert ab[0] == a[0] && ab[1..] == a[1..] + b;
      LinesAppend(a[1..], b);
      assert Lines(ab) == head + Lines(a[1..] + b);
      assert Lines(a) == head + Lines(a[1..]);
      Assoc(head, Lines(a[1..]), Lines(b));
    } else {
      assert a + b == b;
    }
  }

  /** The file holds the record of every task of the store, Backlog first, then Ongoing, then Done. */
  lemma SerializeAll(gs: Groups)
    ensures Serialize(gs) == Lines(gs.backlog) + Lines(gs.ongoing) + Lines(gs.done)
    ensures Serialize(gs) == Lines(All(gs))
  {
    var bo: seq<Group> := [Backlog, Ongoing];
    assert Order[..|Order| - 1] == bo && Order[|Order| - 1] == Done;
    assert bo[..1] == [Backlog];
    assert [Backlog][..0] == [];
    assert LinesOfGroups(gs, [Backlog]) == Lines(gs.backlog);
    assert LinesOfGroups(gs, bo) == Lines(gs.backlog) + Lines(gs.ongoing);
    LinesAppend(gs.backlog, gs.ongoing);
    LinesAppend(gs.backlog + gs.ongoing, gs.done);
  }

  /**
   * `write_list_to_file`: for each group in dictionary order, for each of
   * its tasks in list order, write the task's record and a newline.
   */
  method WriteList(store: TaskStore) returns (content: string)
    ensures content == Serialize(store.groups)
  {
    content := "";
    var c := 0;
    while c < |Order|
      invariant 0 <= c <= |Order|
      invariant content == LinesOfGroups(store.groups, Order[..c])
    {
      var category := Order[c];
      var tasks := store.groups.Get(category);
      ghost var before := content;
      var i := 0;
      while i < |tasks|
        invariant 0 <= i <= |tasks|
        invariant content == before + Lines(tasks[..i])
      {
        var task := tasks[i];
        var line := task.desc + "," + task.status + "," + task.priority + "\n";
        LinesSnoc(before, tasks, i, line);
        content := content + line;
        i := i + 1;
      }
      assert tasks[..i] == tasks;
      GroupsSnoc(store.groups, c);
      c := c + 1;
    }
    assert Order[..c] == Order;
  }

  /** One more record written after the records of a prefix of a list. */
  lemma LinesSnoc(before: string, ts: seq<Task>, i: nat, line: string)
    requires i < |ts| && line == Record(ts[i]) + "\n"
    ensures before + Lines(ts[..i]) + line == before + Lines(ts[..i + 1])
  {
    LinesOne(ts, i, line);
    Assoc(before, Lines(ts[..i]), line);
  }

  lemma LinesOne(ts: seq<Task>, i: nat, line: string)
    requires i < |ts| && line == Record(ts[i]) + "\n"
    ensures Lines(ts[..i]) + line == Lines(ts[..i + 1])
  {
    assert Lines([ts[i]]) == line;
    LinesAppend(ts[..i], [ts[i]]);
    assert ts[..i + 1] == ts[..i] + [ts[i]];
  }

  /** Concatenation regrouped, stated on its own so the loop step's proof stays small. */
  lemma Assoc(a: string, b: string, c: string)
    ensures a + b + c == a + (b + c)
  {
  }

  /** One more group at the end of a prefix of the dictionary order. */
  lemma GroupsSnoc(gs: Groups, c: nat)
    requires c < |Order|
    ensures LinesOfGroups(gs, Order[..c + 1]) == LinesOfGroups(gs, Order[..c]) + Lines(gs.Get(Order[c]))
  {
    var cats := Order[..c + 1];
    assert cats != [] && |cats| - 1 == c;
    assert cats[..|cats| - 1] == Order[..c];
    assert cats[|cats| - 1] == Order[c];
  }

  /** The lines a text consists of, each as `readline()` returns it. */
  function SplitLines(s: string): seq<string>
    decreases |s|
  {
    if s == [] then [] else [ReadLine(s).0] + SplitLines(ReadLine(s).1)
  }

  /** The lines written for `ts`: one record and newline per task. */
  function RecordLines(ts: seq<Task>): seq<string> {
    seq(|ts|, i requires 0 <= i < |ts| => Record(ts[i]) + "\n")
  }

  /**
   * A task none of whose fields holds a line end. Reading in text mode
   * ends a line at "\r" as well as at "\n", so neither may occur.
   */
  predicate OneLine(t: Task) {
    && '\n' !in t.desc && '\n' !in t.status && '\n' !in t.priority
    && '\r' !in t.desc && '\r' !in t.status && '\r' !in t.priority
  }

  lemma {:induction false} SplitLinesOfLines(ts: seq<Task>)
    requires forall i :: 0 <= i < |ts| ==> OneLine(ts[i])
    ensures SplitLines(Lines(ts)) == RecordLines(ts)
    decreases |ts|
  {
    if ts != [] {
      var line, rest := Record(ts[0]) + "\n", Lines(ts[1..]);
      RecordOneLine(ts[0]);
      assert Lines(ts) == Record(ts[0]) + "\n" + rest;
      ReadLineOf(Record(ts[0]), rest);
      assert SplitLines(Lines(ts)) == [line] + SplitLines(rest);
      SplitLinesOfLines(ts[1..]);
      RecordLinesCons(ts);
    }
  }

  lemma RecordLinesCons(ts: seq<Task>)
    requires ts != []
    ensures RecordLines(ts) == [Record(ts[0]) + "\n"] + RecordLines(ts[1..])
  {
    var r := [Record(ts[0]) + "\n"] + RecordLines(ts[1..]);
    forall i | 0 <= i < |ts| ensures RecordLines(ts)[i] == r[i] {
      if i > 0 {
        assert ts[1..][i - 1] == ts[i];
      }
    }
  }

  /**
   * The file consists of exactly one line per task, each line its record,
   * in the order Backlog, Ongoing, Done; so the number of lines is the
   * number of tasks, when no field holds a newline.
   */
  lemma WriteLines(gs: Groups)
    requires forall i :: 0 <= i < |All(gs)| ==> OneLine(All(gs)[i])
    ensures SplitLines(Serialize(gs)) == RecordLines(All(gs))
    ensures |SplitLines(Serialize(gs))| == Total(gs)
  {
    SerializeAll(gs);
    SplitLinesOfLines(All(gs));
  }

  /**
   * One line as the loader reads it: stripped and split on ",", fields 0, 1
   * and 2 as description, status and priority; None where indexing the
   * fields raises IndexError.
   */
  function ParseLine(line: string): Option<(string, string, string)> {
    var fields := Split(Strip(line), ',');
    if |fields| < 3 then None else Some((fields[0], fields[1], fields[2]))
  }

  /**
   * `load_list_from_file` on a file whose text is `content`, starting from
   * the dictionary `gs` with `next` task objects created so far: read line
   * after line, make a task of each and add it as `add_task` would; the
   * first line that raises IndexError ends the loading.
   */
  function LoadFrom(gs: Groups, next: nat, content: string): (Groups, nat)
    decreases |content|
  {
    if content == [] then (gs, next)
    else
      var line := ReadLine(content);
      match ParseLine(line.0)
      case None => (gs, next)
      case Some(f) => LoadFrom(Add(gs, Task(next, f.0, f.1, f.2)), next + 1, line.1)
  }

  /** A line that reads as fields `f` adds one new task with those fields, and loading goes on after it. */
  lemma LoadLine(gs: Groups, n: nat, x: string, rest: string, f: (string, string, string))
    requires '\n' !in x && ParseLine(x + "\n") == Some(f)
    ensures LoadFrom(gs, n, x + "\n" + rest) == LoadFrom(Add(gs, Task(n, f.0, f.1, f.2)), n + 1, rest)
  {
    ReadLineOf(x, rest);
  }

  /**
   * `load_list_from_file`: the `readline()` loop over the file's text, each
   * line's task appended to the group its status routes to.
   */
  method LoadList(store: TaskStore, content: string)
    requires store.Valid()
    modifies store
    ensures store.Valid()
    ensures (store.groups, store.nextId) == LoadFrom(old(store.groups), old(store.nextId), content)
  {
    var line, remaining := ReadLine(content).0, ReadLine(content).1;
    while line != []
      invariant store.Valid()
      invariant ReadLine(line + remaining) == (line, remaining)
      invariant LoadFrom(store.groups, store.nextId, line + remaining) == LoadFrom(old(store.groups), old(store.nextId), content)
      decreases |line| + |remaining|
    {
      ghost var before, n := store.groups, store.nextId;
      var fields := ParseLine(line);
      if fields.None? {
        LoadStops(before, n, line, remaining);
        return;
      }
      var task := store.NewTask(fields.value.0, fields.value.1, fields.value.2);
      store.AddTask(task);
      LoadAdvance(before, n, line, remaining, store.groups);
      line, remaining := ReadLine(remaining).0, ReadLine(remaining).1;
    }
    assert line + remaining == [];
  }

  /** A line the loader cannot read ends the loading with the store as it is. */
  lemma LoadStops(gs: Groups, n: nat, line: string, remaining: string)
    requires line != [] && ReadLine(line + remaining) == (line, remaining)
    requires ParseLine(line).None?
    ensures LoadFrom(gs, n, line + remaining) == (gs, n)
  {
  }

  /** A line the loader reads adds its task as the next object, and loading goes on after it. */
  lemma LoadAdvance(gs: Groups, n: nat, line: string, remaining: string, r: Groups)
    requires line != [] && ReadLine(line + remaining) == (line, remaining)
    requires ParseLine(line).Some?
    requires var f := ParseLine(line).value; r == Add(gs, Task(n, f.0, f.1, f.2))
    ensures LoadFrom(gs, n, line + remaining) == LoadFrom(r, n + 1, remaining)
  {
  }

  /** Loading keeps every task in its own group, and every task it makes is a new object. */
  lemma {:induction false} LoadKeeps(gs: Groups, next: nat, content: string)
    requires Coherent(gs) && IdsBelow(gs, next)
    ensures next <= LoadFrom(gs, next, content).1
    ensures Coherent(LoadFrom(gs, next, content).0)
    ensures IdsBelow(LoadFrom(gs, next, content).0, LoadFrom(gs, next, content).1)
    decreases |content|
  {
    if content != [] {
      var line, rest := ReadLine(content).0, ReadLine(content).1;
      match ParseLine(line)
      case None =>
      case Some((desc, status, priority)) =>
        var t := Task(next, desc, status, priority);
        assert LoadFrom(gs, next, content) == LoadFrom(Add(gs, t), next + 1, rest);
        AddKeeps(gs, t, next + 1);
        LoadKeeps(Add(gs, t), next + 1, rest);
    }
  }

  /** Loading only appends: every group keeps its old tasks, in front and in order. */
  lemma {:induction false} LoadExtends(gs: Groups, next: nat, content: string)
    ensures Extends(gs, LoadFrom(gs, next, content).0)
    decreases |content|
  {
    if content != [] {
      var line, rest := ReadLine(content).0, ReadLine(content).1;
      match ParseLine(line)
      case None =>
      case Some((desc, status, priority)) =>
        var t := Task(next, desc, status, priority);
        assert LoadFrom(gs, next, content) == LoadFrom(Add(gs, t), next + 1, rest);
        LoadExtends(Add(gs, t), next + 1, rest);
        AddExtends(gs, t);
        ExtendsTrans(gs, Add(gs, t), LoadFrom(Add(gs, t), next + 1, rest).0);
    }
  }

  /** Every group of `r` starts with the tasks of that group in `gs`. */
  ghost predicate Extends(gs: Groups, r: Groups) {
    gs.backlog <= r.backlog && gs.ongoing <= r.ongoing && gs.done <= r.done
  }

  lemma AddExtends(gs: Groups, t: Task)
    ensures Extends(gs, Add(gs, t))
  {
    match GroupOf(t.status)
    case None =>
    case Some(g) =>
      assert gs.Get(g) <= gs.Get(g) + [t];
  }

  lemma ExtendsTrans(a: Groups, b: Groups, c: Groups)
    requires Extends(a, b) && Extends(b, c)
    ensures Extends(a, c)
  {
  }

  /** The tasks `ts` added one after another, as the loader adds them. */
  function AddAll(gs: Groups, ts: seq<Task>): Groups
    decreases |ts|
  {
    if ts == [] then gs else AddAll(Add(gs, ts[0]), ts[1..])
  }

  /** `ts` as task objects made afresh, with the identities `n`, `n + 1`, … */
  function Renumber(ts: seq<Task>, n: nat): seq<Task> {
    seq(|ts|, i requires 0 <= i < |ts| => ts[i].(id := n + i))
  }

  /** What a task holds apart from its identity. */
  function Fields(ts: seq<Task>): seq<(string, string, string)> {
    seq(|ts|, i requires 0 <= i < |ts| => (ts[i].desc, ts[i].status, ts[i].priority))
  }

  lemma RenumberFields(ts: seq<Task>, n: nat)
    ensures Fields(Renumber(ts, n)) == Fields(ts)
  {
    forall i | 0 <= i < |ts| ensures Fields(Renumber(ts, n))[i] == Fields(ts)[i] {
      assert Renumber(ts, n)[i] == ts[i].(id := n + i);
    }
  }

  /** Tasks that all route to `g` are added at the end of `g`, in order. */
  lemma {:induction false} AddAllToGroup(gs: Groups, ts: seq<Task>, g: Group)
    requires forall i :: 0 <= i < |ts| ==> GroupOf(ts[i].status) == Some(g)
    ensures AddAll(gs, ts) == gs.Set(g, gs.Get(g) + ts)
    decreases |ts|
  {
    if ts == [] {
      assert gs.Get(g) + ts == gs.Get(g);
      GroupsEq(gs, gs.Set(g, gs.Get(g)));
    } else {
      var next := gs.Set(g, gs.Get(g) + [ts[0]]);
      RoutedTail(ts, g);
      AddAllToGroup(next, ts[1..], g);
      AddAllHead(gs, ts, g);
      SetAppendStep(gs, ts, g);
    }
  }

  /** Adding the first task of a list that routes to `g` appends it to `g`. */
  lemma AddAllHead(gs: Groups, ts: seq<Task>, g: Group)
    requires ts != [] && GroupOf(ts[0].status) == Some(g)
    ensures AddAll(gs, ts) == AddAll(gs.Set(g, gs.Get(g) + [ts[0]]), ts[1..])
  {
    AddRouted(gs, ts[0], g);
  }

  /** Appending the first task, then the rest, to the list of `g` appends the whole list. */
  lemma SetAppendStep(gs: Groups, ts: seq<Task>, g: Group)
    requires ts != []
    ensures gs.Set(g, gs.Get(g) + [ts[0]]).Set(g, gs.Set(g, gs.Get(g) + [ts[0]]).Get(g) + ts[1..])
         == gs.Set(g, gs.Get(g) + ts)
  {
    var whole := gs.Get(g) + ts;
    var next := gs.Set(g, gs.Get(g) + [ts[0]]);
    assert next.Get(g) + ts[1..] == whole by {
      assert ts == [ts[0]] + ts[1..];
    }
    SetTwice(gs, g, gs.Get(g) + [ts[0]], whole);
  }

  lemma RoutedTail(ts: seq<Task>, g: Group)
    requires ts != []
    requires forall i :: 0 <= i < |ts| ==> GroupOf(ts[i].status) == Some(g)
    ensures forall i :: 0 <= i < |ts[1..]| ==> GroupOf(ts[1..][i].status) == Some(g)
  {
    assert forall i :: 0 <= i < |ts[1..]| ==> ts[1..][i] == ts[i + 1];
  }

  /**
   * A task whose record reads back as itself: no field holds a comma or a
   * newline, the description does not start with white space and the
   * priority does not end with it (the loader strips each line).
   */
  predicate Clean(t: Task) {
    && ',' !in t.desc && ',' !in t.status && ',' !in t.priority
    && OneLine(t)
    && (t.desc == [] || !IsSpace(t.desc[0]))
    && (t.priority == [] || !IsSpace(t.priority[|t.priority| - 1]))
  }

  /**
   * A line holding at least three comma-separated fields, the outer ones
   * free of white space at the line's ends, is read as its first three
   * fields: the status exactly as written, any further fields ignored.
   */
  lemma ParseFields(desc: string, status: string, priority: string, extra: seq<string>)
    requires ',' !in desc && ',' !in status && ',' !in priority
    requires forall i :: 0 <= i < |extra| ==> ',' !in extra[i]
    requires var x := Join([desc, status, priority] + extra, ','); !IsSpace(x[0]) && !IsSpace(x[|x| - 1])
    ensures ParseLine(Join([desc, status, priority] + extra, ',') + "\n") == Some((desc, status, priority))
  {
    var parts := [desc, status, priority] + extra;
    var x := Join(parts, ',');
    StripSpaceSuffix(x, '\n');
    StripUntrimmed(x);
    SplitJoin(parts, ',');
  }

  lemma JoinRecord(t: Task)
    ensures Join([t.desc, t.status, t.priority] + [], ',') == Record(t)
  {
    var parts := [t.desc, t.status, t.priority];
    assert parts + [] == parts;
    assert parts[1..][1..] == [t.priority];
    assert Join(parts[1..], ',') == t.status + [','] + t.priority;
    assert Join(parts, ',') == t.desc + [','] + (t.status + [','] + t.priority);
  }

  /** The record of a clean task, with its newline, is read back as the task's three fields. */
  lemma ParseRecord(t: Task)
    requires Clean(t)
    ensures ParseLine(Record(t) + "\n") == Some((t.desc, t.status, t.priority))
  {
    JoinRecord(t);
    var x := Record(t);
    assert x[0] == if t.desc == [] then ',' else t.desc[0];
    assert x[|x| - 1] == if t.priority == [] then ',' else t.priority[|t.priority| - 1];
    ParseFields(t.desc, t.status, t.priority, []);
  }

  /**
   * Loading the records of clean tasks adds them, as new objects, one after
   * another; `m` is the count of task objects made when they are read.
   */
  lemma {:induction false} LoadLinesThen(gs: Groups, n: nat, ts: seq<Task>, more: string, m: nat)
    requires forall i :: 0 <= i < |ts| ==> Clean(ts[i])
    requires m == n + |ts|
    ensures LoadFrom(gs, n, Lines(ts) + more) == LoadFrom(AddAll(gs, Renumber(ts, n)), m, more)
    decreases |ts|
  {
    if ts == [] {
      assert Lines(ts) + more == more;
      assert AddAll(gs, Renumber(ts, n)) == gs;
    } else {
      var first := ts[0].(id := n);
      LoadLinesCons(gs, n, ts, more);
      LoadLinesThen(Add(gs, first), n + 1, ts[1..], more, m);
      AddAllCons(gs, ts, n);
      Link(LoadFrom(gs, n, Lines(ts) + more),
           LoadFrom(Add(gs, first), n + 1, Lines(ts[1..]) + more),
           LoadFrom(AddAll(Add(gs, first), Renumber(ts[1..], n + 1)), m, more),
           LoadFrom(AddAll(gs, Renumber(ts, n)), m, more));
    }
  }

  /** A chain of three equalities, stated on its own so the solver does not unfold `LoadFrom` along it. */
  lemma Link(a: (Groups, nat), b: (Groups, nat), c: (Groups, nat), d: (Groups, nat))
    requires a == b
    requires b == c
    requires c == d
    ensures a == d
  {
  }

  /** Equal stores load alike, stated on its own so the solver does not unfold `LoadFrom` to see it. */
  lemma LoadCong(a: Groups, b: Groups, n: nat, content: string)
    requires a == b
    ensures LoadFrom(a, n, content) == LoadFrom(b, n, content)
  {
  }

  lemma LoadLinesCons(gs: Groups, n: nat, ts: seq<Task>, more: string)
    requires ts != [] && Clean(ts[0])
    ensures LoadFrom(gs, n, Lines(ts) + more) == LoadFrom(Add(gs, ts[0].(id := n)), n + 1, Lines(ts[1..]) + more)
  {
    var t := ts[0];
    var rest := Lines(ts[1..]) + more;
    assert Lines(ts) + more == Record(t) + "\n" + rest;
    RecordOneLine(t);
    ParseRecord(t);
    LoadLine(gs, n, Record(t), rest, (t.desc, t.status, t.priority));
    assert Task(n, t.desc, t.status, t.priority) == t.(id := n);
  }

  lemma AddAllCons(gs: Groups, ts: seq<Task>, n: nat)
    requires ts != []
    ensures AddAll(gs, Renumber(ts, n)) == AddAll(Add(gs, ts[0].(id := n)), Renumber(ts[1..], n + 1))
  {
    var renumbered := Renumber(ts, n);
    assert renumbered[0] == ts[0].(id := n) && renumbered[1..] == Renumber(ts[1..], n + 1);
  }

  lemma RecordOneLine(t: Task)
    requires OneLine(t)
    ensures '\n' !in Record(t) && '\r' !in Record(t)
  {
  }

  /** Every character of a status that routes to a group is a letter, so it holds no comma and no line end. */
  lemma RoutedStatusIsWord(s: string)
    requires GroupOf(s).Some?
    ensures ',' !in s && '\n' !in s && '\r' !in s
  {
    var w := Lower(s);
    assert w == "backlog" || w == "ongoing" || w == "done";
    forall i | 0 <= i < |s| ensures s[i] != ',' && s[i] != '\n' && s[i] != '\r' {
      assert w[i] == LowerChar(s[i]);
    }
  }

  /**
   * A field condition on description and priority that saving and loading
   * keep: no comma, no line end ("\n", or "\r", at which text-mode reading
   * also ends a line), and no white space where the loader strips it.
   */
  predicate Storable(t: Task) {
    && ',' !in t.desc && ',' !in t.priority
    && '\n' !in t.desc && '\n' !in t.priority
    && '\r' !in t.desc && '\r' !in t.priority
    && (t.desc == [] || !IsSpace(t.desc[0]))
    && (t.priority == [] || !IsSpace(t.priority[|t.priority| - 1]))
  }

  /** In a coherent store, the tasks of a group whose fields are storable are clean and route to that group. */
  lemma GroupClean(gs: Groups, g: Group)
    requires Coherent(gs)
    requires forall i :: 0 <= i < |gs.Get(g)| ==> Storable(gs.Get(g)[i])
    ensures forall i :: 0 <= i < |gs.Get(g)| ==> Clean(gs.Get(g)[i])
    ensures forall i :: 0 <= i < |gs.Get(g)| ==> GroupOf(gs.Get(g)[i].status) == Some(g)
  {
    forall i | 0 <= i < |gs.Get(g)| ensures Clean(gs.Get(g)[i]) {
      RoutedStatusIsWord(gs.Get(g)[i].status);
    }
  }

  /** Loading the records of tasks of group `g` into `acc` appends them, renumbered, to `acc`'s group `g`. */
  lemma {:induction false} LoadGroup(acc: Groups, n: nat, ts: seq<Task>, g: Group, more: string, r: Groups, m: nat)
    requires forall i :: 0 <= i < |ts| ==> Clean(ts[i])
    requires forall i :: 0 <= i < |ts| ==> GroupOf(ts[i].status) == Some(g)
    requires r == acc.Set(g, acc.Get(g) + Renumber(ts, n)) && m == n + |ts|
    ensures LoadFrom(acc, n, Lines(ts) + more) == LoadFrom(r, m, more)
  {
    assert AddAll(acc, Renumber(ts, n)) == r by {
      assert forall i :: 0 <= i < |ts| ==> Renumber(ts, n)[i].status == ts[i].status;
      AddAllToGroup(acc, Renumber(ts, n), g);
    }
    LoadLinesThen(acc, n, ts, more, m);
    LoadCong(AddAll(acc, Renumber(ts, n)), r, m, more);
  }

  /** Filling the empty groups one at a time, in the order they are written. */
  lemma FillBacklog(r: seq<Task>)
    ensures EmptyGroups().Set(Backlog, EmptyGroups().Get(Backlog) + r) == Groups(r, [], [])
  {
    assert [] + r == r;
  }

  lemma FillOngoing(x: seq<Task>, r: seq<Task>)
    ensures Groups(x, [], []).Set(Ongoing, Groups(x, [], []).Get(Ongoing) + r) == Groups(x, r, [])
  {
    assert [] + r == r;
  }

  lemma FillDone(x: seq<Task>, y: seq<Task>, r: seq<Task>)
    ensures Groups(x, y, []).Set(Done, Groups(x, y, []).Get(Done) + r) == Groups(x, y, r)
  {
    assert [] + r == r;
  }

  /**
   * The round trip for three lists of clean tasks, each routing to its own
   * group; `n1`, `n2` and `n3` are the counter after each group.
   */
  lemma {:induction false} LoadSaved(b: seq<Task>, o: seq<Task>, d: seq<Task>, n: nat, n1: nat, n2: nat, n3: nat)
    requires forall i :: 0 <= i < |b| ==> Clean(b[i]) && GroupOf(b[i].status) == Some(Backlog)
    requires forall i :: 0 <= i < |o| ==> Clean(o[i]) && GroupOf(o[i].status) == Some(Ongoing)
    requires forall i :: 0 <= i < |d| ==> Clean(d[i]) && GroupOf(d[i].status) == Some(Done)
    requires n1 == n + |b| && n2 == n1 + |o| && n3 == n2 + |d|
    ensures LoadFrom(EmptyGroups(), n, Lines(b) + (Lines(o) + (Lines(d) + "")))
         == (Groups(Renumber(b, n), Renumber(o, n1), Renumber(d, n2)), n3)
  {
    FillBacklog(Renumber(b, n));
    FillOngoing(Renumber(b, n), Renumber(o, n1));
    FillDone(Renumber(b, n), Renumber(o, n1), Renumber(d, n2));
    LoadGroup(EmptyGroups(), n, b, Backlog, Lines(o) + (Lines(d) + ""), Groups(Renumber(b, n), [], []), n1);
    LoadGroup(Groups(Renumber(b, n), [], []), n1, o, Ongoing, Lines(d) + "",
      Groups(Renumber(b, n), Renumber(o, n1), []), n2);
    LoadGroup(Groups(Renumber(b, n), Renumber(o, n1), []), n2, d, Done, "",
      Groups(Renumber(b, n), Renumber(o, n1), Renumber(d, n2)), n3);
  }

  /**
   * Saving the store and loading the file into an empty store gives every
   * group back in order, field for field, as new task objects. This holds
   * when every task sits in its own group and no description or priority
   * holds a comma, "\n" or "\r", starts (description) or ends (priority)
   * with white space.
   */
  lemma {:induction false} RoundTrip(gs: Groups, n: nat)
    requires Coherent(gs)
    requires forall g, i :: 0 <= i < |gs.Get(g)| ==> Storable(gs.Get(g)[i])
    ensures LoadFrom(EmptyGroups(), n, Serialize(gs)).1 == n + Total(gs)
    ensures forall g :: Fields(LoadFrom(EmptyGroups(), n, Serialize(gs)).0.Get(g)) == Fields(gs.Get(g))
  {
    var b, o, d := gs.backlog, gs.ongoing, gs.done;
    var n1, n2, n3 := n + |b|, n + |b| + |o|, n + |b| + |o| + |d|;
    LoadSerialized(gs, n, n1, n2, n3);
    SizesOf(gs);
    var r := LoadFrom(EmptyGroups(), n, Serialize(gs)).0;
    RenumberFields(b, n);
    RenumberFields(o, n1);
    RenumberFields(d, n2);
    forall g ensures Fields(r.Get(g)) == Fields(gs.Get(g)) {
      match g
      case Backlog => assert r.Get(g) == Renumber(b, n);
      case Ongoing => assert r.Get(g) == Renumber(o, n1);
      case Done => assert r.Get(g) == Renumber(d, n2);
    }
  }

  /** What loading the saved file gives, group by group, with the counter after each group. */
  lemma LoadSerialized(gs: Groups, n: nat, n1: nat, n2: nat, n3: nat)
    requires Coherent(gs)
    requires forall g, i :: 0 <= i < |gs.Get(g)| ==> Storable(gs.Get(g)[i])
    requires n1 == n + |gs.backlog| && n2 == n1 + |gs.ongoing| && n3 == n2 + |gs.done|
    ensures LoadFrom(EmptyGroups(), n, Serialize(gs))
         == (Groups(Renumber(gs.backlog, n), Renumber(gs.ongoing, n1), Renumber(gs.done, n2)), n3)
  {
    SerializeNested(gs);
    SavedClean(gs);
    LoadSaved(gs.backlog, gs.ongoing, gs.done, n, n1, n2, n3);
  }

  /** The saved text, grouped the way the loader reads it: one group's lines, then the rest. */
  lemma SerializeNested(gs: Groups)
    ensures Serialize(gs) == Lines(gs.backlog) + (Lines(gs.ongoing) + (Lines(gs.done) + ""))
  {
    SerializeAll(gs);
    Nest(Lines(gs.backlog), Lines(gs.ongoing), Lines(gs.done));
  }

  /** Three texts concatenated, regrouped to the right; on its own to keep `Serialize` out of it. */
  lemma Nest(b: string, o: string, d: string)
    ensures b + o + d == b + (o + (d + ""))
  {
    assert d + "" == d;
  }

  /** The groups of a coherent store of storable tasks, group by group. */
  lemma SavedClean(gs: Groups)
    requires Coherent(gs)
    requires forall g, i :: 0 <= i < |gs.Get(g)| ==> Storable(gs.Get(g)[i])
    ensures forall i :: 0 <= i < |gs.backlog| ==> Clean(gs.backlog[i]) && GroupOf(gs.backlog[i].status) == Some(Backlog)
    ensures forall i :: 0 <= i < |gs.ongoing| ==> Clean(gs.ongoing[i]) && GroupOf(gs.ongoing[i].status) == Some(Ongoing)
    ensures forall i :: 0 <= i < |gs.done| ==> Clean(gs.done[i]) && GroupOf(gs.done[i].status) == Some(Done)
  {
    assert gs.Get(Backlog) == gs.backlog && gs.Get(Ongoing) == gs.ongoing && gs.Get(Done) == gs.done;
    GroupClean(gs, Backlog);
    GroupClean(gs, Ongoing);
    GroupClean(gs, Done);
  }

  /** An empty file leaves the store as it is. */
  lemma LoadEmpty(gs: Groups, n: nat)
    ensures LoadFrom(gs, n, "") == (gs, n)
  {
  }

  /** A line with no comma at all, such as a blank line, cannot be read as a task. */
  lemma ParseNoComma(line: string)
    requires ',' !in line
    ensures ParseLine(line) == None
  {
    var s := Strip(line);
    assert ',' !in s by {
      assert s == TrimRight(line)[|TrimRight(line)| - |s|..];
      forall i | 0 <= i < |s| ensures s[i] != ',' {
        assert s[i] == line[|TrimRight(line)| - |s| + i];
      }
    }
    SplitAbsent(s, ',');
  }

  /**
   * A line with fewer than three fields (indexing `line_list[1]` or
   * `line_list[2]` raises) ends the loading: the tasks of the lines before
   * it are kept, and nothing after it is read.
   */
  lemma LoadStopsAtBadLine(gs: Groups, n: nat, ts: seq<Task>, bad: string, more: string)
    requires forall i :: 0 <= i < |ts| ==> Clean(ts[i])
    requires '\n' !in bad && ParseLine(bad + "\n").None?
    ensures LoadFrom(gs, n, Lines(ts) + (bad + "\n" + more)).0 == AddAll(gs, Renumber(ts, n))
    ensures LoadFrom(gs, n, Lines(ts) + (bad + "\n" + more)).1 == n + |ts|
  {
    var g, m := AddAll(gs, Renumber(ts, n)), n + |ts|;
    LoadUnreadLine(g, m, bad, more);
    LoadAfterLines(gs, n, ts, bad + "\n" + more, m, (g, m));
  }

  /** When what follows the records of clean tasks loads to `r`, the whole text does. */
  lemma LoadAfterLines(gs: Groups, n: nat, ts: seq<Task>, rest: string, m: nat, r: (Groups, nat))
    requires forall i :: 0 <= i < |ts| ==> Clean(ts[i])
    requires m == n + |ts| && LoadFrom(AddAll(gs, Renumber(ts, n)), m, rest) == r
    ensures LoadFrom(gs, n, Lines(ts) + rest) == r
  {
    LoadLinesThen(gs, n, ts, rest, m);
  }

  /** A line the loader cannot read stops the loading where it is. */
  lemma LoadUnreadLine(gs: Groups, n: nat, bad: string, more: string)
    requires '\n' !in bad && ParseLine(bad + "\n").None?
    ensures LoadFrom(gs, n, bad + "\n" + more) == (gs, n)
  {
    ReadLineOf(bad, more);
    LoadStops(gs, n, bad + "\n", more);
  }

  /** A line of two fields, such as "a,b", is one of those: its third field is missing. */
  lemma TwoFieldsUnread()
    ensures ParseLine("a,b\n").None?
  {
    StripTwo();
    SplitTwo();
  }

  lemma StripTwo()
    ensures Strip("a,b\n") == "a,b"
  {
    assert "a,b\n" == "a,b" + ['\n'];
    StripSpaceSuffix("a,b", '\n');
    StripUntrimmed("a,b");
  }

  lemma SplitTwo()
    ensures Split("a,b", ',') == ["a", "b"]
  {
    assert "a,b" == "a" + [','] + "b";
    SplitAfter("a", ',', "b");
    SplitAbsent("b", ',');
  }

  /** A line with no comma, and so fewer than three fields, stops the loading where it is. */
  lemma LoadBadLine(gs: Groups, n: nat, bad: string, more: string)
    requires ',' !in bad && '\n' !in bad
    ensures LoadFrom(gs, n, bad + "\n" + more) == (gs, n)
  {
    ReadLineOf(bad, more);
    ParseNoComma(bad + "\n");
  }

  /**
   * A line whose status routes to no group is dropped: the store is as
   * before and loading goes on with the next line.
   */
  lemma LoadDropsUnrouted(gs: Groups, n: nat, t: Task, more: string)
    requires Clean(t) && GroupOf(t.status).None?
    ensures LoadFrom(gs, n, Record(t) + "\n" + more) == LoadFrom(gs, n + 1, more)
  {
    ReadLineOf(Record(t), more);
    ParseRecord(t);
  }

  /** The file "Buy milk,Backlog,Low" gives one Backlog task with priority Low. */
  lemma {:induction false} LoadOneTask()
    ensures LoadFrom(EmptyGroups(), 0, "Buy milk,Backlog,Low\n").0 == Groups([Task(0, "Buy milk", "Backlog", "Low")], [], [])
    ensures LoadFrom(EmptyGroups(), 0, "Buy milk,Backlog,Low\n").1 == 1
  {
    var t := Task(0, "Buy milk", "Backlog", "Low");
    var g1 := Groups([t], [], []);
    BuyMilk();
    FillBacklog(Renumber([t], 0));
    LoadGroup(EmptyGroups(), 0, [t], Backlog, "", g1, 1);
    assert LoadFrom(g1, 1, "") == (g1, 1);
  }

  /** The record of the task of that file, and that it is clean. */
  lemma BuyMilk()
    ensures Lines([Task(0, "Buy milk", "Backlog", "Low")]) + "" == "Buy milk,Backlog,Low\n"
    ensures Clean(Task(0, "Buy milk", "Backlog", "Low"))
    ensures GroupOf("Backlog") == Some(Backlog)
    ensures Renumber([Task(0, "Buy milk", "Backlog", "Low")], 0) == [Task(0, "Buy milk", "Backlog", "Low")]
  {
    BuyMilkLine();
    BuyMilkClean();
    GroupOfName(Backlog);
    BuyMilkRenumber();
  }

  lemma BuyMilkLine()
    ensures Lines([Task(0, "Buy milk", "Backlog", "Low")]) + "" == "Buy milk,Backlog,Low\n"
  {
    assert Record(Task(0, "Buy milk", "Backlog", "Low")) == "Buy milk,Backlog,Low";
  }

  lemma BuyMilkClean()
    ensures Clean(Task(0, "Buy milk", "Backlog", "Low"))
  {
  }

  lemma BuyMilkRenumber()
    ensures Renumber([Task(0, "Buy milk", "Backlog", "Low")], 0) == [Task(0, "Buy milk", "Backlog", "Low")]
  {
  }
}
