/**
 * The `Task` class of ToDoList.py as a value: its three text fields, the
 * status groups, the status and priority validators and `__str__`.
 */
module Tasks {
  import opened Wrappers
  import opened Text

  /** The three keys of `Task.tasks_dict`, in the order the dictionary lists them. */
  datatype Group = Backlog | Ongoing | Done

  const Order: seq<Group> := [Backlog, Ongoing, Done]

  /** The dictionary key of a group. */
  function Name(g: Group): string {
    match g
    case Backlog => "Backlog"
    case Ongoing => "Ongoing"
    case Done => "Done"
  }

  const STATUS_LEVELS: seq<string> := ["Backlog", "Ongoing", "Done"]
  const PRIORITY_LEVELS: seq<string> := ["Low", "Med", "High"]

  /**
   * A task object. Python tells two task objects apart by identity even when
   * their fields agree; `id` stands for that identity.
   */
  datatype Task = Task(id: nat, desc: string, status: string, priority: string)

  /** A group's key in lower case, as `add_task` spells it. */
  function LowerName(g: Group): string {
    match g
    case Backlog => "backlog"
    case Ongoing => "ongoing"
    case Done => "done"
  }

  lemma LowerNameIs(g: Group)
    ensures Lower(Name(g)) == LowerName(g)
  {
    match g
    case Backlog => assert Lower("Backlog") == "backlog";
    case Ongoing => assert Lower("Ongoing") == "ongoing";
    case Done => assert Lower("Done") == "done";
  }

  /**
   * The group a status routes to in `add_task`, `update_task` and loading:
   * the one whose key, lower-cased, is the status lower-cased.
   */
  function GroupOf(status: string): (r: Option<Group>)
    ensures r.Some? ==> Lower(status) == LowerName(r.value)
    ensures r.None? ==> forall g :: Lower(status) != LowerName(g)
  {
    var l := Lower(status);
    if l == "backlog" then Some(Backlog)
    else if l == "ongoing" then Some(Ongoing)
    else if l == "done" then Some(Done)
    else None
  }

  /** A status routes to `g` exactly when it equals the name of `g` case-insensitively. */
  lemma GroupOfSpec(status: string, g: Group)
    ensures GroupOf(status) == Some(g) <==> Lower(status) == Lower(Name(g))
  {
    LowerNameIs(g);
  }

  /** The group `tasks_dict[key]` finds: only an exact key names one; any other raises KeyError. */
  function KeyOf(key: string): (r: Option<Group>)
    ensures r.Some? ==> key == Name(r.value)
    ensures r.None? ==> forall g :: key != Name(g)
  {
    if key == "Backlog" then Some(Backlog)
    else if key == "Ongoing" then Some(Ongoing)
    else if key == "Done" then Some(Done)
    else None
  }

  /** The key of a group finds that group. */
  lemma KeyOfName(g: Group)
    ensures KeyOf(Name(g)) == Some(g)
  {
  }

  /** The key of a group, as a status, routes to that group. */
  lemma GroupOfName(g: Group)
    ensures GroupOf(Name(g)) == Some(g)
  {
    GroupOfSpec(Name(g), g);
  }

  /** A key that `tasks_dict` accepts is also a status that routes to the same group. */
  lemma KeyRoutes(key: string)
    ensures KeyOf(key).Some? ==> GroupOf(key) == KeyOf(key)
  {
    if KeyOf(key).Some? {
      GroupOfSpec(key, KeyOf(key).value);
    }
  }

  /**
   * What `status_validator` makes of one input: its `capitalize()` when that
   * is one of STATUS_LEVELS, and None when the validator would ask again.
   */
  function ValidateStatus(input: string): Option<string> {
    var c := Capitalize(input);
    if c in STATUS_LEVELS then Some(c) else None
  }

  /** The same decision in `priority_validator`, over PRIORITY_LEVELS. */
  function ValidatePriority(input: string): Option<string> {
    var c := Capitalize(input);
    if c in PRIORITY_LEVELS then Some(c) else None
  }

  lemma CapitalizeToName(input: string, g: Group)
    ensures Capitalize(input) == Name(g) <==> GroupOf(input) == Some(g)
  {
    assert IsUpperAscii(Name(g)[0]);
    CapitalizeMatches(input, Name(g));
    GroupOfSpec(input, g);
  }

  /**
   * The status validator accepts exactly the inputs that name a group in
   * some mixture of cases, and returns that group's name: "backlog",
   * "BACKLOG" and "bACKLOG" all become "Backlog".
   */
  lemma ValidateStatusSpec(input: string)
    ensures ValidateStatus(input).Some? <==> GroupOf(input).Some?
    ensures forall g :: ValidateStatus(input) == Some(Name(g)) <==> GroupOf(input) == Some(g)
  {
    CapitalizeToName(input, Backlog);
    CapitalizeToName(input, Ongoing);
    CapitalizeToName(input, Done);
    assert STATUS_LEVELS == [Name(Backlog), Name(Ongoing), Name(Done)];
    assert Capitalize(input) in STATUS_LEVELS <==>
      Capitalize(input) == Name(Backlog) || Capitalize(input) == Name(Ongoing) || Capitalize(input) == Name(Done);
  }

  /** What the status validator returns is canonical: it is a key of `tasks_dict` and capitalizing it changes nothing. */
  lemma ValidatedStatusIsKey(input: string)
    ensures ValidateStatus(input).Some? ==>
      && ValidateStatus(input).value in STATUS_LEVELS
      && KeyOf(ValidateStatus(input).value) == GroupOf(input)
      && Capitalize(ValidateStatus(input).value) == ValidateStatus(input).value
  {
    if ValidateStatus(input).Some? {
      ValidateStatusSpec(input);
      var g := GroupOf(input).value;
      assert ValidateStatus(input) == Some(Name(g));
      KeyOfName(g);
      NameIsLevel(g);
    }
  }

  /** The name of a group is a status level and its own capitalization. */
  lemma NameIsLevel(g: Group)
    ensures Name(g) in STATUS_LEVELS
    ensures Capitalize(Name(g)) == Name(g)
  {
    assert STATUS_LEVELS == [Name(Backlog), Name(Ongoing), Name(Done)];
    var w := Name(g);
    assert Lower(w[1..]) == w[1..];
    assert w == [w[0]] + w[1..];
  }

  /**
   * The priority validator accepts exactly "low", "med" and "high" in any
   * mixture of cases and returns the capitalized level.
   */
  lemma ValidatePrioritySpec(input: string)
    ensures ValidatePriority(input).Some? <==>
      Lower(input) == "low" || Lower(input) == "med" || Lower(input) == "high"
    ensures ValidatePriority(input).Some? ==>
      && ValidatePriority(input).value in PRIORITY_LEVELS
      && Lower(ValidatePriority(input).value) == Lower(input)
      && Capitalize(ValidatePriority(input).value) == ValidatePriority(input).value
  {
    assert IsTitleWord("Low") && IsTitleWord("Med") && IsTitleWord("High");
    assert Lower("Low") == "low" && Lower("Med") == "med" && Lower("High") == "high";
    CapitalizeMatches(input, "Low");
    CapitalizeMatches(input, "Med");
    CapitalizeMatches(input, "High");
  }

  /**
   * What a validator ends with when the user's successive answers are
   * `answers` (the first is the argument, the rest what each re-prompt
   * reads): the capitalization of the first answer that is one of
   * `levels`, or None while every answer so far has been refused.
   */
  function Accepted(levels: seq<string>, answers: seq<string>): Option<string>
    decreases |answers|
  {
    if answers == [] then None
    else if Capitalize(answers[0]) in levels then Some(Capitalize(answers[0]))
    else Accepted(levels, answers[1..])
  }

  /** The loop of `status_validator` and `priority_validator`, over the levels it checks against. */
  method Validator(levels: seq<string>, answers: seq<string>) returns (r: Option<string>)
    ensures r == Accepted(levels, answers)
  {
    var k := 0;
    while k < |answers| && Capitalize(answers[k]) !in levels
      invariant 0 <= k <= |answers|
      invariant Accepted(levels, answers) == Accepted(levels, answers[k..])
    {
      assert answers[k..][1..] == answers[k + 1..];
      k := k + 1;
    }
    if k == |answers| {
      return None;
    }
    r := Some(Capitalize(answers[k]));
  }

  /**
   * A validator returns nothing exactly when it refuses every answer;
   * otherwise it returns the capitalization of the first answer it
   * accepts, every earlier answer having been refused.
   */
  lemma {:induction false} AcceptedSpec(levels: seq<string>, answers: seq<string>)
    ensures Accepted(levels, answers).None? <==> forall i :: 0 <= i < |answers| ==> Capitalize(answers[i]) !in levels
    ensures Accepted(levels, answers).Some? ==>
      exists i :: (0 <= i < |answers|
        && Capitalize(answers[i]) in levels
        && Accepted(levels, answers) == Some(Capitalize(answers[i]))
        && forall j :: 0 <= j < i ==> Capitalize(answers[j]) !in levels)
    decreases |answers|
  {
    if answers != [] && Capitalize(answers[0]) !in levels {
      var rest := answers[1..];
      AcceptedSpec(levels, rest);
      assert forall i :: 0 <= i < |rest| ==> rest[i] == answers[i + 1];
      if Accepted(levels, rest).Some? {
        var i :| 0 <= i < |rest| && Capitalize(rest[i]) in levels
          && Accepted(levels, rest) == Some(Capitalize(rest[i]))
          && forall j :: 0 <= j < i ==> Capitalize(rest[j]) !in levels;
        assert forall j :: 0 <= j < i + 1 ==> Capitalize(answers[j]) !in levels by {
          forall j | 0 <= j < i + 1 ensures Capitalize(answers[j]) !in levels {
            if j > 0 { assert answers[j] == rest[j - 1]; }
          }
        }
      } else {
        forall i | 0 <= i < |answers| ensures Capitalize(answers[i]) !in levels {
          if i > 0 { assert answers[i] == rest[i - 1]; }
        }
      }
    }
  }

  /**
   * The status `status_validator` returns is a key of `tasks_dict`, its own
   * capitalization, and routes to the group of the answer it accepted.
   */
  lemma AcceptedStatus(answers: seq<string>)
    ensures Accepted(STATUS_LEVELS, answers).Some? ==>
      var s := Accepted(STATUS_LEVELS, answers).value;
      && KeyOf(s).Some?
      && GroupOf(s) == KeyOf(s)
      && Capitalize(s) == s
      && exists i :: 0 <= i < |answers| && GroupOf(answers[i]) == KeyOf(s)
  {
    AcceptedSpec(STATUS_LEVELS, answers);
    if Accepted(STATUS_LEVELS, answers).Some? {
      var s := Accepted(STATUS_LEVELS, answers).value;
      var i :| 0 <= i < |answers| && Capitalize(answers[i]) in STATUS_LEVELS && Accepted(STATUS_LEVELS, answers) == Some(Capitalize(answers[i]));
      assert ValidateStatus(answers[i]) == Some(s);
      ValidatedStatusIsKey(answers[i]);
      KeyRoutes(s);
    }
  }

  /** The priority `priority_validator` returns is one of PRIORITY_LEVELS and its own capitalization. */
  lemma AcceptedPriority(answers: seq<string>)
    ensures Accepted(PRIORITY_LEVELS, answers).Some? ==>
      var p := Accepted(PRIORITY_LEVELS, answers).value;
      p in PRIORITY_LEVELS && Capitalize(p) == p
  {
    AcceptedSpec(PRIORITY_LEVELS, answers);
    if Accepted(PRIORITY_LEVELS, answers).Some? {
      var i :| 0 <= i < |answers| && Capitalize(answers[i]) in PRIORITY_LEVELS && Accepted(PRIORITY_LEVELS, answers) == Some(Capitalize(answers[i]));
      assert ValidatePriority(answers[i]) == Accepted(PRIORITY_LEVELS, answers);
      ValidatePrioritySpec(answers[i]);
    }
  }

  /** `__str__`: "Task: " and the description left-justified to 25, then " Priority: " and the priority left-justified to 5. */
  function Display(t: Task): string {
    "Task: " + LeftJustify(t.desc, 25) + " Priority: " + LeftJustify(t.priority, 5)
  }

  function Max(a: int, b: int): int { if a < b then b else a }

  /**
   * The display string has a fixed layout and cuts nothing: the full
   * description starts at column 6, and the full priority right after the
   * padded description and " Priority: ".
   */
  lemma DisplayLayout(t: Task)
    ensures var w := Max(25, |t.desc|);
      && |Display(t)| == 6 + w + 11 + Max(5, |t.priority|)
      && Display(t)[..6] == "Task: "
      && Display(t)[6..6 + |t.desc|] == t.desc
      && (forall i :: 6 + |t.desc| <= i < 6 + w ==> Display(t)[i] == ' ')
      && Display(t)[6 + w..6 + w + 11] == " Priority: "
      && Display(t)[6 + w + 11..6 + w + 11 + |t.priority|] == t.priority
  {
    var d := LeftJustify(t.desc, 25);
    var p := LeftJustify(t.priority, 5);
    assert Display(t) == "Task: " + d + " Priority: " + p;
    Pieces("Task: ", d, " Priority: ", p);
    assert d[..|t.desc|] == t.desc;
    assert p[..|t.priority|] == t.priority;
  }

  /** Where each of four concatenated texts sits in the result. */
  lemma Pieces(a: string, b: string, c: string, e: string)
    ensures var s := a + b + c + e;
      && |s| == |a| + |b| + |c| + |e|
      && s[..|a|] == a
      && s[|a|..|a| + |b|] == b
      && s[|a| + |b|..|a| + |b| + |c|] == c
      && s[|a| + |b| + |c|..] == e
  {
  }
}
