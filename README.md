# To-do list store, validators and task file

This project models `ToDoList.py`, a console to-do list. The program keeps every task in
`Task.tasks_dict`, a dictionary with three keys, "Backlog", "Ongoing" and "Done". Each key holds
a list of task objects, and every operation changes those lists in place:

- `add_task` appends a task to the list its status names, case-insensitively.
- `remove_task` removes the task object from `tasks_dict[status]`.
- `update_task` builds a replacement task, removes the original and appends the replacement.
- The menu deletes a task with `pop(num - 1)` and selects a task for an update with `[num - 1]`.
- `status_validator` and `priority_validator` keep asking until `capitalize()` of the answer is
  one of the levels, and return that form.
- `__str__` lays out a task in fixed-width columns.
- `write_list_to_file` writes one `desc,status,priority` line per task.
- `load_list_from_file` reads the file back line by line.

The model has six modules:

- `Wrappers`: the `Option`, `Result` and `Outcome` values that stand for Python's None and for
  raised exceptions.
- `Text`: the Python string operations the program uses. These are `lower`, `capitalize`, `strip`,
  `split`, `readline` and `ljust`.
- `Tasks`: the task value, the three groups, routing of a status to a group, key lookup, the
  validators and `__str__`.
- `Store`: the dictionary as a value (`Groups`) with its operations as functions and their
  properties as lemmas. The class `TaskStore` holds the dictionary and updates it in place, one
  method per source operation.
- `Persistence`: the file format, the writing loop and the reading loop. Each loop is proved
  against a function on the file text. The round trip is proved on that function.
- `Menu`: the add, delete and update actions of the main loop, validation included.

A task object's identity is its `id` field. `TaskStore.nextId` hands out a fresh one each time
the program creates a `Task`. `TaskStore.Valid()` says two things: every task sits in the list its
status routes to, and every id was handed out already. Every method keeps `Valid()`.

The file is modelled as its text, a `string`. `readline` returns the text up to and including the
first newline.

## Model

| member | source | states |
|---|---|---|
| Text.TrimLeft | ToDoList.py:182 | `strip` from the left: the result is a suffix of the input, with only white space removed, and does not start with white space |
| Text.TrimRight | ToDoList.py:182 | `strip` from the right: the result is a prefix of the input, with only white space removed, and does not end with white space |
| Text.StripUntrimmed | ToDoList.py:182 | a text with no white space at either end is unchanged by `strip` |
| Text.StripSpaceSuffix | ToDoList.py:182 | `strip` ignores one trailing white-space character, such as the newline `readline` keeps |
| Text.IndexOf | ToDoList.py:182 | the position of the first occurrence of a character, or the length when it is absent |
| Text.IndexOfAbsent | ToDoList.py:182 | a character that does not occur is found at the end |
| Text.IndexOfAfter | ToDoList.py:182 | in a text with no `c` before a `c`, the first `c` is the one after that prefix |
| Text.Split | ToDoList.py:182 | `split(",")`: there is at least one part and no part holds the separator |
| Text.SplitJoin | ToDoList.py:182 | splitting the parts joined by the separator gives back the parts, when no part holds the separator |
| Text.JoinSplit | ToDoList.py:182 | joining the parts of a split gives back the text |
| Text.JoinCons | ToDoList.py:182 | joining a part in front of at least one more part puts the separator between it and the rest |
| Text.SplitAbsent | ToDoList.py:182 | a text without the separator splits into itself alone |
| Text.SplitAfter | ToDoList.py:182 | a text with no separator, then the separator, then more text, splits into that text followed by the parts of the rest |
| Text.ReadLine | ToDoList.py:180-195 | `readline`: the line and the rest together make the text; a non-empty text gives a non-empty line; the line has no newline before its last character and ends with one whenever text remains |
| Text.ReadLineOf | ToDoList.py:180 | a line without a newline, followed by a newline, is read as that line with its newline |
| Text.LeftJustify | ToDoList.py:152 | `ljust(width)`: the text followed by spaces up to `width`, never truncated |
| Text.CapitalizeMatches | ToDoList.py:124-142 | for a title-case word `w`, `capitalize(s) == w` exactly when `s` lower-cases to `w` lower-cased |
| Text.UpperIsLowerFold | ToDoList.py:124 | an upper-case letter `u` is the upper case of `c` exactly when `c` and `u` lower-case to the same letter |
| Text.Lower | ToDoList.py:40-47 | `lower()` on ASCII text, character by character; the routing lemmas `Tasks.GroupOfSpec` and `Tasks.LowerNameIs` are stated with it |
| Text.Capitalize | ToDoList.py:124-126 | `capitalize()` on ASCII text: the first character upper-cased, the rest lower-cased; `Text.CapitalizeMatches` says which texts capitalize to a given word |
| Text.Strip | ToDoList.py:182 | `strip()`: both trims in turn; `Text.TrimLeft` and `Text.TrimRight` state what each removes |
| Tasks.LowerNameIs | ToDoList.py:40-47 | each group key, lower-cased, is the spelling `add_task` compares with |
| Tasks.GroupOf | ToDoList.py:40-47 | the group a status routes to is the one whose lower-cased key equals the lower-cased status, and no group when there is none |
| Tasks.ValidateStatus | ToDoList.py:124-126 | one validator test: the capitalized answer when it is one of the status levels, nothing otherwise; `Tasks.ValidateStatusSpec` states which answers pass |
| Tasks.ValidatePriority | ToDoList.py:140-142 | one validator test for priorities; `Tasks.ValidatePrioritySpec` states which answers pass |
| Tasks.Accepted | ToDoList.py:124-142 | what a validator returns over the answers it reads in turn; `Tasks.AcceptedSpec` characterises it and `Tasks.Validator` is proved equal to it |
| Tasks.Display | ToDoList.py:152 | the text `__str__` returns; `Tasks.DisplayLayout` pins down its columns |
| Tasks.GroupOfSpec | ToDoList.py:40-47 | a status routes to `g` exactly when it equals the key of `g` case-insensitively |
| Tasks.KeyOf | ToDoList.py:90 | `tasks_dict[key]` finds a group only for an exact key, and raises KeyError for any other string |
| Tasks.KeyOfName | ToDoList.py:13-17 | the key of a group finds that group |
| Tasks.GroupOfName | ToDoList.py:40-47 | the key of a group, used as a status, routes to that group |
| Tasks.KeyRoutes | ToDoList.py:40-90 | a string that `tasks_dict` accepts as a key routes, as a status, to the same group |
| Tasks.CapitalizeToName | ToDoList.py:124 | an input capitalizes to a group's key exactly when it routes to that group |
| Tasks.ValidateStatusSpec | ToDoList.py:124-126 | the status validator accepts exactly the inputs that name a group case-insensitively, and returns that group's key |
| Tasks.ValidatedStatusIsKey | ToDoList.py:124-126 | an accepted status is a key of `tasks_dict`, routes to the group of the input and is its own capitalization |
| Tasks.NameIsLevel | ToDoList.py:13-18 | every group key is one of STATUS_LEVELS and its own capitalization |
| Tasks.ValidatePrioritySpec | ToDoList.py:140-142 | the priority validator accepts exactly "low", "med" and "high" in any case, and returns the canonical level |
| Tasks.Validator | ToDoList.py:124-142 | the validator's re-prompt loop over the answers given in turn ends with `Accepted` of those answers |
| Tasks.AcceptedSpec | ToDoList.py:124-126 | a validator returns nothing exactly when it refuses every answer; otherwise it returns the capitalization of the first accepted answer, every earlier answer having been refused |
| Tasks.AcceptedStatus | ToDoList.py:124-126 | what `status_validator` returns is a key, routes to its own group, is its own capitalization, and names the group of one of the answers |
| Tasks.AcceptedPriority | ToDoList.py:140-142 | what `priority_validator` returns is one of PRIORITY_LEVELS and its own capitalization |
| Tasks.DisplayLayout | ToDoList.py:152 | `__str__` has a fixed layout that cuts nothing: the length, "Task: ", the whole description, its padding, " Priority: " and the whole priority, each at its column |
| Tasks.Pieces | ToDoList.py:152 | each of four concatenated texts sits at its own offset in the result |
| Store.Groups.Set | ToDoList.py:13-17 | replacing one list of the dictionary leaves the other two as they were |
| Store.GroupsEq | ToDoList.py:13-17 | two dictionaries with the same list under every key are equal |
| Store.SetTwice | ToDoList.py:13-17 | replacing a list twice keeps only the second list |
| Store.AddRouted | ToDoList.py:40-47 | a task whose status routes to `g` is appended to the list of `g` |
| Store.AddSpec | ToDoList.py:40-47 | `add_task` appends to the group whose key equals the status case-insensitively and leaves the others; an unrouted status changes nothing; the count grows by one exactly when the status routes |
| Store.Add | ToDoList.py:40-47 | `add_task` on the dictionary as a value; its contents are given independently by `Store.AddSpec` |
| Store.AddKeeps | ToDoList.py:40-47 | adding keeps every task in its own group and every id already handed out |
| Store.FirstIndex | ToDoList.py:90 | the position of the first occurrence of a task in a list |
| Store.RemoveFirst | ToDoList.py:90 | `list.remove` of a task present in the list; `Store.RemoveFirstSpec` states its effect |
| Store.Remove | ToDoList.py:90 | `remove_task` on the dictionary as a value, with KeyError and ValueError as results; `Store.RemoveSpec` states its cases |
| Store.RemoveFirstSpec | ToDoList.py:90 | `list.remove(x)` takes out the first `x` only: one element fewer, the multiset minus one `x`, the rest in order |
| Store.RemoveSpec | ToDoList.py:85-90 | `remove_task` raises KeyError exactly when the status is no exact key, and ValueError when the task is absent from that group; otherwise only that group changes, losing the task's first occurrence, and the count drops by one |
| Store.RemoveAt | ToDoList.py:85-90 | for a status that is exactly the key of `g`: ValueError exactly when the task is absent from `g`; otherwise `g` loses the task's first occurrence, one element, and the other groups are unchanged |
| Store.RemoveTotal | ToDoList.py:85-90 | a successful `remove_task` lowers the number of tasks by one |
| Store.SizesOf | ToDoList.py:13-17 | the number of tasks is the sum of the three list lengths |
| Store.RemoveKeeps | ToDoList.py:85-90 | removing keeps every remaining task in its own group |
| Store.DropOneWithin | ToDoList.py:268-270 | a list with one element dropped holds only elements of the list |
| Store.SetWithin | ToDoList.py:268-270 | replacing one list by a list of its own tasks leaves every list holding only its old tasks |
| Store.KeepsWithin | ToDoList.py:13-17 | a store whose lists hold only tasks of the same lists of a good store is good |
| Store.UpdateCount | ToDoList.py:102-110 | a failed removal makes `update_task` raise the same error and append nothing; otherwise the count is unchanged when the new status routes and drops by one when it does not |
| Store.Update | ToDoList.py:102-110 | `update_task` on the dictionary as a value: remove the original, then route the replacement; `Store.UpdateReplaces` and `Store.UpdateSameStatus` state its effect |
| Store.MultisetAll | ToDoList.py:13-17 | the count of a task in the store is the sum of its counts in the three groups |
| Store.RemoveFirstAbsent | ToDoList.py:90 | removing from a list that does not hold `y` leaves a list that does not hold `y` |
| Store.CountAppended | ToDoList.py:102-110 | a task in no group occurs exactly once after it is appended to one |
| Store.UpdateReplaces | ToDoList.py:102-110 | with a routed new status, a successful update keeps the count and leaves the new task exactly once in the store, last in its group and in no other group |
| Store.UpdateSameStatus | ToDoList.py:102-110 | keeping the status moves the rebuilt task to the end of the same group, after the other tasks in their old order |
| Store.UpdateKeeps | ToDoList.py:102-110 | updating keeps every task in its own group |
| Store.PyIndex | ToDoList.py:269-270 | Python's index `i` into a list of length `n`, negative values counting from the end, and no position (IndexError) out of range; used by `Store.SelectSpec` and `Store.PopSpec` |
| Store.Select | ToDoList.py:292-294 | `tasks_dict[category][num - 1]` with its KeyError and IndexError; `Store.SelectSpec` states its cases |
| Store.Pop | ToDoList.py:268-270 | `tasks_dict[category].pop(num - 1)` on the dictionary as a value; `Store.PopSpec` and `Store.PopTakesSelected` state its effect |
| Store.SelectSpec | ToDoList.py:292-295 | the number the user gives selects task `num` for `num` in [1, length], the last task for 0, counts from the end down to 1 - length, and raises IndexError outside that |
| Store.PopSpec | ToDoList.py:268-270 | `pop(num - 1)` for `num` in [1, length] removes exactly that task and keeps the rest in order; `num` = 0 removes the last task; numbers out of range raise IndexError |
| Store.PopTakesSelected | ToDoList.py:268-270 | a successful pop removes exactly the task the same number selects, lowers the count by one and changes no other group |
| Store.DropOneCount | ToDoList.py:270 | dropping the element at a position takes one copy of it out of the list and nothing else |
| Store.PopKeeps | ToDoList.py:268-270 | popping keeps every remaining task in its own group |
| Store.TaskStore.constructor | ToDoList.py:13-17 | the dictionary starts with three empty lists |
| Store.TaskStore.NewTask | ToDoList.py:21-33 | creating a task object gives it a new identity and leaves the dictionary as it was |
| Store.TaskStore.AddTask | ToDoList.py:35-47 | the new dictionary is `Add` of the old one |
| Store.TaskStore.RemoveTask | ToDoList.py:85-90 | the new dictionary is `Remove` of the old one; on an exception it is unchanged and the error is returned |
| Store.TaskStore.UpdateTask | ToDoList.py:92-110 | the new dictionary is `Update` of the old one, with a fresh replacement task; on an exception it is unchanged |
| Persistence.Record | ToDoList.py:217 | the record written for one task, `desc,status,priority`; `Persistence.JoinRecord` and `Persistence.ParseRecord` relate it to the reader |
| Persistence.Lines | ToDoList.py:216-217 | the text written for one list, one record and newline per task; `Persistence.LinesAppend` and `Persistence.WriteLines` state its shape |
| Persistence.Serialize | ToDoList.py:214-217 | the whole file written for the dictionary; `Persistence.WriteList` is proved equal to it and `Persistence.SerializeAll` gives its order |
| Persistence.LinesAppend | ToDoList.py:215-217 | the text written for two lists one after the other is the two texts one after the other |
| Persistence.SerializeAll | ToDoList.py:214-217 | the file holds the records of the Backlog, Ongoing and Done lists in that order, which is the record of every task in dictionary order |
| Persistence.SerializeNested | ToDoList.py:214-217 | the file as the Backlog lines, followed by the Ongoing lines, followed by the Done lines, grouped the way the loader reads them |
| Persistence.Nest | ToDoList.py:214-217 | three texts concatenated, regrouped to the right; a step of `Persistence.SerializeNested` |
| Persistence.WriteList | ToDoList.py:205-217 | the nested loop writes exactly `Serialize` of the dictionary |
| Persistence.LinesSnoc | ToDoList.py:216-217 | writing one more record after the records of a prefix of a list gives the records of the longer prefix |
| Persistence.LinesOne | ToDoList.py:217 | one more record appended to the text of a prefix is the text of the longer prefix |
| Persistence.GroupsSnoc | ToDoList.py:215-217 | writing one more group after a prefix of the dictionary order gives the text of the longer prefix |
| Persistence.SplitLinesOfLines | ToDoList.py:217 | when no field holds a newline, the written text splits into exactly one line per task, each its record |
| Persistence.RecordLinesCons | ToDoList.py:217 | the lines of a list are the first task's line followed by the lines of the rest |
| Persistence.WriteLines | ToDoList.py:214-217 | the file has one line per task, each the task's record, in dictionary order, so the number of lines is the number of tasks |
| Persistence.LoadLine | ToDoList.py:180-195 | a line read as three fields adds one new task and loading goes on with the rest |
| Persistence.LoadList | ToDoList.py:170-195 | the `readline` loop leaves the dictionary and the object counter that `LoadFrom` gives for the file's text |
| Persistence.LoadStops | ToDoList.py:182-202 | a line that yields fewer than three fields ends the loading with the store as it is |
| Persistence.LoadAdvance | ToDoList.py:180-195 | a line that yields three fields adds its task as the next object, and loading goes on with the rest of the text |
| Persistence.LoadKeeps | ToDoList.py:180-195 | loading keeps every task in its own group and hands out only new identities |
| Persistence.LoadExtends | ToDoList.py:186-193 | loading only appends: each group keeps its old tasks first, in order |
| Persistence.AddExtends | ToDoList.py:186-193 | one append keeps each group's old tasks first |
| Persistence.ExtendsTrans | ToDoList.py:186-193 | keeping the old tasks first composes over several appends |
| Persistence.RenumberFields | ToDoList.py:184 | tasks made afresh from the same fields differ only in identity |
| Persistence.AddAllToGroup | ToDoList.py:186-193 | tasks that all route to one group are appended to it in order |
| Persistence.AddAllHead | ToDoList.py:186-193 | adding the first of a list of tasks routed to `g` appends it to `g` before the rest |
| Persistence.SetAppendStep | ToDoList.py:186-193 | appending the first task and then the rest to one list appends the whole list |
| Persistence.RoutedTail | ToDoList.py:186-193 | if every task of a list routes to `g`, so does every task after the first |
| Persistence.ParseLine | ToDoList.py:182-184 | one line read as its first three fields after `strip` and `split`, and nothing when there are fewer (IndexError); `Persistence.ParseFields` and `Persistence.ParseNoComma` state its cases |
| Persistence.LoadFrom | ToDoList.py:178-195 | the loading loop as a function of the file text; `Persistence.LoadList` is proved equal to it |
| Persistence.AddAll | ToDoList.py:186-193 | the loaded tasks added one after another, as the loop does; `Persistence.AddAllToGroup` states its effect on one group |
| Persistence.ParseFields | ToDoList.py:182-184 | a line of three or more comma-separated fields is read as its first three fields: the status verbatim, further fields ignored |
| Persistence.JoinRecord | ToDoList.py:217 | a task's record is its three fields joined by commas |
| Persistence.ParseRecord | ToDoList.py:182-217 | the record of a clean task, with its newline, reads back as the task's three fields |
| Persistence.LoadLinesThen | ToDoList.py:180-195 | loading the records of clean tasks adds them one after another, as new objects |
| Persistence.LoadLinesCons | ToDoList.py:180-195 | loading a record of a clean task adds it as a new object and goes on with the next line |
| Persistence.AddAllCons | ToDoList.py:186-193 | appending a list of tasks is appending its first task, then the rest |
| Persistence.RecordOneLine | ToDoList.py:217 | a task without "\n" or "\r" in its fields has a record without either |
| Persistence.RoutedStatusIsWord | ToDoList.py:186-193 | a status that routes to a group holds no comma, no "\n" and no "\r" |
| Persistence.GroupClean | ToDoList.py:182-193 | in a coherent store, the tasks of a group with storable fields are clean and route to that group |
| Persistence.LoadGroup | ToDoList.py:180-195 | loading the records of one group's tasks appends them, as new objects, to that group |
| Persistence.FillBacklog | ToDoList.py:13-17 | filling the Backlog list of the empty dictionary gives a dictionary with that list only |
| Persistence.FillOngoing | ToDoList.py:13-17 | filling the Ongoing list next gives a dictionary with the two lists |
| Persistence.FillDone | ToDoList.py:13-17 | filling the Done list last gives the dictionary with all three lists |
| Persistence.LoadSaved | ToDoList.py:178-217 | loading the three groups' records into an empty dictionary gives each group back as new objects, and counts one object per line |
| Persistence.RoundTrip | ToDoList.py:178-217 | writing a coherent store of storable tasks and loading the file into an empty dictionary gives every group back in order, field for field, and makes one task object per task |
| Persistence.LoadSerialized | ToDoList.py:178-217 | loading the written file gives each group as new objects numbered in file order |
| Persistence.SavedClean | ToDoList.py:182-193 | every task of a coherent store of storable tasks is clean and routes to its own group |
| Persistence.LoadEmpty | ToDoList.py:180-181 | an empty file leaves the dictionary as it was |
| Persistence.ParseNoComma | ToDoList.py:182-184 | a line without a comma, a blank line among them, cannot be read as a task |
| Persistence.LoadStopsAtBadLine | ToDoList.py:182-202 | a line with fewer than three fields ends the loading: the tasks of the lines before it are kept, the counter is left after them, and nothing after it is read |
| Persistence.LoadAfterLines | ToDoList.py:180-195 | when the text after the records of clean tasks loads to some result, the whole text loads to that result |
| Persistence.LoadUnreadLine | ToDoList.py:182-202 | any line the loader cannot read stops the loading with the store as it is |
| Persistence.TwoFieldsUnread | ToDoList.py:182-184 | a line of two fields, such as "a,b", cannot be read: `line_list[2]` is missing |
| Persistence.StripTwo | ToDoList.py:182 | `strip` of the line "a,b\n" is "a,b" |
| Persistence.SplitTwo | ToDoList.py:182 | `split(",")` of "a,b" is the two fields "a" and "b" |
| Persistence.LoadBadLine | ToDoList.py:182-202 | a line with no comma stops the loading where it is |
| Persistence.LoadDropsUnrouted | ToDoList.py:184-193 | a line whose status routes to no group is dropped, though its task object is made, and loading goes on |
| Persistence.LoadOneTask | ToDoList.py:180-195 | the file "Buy milk,Backlog,Low" gives one Backlog task with priority Low |
| Persistence.BuyMilk | ToDoList.py:217 | the record of that task is the file's one line, and the task is clean and routes to Backlog |
| Persistence.BuyMilkLine | ToDoList.py:217 | the text written for that task is "Buy milk,Backlog,Low" and a newline |
| Persistence.BuyMilkClean | ToDoList.py:182 | that task's fields survive `strip` and `split` |
| Persistence.BuyMilkRenumber | ToDoList.py:184 | the first task object made gets identity 0 |
| Menu.EditedFields | ToDoList.py:294-332 | the description, status and priority each update selection passes to `update_task`, nothing while a validator waits; `Menu.UpdateEnteredMoves` states where the result lands |
| Menu.AddEntered | ToDoList.py:249-256 | with an accepted status and priority, the store is `Add` of the old store with the new task; while either validator is still waiting, nothing changes |
| Menu.AddEnteredAppends | ToDoList.py:249-256 | a task added from the menu is never lost: it is last in the group its validated status names, the other groups stay as they were, the count grows by one, and with a fresh id it is in the store exactly once |
| Menu.DeleteEntered | ToDoList.py:266-274 | the category is validated first, then the store is `Pop` of the old store; on an exception it is unchanged and the error is returned |
| Menu.DeleteEnteredRange | ToDoList.py:266-274 | with a validated category, deleting never raises KeyError: it succeeds exactly when `num` is between 1 - length and length, and raises IndexError otherwise |
| Menu.UpdateEntered | ToDoList.py:289-334 | validation, selection by number, reading the new field, then `Update` with the chosen field changed; each exception leaves the store unchanged |
| Menu.UpdateSelected | ToDoList.py:292-296 | updating the selected task succeeds exactly when its status is exactly its group's key; any other status raises KeyError |
| Menu.UpdateEnteredMoves | ToDoList.py:289-334 | an update keeps the count; a new description or priority moves the rebuilt task to the end of the same group; a new status makes it the last and only copy in the group that status names |

## Left out

- Case mapping is ASCII only. Python's Unicode `lower` and `capitalize` are not modelled.
- `display_all_tasks` and `menu` are left out. They only print boxed, centred text.
- The menu loop and its choice of option are left out. So are the message printed for an
  invalid update selection and the exit message. None of them change the store.
- The validators re-read `input()` until an answer is accepted. The answers are a parameter
  here. When every answer so far is refused, the result is `AwaitingInput`.
- `int(input(...))` raising ValueError on a non-number is not modelled. The task number is an
  integer parameter.
- File opening, the file path, `FileNotFoundError` and the printing of errors are left out.
  The file is its text. The saved file is the text `WriteList` returns.
- Universal-newline translation is not modelled: `ReadLine` ends a line at "\n" only. Reading
  in text mode also ends a line at "\r", so every loading lemma requires fields free of both
  characters (`Persistence.OneLine`, `Persistence.Storable`), and then the two readings agree.
- Python object identity is modelled by the `id` field. Every task the program creates comes
  from `TaskStore.NewTask`, which hands out an id not used before, so two tasks made by the
  program have the same id only when they are the same task. `TaskStore.Valid()` does not state
  this itself; it states that every id in the store was handed out already.
- A loaded line whose status routes to no group is dropped silently, though its task object is
  made (`Persistence.LoadDropsUnrouted`).
- Loaded statuses are kept verbatim. A task loaded as "backlog" sits in Backlog, but
  `remove_task` looks up `tasks_dict["backlog"]`. So updating such a task raises KeyError
  (`Menu.UpdateSelected`).
- `update_task` with a status that routes to no group loses the task (`Store.UpdateCount`).
  The menu cannot do this, because it validates the status first.
- `num` <= 0 is not refused: it counts from the end of the list, as Python's negative indexing
  does (`Store.PopSpec`, `Store.SelectSpec`).
- Persistence.RoundTrip: the round trip is stated field for field. Identities are new objects
  after loading, so the lists are not equal as object lists.
