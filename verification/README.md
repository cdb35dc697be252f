# redo — a Dafny model of the todo application's core

redo is a Laravel and Vue todo application. Users own todo lists. Lists hold
todos with a title, an optional description, a priority, an optional due
date and a completion timestamp. Each user has one settings row. This project
models the server side of that application as pure functions over an
immutable `Store`, which holds the `users`, `todo_lists`, `todos` and
`settings` tables. It also models two pieces of the client. The parts are:

- the data model and its constraints (`Schema`): unique keys, foreign keys
  and one settings row per user;
- the model accessors: `TodoModel`, `TodoListModel` (counts and the
  completion percentage), `UserModel` (relations and cascading delete) and
  `SettingModel` (defaults, and the get-or-create that the controllers and
  the `User` settings accessor share);
- request validation as the controllers use it (`Validation`);
- the query-string filters and the sort orders of the todo pages (`TodoQueries`);
- the three controllers: `TodoListController`, `TodoController` and
  `SettingController`, which includes the `SettingsUpdateRequest` rules;
- the daily rollover command `app:recreate-todo-for-today`:
  - `Rollover` is one user's `processUserTodos`;
  - `JobRunner` is the `handle` loop and its counters;
- the data migration that gives every legacy list an owner (`PopulateOwners`);
- the toast store of `useToast.ts` (`Toasts`);
- the offset-to-zone guess and zone list of `timezone.ts` (`TimezoneUtil`).

`Wrappers`, `Seqs`, `Text` and `Calendar` are support modules. They cover
option and result types, filtering and sorting of sequences, decimal
rendering and `LIKE` matching, and day numbers rendered as 'Y-m-d'.

Some values become parameters:

- the acting user (`Auth::id()`) and the current time;
- the user's local day and hour;
- the identifiers `timezone_identifiers_list()` returns;
- the id of a new toast;
- any exception the rollover would raise.

The database is the `Store` value. A controller action returns a `Response`:

- `Done` with the new store or page;
- `NotFound` (404);
- `Forbidden` (403);
- `Invalid` with the failing field names (422).

Timestamps are whole seconds since 1970-01-01 UTC. A day is
`timestamp / 86400`. Percentages are whole numbers of tenths of a percent,
so 66.7 is 667.

## Model

| member | source | states |
|---|---|---|
| Schema.ParsePriority | app/Http/Controllers/TodoController.php:79 | a priority string is accepted only as the name of the priority it yields |
| Schema.PriorityRoundTrip | app/Http/Controllers/TodoController.php:79 | every priority is accepted under its own name, and exactly "low", "medium" and "high" are accepted |
| Schema.FindList | app/Http/Controllers/TodoController.php:85 | `findOrFail` finds a list carrying the id, or fails exactly when no list has that id |
| Schema.FindListUnique | app/Http/Controllers/TodoController.php:85 | with unique keys, the list found by its id is that very list |
| Schema.AddListValid | app/Http/Controllers/TodoListController.php:73 | inserting a list under the next id for an existing user keeps every table constraint |
| Schema.AppendTodosValid | app/Http/Controllers/TodoListController.php:121-129 | inserting todos under the next ids on existing lists keeps every table constraint |
| TodoModel.NewTodo | app/Models/Todo.php:44-46 | a created todo carries the given fields and starts uncompleted |
| TodoModel.IsCompleted | app/Models/Todo.php:60-63 | `is_completed`: a todo is completed exactly when it carries a completion stamp |
| TodoModel.MarkAsCompleted | app/Models/Todo.php:76-79 | completion stamps the current time and changes nothing else |
| TodoModel.MarkAsIncomplete | app/Models/Todo.php:84-87 | un-completing clears the stamp and changes nothing else |
| TodoModel.ToggleRoundTrip | app/Models/Todo.php:76-87 | completing then un-completing yields an uncompleted todo, identical to the original when that was uncompleted |
| TodoModel.Owner | app/Models/Todo.php:92-95 | a todo's user is the owner of its list, and is absent exactly when the list is missing |
| TodoModel.OwnerThroughList | app/Models/Todo.php:92-95 | in a consistent store every todo's user is the user owning the list that holds it |
| TodoListModel.Percent | app/Models/TodoList.php:49-60 | 0 for no todos; otherwise the completed share rounded to the nearest tenth of a percent, at most 100.0 |
| TodoListModel.PercentExamples | app/Models/TodoList.php:49-60 | 3 of 5 gives 60.0, 1 of 3 gives 33.3, 2 of 3 gives 66.7, 1 of 2 gives 50.0, all gives 100.0, none gives 0.0 |
| TodoListModel.TodosOfList | app/Models/TodoList.php:41-44 | the list's todos are exactly the todos whose list id is the list's |
| TodoListModel.TotalTodos | app/Models/TodoList.php:65-68 | `total_todos` counts the list's todos, never more than the table holds |
| TodoListModel.CompletedTodos | app/Models/TodoList.php:73-76 | `completed_todos` counts the list's completed todos, never more than its total |
| TodoListModel.CountsAfterAdding | app/Models/TodoList.php:65-76 | adding a todo raises its own list's total by one, and its completed count by one when the todo is completed; other lists' figures stay |
| TodoListModel.CompletedAndOpenMakeTotal | app/Models/TodoList.php:65-76 | the completed and the uncompleted todos of a list add up to its total |
| TodoListModel.CompletionPercentage | app/Models/TodoList.php:49-60 | the list's percentage is 0 for an empty list and otherwise the rounded completed share, at most 100.0 |
| UserModel.ListsOf | app/Models/User.php:55-58 | the user's lists are exactly the lists carrying the user's id |
| UserModel.TodosOf | app/Models/User.php:63-66 | the user's todos are exactly the todos on lists the user owns |
| UserModel.TodosOfIsUnionOfLists | app/Models/User.php:63-66 | a todo belongs to the user exactly when it is on one of the user's lists |
| UserModel.DeleteUser | app/Models/User.php:55-74 | deleting a user removes the user, the user's settings, lists and the todos on those lists, and keeps every other row |
| UserModel.DeleteUserValid | app/Models/User.php:55-74 | the cascading delete keeps every table constraint |
| SettingModel.Defaults | app/Models/Setting.php:50-59 | the defaults are UTC, 'Y-m-d', 'H:i', email notifications on and browser notifications off |
| SettingModel.GetOrCreate | app/Http/Controllers/SettingController.php:21-24 | the user's row when one exists with the store unchanged, otherwise the defaults stored as the user's row |
| SettingModel.GetOrCreateValid | app/Http/Controllers/SettingController.php:21-24 | get-or-create adds exactly the user's key, and keeps the constraints for a registered user |
| SettingModel.GetOrCreateIdempotent | app/Models/User.php:79-87 | the settings accessor creates the row at most once: reading it again neither adds a row nor changes the first |
| SettingModel.OnRegistered | app/Listeners/CreateUserSettings.php:13-19 | a newly registered user gets a row equal to the defaults and every other row stays; a user who already has a row gets no result, because the model keeps one row per user |
| SettingModel.OnRegisteredIsGetOrCreate | app/Listeners/CreateUserSettings.php:13-19 | where the listener stores a row it stores exactly what get-or-create would, and a later get-or-create then finds that row |
| Validation.Validate | app/Http/Controllers/TodoListController.php:67-71 | validation fails exactly when some field fails its rules, reports exactly the failing fields, and otherwise yields exactly the request's fields that have rules |
| Validation.NoFailures | app/Http/Controllers/TodoListController.php:67-71 | no field fails exactly when every field passes |
| Validation.Reported | app/Http/Requests/Settings/SettingsUpdateRequest.php:22-31 | a field named once in the rules is reported exactly when it fails |
| Validation.RuleHolds | app/Http/Controllers/TodoController.php:76-82 | each rule on a present value: `string` wants a string, `max` bounds the length of a string or the number of characters of an integer, `boolean` the boolean spellings, `in` one of the names, `date` a date, `exists` an id of an existing row given as an integer or a digit string |
| Validation.MaxCountsCharacters | app/Http/Controllers/TodoController.php:77 | `max` on an integer counts its characters: `max:5` accepts 100 and `max:2` rejects it |
| Validation.FieldPasses | app/Http/Controllers/TodoController.php:76-82 | an absent field or a blank string passes only without `required`; null passes only an optional field that is `nullable` or whose rules all accept null; any other value must meet every rule |
| Validation.BlankIsTrimmedEmpty | app/Http/Controllers/TodoListController.php:68 | a string is blank exactly when PHP's `trim` leaves nothing of it |
| Validation.RenderedIdValue | app/Http/Controllers/TodoController.php:81 | an id sent as its decimal string names the same row as the integer id |
| Validation.RequiredString | app/Http/Controllers/TodoListController.php:68 | `required\|string\|max:n` accepts exactly a present string of at most n characters that is not blank, where blank means made only of the characters PHP's `trim` strips: space, tab, line feed, carriage return, NUL and vertical tab |
| Validation.BooleanRule | app/Http/Controllers/TodoListController.php:70 | `boolean` accepts exactly an absent or blank field or one of the boolean spellings |
| Validation.AsBoolMeaning | app/Http/Controllers/TodoController.php:116 | a flag reads as its spelling says on the six `boolean` spellings, and a blank string the rule lets through reads as true exactly when it is not empty, as PHP's truthiness has it |
| Validation.NullableString | app/Http/Controllers/TodoListController.php:69 | `nullable\|string` accepts exactly an absent field, null or a string |
| Validation.RequiredOneOf | app/Http/Controllers/TodoController.php:79 | `required\|in:` accepts exactly a present string among the names |
| Validation.RequiredExisting | app/Http/Controllers/TodoController.php:81 | `required\|exists:` accepts exactly a present id among the existing ones, sent either as an integer or as a non-empty string of decimal digits |
| TodoQueries.SelectedDate | app/Http/Controllers/TodoController.php:44 | the selected date is the `date` parameter when given, otherwise today |
| TodoQueries.BooleanQuery | app/Http/Controllers/TodoController.php:22 | `$request->boolean` reads "1", "true", "on" and "yes" as true, in any letter case, once the surrounding whitespace is trimmed |
| TodoQueries.FlagValues | app/Http/Controllers/TodoController.php:22-26 | "1" reads as true and "0" as false |
| TodoQueries.PaddedFlag | app/Http/Controllers/TodoController.php:22 | padding a flag with spaces, tabs, carriage returns, vertical tabs or line feeds does not change how it reads |
| TodoQueries.SearchMatches | app/Http/Controllers/TodoController.php:35-41 | a todo matches a search term when its title or its description contains it, ignoring ASCII case; a null description matches nothing |
| TodoQueries.MatchesQuery | app/Http/Controllers/TodoController.php:20-41 | each present parameter filters: `completed` on the completion stamp, `priority` on the priority name, `search` on title or description; absent ones do not filter |
| TodoQueries.Matching | app/Http/Controllers/TodoController.php:20-45 | the listed todos are exactly those created on the day that pass every filter present |
| TodoQueries.NoFiltersKeepsDay | app/Http/Controllers/TodoController.php:20-45 | with no filter parameter every todo of the day is listed, in order |
| TodoQueries.CompletedFilterPartitions | app/Http/Controllers/TodoController.php:21-27 | `completed=1` and `completed=0` split the day's matching todos between them, each todo under exactly one |
| TodoQueries.OrderBy | app/Http/Controllers/TodoListController.php:188-191 | ordering yields a permutation of the todos whose keys never decrease |
| TodoQueries.ListKey | app/Http/Controllers/TodoListController.php:188-191 | the list page's key puts uncompleted todos first, then orders by completion time, then by creation time |
| TodoQueries.ListOrderMeaning | app/Http/Controllers/TodoListController.php:188-191 | in the list page's order, uncompleted todos come first, completed ones by completion time, and ties by creation time |
| TodoQueries.IndexKey | app/Http/Controllers/TodoController.php:47-50 | the index key orders by creation time descending, then completed after uncompleted |
| TodoQueries.IndexOrderMeaning | app/Http/Controllers/TodoController.php:47-50 | in the index order, todos are newest first, and among equal creation times the uncompleted come first |
| TodoQueries.CreationDates | app/Http/Controllers/TodoController.php:53-58 | a date is offered exactly when some todo was created on it |
| TodoListController.DayTodos | app/Http/Controllers/TodoListController.php:25 | the day's todos of a list are exactly its todos created that day |
| TodoListController.Stats | app/Http/Controllers/TodoListController.php:25-35 | the day figures count the list's todos of the day and the completed ones among them, with the rounded percentage, 0 when there are none |
| TodoListController.StatsAgreeWithAccessors | app/Http/Controllers/TodoListController.php:25-35 | when all of a list's todos are from the selected day, the day figures equal the model's accessors |
| TodoListController.ByNewest | app/Http/Controllers/TodoListController.php:20-22 | the lists are rearranged newest first, as a permutation |
| TodoListController.StatsOf | app/Http/Controllers/TodoListController.php:23-38 | each list gets its own figures, in the same order, and no list is lost |
| TodoListController.Index | app/Http/Controllers/TodoListController.php:15-60 | the overview holds exactly the user's lists newest first, each with its day figures, and every creation date of the user's todos once, ascending |
| TodoListController.ListRulesName | app/Http/Controllers/TodoListController.php:67-71 | a request passing the list rules carries a present, non-blank name of at most 255 characters |
| TodoListController.NewList | app/Http/Controllers/TodoListController.php:73 | the created list takes the next id, the acting user, the request's name and description, the current time, and `refresh_daily` stored as sent, or unset and unmatched when not sent |
| TodoListController.StoredFlagReadings | app/Http/Controllers/TodoListController.php:70-73 | a `refresh_daily` passing `boolean` reads back through the cast as PHP's truthiness reads it, and is stored as the integer 1 that `where(..., true)` matches exactly when it was sent as true, 1 or "1" |
| TodoListController.BlankFlagStoredAsText | app/Http/Controllers/TodoListController.php:65-76 | a list stored with `refresh_daily` ' ' reads back as refreshing daily but is stored as text that `where('refresh_daily', true)` never matches |
| TodoListController.StoreList | app/Http/Controllers/TodoListController.php:65-76 | store fails exactly on failing fields; otherwise one new list is appended, owned by the acting user, with the request's fields and nothing else changed |
| TodoListController.StoreRejectsBadName | app/Http/Controllers/TodoListController.php:67-68 | a missing, blank or over-long name is rejected and reported |
| TodoListController.StoreListValid | app/Http/Controllers/TodoListController.php:65-76 | storing a list keeps every table constraint |
| TodoListController.Replace | app/Http/Controllers/TodoListController.php:94 | only the row with the updated list's id is replaced |
| TodoListController.Updated | app/Http/Controllers/TodoListController.php:94 | the updated list keeps id, owner and creation time, takes the sent name, takes the description and the flag as stored when sent, and keeps them when not |
| TodoListController.UpdateList | app/Http/Controllers/TodoListController.php:81-97 | 404 exactly for a missing list, 403 exactly for another user's list before validation, 422 exactly on failing fields of an owned list, otherwise the list rewritten with the validated fields |
| TodoListController.FoundOwnedIffOwns | app/Http/Controllers/TodoListController.php:84 | in a consistent store the ownership check passes exactly when the user owns a list with that id |
| TodoListController.UpdateRejectsBadName | app/Http/Controllers/TodoListController.php:88-92 | a bad name on an owned list is rejected and reported |
| TodoListController.UpdateListValid | app/Http/Controllers/TodoListController.php:81-97 | updating a list keeps every table constraint |
| TodoListController.ReplaceValid | app/Http/Controllers/TodoListController.php:94 | rewriting a list in place with an existing owner keeps every table constraint |
| TodoListController.CopiesInto | app/Http/Controllers/TodoListController.php:120-129 | each copy is uncompleted, on the new list, under a fresh id, with the original's title, description, priority and due date |
| TodoListController.CastFlag | app/Http/Controllers/TodoListController.php:116 | the copied flag reads as the original does, and is the integer 1 the rollover matches exactly when the original reads as set |
| TodoListController.Duplicate | app/Http/Controllers/TodoListController.php:102-132 | 404 for a missing list, 403 for another user's; otherwise a "(Copy)" list owned by the user with one uncompleted copy of each todo, and the existing rows unchanged |
| TodoListController.DuplicateCounts | app/Http/Controllers/TodoListController.php:102-132 | after duplication the original holds exactly its todos and the copy holds as many |
| TodoListController.DuplicateValid | app/Http/Controllers/TodoListController.php:102-132 | duplication keeps every table constraint |
| TodoListController.Destroy | app/Http/Controllers/TodoListController.php:137-147 | 404 for a missing list, 403 for another user's; otherwise exactly that list and its todos are removed |
| TodoListController.DestroyValid | app/Http/Controllers/TodoListController.php:137-147 | deleting a list leaves no todo pointing at it and keeps every constraint |
| TodoListController.ListTodos | app/Http/Controllers/TodoListController.php:152-225 | 404 or 403 as for the other actions; otherwise the page `ListPage` builds for the found list |
| TodoListController.ListPage | app/Http/Controllers/TodoListController.php:160-225 | exactly the list's todos of the day passing the filters, in the page's order, the list's creation dates newest first, and the day figures |
| TodoController.Index | app/Http/Controllers/TodoController.php:16-69 | exactly the user's todos of the day passing the filters, newest first with uncompleted first on ties, and every creation date once, newest first |
| TodoController.IndexAsWritten | app/Http/Controllers/TodoController.php:35-41 | the page as written fails exactly when a filter names a column both joined tables have, and otherwise equals the intended page |
| TodoController.SearchIsAmbiguous | app/Http/Controllers/TodoController.php:35-41 | the written query fails exactly when a search term is given |
| TodoController.SearchFailsAsWritten | app/Http/Controllers/TodoController.php:35-41 | searching "milk" fails as written, while the intended page lists the matching todo |
| TodoController.ListIds | app/Http/Controllers/TodoController.php:81 | `exists:todo_lists,id` accepts exactly the ids of existing lists |
| TodoController.StoreRules | app/Http/Controllers/TodoController.php:76-82 | `title` required string of at most 255, `description` nullable string, `priority` required among low, medium and high, `due_date` nullable date, `todo_list_id` required id of an existing list |
| TodoController.UpdateRules | app/Http/Controllers/TodoController.php:105-112 | the store rules with `completed` boolean after `description` |
| TodoController.StringListIdStored | app/Http/Controllers/TodoController.php:81-85 | a list id sent as the string "1" passes `exists` and files the new todo under list 1 |
| TodoController.StoreRulesWellFormed | app/Http/Controllers/TodoController.php:76-82 | a request passing the store rules carries a good title, a known priority and an existing list id |
| TodoController.UpdateRulesWellFormed | app/Http/Controllers/TodoController.php:105-112 | a request passing the update rules carries a good title, a known priority and an existing list id |
| TodoController.StoreTodo | app/Http/Controllers/TodoController.php:74-93 | 422 exactly on failing fields, 403 exactly when the named list is another user's, otherwise one new uncompleted todo with the request's fields on that list |
| TodoController.StoreTodoValid | app/Http/Controllers/TodoController.php:74-93 | creating a todo keeps every table constraint |
| TodoController.Completion | app/Http/Controllers/TodoController.php:114-118 | a sent `completed` that PHP reads as true stamps the current time, one it reads as false clears the stamp, and an absent flag keeps it |
| TodoController.Rewritten | app/Http/Controllers/TodoController.php:114-126 | the updated todo keeps id and creation time, takes the sent title, list and priority, takes description and due date when sent and keeps them when not, and, when `completed` is sent, is completed exactly when PHP reads the flag as true |
| TodoController.CompletionToggle | app/Http/Controllers/TodoController.php:114-118 | marking a todo done and then not done leaves it uncompleted |
| TodoController.BlankCompletedStamps | app/Http/Controllers/TodoController.php:115-116 | a whitespace-only `completed` passes `boolean` and stamps the todo; an empty one clears the stamp |
| TodoController.ReplaceTodo | app/Http/Controllers/TodoController.php:126 | only the row with the updated todo's id is replaced |
| TodoController.UpdateTodo | app/Http/Controllers/TodoController.php:98-129 | 404 for a missing todo, 403 when its list is another user's, 422 on failing fields, 403 when the target list is another user's; otherwise the todo rewritten, completed exactly when a sent `completed` is true in PHP's reading, with the stamp kept when the flag is absent |
| TodoController.UpdateTodoValid | app/Http/Controllers/TodoController.php:98-129 | updating a todo keeps every table constraint |
| TodoController.ReplaceTodoValid | app/Http/Controllers/TodoController.php:126 | rewriting a todo in place onto an existing list keeps every table constraint |
| TodoController.DestroyTodo | app/Http/Controllers/TodoController.php:134-144 | 404 for a missing todo, 403 when its list is another user's; otherwise exactly that todo is removed |
| TodoController.DestroyTodoValid | app/Http/Controllers/TodoController.php:134-144 | removing a todo keeps every table constraint |
| SettingController.SettingsFieldsMeaning | app/Http/Requests/Settings/SettingsUpdateRequest.php:22-31 | the three text fields must be present, non-blank strings within 255, 50 and 50 characters, and the two flags boolean |
| SettingController.SettingsRulesMeaning | app/Http/Requests/Settings/SettingsUpdateRequest.php:22-31 | the request passes exactly when the three text fields are good and the flags boolean, and each text field is reported exactly when it is bad |
| SettingController.GetTimezones | app/Http/Controllers/SettingController.php:73-83 | every identifier maps to itself, no other key appears, and distinct identifiers give as many entries |
| SettingController.Edit | app/Http/Controllers/SettingController.php:18-30 | the page shows the user's row, created from the defaults when missing, with every identifier offered |
| SettingController.Update | app/Http/Controllers/SettingController.php:35-46 | 422 exactly when the request fails its rules; otherwise the user's row, fetched or created, gets the three text fields and each flag sent, and no other row changes |
| SettingController.Apply | app/Http/Controllers/SettingController.php:43 | the row takes the three validated text fields, each flag that was sent, and keeps its owner and any flag not sent |
| SettingController.UpdateTimezone | app/Http/Controllers/SettingController.php:51-66 | a missing, blank or over-long zone is rejected naming only `timezone`; otherwise only the timezone of the user's row changes |
| SettingController.UpdateValid | app/Http/Controllers/SettingController.php:35-46 | a settings update for a registered user keeps every table constraint |
| SettingController.UpdateTimezoneValid | app/Http/Controllers/SettingController.php:51-66 | a timezone change for a registered user keeps every table constraint |
| SettingController.UpdateIdempotent | app/Http/Controllers/SettingController.php:35-46 | sending the same settings twice changes nothing the second time |
| SettingController.UpdateTimezoneIdempotent | app/Http/Controllers/SettingController.php:51-66 | setting the same zone twice changes nothing the second time |
| Rollover.Selection | app/Console/Commands/RecreateTodoForToday.php:113-118 | the source todos are exactly the user's todos created yesterday on lists whose stored flag is the integer 1 that `where('refresh_daily', true)` matches |
| Rollover.SelectionIgnoresSettings | app/Console/Commands/RecreateTodoForToday.php:113-118 | only lists and todos decide the selection |
| Rollover.NonRefreshListNeverSelected | app/Console/Commands/RecreateTodoForToday.php:113 | a todo on a list without daily refresh is never copied |
| Rollover.Copies | app/Console/Commands/RecreateTodoForToday.php:137-147 | each copy carries its source's list, title, description, priority and due date, is uncompleted, and gets a fresh id |
| Rollover.CommitAppends | app/Console/Commands/RecreateTodoForToday.php:136-148 | the transaction keeps every existing row and appends, in order, one uncompleted copy of each selected todo under the next ids |
| Rollover.CopyAsWritten | app/Console/Commands/RecreateTodoForToday.php:113-145 | the copy as written keeps list, title, priority and due date and is uncompleted |
| Rollover.DescriptionTakenFromList | app/Console/Commands/RecreateTodoForToday.php:113-145 | a todo described "Run" on a list described "Daily" is copied as "Daily" as written, and as "Run" by the intended copy |
| Rollover.MessageMentions | app/Console/Commands/RecreateTodoForToday.php:105-166 | every skip reason is a truthy string naming its cause: the error, the hour and zone, or yesterday's date |
| Rollover.ZoneName | app/Console/Commands/RecreateTodoForToday.php:92 | the zone is the stored one, or "UTC" when none is stored |
| Rollover.Message | app/Console/Commands/RecreateTodoForToday.php:104-166 | the three reasons read "Not in processing window (current hour: h in zone)", "No todos from yesterday (Y-m-d) in lists marked for daily refresh" and "Error: " followed by the exception's message |
| Calendar.CivilFromDays | app/Console/Commands/RecreateTodoForToday.php:116 | every day number has a month from 1 to 12 and a day from 1 to 31 |
| Calendar.CivilFromDaysValid | app/Console/Commands/RecreateTodoForToday.php:116 | every day number falls on a real date: the day lies within its month's length, leap years included |
| Calendar.CivilRoundTrip | app/Console/Commands/RecreateTodoForToday.php:116 | counting the days up to the date of a day number gives back that number |
| Calendar.CivilInverse | app/Console/Commands/RecreateTodoForToday.php:116 | the date of a real date's day count is that date, so dates and day numbers correspond one to one |
| Calendar.NextDayCount | app/Console/Commands/RecreateTodoForToday.php:116 | the calendar day after a real date is counted one day later |
| Calendar.Successor | app/Console/Commands/RecreateTodoForToday.php:116 | the date of the next day number is the calendar day after the date of the day number |
| Calendar.YearTextParses | app/Console/Commands/RecreateTodoForToday.php:124 | the year field of 'Y' reads back as the year: four or more digits, with a leading '-' before year 0 |
| Calendar.RenderFields | app/Console/Commands/RecreateTodoForToday.php:124 | a date rendered as 'Y-m-d' has its dashes in place and year, month and day fields that read back as the date's |
| Calendar.DateStringFields | app/Console/Commands/RecreateTodoForToday.php:116-124 | the 'Y-m-d' rendering of every day number reads back as the year, month and day of its date |
| Rollover.ProcessUser | app/Console/Commands/RecreateTodoForToday.php:83-168 | a settings row always exists afterwards; the user is processed exactly when the clock reads, the gate is open, something is selected and the insert succeeds or is dry; a skipped user costs only the settings row |
| Rollover.Recreate | app/Console/Commands/RecreateTodoForToday.php:113-157 | past the gate, processed exactly when something is selected and the insert succeeds or is dry, reporting the selection's size; otherwise nothing is written |
| Rollover.SkippedOutsideWindow | app/Console/Commands/RecreateTodoForToday.php:104-110 | without force, after hour 1 the user is skipped with the hour and zone as reason, and only the settings row is written |
| Rollover.NothingFromYesterday | app/Console/Commands/RecreateTodoForToday.php:120-126 | with nothing to copy the user is skipped, naming yesterday's date |
| Rollover.DryRunWritesNothing | app/Console/Commands/RecreateTodoForToday.php:149-151 | a dry run writes only the settings row and reports the number it would copy |
| Rollover.AllOrNothing | app/Console/Commands/RecreateTodoForToday.php:134-167 | a failing transaction leaves no copy behind and reports the error |
| Rollover.CommittedRollover | app/Console/Commands/RecreateTodoForToday.php:134-157 | a committed rollover appends one uncompleted copy per source todo in order, under unused ids, and changes no existing row |
| Rollover.FreshIds | app/Console/Commands/RecreateTodoForToday.php:138 | ids from the counter onward are not in use |
| Rollover.CommitValid | app/Console/Commands/RecreateTodoForToday.php:136-148 | appending the copies keeps every table constraint |
| Rollover.ProcessUserValid | app/Console/Commands/RecreateTodoForToday.php:83-168 | processing a registered user keeps every table constraint |
| Rollover.RecreateValid | app/Console/Commands/RecreateTodoForToday.php:113-157 | the recreation step keeps every table constraint |
| Rollover.ProcessUserKeepsRows | app/Console/Commands/RecreateTodoForToday.php:83-168 | processing adds no user or list and keeps every existing todo in place |
| Rollover.PastGate | app/Console/Commands/RecreateTodoForToday.php:104-118 | past the gate, processing is recreation on the store with the settings row in place |
| Rollover.FaultBeforeGate | app/Console/Commands/RecreateTodoForToday.php:94-96 | a zone that cannot be read skips the user with the error as reason |
| Rollover.ForceIgnoresHour | app/Console/Commands/RecreateTodoForToday.php:104 | with force the hour makes no difference |
| Rollover.EarlyHoursPassGate | app/Console/Commands/RecreateTodoForToday.php:104 | local hours 0 and 1 behave exactly as a forced run |
| Rollover.GateOpen | app/Console/Commands/RecreateTodoForToday.php:104 | the window is open when forced or when the local hour is 0 or 1 |
| JobRunner.RunSnoc | app/Console/Commands/RecreateTodoForToday.php:58-70 | one more user is one more step, and the counters grow by what its result adds |
| JobRunner.Run | app/Console/Commands/RecreateTodoForToday.php:58-70 | the loop yields one result per user, in order, together with the store the last step leaves |
| JobRunner.TallyBounds | app/Console/Commands/RecreateTodoForToday.php:61-69 | no user is counted both processed and skipped, and outside debug mode nobody is counted skipped |
| JobRunner.Tally | app/Console/Commands/RecreateTodoForToday.php:61-69 | `processed` counts processed results, `skipped` counts unprocessed results with a truthy reason in debug mode, and `created` sums the processed results' counts |
| JobRunner.HandleUser | app/Console/Commands/RecreateTodoForToday.php:58-70 | one pass of the loop extends the run by the next user and keeps the counters equal to the counts over the results |
| JobRunner.Handle | app/Console/Commands/RecreateTodoForToday.php:31-78 | every user is processed once, in order, and the counters equal the counts over the results |
| JobRunner.FaultIsolated | app/Console/Commands/RecreateTodoForToday.php:159-167 | a user whose zone cannot be read is skipped with the error, and every other user still gets a result |
| JobRunner.EveryUserCounted | app/Console/Commands/RecreateTodoForToday.php:61-69 | in debug mode every user is counted once as processed or skipped; otherwise nobody is counted as skipped |
| JobRunner.RunKeepsRows | app/Console/Commands/RecreateTodoForToday.php:58-70 | the run adds no user or list and keeps every existing todo |
| JobRunner.RunCreatesSettings | app/Console/Commands/RecreateTodoForToday.php:86-90 | afterwards exactly the users visited and those that had one have a settings row |
| JobRunner.RunLast | app/Console/Commands/RecreateTodoForToday.php:58-59 | the run's final store is the last user's step on the store the others left |
| JobRunner.DryRunOnlyCreatesSettings | app/Console/Commands/RecreateTodoForToday.php:149-151 | a dry run changes nothing but the settings table |
| JobRunner.RunValid | app/Console/Commands/RecreateTodoForToday.php:58-70 | a run over registered users keeps every table constraint |
| PopulateOwners.OwnersIn | database/migrations/2025_06_02_100000_populate_user_id_in_todo_lists.php:22-25 | the grouped values are exactly the user ids of the list's todos |
| PopulateOwners.Largest | database/migrations/2025_06_02_100000_populate_user_id_in_todo_lists.php:22-27 | the chosen user id is one of the groups and no group is larger |
| PopulateOwners.AbsentGroupEmpty | database/migrations/2025_06_02_100000_populate_user_id_in_todo_lists.php:23 | a value no todo carries has an empty group |
| PopulateOwners.Assign | database/migrations/2025_06_02_100000_populate_user_id_in_todo_lists.php:20-46 | a list with todos gets the user id of a largest group; one without todos gets the first user, or is deleted when there are no users; nothing else changes |
| PopulateOwners.CollectAppend | database/migrations/2025_06_02_100000_populate_user_id_in_todo_lists.php:20-46 | the loop over two runs of rows is the loop over each |
| PopulateOwners.CollectMembers | database/migrations/2025_06_02_100000_populate_user_id_in_todo_lists.php:20-46 | the loop keeps exactly the rows it writes back, never more rows than it read |
| PopulateOwners.PopulateAppend | database/migrations/2025_06_02_100000_populate_user_id_in_todo_lists.php:20-46 | each list is handled independently of the others |
| PopulateOwners.PopulateMembers | database/migrations/2025_06_02_100000_populate_user_id_in_todo_lists.php:20-46 | the surviving lists are exactly the reassigned ones, each otherwise unchanged |
| PopulateOwners.Up | database/migrations/2025_06_02_100000_populate_user_id_in_todo_lists.php:13-52 | the lists are populated, users and todos untouched, and the column change succeeds exactly when no list is left without an owner |
| PopulateOwners.UpSucceedsWhenTodosOwned | database/migrations/2025_06_02_100000_populate_user_id_in_todo_lists.php:13-52 | when every todo has a user, the migration succeeds, and each list's owner is a user or the user of one of its todos |
| PopulateOwners.NullGroupStopsMigration | database/migrations/2025_06_02_100000_populate_user_id_in_todo_lists.php:29-33 | a list whose todos carry no user keeps a null owner, and the column change fails |
| PopulateOwners.CollectLoop | database/migrations/2025_06_02_100000_populate_user_id_in_todo_lists.php:20-46 | the row-by-row loop computes the collected rows |
| PopulateOwners.PopulateLoop | database/migrations/2025_06_02_100000_populate_user_id_in_todo_lists.php:20-46 | the migration's `foreach` computes the populated lists |
| Toasts.FindIndex | resources/js/composables/useToast.ts:50 | the index found is the first toast with the id |
| Toasts.RemoveToast | resources/js/composables/useToast.ts:49-61 | removal drops the first toast with the id and its timer, and changes nothing when there is none |
| Toasts.RemoveKeepsOthers | resources/js/composables/useToast.ts:49-61 | with distinct ids, a toast remains exactly when its id is not the removed one |
| Toasts.RemoveKeepsDistinct | resources/js/composables/useToast.ts:49-61 | removal keeps the ids distinct |
| Toasts.Build | resources/js/composables/useToast.ts:22-28 | a new toast carries the id and the request's fields, with 5000 ms when no duration is given |
| Toasts.AddToast | resources/js/composables/useToast.ts:22-47 | the new toast is appended last, the oldest is evicted beyond three toasts, the bound holds, and a timer is set exactly for a positive duration |
| Toasts.AddThenRemove | resources/js/composables/useToast.ts:22-61 | removing a toast just added, below the limit, restores the toasts |
| Toasts.AddKeepsDistinct | resources/js/composables/useToast.ts:22-47 | adding a toast under a fresh id keeps the ids distinct |
| Toasts.PauseToast | resources/js/composables/useToast.ts:63-69 | pausing drops only the toast's timer and keeps the toasts |
| Toasts.ResumeToast | resources/js/composables/useToast.ts:71-76 | resuming sets the toast's timer, 5000 ms by default, and keeps the toasts |
| Toasts.PauseResume | resources/js/composables/useToast.ts:63-76 | pausing and then resuming with the timer's original delay gives back the state |
| Toasts.ClearAll | resources/js/composables/useToast.ts:78-84 | clearing removes every toast and every timer |
| Toasts.ClearThenAdd | resources/js/composables/useToast.ts:78-84 | after clearing, a new toast is the only one, and removing any id changes nothing |
| Toasts.Notify | resources/js/composables/useToast.ts:87-101 | each helper adds one toast of its kind with the given title and description |
| Toasts.TodoCompleted | resources/js/composables/useToast.ts:104-106 | a success toast "Todo completed!" quoting the todo's title |
| Toasts.TodoIncomplete | resources/js/composables/useToast.ts:108-110 | a warning toast "Todo marked incomplete" quoting the todo's title |
| Toasts.TodoError | resources/js/composables/useToast.ts:112-114 | an error toast naming the action, "update" by default, and the todo's title |
| Toasts.BulkCompletedSingular | resources/js/composables/useToast.ts:116-121 | the title reads "todo" and not "todos" exactly when the count is 1 |
| Toasts.BulkIncompleteSingular | resources/js/composables/useToast.ts:123-128 | the title reads "todo" and not "todos" exactly when the count is 1 |
| Toasts.BulkCompleted | resources/js/composables/useToast.ts:116-121 | a success toast whose title and description give the count with "todo" or "todos" |
| Toasts.BulkIncomplete | resources/js/composables/useToast.ts:123-128 | a warning toast whose title and description give the count with "todo" or "todos" |
| TimezoneUtil.OffsetKey | resources/js/utils/timezone.ts:28-29 | a key is built exactly for a whole-hour offset; it starts with '-' exactly for a positive offset and with '+' otherwise |
| TimezoneUtil.OffsetKeyRoundTrip | resources/js/utils/timezone.ts:28-29 | the key built from a whole-hour offset reads back as the zone's hours east of UTC |
| TimezoneUtil.Lookup | resources/js/utils/timezone.ts:43 | the result is "UTC" or a table value stored under the key, and it is "UTC" whenever the key is missing |
| TimezoneUtil.OffsetToTimezoneAsWritten | resources/js/utils/timezone.ts:27-44 | the guess as written is one of the written table's zones or "UTC" |
| TimezoneUtil.OffsetToTimezone | resources/js/utils/timezone.ts:27-44 | the corrected guess is one of the corrected table's zones or "UTC" |
| TimezoneUtil.CorrectedTableAgrees | resources/js/utils/timezone.ts:32-41 | each corrected key names a zone whose offsets include that many hours |
| TimezoneUtil.OffsetToTimezoneSound | resources/js/utils/timezone.ts:27-44 | a guess other than UTC is a zone observing the browser's offset |
| TimezoneUtil.NewYorkWinter | resources/js/utils/timezone.ts:27-44 | an offset of 300 minutes is guessed as America/New_York |
| TimezoneUtil.LosAngelesWinter | resources/js/utils/timezone.ts:27-44 | an offset of 480 minutes is guessed as America/Los_Angeles |
| TimezoneUtil.TokyoOffset | resources/js/utils/timezone.ts:27-44 | an offset of -540 minutes is guessed as Asia/Tokyo |
| TimezoneUtil.ZeroFallsBack | resources/js/utils/timezone.ts:29-43 | offset 0 builds the key "+0", which the table lacks, so the guess is UTC |
| TimezoneUtil.FractionsFallBack | resources/js/utils/timezone.ts:28-43 | an offset that is not a whole number of hours gives UTC |
| TimezoneUtil.AsWrittenNewYork | resources/js/utils/timezone.ts:36-43 | as written, -300 yields America/New_York, which does not observe it, and New York's own 300 yields UTC |
| TimezoneUtil.AsWrittenAsia | resources/js/utils/timezone.ts:39-43 | as written, 540 yields Asia/Tokyo and 480 yields Asia/Shanghai, neither of which observes that offset |
| TimezoneUtil.CommonTimezones | resources/js/utils/timezone.ts:74-89 | twelve choices, UTC first, with distinct values |
| TimezoneUtil.GuessesAreOffered | resources/js/utils/timezone.ts:27-89 | every zone the corrected guess can yield is among the common choices |

## Left out

- HTTP, Inertia rendering, redirects, flash messages and the JSON response are not modelled. An action returns the new store or page, or a `Response` error.
- `findOrFail` and route-model binding on a missing row are modelled as `NotFound`. In `TodoController.store` and `update` the list is checked by the `exists` rule first, so the model has no 404 there.
- The `todoLists` dropdown (lists ordered by name) on both todo pages is not modelled. It is plain data for the view.
- The `filters` echo of the request on the pages is not modelled.
- Completion is one nullable stamp, `completedAt` (the `completed_at` column). The migration `database/migrations/2025_06_09_115043_change_completed_to_timestamp_in_todos_table.php:14-17` drops the `completed` column and adds `completed_at`. Several places still name `completed`: the `$fillable`, `$casts` and `$attributes` of `app/Models/Todo.php:20-46`, `is_completed` at `app/Models/Todo.php:60-63`, the `completed_at` accessor at `app/Models/Todo.php:68-71`, `markAsCompleted` and `markAsIncomplete` at `app/Models/Todo.php:76-87`, `where('completed', true)` at `app/Models/TodoList.php:57` and `:75`, `'completed' => false` at `app/Console/Commands/RecreateTodoForToday.php:144`, and `'completed' => null` at `app/Http/Controllers/TodoListController.php:125`. Against the migrated schema each names a missing column, so those queries fail. Because `$attributes` gives `completed` a default, every todo insert names it too. The `completed_at` accessor reads the missing attribute, so it returns null and shadows the real column: every `$todo->completed_at` read and every serialized todo shows no stamp, and `is_completed` is always false. The two mark methods update the missing column and fail. The model does not reproduce these failures. It uses `completedAt` everywhere instead: a new todo or copy starts without a stamp, and the counts test for a stamp.
- `completed_at` is not in `$fillable`, so `TodoController.update` would drop the converted stamp on mass assignment. The model stores it.
- TodoListModel.CompletedTodos: counts todos with a completion stamp. The written query filters on the dropped `completed` column and fails, as explained above.
- TodoListModel.CompletionPercentage: takes its completed share from stamped todos, for the same reason.
- Time-zone conversion (Carbon, `Intl`) is not modelled. The rollover takes the user's local day and hour as inputs. Dates compared with `whereDate` are UTC day numbers of the stored timestamp.
- A malformed `date` query parameter is not modelled. The selected date is a day number or absent.
- `LIKE` matches ASCII case-insensitive substrings. The `%` and `_` wildcards inside a search term are not modelled.
- Where databases differ, the model follows SQLite, Laravel's default connection: NULL sorts first under `orderBy('completed_at', 'asc')` (`ListKey`; MySQL agrees, PostgreSQL sorts NULL last), `LIKE` folds ASCII case only, and `where('priority', ...)` compares exactly.
- Flags are read with PHP's truthiness (`Validation.AsBool`). The two settings flags are kept as the booleans their cast reads back, since nothing in this model queries them. For `refresh_daily` the validated value is stored as sent; the model assumes SQLite's column affinity, so a bool or a digit string is kept as an integer and any other string as text. The `boolean` cast reads the stored value back with PHP's truthiness, so a stored ' ' reads as true. `where('refresh_daily', true)` binds the integer 1, which stored text never equals, so a list stored with ' ' shows as refreshing daily and is never rolled over (`TodoListController.BlankFlagStoredAsText`). `duplicate` copies the flag through the cast, so the copy stores 0 or 1.
- Request values are encoded per field: only a field with a `date` rule holds a parsed date. So `string` and `max` never see a date, and a title such as "2025-06-10" is an ordinary string.
- `timezone_identifiers_list()` is a parameter of `SettingController.GetTimezones`.
- `getUserTimezone`, `getTimezoneOffset` and `formatDateInTimezone` in `timezone.ts` are left out. They are thin wrappers over the browser's `Intl` and `Date`.
- Laravel's `TrimStrings` and `ConvertEmptyStringsToNull` middleware are not modelled. Strings reach validation and the store as sent. So ' Groceries ' is stored with its spaces, `max:255` counts the untrimmed length, and a blank string fails `required` as blank rather than as null. Without the middleware a whitespace-only `completed` passes `boolean`, which skips blank strings, and PHP reads it as true, so the model stamps the todo; with the middleware it would arrive as null and the stamp would stay.
- `TodoModel.Owner` stands for `Todo::user()`. A missing list gives no owner, as `?? null` does.
- The `User` settings accessor (`app/Models/User.php:79-87`) is the get-or-create the controllers use, so it is modelled once, as `SettingModel.GetOrCreate`, whose idempotence `SettingModel.GetOrCreateIdempotent` states. The accessor reads `$this->settings`, the very attribute it defines; the model follows its evident get-or-create behaviour and not how PHP resolves that self-reference. `tests/Unit/Models/UserSettingsAccessorTest.php:9-18` expects the accessor to be gone and `settings` to be null for a user without a row. The code still defines the accessor, and the model follows the code.
- Validation.RequiredString: measures and tests the string as sent, untrimmed, because `TrimStrings` is not modelled.
- `SettingsUpdateRequest::authorize` always allows the request, so the settings update has no 403 and the model has no authorization step.
- Validation.RequiredExisting: a string id is accepted only when it is made of decimal digits. Other strings the database might compare equal to an id, such as ' 1' or '1.0', are rejected.
- The rollover's console output (`info`, `line`, `error`) is not modelled. The counters and the reason strings it prints are.
- In `processUserTodos` the settings row is created outside the `try`. A failure there is not modelled.
- `Rollover.ProcessUser`: a clock fault models a malformed zone name, and an insert fault models a failure inside the transaction. Other exceptions are not modelled.
- PopulateOwners.Largest: among groups of equal size the database may return any; the model picks the first largest in table order, and the contract states only that the choice is a largest group.
- The migration's `down()` is left out because it is empty.
- Whether the populated rows persist when the column change fails depends on the database's DDL transactions, so it is not modelled. `PopulateOwners.Up` returns the populated tables in both outcomes.
- Toasts: `Math.random()` ids are a parameter, and `setTimeout`/`clearTimeout` are a map from toast id to duration. Vue reactivity is not modelled. A toast request with an explicit `duration: undefined` is not modelled; an absent duration takes 5000.
- Toasts.ResumeToast: sets the toast's one timer. `useToast.ts:71-76` starts a new timeout without clearing a pending one, so resuming right after adding, or twice, leaves an earlier removal scheduled that fires first. The model keeps one timer per id and does not model the stray timeout.
- Toasts.AddThenRemove: stated only below the three-toast limit, where no toast is evicted.
- SettingModel.OnRegistered: no result for a user who already has a settings row. That one row per user is a modelling assumption: no settings migration in this model shows a unique key on `user_id`, and the database might accept a second row. The model keeps `settings` as a map from user id and so cannot hold two.
- Concurrency (two requests or two runs of the command at once) is not modelled.

## Findings

| source | as written | input that shows it | evidently intended | confidence | as-written member | corrected member |
|---|---|---|---|---|---|---|
| app/Console/Commands/RecreateTodoForToday.php:113-145 | the selection joins `todo_lists` without choosing columns, so the row's `description` is the list's, and the copy takes it | a todo described "Run" on a refresh-daily list described "Daily": the copy is described "Daily" | the copy keeps the todo's own description | medium, not executed (it depends on the driver keeping the last of two same-named columns) | Rollover.CopyAsWritten | Rollover.Copies |
| app/Http/Controllers/TodoController.php:35-41 | the search filters on an unqualified `description`, and the has-many-through query joins `todo_lists`, which also has `description` | any request with `search`, e.g. "milk" | the filter names `todos.description`, and the search lists matching todos | high, not executed | TodoController.IndexAsWritten | TodoController.Index |
| resources/js/utils/timezone.ts:32-41 | the keys for the Americas and Asia carry the sign opposite to the key the function builds from `getTimezoneOffset()` | 300 (New York in winter) gives "-5", so UTC; 480 (Los Angeles in winter) gives "-8", so Asia/Shanghai | "-5" maps to America/New_York, "-8" to America/Los_Angeles, "+9" to Asia/Tokyo, "+8" to Asia/Shanghai | high, not executed | TimezoneUtil.OffsetToTimezoneAsWritten | TimezoneUtil.OffsetToTimezone |
