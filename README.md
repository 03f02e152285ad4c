# Google Chat task reporter, modelled in Dafny

`scrapper.py` reads the messages of Google Chat spaces and rebuilds the tasks
that the Tasks integration announced there: notifications such as
"Created a task via Tasks @Ana (…)". It then computes, for each assignee, how many
tasks they received and how many they completed.

This project models the part of the program that does that work on messages
already fetched:

- **`get_tasks`** (module `Reconstruct`) in two passes.
  - The first pass classifies each message, appends one record per "Created"
    notification and gathers the ids of the completed, re-opened and deleted
    tasks, plus the `id@name` reassignment keys.
  - The second pass is the loop that removes deleted records from the list while
    iterating over it, applies the reassignments and sets the final status. It is
    modelled as the index loop that Python's list iterator really runs, with
    `list.remove` removing the first equal record.
- **The message classification of `get_tasks`** (module `Events`): the "via Tasks"
  marker, the task id taken from `thread.name`, the assignee taken from the first
  `@` mention, the `elif` chain of phrases and the reassignment key. `get_people`
  uses only the marker and the `@` mention, which it also cuts at the first " to".
- **The Python string operations that code relies on** (module `Text`): `in`,
  `split`, `strip`.
- **`normalize_name`** (module `Names`): accent folding, lowering and stripping.
- **The name collection of `get_people`** (module `People`): senders and
  mentioned assignees of the spaces of type "SPACE".
- **`filter_tasks`** (module `Filter`).
- **The counting part of `analyze_tasks`** (module `Report`). Rows are kept in
  ascending order of assignee and the completion rate is the pair
  (completed, received).
- **`format_task_info`** (module `Format`).

The methods are imperative where the program is: `CollectEvents`, `Reconcile`,
`ApplyAssignments`, `GetTasks`, `GetPeople`, `AddPeopleOf` and `FilterTasks`.
Each is proved against a specification function, or against a ghost predicate on
the records' original positions.

Behaviour of `get_tasks` that the model keeps:

- Each "Created" notification appends a record, so a second one for the same id
  appends a second record.
- The status update looks at the completed set before the re-opened set, so a
  task that is in both ends COMPLETED.
- The assignee is cut at the next `@` as well as at the next `(`.
- `get_tasks` does not cut the assignee at " to"; only `get_people` does.
- Reassignments are a set of `id@name` keys, so a repeated reassignment counts once.
- The records are reconciled in the order of the list, which is the order of
  creation.
- When the records are distinct, a record right after a removed one is never
  visited, so it survives untouched even if its id was deleted. With equal records,
  `list.remove` may take out an earlier copy instead.

## Model

| member | source | states |
|---|---|---|
| Text.Contains | scrapper.py:189-209 | no contract of its own: Python's `sub in s` on strings, for the "via Tasks" marker (also at scrapper.py:168) and the five phrases; used by Events.IsTaskNotice, Events.KindOf, People.AddNamesOf and Text.Strip, and specified through Events.KindOfFirstMatch and Reconstruct.CollectEvents |
| Text.Split | scrapper.py:190 | `str.split` on one character: at least one piece, two or more exactly when the character occurs, no piece holds it |
| Text.SplitJoin | scrapper.py:190 | joining the pieces of a split with the separator gives back the string |
| Text.JoinSplit | scrapper.py:223-225 | splitting pieces joined by a character absent from them gives back the pieces |
| Text.BeforeFirst | scrapper.py:172 | `s.split(sep)[0]` is the prefix of `s` before the first occurrence of `sep`: no occurrence starts inside it, and it ends where one starts or is all of `s` |
| Text.TrimStart | scrapper.py:98 | `lstrip()`: a suffix of the input, with only whitespace dropped before it and no whitespace at its start |
| Text.TrimEnd | scrapper.py:98 | `rstrip()`: a prefix of the input, with only whitespace dropped after it and no whitespace at its end |
| Text.Strip | scrapper.py:98 | `strip()` leaves no whitespace at either end and its result is a slice of the input |
| Text.StripSpan | scrapper.py:98 | `strip()` drops exactly the whitespace runs at both ends |
| Text.StripStripped | scrapper.py:98 | a string without whitespace at either end is left unchanged by `strip()` |
| Names.AsciiResidue | scrapper.py:94-96 | what NFKD and the ASCII filter leave of one character is ASCII; the table keeps an ASCII character, the base letter of an accented Latin-1 letter and the ASCII part of a Latin-1 compatibility character |
| Names.AsciiFold | scrapper.py:94-96 | NFKD followed by `encode('ascii', 'ignore')` yields ASCII only |
| Names.LowerAscii | scrapper.py:98 | no contract of its own: `lower()` on ASCII text, mapping `A`-`Z` to `a`-`z`; specified by Names.NormalizeNameShape |
| Names.NormalizeName | scrapper.py:91-99 | no contract of its own; specified by Names.NormalizeNameShape, Names.NormalizeNameIdempotent and Names.NormalizeNamePointwise |
| Names.NormalizeNameShape | scrapper.py:91-99 | a normalised name is ASCII, has no upper-case letter and no surrounding whitespace |
| Names.NormalizeNameIdempotent | scrapper.py:91-99 | normalising a normalised name changes nothing |
| Names.NormalizeNamePointwise | scrapper.py:91-99 | names that agree character by character up to accents and case normalise to the same string |
| Names.NormalizeNameIgnoresAccents | scrapper.py:91-99 | "José Álvarez" and "jose alvarez" normalise to the same name |
| Events.IsTaskNotice | scrapper.py:189 | no contract of its own: `'via Tasks' in message.get('text', '')`, the same test as at scrapper.py:168; used by Events.Classify and People.NamesOf, and specified through Reconstruct.CollectEvents and People.NamesAreSendersAndMentions |
| Events.KindOf | scrapper.py:194-210 | no contract of its own; specified by Events.KindOfFirstMatch and Events.KindOfUnrecognised |
| Events.KindOfFirstMatch | scrapper.py:194-210 | a notification has the kind of a phrase exactly when it holds that phrase and none tried before it |
| Events.KindOfUnrecognised | scrapper.py:194-210 | a notification holding none of the five phrases has no kind, and only then |
| Events.MentionOf | scrapper.py:192 | no contract of its own; specified by Events.MentionSpan |
| Events.TaskAssignee | scrapper.py:192 | no contract of its own; specified by Events.TaskAssigneeShape |
| Events.PeopleMention | scrapper.py:171-172 | no contract of its own; specified by Events.PeopleMentionShape |
| Events.MentionSpan | scrapper.py:192 | the assignee is the stripped text between the first `@` and the next `@`, `(` or end of text |
| Events.TaskAssigneeShape | scrapper.py:192 | the `get_tasks` assignee holds no `@` or `(`, has no surrounding whitespace, and is "Unassigned" when the text has no `@` |
| Events.PeopleMentionShape | scrapper.py:171-172 | the `get_people` name holds no `@`, `(` or " to", is stripped, and equals the `get_tasks` assignee when that holds no " to" |
| Events.Key | scrapper.py:204 | no contract of its own: `task_id + "@" + assignee`; specified by Events.KeyRoundTrip and Events.KeyIdWithAt |
| Events.KeyId | scrapper.py:223-224 | no contract of its own; specified by Events.KeyRoundTrip and Events.KeyIdWithAt |
| Events.KeyName | scrapper.py:223-225 | no contract of its own; specified by Events.KeyRoundTrip |
| Events.KeyRoundTrip | scrapper.py:223-225 | splitting `task_id + "@" + assignee` on `@` recovers the id and the assignee when neither holds an `@` |
| Events.KeyIdWithAt | scrapper.py:223-224 | an id holding an `@` is not recovered from its key |
| Events.ThreadTaskId | scrapper.py:190 | no contract of its own; specified by Events.ThreadTaskIdOfSegments |
| Events.Classify | scrapper.py:189-192 | no contract of its own; specified by Reconstruct.CollectEvents and Reconstruct.EventAssigneeHasNoAt |
| Events.ThreadTaskIdOfSegments | scrapper.py:190 | the task id is the fourth `/`-segment of the thread name, and is missing when there are fewer than four |
| Reconstruct.CollectEvents | scrapper.py:188-214 | the first pass fails exactly when some "via Tasks" message has fewer than four `/`-segments, with the error of the first such message; otherwise it returns the created records and the four sets defined on the messages |
| Reconstruct.NewTask | scrapper.py:195-201 | no contract of its own; specified by Reconstruct.CreatedTasksFromNotices and Reconstruct.CreatedTasksOpen |
| Reconstruct.CreatedTasksFromNotices | scrapper.py:194-202 | the created records are, in order, one for every "Created" notification, duplicates included |
| Reconstruct.CreatedTasksOpen | scrapper.py:195-201 | every created record is OPEN and carries the given space name |
| Reconstruct.EventAssigneeHasNoAt | scrapper.py:192 | the assignee recorded for a notification never holds an `@` |
| Reconstruct.AssignedNamesOfEvents | scrapper.py:203-228 | when no task id holds an `@`, the names read back from the keys for an id are exactly the assignees of its "Assigned" notifications |
| Reconstruct.ApplyAssignments | scrapper.py:222-229 | only the assignee changes; it stays when no key has the task's id, and otherwise becomes the name of one of the matching keys |
| Reconstruct.FirstIndex | scrapper.py:220 | `list.remove` removes the first record equal to the one given |
| Reconstruct.Without | scrapper.py:220 | the list after `remove`: the same records with the one at the found index taken out |
| Reconstruct.Reconcile | scrapper.py:216-234 | the result is an order-preserving subsequence of the created records; each is its original, reconciled exactly when the loop visited it; every removed record had a deleted id; with distinct records, a record is removed exactly when it was visited and its id deleted |
| Reconstruct.Visit | scrapper.py:217-234 | one pass of the loop body marks the next original record visited and keeps the loop's invariant: the list is an order-preserving image of the originals, visited records are reconciled, unvisited ones untouched, removed ones had deleted ids; fewer records lie ahead of the index |
| Reconstruct.GetTasks | scrapper.py:180-236 | `get_tasks` raises on the first malformed thread name and otherwise satisfies the reconciliation outcome over the records and sets of the first pass |
| Reconstruct.VisitedExactly | scrapper.py:217-220 | a record is visited exactly when it is the first or the previous one was not a visited record with a deleted id |
| Reconstruct.VisitsSkip | scrapper.py:217-220 | the record after a visited record with a deleted id is never visited |
| Reconstruct.DeletedSurvivorWasSkipped | scrapper.py:217-220 | with distinct records, a surviving record with a deleted id came right after a visited record with a deleted id |
| Reconstruct.DeletionComplete | scrapper.py:217-220 | with distinct records and no two consecutive deleted ids, no record with a deleted id survives |
| Reconstruct.ConsecutiveDeletions | scrapper.py:217-220 | in a list of exactly two records, with different creation times, whose ids were both deleted, the first is removed and the second survives unchanged |
| Reconstruct.StatusOutcome | scrapper.py:231-234 | a record ends COMPLETED exactly when it was visited and its id is in the completed set; completion beats re-opening |
| Reconstruct.EventsForOtherTasksInert | scrapper.py:219-234 | events whose ids match no created record change nothing |
| People.NamesOf | scrapper.py:165-173 | no contract of its own; specified by People.AddNamesOf and People.NamesAreSendersAndMentions |
| People.AddNamesOf | scrapper.py:164-173 | one message adds its sender's display name, and for a "via Tasks" text with an `@` the mention cut at " to" |
| People.AddPeopleOf | scrapper.py:164-173 | the loop over a space's messages adds the names of all of them |
| People.GetPeople | scrapper.py:153-178 | the people are the names collected from the spaces of type "SPACE", and no others |
| People.NamesAreSendersAndMentions | scrapper.py:164-173 | the names collected from messages are their senders' names together with their mentions |
| People.MentionedNamesShape | scrapper.py:171-172 | a mentioned name holds no `@`, `(` or " to" and is stripped |
| People.AssigneesArePeople | scrapper.py:168-173 | a task assignee without " to" is one of the people collected from the same messages |
| Filter.NormalizedPeople | scrapper.py:265 | no contract of its own; specified by Filter.KeptMembership and Filter.ListedSpellingsKept |
| Filter.Allowed | scrapper.py:271-272 | no contract of its own; specified by Filter.KeptMembership and Filter.SelectIsSubsequence |
| Filter.FilterTasks | scrapper.py:262-274 | the loop returns the tasks whose normalised assignee is a normalised listed person and whose space is listed, in order |
| Filter.SelectIsSubsequence | scrapper.py:268-273 | the kept tasks come from increasing positions of the input, each passes the test, and every task that passes is kept |
| Filter.KeptMembership | scrapper.py:262-274 | a task is kept exactly when it is an input task, its normalised assignee is a normalised listed person and its space is listed |
| Filter.KeptIdempotent | scrapper.py:262-274 | filtering twice with the same lists is filtering once |
| Filter.ListedSpellingsKept | scrapper.py:265-273 | an input task whose assignee normalises like a listed person, in a listed space, is in the filtered list |
| Report.AnalyzeTasks | scrapper.py:238-260 | the report has the four columns, its rows are sorted by assignee, each row holds its assignee's received and completed counts, every assignee has a row, and there are no rows exactly when there are no tasks |
| Report.Tally | scrapper.py:247-251 | no contract of its own; specified by Report.TallyLookup, Report.ReceivedSum and Report.AnalyzeTasks |
| Report.Rate | scrapper.py:254 | no contract of its own; specified by Report.RowBounds |
| Report.TallyLookup | scrapper.py:247-251 | the row of a name holds that name's received and completed counts, and there is a row exactly for the names that received a task |
| Report.RowBounds | scrapper.py:247-254 | every row has received at least one task and completed at most that many, so its rate has a non-zero denominator and is at most 1 |
| Report.RowIsAssignee | scrapper.py:247 | every row belongs to the assignee of some task |
| Report.NoCompletedIsZero | scrapper.py:251 | an assignee without a completed task has a completed count of 0 |
| Report.ReceivedSum | scrapper.py:247 | the received counts add up to the number of tasks |
| Report.CompletedAtMostReceived | scrapper.py:247-248 | nobody completed more tasks than they received |
| Report.BelowTransitive | scrapper.py:247 | the order of the rows, Python's string order, is transitive |
| Report.BelowTotal | scrapper.py:247 | two different names are always ordered one way or the other |
| Format.Get | scrapper.py:318-319 | `dict.get(key)`: a value exactly when the key is present, and then the stored one |
| Format.GetOr | scrapper.py:315-319 | `dict.get(key, default)`: the stored value when the key is present, otherwise the default |
| Format.FormatTaskInfo | scrapper.py:311-320 | formatting fails exactly when the record has no id; otherwise it keeps the id, takes the assignee or "Unassigned", the status or "UNKNOWN", the given space, the creation time if present, and the last update time if present, else the creation time |
| Format.TaskToDict | scrapper.py:195-201 | a `get_tasks` record as the dictionary the program builds: exactly the keys `id`, `assignee`, `status`, `created_time` and `space_name` |
| Format.FormatReconstructed | scrapper.py:311-320 | a record from `get_tasks` formats with its own id, assignee and status, and its creation time as both times |

## Left out

- OAuth credentials and the token file (`get_credentials`): I/O.
- The Chat and People API calls and their pagination (`get_spaces`, `get_messages_for_space`, `get_user_display_name`), including the date filter of the remote query. The messages and spaces are parameters instead.
- `retry_on_error`: sleeping and exception-driven retry around network calls.
- JSON and CSV persistence (`save_to_json`, `load_from_json`, `generate_report`), logging, and the `argparse`/`main` dispatch.
- `get_default_dates` and `convert_to_rfc3339`: they read the clock and use `datetime` parsing. Times are opaque strings.
- `get_formatted_tasks`, and the per-space exception swallowing in `get_people`: API plumbing around the modelled functions.
- The pandas DataFrame and the floating-point `completion_rate`: the report is a list of rows, and the rate is the pair (completed, received).
- Names.AsciiResidue: NFKD decomposition is tabulated for ASCII and the Latin-1 Supplement only; any other non-ASCII character is modelled as leaving nothing ASCII behind.
- A message without `thread.name`, or a "Created" notification without `createTime`: both are fields of every modelled message, so the `KeyError` that `get_tasks` raises for them (scrapper.py:190, :199) and re-raises (:214) is not modelled. Only a thread name with fewer than four segments raises.
- A message without `text` is modelled as having empty text, which `get_tasks` and `get_people` treat alike. A message without a sender or a display name has a missing `senderName`.
- A task record's dictionary has only string values in `Format`; `get_tasks` records always have all five keys.
- People.GetPeople: returns the set of names; `get_people` returns `list(people)`, whose order follows Python's set iteration, which is not modelled. Nothing in the modelled code depends on that order.
- Reconstruct.ApplyAssignments: the iteration order of the reassignment set is not modelled, so the contract only says the final name is one of the matching names, not which.
- Reconstruct.Reconcile: the exact set of removed records is stated only when the records are pairwise distinct, as distinct creation times make them. With equal records, `list.remove` may take out an earlier copy; the contract then states only that every removed record had a deleted id.
- Report.AnalyzeTasks: the row order is ascending by code point, the order of a pandas group-by on string keys; the index handling of `reset_index` and `rename` is not modelled.
