# Assignment bot: store, listing and deadline text

A Dafny model of the logic under a chat bot that keeps "assignment" records:
named deadlines with details. The repository has two variants.

- `bot.py` is the slash-command bot. Its dict of assignments is persisted in
  `data/assignments.json`. Every command loads the whole dict, changes it and
  writes all of it back. A record holds `deadline`, `details`, `priority`
  (clamped to 1..5), `added_by` and `added_at`. `assignment_list` splits the
  records into upcoming and past, sorts each part by deadline, and cuts the
  result with `[:limit]`. The relative deadline style renders
  "N days ago", "Today", "Tomorrow" or "In N days".
- `bot-code.py` is the prefix-command bot. It keeps one in-memory dict that
  `add_assignment`, `remove_assignment` and `show_assignments` work on.

Modules, one per file:

- `PyDict` (`pydict.dfy`): a Python dict as the sequence of its items in
  iteration order, with unique keys. `Set` overwrites a key in place or
  appends a new one. `Delete` removes a key. `ToMap` is the view without order.
- `Text` (`text.dfy`): Python's `str(int)`, `"%02d"`-style padding,
  `sep.join` and `str.split` on one character, with their round trips.
- `AssignmentManager` (`assignment_manager.dfy`): the record, the backing file
  (`Missing`, `Corrupt` or `Json(items)`), loading, the priority clamp, the
  star string and the RELATIVE deadline style.
- `Listing` (`listing.dfy`): partition, stable sort, concatenation and Python
  slicing.
- `SlashCommands` (`slash_commands.dfy`): class `AssignmentBot`, whose one
  field is the backing file. Its methods are the three command handlers.
- `PrefixCommands` (`prefix_commands.dfy`): class `AssignmentBoard`, whose one
  field is the module-level dict. Its methods are the three commands.
- `Wrappers` (`wrappers.dfy`): `Option`.

Modelling choices:

- Time in `bot.py` is an integer number of microseconds, the resolution of
  Python's `datetime`. `timedelta.days` is the floor of the difference
  divided by one day. For a positive divisor that is Dafny's `/`, negative
  differences included.
- `strptime` is passed in as a function `parse` from text to
  `Option<...>`. `None` stands for the `ValueError` it raises.
- The clock reading `datetime.now()` is passed in as a parameter `now`.
- In `bot.py` a deadline is kept as the integer the parse gave. The
  `isoformat`/`fromisoformat` round trip through JSON is assumed lossless.
- In `bot-code.py` the deadline is a `datetime` value that is later printed
  with `str()`. It is modelled as its fields, and `str()` as
  `YYYY-MM-DD HH:MM:00`.
- Python's `list.sort(key=...)` is modelled by its result: a stable sort by
  deadline (`Listing.SortByDeadline`, an insertion sort). Only one stable sort
  by a given key exists, so the result is the same as Timsort's.

Python behaviour worth noting:

- A negative `limit` does not give an empty list. `[:limit]` keeps all but
  the last `-limit` items, and gives an empty list only when `-limit` is at
  least the number of items.
- `limit = 0` after a non-empty partition sends the "Your Assignments" reply
  with no entries. It does not take either "no assignments" branch.
- The star count in the "Assignment Added" reply uses the priority as typed,
  not the clamped one that is stored.

## Model

| member | source | states |
|---|---|---|
| `PyDict.Set` | bot.py:110-116 | `d[k] = v` keeps keys unique. The map view is the old one with `k` bound to `v`. An existing key keeps its position. A new key is appended last. |
| `PyDict.Delete` | bot.py:212-213 | `del d[k]` keeps keys unique. The map view loses exactly `k`. The remaining keys keep their order. |
| `PyDict.SetTwice` | bot.py:110-116 | Assigning one name twice equals assigning only the second value, in the place the first one took. |
| `PyDict.DeleteThenSetMovesToEnd` | bot-code.py:20 | Deleting a key and then adding it again moves it to the end of iteration order. |
| `Text.DecimalString` | bot.py:60 | `str(n)` is a non-empty string of digits with no leading zero unless `n` is 0. |
| `Text.DecimalRoundTrip` | bot.py:66 | Reading the decimal text of `n` back gives `n`. |
| `Text.ZeroPadded` | bot-code.py:32 | Zero padding gives digits that denote `n`. When `n` fits, the text is exactly `width` characters. |
| `Text.JoinWith` | bot-code.py:19 | `sep.join(parts)`. Its properties are stated by `Text.SplitJoinRoundTrip` and `PrefixCommands.JoinedDetails`: no parts give "", and splitting gives the parts back when none holds the separator. |
| `Text.SplitJoinRoundTrip` | bot-code.py:19 | `split(sep)` undoes `sep.join(parts)` when no part contains the separator. |
| `AssignmentManager.LoadAssignments` | bot.py:33-41 | A missing or undecodable file loads as the empty dict. A JSON file loads as exactly its stored dict, with unique keys when the file is well formed. |
| `AssignmentManager.ClampPriority` | bot.py:113 | The stored priority is always in 1..5. It is 1 below the range, 5 above it, and the input inside it. |
| `AssignmentManager.PriorityStars` | bot.py:132 | `"⭐" * priority` has `priority` stars, or none for a count below one. |
| `AssignmentManager.StarsMatchStoredPriority` | bot.py:132 | The stars shown equal the stored priority exactly when the typed priority was in 1..5. |
| `AssignmentManager.FormatRelative` | bot.py:56-66 | "Today" exactly when the deadline is 0 to under 24 h ahead. "Tomorrow" exactly when it is 24 h to under 48 h ahead. |
| `AssignmentManager.Abs` | bot.py:60 | `abs(x)` is the non-negative one of `x` and `-x`. |
| `AssignmentManager.RelativePast` | bot.py:59-60 | A deadline more than n-1 and at most n days past renders as "n days ago". |
| `AssignmentManager.RelativeFuture` | bot.py:65-66 | A deadline between n and n+1 days ahead, with n >= 2, renders as "In n days". |
| `AssignmentManager.RelativePastText` | bot.py:59-60 | For any past deadline the text is a number n >= 1 then " days ago", where n is the elapsed days rounded up. |
| `AssignmentManager.RelativeFutureText` | bot.py:61-66 | For a deadline 2 or more days ahead the text is "In n days", where n >= 2 is the whole days ahead. |
| `AssignmentManager.RelativeExamples` | bot.py:56-66 | Sample values: 2 days past gives "2 days ago", 2 hours past gives "1 days ago", 6 h ahead gives "Today", 1 day ahead gives "Tomorrow", 9 days ahead gives "In 9 days". |
| `Listing.Upcoming` | bot.py:169-172 | Every upcoming item is a stored item with `deadline >= now`. |
| `Listing.Past` | bot.py:173-174 | Every past item is a stored item with `deadline < now`. |
| `Listing.UpcomingKeepsOrder` | bot.py:169-172 | For every deadline `t >= now`, the upcoming items due at `t` are exactly the stored ones due at `t`, in iteration order. For `t < now` there are none. |
| `Listing.PastKeepsOrder` | bot.py:173-174 | For every deadline `t < now`, the past items due at `t` are exactly the stored ones due at `t`, in iteration order. For `t >= now` there are none. |
| `Listing.PartitionIsPermutation` | bot.py:169-174 | Together the two parts are a permutation of the stored items. |
| `Listing.PartitionMembership` | bot.py:169-174 | An item is upcoming if and only if it is stored and not yet due. It is past if and only if it is stored and overdue. |
| `Listing.SortByDeadline` | bot.py:177-178 | The sorted part is in non-decreasing deadline order and is a permutation of its input. |
| `Listing.SortStable` | bot.py:177-178 | For every deadline, the items due at that time keep their iteration order, so the sort is stable. |
| `Listing.Take` | bot.py:191 | `s[:limit]` is a prefix. For `limit >= 0` it holds `limit` items, or all of them if there are fewer. For `limit < 0` it drops the last `-limit` items, or is empty if there are not that many. |
| `Listing.TakeEdges` | bot.py:191 | `limit = 0` gives an empty result. A negative limit smaller in size than the list gives a non-empty one. |
| `Listing.Ordered` | bot.py:177-180 | `upcoming + (past if show_all else [])` after the sorts. Its properties are stated by the `Ordered...` lemmas below. |
| `Listing.OrderedSplit` | bot.py:180 | The list before the cut is the sorted upcoming part followed by the sorted past part (only with `show_all`). |
| `Listing.OrderedIsPermutation` | bot.py:177-180 | With `show_all`, the list before the cut holds every stored item once. Without it, the list holds exactly the upcoming ones. |
| `Listing.OrderedUpcomingFirst` | bot.py:180 | The first items are the upcoming ones (`deadline >= now`). Every later item is overdue. |
| `Listing.OrderedPartsSorted` | bot.py:177-180 | Each of the two parts of the list is in deadline order. |
| `Listing.OrderedEmpty` | bot.py:180-182 | The list before the cut is empty exactly when the store is empty (`show_all`) or when no item is due at or after `now`. |
| `Listing.OrderedTiesKeepDictOrder` | bot.py:169-180 | Items sharing a deadline are listed in the dict's iteration order: all of them when the deadline is upcoming or `show_all` is set, none otherwise. |
| `SlashCommands.AssignmentBot.SaveAssignments` | bot.py:44-47 | The whole dict replaces the file's contents. Loading after a save gives back the saved dict. |
| `SlashCommands.AssignmentBot.AddAssignment` | bot.py:106-143 | If the deadline text does not parse, the reply is "Invalid Date Format" and the file is unchanged and not saved. Otherwise the file becomes the loaded dict with `name` set to the new record (clamped priority, `details or ""`, author, clock reading). The reply carries that record, whether details are shown, and stars for the typed priority. |
| `SlashCommands.AssignmentBot.RemoveAssignment` | bot.py:211-227 | A present name is deleted, the dict is saved, and the reply is "Removed". An absent name leaves the file as it was, with reply "Not Found". |
| `SlashCommands.AssignmentBot.ListAssignments` | bot.py:155-191 | An empty store gives "No Assignments". An empty ordered list gives "No Upcoming Assignments". Otherwise the reply shows the ordered list cut by `[:limit]`. |
| `SlashCommands.AssignmentBot.RemoveTwice` | bot.py:211-227 | A second removal of the same name always reports not found. |
| `SlashCommands.AssignmentBot.AddTwice` | bot.py:110-118 | Two adds under one name leave one entry holding the second record. |
| `PrefixCommands.DateTimeText` | bot-code.py:21 | `str(deadline_date)` as `YYYY-MM-DD HH:MM:00`. `PrefixCommands.DateTimeTextRoundTrip` states that it is 19 characters, has no line break and reads back as its fields. |
| `PrefixCommands.DateTimeTextRoundTrip` | bot-code.py:32 | The printed deadline has 19 characters and no line break. Parsing it back gives the stored fields. |
| `PrefixCommands.EntryLine` | bot-code.py:32 | The line written for one entry. `PrefixCommands.ShowLines` states that each entry gives one such line in iteration order. |
| `PrefixCommands.ShowText` | bot-code.py:30-32 | The response for a non-empty dict: the header, then each entry's line with a line break. `PrefixCommands.ShowLines` states how it splits at line breaks. |
| `PrefixCommands.ShowLines` | bot-code.py:30-32 | If no name or details text holds a line break, splitting the response at breaks gives the header, one line per entry in iteration order, and the empty rest. |
| `PrefixCommands.JoinedDetails` | bot-code.py:19 | No detail tokens give "". Splitting the joined details at spaces gives back the tokens when none contains a space. |
| `PrefixCommands.AssignmentBoard.constructor` | bot-code.py:9 | The dict starts empty. |
| `PrefixCommands.AssignmentBoard.AddAssignment` | bot-code.py:16-21 | A deadline that fails to parse raises before the dict changes. Otherwise `name` is set to the parsed deadline and the tokens joined by spaces: an existing name keeps its place, a new one goes last. The confirmation text is returned. |
| `PrefixCommands.AssignmentBoard.ShowAssignments` | bot-code.py:24-34 | An empty dict gives exactly "No assignments added yet.". Otherwise the header then one line per entry, in iteration order. The dict is not modified. |
| `PrefixCommands.AssignmentBoard.RemoveAssignment` | bot-code.py:37-43 | A present name is deleted and nothing else changes. An absent name leaves the dict unchanged and reports not found. |

## Left out

- Chat platform integration: the bot object, command registration, `on_ready` and `tree.sync`, the ways replies are sent, embed titles and colours, ephemeral flags, the footer with the user's display name, and `bot.run` with its token. These are calls into the chat SDK and are not logic of the core.
- The "Due Date" field of the add reply uses the LONG style. LONG needs weekday and month names from `strftime`'s calendar. The SHORT style is never used by any handler. Both are left out; only RELATIVE is modelled.
- `format_assignment` and the "Showing N assignments" text: the markdown and emoji rendering of each listed entry. `ListAssignments` returns the entries to show. The relative text of each deadline is `FormatRelative`. In the source each rendered entry reads the clock again. This model has one clock reading per command.
- File system effects: creating `data/`, opening the file, `json.load`/`json.dump`, a JSON value that is not an object, and an unreadable file. The file is modelled as `Missing`, `Corrupt` or a dict. Concurrent commands and the lost update between overlapping load/save pairs are left out: each command is one sequential step.
- The `strptime` format `%Y-%m-%d %H:%M` and its validation, and `datetime.now()`. Both are parameters.
- `isoformat` and `fromisoformat` between the record and JSON are assumed to be inverse.
- The defaults of `assignment_list`, `show_all=False` and `limit=MAX_ASSIGNMENTS_DISPLAY` (10), are applied by the chat platform. `ListAssignments` takes both as parameters, and the caller supplies the defaults.
- A `priority` of `None` would make `max` raise `TypeError`. The chat platform always supplies an integer (default 3), so the model takes an `int`.
- In `bot-code.py` a failed parse raises out of the command, and the chat framework reports the error. The model returns `RaisedValueError` and the dict is unchanged. What the framework does with the error is left out.
- The in-place steps of Python's `list.sort` (Timsort) are left out: the sort is modelled by its stable result.
