# Task lists and character logic of the game bot, in Dafny

This project models three parts of a bot that plays an online crafting game
through its HTTP API, and proves properties of the model.

- **The persisted task queue** (`work/task_queue.py`). An ordered list of
  task dicts lives in one JSON file. Create, update and delete re-read the
  file and rewrite it only when they succeed; a rejected call writes
  nothing. Clear writes `[]` without reading, and read never writes. The
  operations are: append at the end, 1-based update and delete with a
  bounds check, and clear. A file
  that does not decode reads as the empty queue. `TaskQueue.Queue` is a
  class whose one field is the file, given by the value it decodes to.
- **The list logic of the task-manager window**
  (`work/tasks/task_manager.py`), without its Tk widgets:
  - `load_json` and its fallback to `[]`;
  - adding a task at the top, guarded by the dialog's "both fields filled" test;
  - removing every task behind a row, found by splitting the row key
    `"role - code"` back apart;
  - collapsing duplicate tasks into per-key counts and row labels;
  - removing one banned or current order by `list.remove`, with a fallback
    that compares text forms (`json.dumps` of a dict, the string itself for
    a string).

  `TaskManager.TaskManagerApp` holds the task list, the two maps from file
  name to order list, and a log of the `save_json` calls.
- **The decision and counting logic of `CharacterAPI`** (`work/api.py`).
  Every remote call becomes an input:
  - tiles, bank pages, the inventory and the utility slots are sequences
    or records;
  - gather and fight answers are finite sequences, with None for an empty
    answer, and for a `gather` call that raised (it is caught there);
  - the success of a bank withdrawal is an oracle `succeeds(i)`.

  The parts modelled:
  - the nearest tile;
  - the gather counter that follows the first item code observed;
  - the fight loop that collects drops and allows three losses;
  - withdrawal sizing;
  - bank page concatenation;
  - item scoring and comparison;
  - utility-slot choice and stack capping;
  - the small guards of `get_item`, `move_character`, `deposit_to_bank`
    and `recycle`.

Two values are shared. `JsonRecords.Entry` is a decoded list element, a
string or a dict, with Python's `==` (`PyEq`) and its text form (`Form`).
`Wrappers.Option` stands for Python's `None` and for error paths.

The remote loops read a finite sequence of answers. When the answers run
out before the loop would stop, `gather` and `fight_drop` end with
`OutOfResponses`: the program would have called the server again. This is
how the model stays terminating without a fuel bound.

## Model

| member | source | states |
|---|---|---|
| TaskQueue.Queue.constructor | work/task_queue.py:8-13 | an existing file is kept; a missing one becomes `[]`, so the queue reads as empty |
| TaskQueue.Queue.ReadTasks | work/task_queue.py:15-22 | the queue is the decoded list, or empty when the file does not decode |
| TaskQueue.Queue.CreateTask | work/task_queue.py:29-35 | a dict makes the file the old queue plus the task at the end; a non-dict reports the `ValueError` and leaves the file unchanged |
| TaskQueue.CreatesKeepInsertionOrder | work/task_queue.py:29-35 | successive `create_task` calls leave the accepted dicts after the existing tasks, in creation order (FIFO); rejected values leave no trace |
| TaskQueue.Replaced | work/task_queue.py:48-49 | `tasks[i-1] = t` keeps the length, puts `t` at 0-based `i-1` and keeps every other element |
| TaskQueue.Queue.UpdateTask | work/task_queue.py:43-53 | a non-dict is rejected with the file unchanged; an index in `1..len` replaces exactly that task; any other index reports "Invalid task index" and writes nothing |
| Lists.DropAt | work/task_queue.py:59 | `pop(k)` drops one element: length minus one, earlier elements in place, later ones moved up by one, and the multiset loses exactly the popped element |
| TaskQueue.Queue.DeleteTask | work/task_queue.py:55-63 | an index in `1..len` returns the popped task and writes the queue without it (order kept); any other index writes nothing and returns no task |
| TaskQueue.Queue.ClearTasks | work/task_queue.py:65-67 | the file holds `[]` and the queue is empty |
| TaskManager.LoadJson | work/tasks/task_manager.py:27-36 | the result is `[]` unless the file exists, is not blank and decodes, in which case it is the decoded list |
| TaskManager.TaskManagerApp.constructor | work/tasks/task_manager.py:95-97 | the task list and both order maps are what `load_json` reads; nothing has been written |
| TaskManager.TaskManagerApp.RefreshData | work/tasks/task_manager.py:312-316 | every list is read again and nothing is written |
| TaskManager.TaskManagerApp.AddTask | work/tasks/task_manager.py:264-267 | the new task is at index 0, the old list follows unchanged, the task file is saved, and the order lists are untouched |
| TaskManager.TaskManagerApp.OnAdd | work/tasks/task_manager.py:64-69 | a task is added exactly when role and code are both non-empty; otherwise nothing changes |
| TaskManager.FindFrom | work/tasks/task_manager.py:271 | the first occurrence of the separator at or after a position, or None when there is none from that position on |
| TaskManager.Split | work/tasks/task_manager.py:271 | `str.split` gives at least one piece |
| TaskManager.SplitJoin | work/tasks/task_manager.py:271 | joining the pieces of a split with the separator gives back the string |
| TaskManager.KeySplitsBack | work/tasks/task_manager.py:271 | the key of (role, code) splits into exactly [role, code] when neither contains " - " and the role does not end in " -" |
| TaskManager.KeyOfRoleEndingInDashSplitsElsewhere | work/tasks/task_manager.py:271 | role "a -" and code "b" contain no " - ", yet their key splits into "a" and "- b" |
| TaskManager.Without | work/tasks/task_manager.py:272 | the filter never grows the list and keeps only tasks of the list that do not match both role and code |
| TaskManager.WithoutKeepsOthers | work/tasks/task_manager.py:272 | every task that does not match is kept as often as it occurred |
| TaskManager.WithoutDistributes | work/tasks/task_manager.py:272 | filtering a concatenation concatenates the filtered parts, so the order of the kept tasks is preserved |
| TaskManager.RemoveButtonRemovesItsRow | work/tasks/task_manager.py:269-272 | under the round-trip conditions, the button of a row splits its key into two pieces and filters out exactly that row's role and code |
| TaskManager.TaskManagerApp.RemoveTask | work/tasks/task_manager.py:269-273 | a key that splits into two pieces filters out every task with that role and code and saves the task file; any other key (the unpacking raises) changes nothing |
| TaskManager.Distinct | work/tasks/task_manager.py:243-249 | the dict's keys contain exactly the elements of the input with no repetition |
| TaskManager.OccurrencesOfAbsent | work/tasks/task_manager.py:246 | a key that never occurs has count 0 |
| TaskManager.OccurrencesAppend | work/tasks/task_manager.py:246 | one more key adds one to its own count and nothing to any other count |
| TaskManager.TotalCountAppend | work/tasks/task_manager.py:243-246 | one more task adds 1 to the total count over distinct keys when its key is among them, and 0 otherwise |
| TaskManager.CountsSumToLength | work/tasks/task_manager.py:243-246 | the counts of the distinct keys sum to the number of tasks |
| TaskManager.CountStep | work/tasks/task_manager.py:244-246 | one `task_counts[key] += 1` turns the keys and counts of a prefix into those of the prefix plus the key |
| TaskManager.CountKeys | work/tasks/task_manager.py:243-246 | the dict has the distinct keys in order of first occurrence, and each count is the key's number of occurrences |
| TaskManager.Decimal | work/tasks/task_manager.py:254 | `str(n)` has at least one digit |
| TaskManager.DecimalRoundTrip | work/tasks/task_manager.py:254 | `str(n)` is decimal digits without a leading zero that read back as `n` |
| TaskManager.Label | work/tasks/task_manager.py:254 | the row text starts with the key, and is the key alone exactly when the count is at most 1 (" (n)" is shown only for n > 1) |
| TaskManager.RowLabels | work/tasks/task_manager.py:249-255 | one label per key, in key order, each the label of that key's count |
| TaskManager.TaskManagerApp.RenderTasks | work/tasks/task_manager.py:237-255 | the rows are the distinct keys of the tasks in order of first occurrence, each with its number of occurrences and its label |
| TaskManager.IndexOfEq | work/tasks/task_manager.py:279 | `list.remove` finds the first element equal (Python `==`) to the value, or none when no element is equal |
| TaskManager.ListRemove | work/tasks/task_manager.py:279 | `list.remove` fails (`ValueError`) exactly when no element is equal to the value |
| Lists.IndexOf | work/tasks/task_manager.py:285-287 | the first position holding the value, and None exactly when no position holds it |
| TaskManager.OrderRemoval | work/tasks/task_manager.py:277-290 | nothing is removed exactly when no entry equals the order and no entry has its text form; otherwise exactly one entry goes and nothing else is added |
| TaskManager.OrderRemovalTakesFirstEqual | work/tasks/task_manager.py:279 | when some entry equals the order, the first such entry is the one removed |
| TaskManager.OrderRemovalFallsBackToForm | work/tasks/task_manager.py:282-290 | with no equal entry, the entry removed is the first one equal to the first entry whose text form matches; it lies at or before that entry |
| TaskManager.FallbackRemoval | work/tasks/task_manager.py:284-289 | once the fallback loop has found its entry, the removal is `list.remove` of that entry, which succeeds |
| TaskManager.FindByForm | work/tasks/task_manager.py:285-290 | the fallback loop stops at the first entry whose text form is the order's, or finds none |
| TaskManager.RemoveOrder | work/tasks/task_manager.py:277-290 | the remaining list and the removed flag are those of `OrderRemoval`: the list is unchanged when nothing matches |
| TaskManager.TaskManagerApp.RemoveBannedOrder | work/tasks/task_manager.py:276-292 | only the given file's banned list changes, by `OrderRemoval`; it is saved only when an entry was removed |
| TaskManager.TaskManagerApp.RemoveCurrentOrder | work/tasks/task_manager.py:294-310 | the same for the current-order lists |
| ItemScoring.GetItem | work/api.py:28-42 | code and effects are kept; a set level above 0 is kept and any other set level becomes 1; an unset level with a recipe is the recipe's level (1 when the recipe has none); with no recipe it is 20 for old_boots, 25 for wooden_club and 1 otherwise |
| ItemScoring.Lookup | work/api.py:363 | the value of a dict key, and None exactly when no entry has the key |
| ItemScoring.After | work/api.py:349 | the rest of a string after a prefix, present exactly when the string starts with it |
| ItemScoring.AfterIsUnique | work/api.py:353 | `s == prefix + e` exactly when the rest of `s` after the prefix is `e` |
| ItemScoring.AttackedElementIsTheMatch | work/api.py:360 | an effect code matches `attack_e`, `dmg_e` or `boost_dmg_e` for exactly one element `e`, the one its prefix names |
| ItemScoring.ResistanceValueClosedForm | work/api.py:349-355 | with distinct element names, the resistance loop adds `value * 7` once when the named element's attack is positive, and nothing otherwise |
| ItemScoring.AttackValueClosedForm | work/api.py:358-365 | with distinct element names, the attack loop adds `max(value - resistance, 0) * 7` for the named element, unless the weapon has elements and lacks it |
| ItemScoring.AttackValueOfNoMatch | work/api.py:358-365 | the attack loop adds nothing for a code that names no element |
| ItemScoring.DiffersAt | work/api.py:349-358 | a code that differs from a prefix at some position does not start with it |
| ItemScoring.EffectValueOfNamedKinds | work/api.py:320-346 | hp adds its value; dmg adds `value * 7 * len(weapon elements)`; restore and heal add `value * 7`; prospecting and wisdom add `value / 10` |
| ItemScoring.EffectValueOfResistance | work/api.py:349-355 | a `res_e` effect is worth `value * 7` when the attack of `e` is positive, and nothing otherwise |
| ItemScoring.EffectValueOfAttackKind | work/api.py:344-358 | a code of none of the named kinds that starts like an attack effect reaches the attack loop |
| ItemScoring.EffectValueOfAttack | work/api.py:358-365 | an attack effect is worth `max(value - resistance, 0) * 7` for its element when the monster lists that element and the weapon does not rule it out, and nothing otherwise |
| ItemScoring.CalculateItemValue | work/api.py:312-366 | the loop's total is the sum of what each effect is worth |
| ItemScoring.HpOnlyValue | work/api.py:320-322 | an item with only hp effects is worth the sum of their values against any monster |
| ItemScoring.ItemBetter | work/api.py:297-311 | true exactly when the item's level is at most the character's and its value exceeds both the best item's (0 without one) and 0 |
| ItemScoring.ItemBetterIsStrict | work/api.py:297-311 | of two items at most one is better than the other, and no item is better than itself |
| MapSearch.Distance | work/api.py:412 | the Manhattan distance is 0 exactly when the tile is where the character stands |
| MapSearch.FindClosestContent | work/api.py:395-421 | None exactly when no tile has the content; otherwise the coordinates of a matching tile no farther than any other match and strictly nearer than every earlier match |
| MapSearch.MoveRequest | work/api.py:890-892 | no move is sent exactly when the character already stands on (x, y); otherwise the move to (x, y) |
| Bank.PageCount | work/api.py:428-429 | at least page 1 is read; a missing "pages" and a count below 1 (the loop never runs) both mean exactly 1 page; a positive page count is used as given |
| Bank.GetBankContents | work/api.py:423-434 | the items of pages 1 to the page count of the first answer, in page order |
| Bank.PagesExtend | work/api.py:429-433 | reading more pages only appends: the items of the first pages stay in front |
| Bank.PageInResult | work/api.py:423-434 | every page's items form a contiguous block of the result, after those of the earlier pages |
| Bank.ListUsed | work/api.py:437-438 | a given non-empty list is used; None or an empty list means the bank is read |
| Bank.TakeOf | work/api.py:442-443 | the take is at most 100, the space and the bank quantity, and equal to one of them |
| Bank.WithdrawAll | work/api.py:436-448 | the result is between 0 and 100 and, when positive, within the space; it is 0 exactly when no entry has the code, a positive take and a successful withdrawal; otherwise it is the take of the first such entry |
| Bank.QuantityRequest | work/api.py:467-476 | `deposit_to_bank` and `recycle` send nothing exactly when the quantity is not positive, and send (code, quantity) otherwise |
| Equipment.ChooseSlot | work/api.py:550-562 | utility1 when it holds the code or is empty; else utility2 under the same test; else none |
| Equipment.EquipQuantitiesFit | work/api.py:564-571 | each equip call asks for a non-zero quantity that fits in the slot, beside what the slot held, and comes from one stack with the code |
| Equipment.TwoStacksOverfill | work/api.py:564-571 | two stacks of 60 into an empty slot ask for 60 and 60, more than the slot holds together |
| Equipment.EquipStep | work/api.py:564-571 | one stack more: skipped when its code differs, ends the loop when its capped quantity is 0, and is equipped otherwise |
| Equipment.EquipFrom | work/api.py:564-577 | the loop's equip calls are those `EquipQuantities` specifies |
| Equipment.EquipUtility | work/api.py:549-577 | nothing is equipped when no slot accepts the code; otherwise the chosen slot and the specified calls, each non-zero and fitting the slot |
| ActionLoops.TallyAppend | work/api.py:696-697 | one more item adds its quantity to the count of its own code only |
| ActionLoops.HarvestAppend | work/api.py:676 | one more answer appends its items after the earlier ones |
| ActionLoops.GatheredAppend | work/api.py:693-697 | once an item has been seen the counted code is fixed: later items add exactly when they carry it |
| ActionLoops.GatheredStep | work/api.py:693-697 | one item more fixes the counted code if none was fixed, and adds its quantity when it has that code |
| ActionLoops.CountItems | work/api.py:692-697 | the inner loop leaves the first code and the count of all items seen so far, this answer's included |
| ActionLoops.StillShort | work/api.py:664 | a count still short after `n` answers extends the "still short" prefix by one |
| ActionLoops.AnsweredUpTo | work/api.py:671-672 | the first `n` answers were given, and with answer `n` given so were the first `n + 1` |
| ActionLoops.HarvestStep | work/api.py:676 | answer `n` appends its items after those of the earlier answers |
| ActionLoops.Gather | work/api.py:652-703 | False without asking when the target is not positive; True exactly when the last answer consumed lifts the count of the first code to the target; False on a failed answer; the count stayed short before every answer |
| ActionLoops.LossesAdd | work/api.py:840-843 | the loss counter is never reset: losses over two stretches of fights add up |
| ActionLoops.LossesAtMostFights | work/api.py:840-843 | the losses never exceed the number of fights |
| ActionLoops.ThirdLossFailsDespiteDrop | work/api.py:805-851 | a third loss ends the loop with False even when that fight brought the last drop needed |
| ActionLoops.FightDrop | work/api.py:800-851 | True without fighting when the quantity is not positive; False on an empty answer; otherwise the loop stops at the first point where the drops reach the quantity or three fights were lost, and returns whether fewer than three were lost |

## Left out

- The Tk widgets, the dialog window and the watchdog file observer of
  the task manager, and the rendering of the order sections, which builds
  widgets only.
- File I/O everywhere. A file is the value it decodes to, and `save_json`
  is an entry in a write log. The JSON text written (indentation) and
  `json.load` itself are not modelled.
- `print` and logger output, except where a log line decides what
  happens: the f-strings that read `item['quantity']` (api.py:692) and
  `drop['quantity']` (api.py:848) raise `KeyError` for an entry without a
  "quantity", as the ActionLoops.FightDrop line below says.
- TaskManager.TaskManagerApp.RemoveBannedOrder and
  TaskManager.TaskManagerApp.RemoveCurrentOrder require the file to be one
  of the loaded lists, which holds for every button the window builds. A
  missing key, which would raise `KeyError`, is not modelled.
- TaskManager.Task and JsonRecords.Entry are narrower than decoded JSON. A
  task is exactly {role, code}. A task with extra keys would lose them in
  `TasksSaved`. A task without "role" or "code" would raise `KeyError` at
  task_manager.py:245 and :272, and is not modelled. An entry is a string or
  a dict whose values are strings, and other JSON values are not modelled.
  The type does not rule out a repeated key in a field list, which no
  decoded dict has; `JsonRecords.DumpsObject` is `json.dumps` only for a
  field list without one.
- A decoded task file or order file that is not a list. The model's files
  decode to lists or fail to decode.
- All remote calls of `CharacterAPI`. They are inputs: sequences of
  answers, records of the character, and an oracle for withdrawals. The
  cooldown waits, `handle_error`, `handle_cooldown` and
  `make_api_request` are left out because they sleep and parse HTTP
  errors.
- ActionLoops.FightDrop: the eat-or-rest step before each fight is not
  modelled. It includes `eat`, which uses up food from the inventory and can
  call itself again, and `rest`. The move back to the start after a loss is
  not modelled either. An exception raised by `fight()`, which has no `try`
  and so propagates out of `fight_drop`, is not modelled: None stands only
  for an empty answer, which returns False.
- ActionLoops.FightDrop: every drop has a quantity. A drop without
  "quantity" raises `KeyError` in the log line at api.py:848, before the
  `drop.get('quantity', 1)` at :850, so that default is unreachable and the
  model has no drop without a quantity. An explicit `"quantity": null` of a
  matching drop would raise `TypeError` at :850 and is not modelled either.
  ActionLoops.Gather likewise takes every item to have a quantity (a
  missing one raises `KeyError` at api.py:692, inside no `try`).
- `gear_up`, `gear_up_slot`, `find_best_item` and `get_consumables`. They
  look slots up by attribute name, retry remote equips recursively and can
  call `exit(1)`.
- `work/tasks.py`, `work/smarty.py`, `work/logic.py`, `work/worker.py`,
  `main.py`, `baz.py` and `work/config.py`: scripts of remote calls, the
  language-model pipelines and process start-up. They are not part of
  this model.
- Concurrent use of the task file by several processes. There is no
  locking in the source.
- ItemScoring.CalculateItemValue: values are exact reals. The float
  rounding of the `/ 10` terms for prospecting and wisdom is not modelled.
- ItemScoring.ResistanceValueClosedForm, ItemScoring.AttackValueClosedForm,
  ItemScoring.EffectValueOfResistance and ItemScoring.EffectValueOfAttack
  assume distinct element names, as a
  Python dict has them. The loop functions themselves follow the dict's
  iteration order without that assumption.
- ItemScoring.GetItem: a `craft` dict whose "level" is explicitly
  `None` is not distinguished from a missing "level".
- ActionLoops.Gather and ActionLoops.FightDrop: an answer that is present
  but has no "data" is modelled as an answer without items.
- Bank.PageCount: a "pages" value that is explicitly `None` (the
  comparison would raise) is treated as a missing one.

## Notes on the source

- **Key round trip.** A row's key is `f"{role} - {code}"`, split back with
  `task.split(" - ")`.
  - Even when neither field contains " - ", the round trip fails for a role
    that ends in " -". The end of the role and the separator's leading space
    form an earlier separator.
  - `TaskManager.KeySplitsBack` proves the round trip under both conditions.
  - `TaskManager.KeyOfRoleEndingInDashSplitsElsewhere` exhibits the failure
    for role "a -" and code "b".
  - For a role or code that does contain " - ", the split gives more than
    two pieces. `remove_task` then raises `ValueError` and the row cannot be
    removed.
- **Utility slot overfill.** `equip_utility` computes the room left in the
  slot from the quantity found before the loop, and never updates it. Two
  stacks of the same consumable can therefore ask for more than 100 in
  total. `Equipment.TwoStacksOverfill` shows this with 60 and 60. The bound
  proved is per call (`Equipment.EquipQuantitiesFit`).
- **Third loss.** `fight_drop` returns `losses < 3`. A third loss ends the
  loop with False even when that fight brought the last drop needed
  (`ActionLoops.ThirdLossFailsDespiteDrop`). The loss counter counts losses
  in total, not in a row (`ActionLoops.LossesAdd`).
- **Unreachable quantity default.** `fight_drop` adds
  `drop.get('quantity', 1)`, which suggests that a drop without a quantity
  should count as 1. The log line just before it reads `drop['quantity']`,
  and the f-string raises `KeyError` for such a drop, so that default is
  never used.
