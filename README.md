# Entry collections of backbone-resume-app

The application is a single-page list of small records ("entries") built on
Backbone. Its core is the entry model layer. An `Entry` has default
attributes, and in one variant a validation rule. The `EntryList` collection
keeps its entries sorted by an integer `order` and hands out the next order
number. Both variants share this layer. They differ in the entry's fields, in
`toggle`, `done` and `remaining` (resume.js only), in `validate` (js/resume.js
only), and in what the application view does with the collection.

This project models that layer in Dafny, in three modules:

- `Ordering` (`ordering.dfy`) holds the rules that both collections share, stated on the sequence of order keys:
  - `nextOrder`;
  - the comparator's sorted insert;
  - the invariant that orders strictly increase;
  - the numbering that repeated creates produce.
- `TodoEntries` (`todo_entries.dfy`) models the todo-style variant, `resume.js`:
  - `Entry` is a class. `toggle` flips its `done` in place, and the collection's `without` compares entries by identity.
  - The `EntryList` class holds `done`, `remaining`, `nextOrder` and the sorted `create` and `destroy`.
  - The effect on the collection of the Enter handler (`createOnEnter`), the check box (`toggleDone`) and `clearCompleted` is modelled.
- `ResumeEntries` (`resume_entries.dfy`) models the resume variant, `js/resume.js`:
  - `Entry` is a value, with title, description, done and order.
  - `Validate` returns the message or nothing.
  - The `EntryList` class adds an entry through `create` only when the entry passes validation.
  - `destroy` is modelled.

Each collection is a class whose `seq` field the methods reassign. Its
invariant `Valid()` says that the orders strictly increase, which is what the
comparator and `nextOrder` together guarantee. The view handlers that reach
for the global `Entries` take the collection as a parameter instead.

`nextOrder` returns 1 on an empty collection (resume.js:57, js/resume.js:59)
and the last entry's order plus one otherwise. Because the collection is
sorted, that is also the maximum order plus one.

## Model

| member | source | states |
|---|---|---|
| Ordering.NextOrder | resume.js:56-59 | 1 for an empty collection; otherwise one more than an order that is present, and above every order when the keys ascend |
| Ordering.InsertionIndex | resume.js:62-64 | the sorted-insert position for a key: every key before it is not greater, every key from it on is greater |
| Ordering.Insert | resume.js:62-64 | the comparator's sorted insert adds exactly the new key: the result is the old keys plus that key, as a multiset |
| Ordering.InsertKeepsAscending | resume.js:62-64 | a sorted insert of a key not yet present keeps the keys strictly ascending |
| Ordering.InsertFreshAppends | resume.js:56-64 | a key above every present key, as `nextOrder` gives, is inserted at the end: the sorted insert is an append |
| Ordering.AppendNextKeepsAscending | resume.js:56-64 | appending an element whose key is `nextOrder` of the keys keeps the sequence sorted by key |
| Ordering.CreatedCountsFromOne | resume.js:56-59 | repeated creates in an empty collection number the entries 1, 2, 3, … in creation order, strictly ascending |
| TodoEntries.Entry.constructor | resume.js:16-22 | a new entry has the given text, an empty description, is not done and carries the collection's next order number |
| TodoEntries.Entry.Toggle | resume.js:25-27 | `done` is flipped and text and description are unchanged (the order is a constant) |
| TodoEntries.OrderOf | resume.js:62-64 | the comparator: an entry's sort key is its `order` |
| TodoEntries.DoneOf | resume.js:45-47 | the result holds exactly the entries of the input that are done, and is no longer than the input |
| TodoEntries.NotDoneOf | resume.js:50-52 | the result holds exactly the entries of the input that are not done, and is no longer than the input |
| TodoEntries.Without | resume.js:50-52 | the result holds exactly the entries of the first sequence that are not in the second, by identity |
| TodoEntries.EntryList.constructor | resume.js:69 | a new collection is empty and valid |
| TodoEntries.EntryList.NextOrder | resume.js:56-59 | 1 when empty, otherwise the last entry's order plus one; in a valid collection above every entry's order |
| TodoEntries.EntryList.Done | resume.js:45-47 | exactly the done entries of the collection; in a valid collection they are still in ascending order |
| TodoEntries.EntryList.Remaining | resume.js:50-52 | the collection without its done entries equals the entries that are not done, in ascending order |
| TodoEntries.EntryList.Create | resume.js:207 | a fresh entry with the default attributes and order `nextOrder` goes to its sorted place, which is the end; every older order is below it; the collection stays valid |
| TodoEntries.EntryList.Destroy | resume.js:141-143 | the entry leaves the collection, the rest keep their order; the length drops by one if it was present, nothing changes if it was not |
| TodoEntries.CreateOnEnter | resume.js:204-209 | an entry is created exactly when the text is non-empty and the key code is 13; otherwise the collection is unchanged |
| TodoEntries.ToggleDone | resume.js:114-116 | the entry's `done` flips while its text and description stay as they were, the collection's sequence is unchanged, and the entry moves between `done()` and `remaining()` |
| TodoEntries.CreateMany | resume.js:207 | n creates in turn in a new collection, each through `create`, leave a valid collection of n entries whose orders are exactly 1, 2, …, n in creation order |
| TodoEntries.DestroyAll | resume.js:213 | destroying the given entries one at a time leaves exactly the collection without them, in order, and still valid |
| TodoEntries.ClearCompleted | resume.js:212-215 | destroying each done entry leaves exactly the former `remaining()`, in order, and an empty `done()` |
| TodoEntries.Partition | resume.js:45-52 | the done and not-done entries together are the collection as a multiset, and their lengths add up |
| TodoEntries.StatsAddUp | resume.js:184-186 | the `done` and `remaining` counts shown in the statistics add up to the total |
| TodoEntries.WithoutDoneIsNotDone | resume.js:50-52 | removing a sequence that holds exactly the done entries leaves exactly the not-done entries, in order |
| TodoEntries.WithoutStep | resume.js:213 | destroying one more entry after a batch equals removing the batch extended by that entry |
| TodoEntries.WithoutNoneIsSame | resume.js:141-143 | removing entries none of which are present changes nothing |
| TodoEntries.WithoutOneShrinks | resume.js:141-143 | in a valid collection each entry occurs once, so removing a present one shortens it by exactly one |
| TodoEntries.WithoutKeepsAscending | resume.js:62-64 | removing entries keeps the rest sorted by order |
| TodoEntries.DoneKeepsAscending | resume.js:45-47 | the done entries of a sorted collection are sorted by order |
| TodoEntries.ClearedLeavesNothingDone | resume.js:212-215 | once the done entries are removed, none is done |
| TodoEntries.NothingDoneRemains | resume.js:45-47 | `done()` is empty when no entry is done |
| ResumeEntries.Defaults | js/resume.js:16-23 | the defaults: empty title and description, not done, and the given next order number |
| ResumeEntries.Build | js/resume.js:185 | the entry `create` builds has the given title and description and takes every other attribute from the defaults |
| ResumeEntries.OrderOf | js/resume.js:64-66 | the comparator: an entry's sort key is its `order` |
| ResumeEntries.Validate | js/resume.js:25-32 | the title message exactly when the title is empty, the description message exactly when the title is non-empty and the description empty, no error exactly when both are non-empty |
| ResumeEntries.Remove | js/resume.js:122-124 | the result holds exactly the entries of the input other than the destroyed one |
| ResumeEntries.EntryList.constructor | js/resume.js:71 | a new collection is empty and valid |
| ResumeEntries.EntryList.NextOrder | js/resume.js:58-61 | 1 when empty, otherwise the last entry's order plus one; in a valid collection above every entry's order |
| ResumeEntries.EntryList.Create | js/resume.js:185 | the entry built over the defaults with order `nextOrder` is validated; on failure the message is returned and the collection is unchanged, on success it is appended at its sorted place and the collection stays valid |
| ResumeEntries.EntryList.Destroy | js/resume.js:122-124 | the entry leaves the collection, the rest keep their order; the length drops by one if it was present, nothing changes if it was not |
| ResumeEntries.DefaultsFailValidation | js/resume.js:16-32 | an entry of defaults alone (empty title, not done, the given order) fails with the title message |
| ResumeEntries.BlanksPassValidation | js/resume.js:25-32 | any non-empty title and description made only of blanks, tabs and line breaks pass, because only the empty string is rejected and nothing is trimmed |
| ResumeEntries.RemoveAbsentIsSame | js/resume.js:122-124 | destroying an entry that is not present changes nothing |
| ResumeEntries.RemoveOneShrinks | js/resume.js:122-124 | in a valid collection, destroying a present entry shortens it by exactly one |
| ResumeEntries.RemoveKeepsAscending | js/resume.js:64-66 | destroying an entry keeps the rest sorted by order |
| ResumeEntries.CreateInOrder | js/resume.js:182-188 | creating A, B and C with a rejected empty-title create in between numbers them 1, 2, 3 |

## Left out

- Views, templates and DOM handling are not modelled: rendering, `setText`, `edit`/`close`/`updateOnEnter` and clearing the input fields after a create. They are user-interface code.
- The tooltip with its fade and delay timers is not modelled. It is timing and user-interface code.
- The `Store("entries")` local-storage adapter is not modelled: GUID ids, `save` persistence (including the save inside `toggle`) and `fetch`. That is browser storage I/O, and the adapter's code is not part of this model.
- The `alert` and `console.log` calls in `Entry.initialize` are not modelled. They are user-interface side effects; the validation message is returned as a value instead.
- Backbone's event bus (`bind`, the `add`/`reset`/`all` notifications) is not modelled. The library is not part of this model.
- Backbone's `create`, `sort` and `destroy` are not part of this model. The model makes three assumptions about them:
  - `create` builds the entry over the defaults, validates it, and adds it at its sorted position only when validation passes;
  - the sorted position is after every entry whose order is not greater;
  - `destroy` removes the entry from the collection.
- The `clearCompleted` and `toggleDone` handlers in `js/resume.js` are not modelled for that variant. They call `done()` and `toggle()`, which that file never defines.
- Order numbers are unbounded integers here, whereas in the source they are double-precision numbers. At 2^53, `this.last().get('order') + 1` (resume.js:58, js/resume.js:60) gives back 2^53, so from there `nextOrder` stops increasing. So "above every order" and the strict increase of `Valid()` hold only for integers. A collection started empty cannot reach 2^53 in practice.
- Loading stored entries (`Entries.fetch()`, resume.js:177) is not modelled. `Valid()` is assumed of whatever it would load, not proved.
- Only strings are modelled as attribute values. `validate` compares with `""` strictly, so a missing (`undefined`) title or description would pass it.
- Backbone's `without` takes the entries to drop as separate arguments. The model passes them as one sequence, which names the same entries.
