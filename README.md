# Rental tracker record store, modelled in Dafny

Myranda's Rental Tracker 3000 is a desktop program for lending equipment such as
laptops. It keeps a list of rentals. Each rental is a row of eight text cells:
ID, Item, Serial, Renter, Date Rented, Due Date, Status and Notes. After every
change the list is written to `rental_inventory.csv`.

This project models the record store behind the window:

- adding a rental (the ID must be non-blank and not already used);
- looking a rental up for editing;
- updating a rental, where blank form fields keep the old values;
- deleting every row with the selected ID;
- marking a rental as returned;
- starting a new semester, which clears the list;
- the case-insensitive search filter;
- the "due soon" list and the start-up reminders, for rentals due in exactly
  5, 3 or 0 days that are not returned;
- the blank-row filtering applied when the file is saved and loaded.

Modules:

- `Text`: Python's `str.strip()` over the characters `str.isspace()` accepts,
  ASCII `lower()`, and the substring test `q in s`.
- `Seqs`: an order-preserving filter and its laws.
- `Dates`: `datetime.strptime(s, "%m/%d/%Y")`, following the directive
  patterns of CPython's `_strptime`, then `datetime` validity. It also holds
  the proleptic Gregorian day count behind `(due - today).days`.
- `Records`: each operation as a function on the list of rows, with the
  lemmas about it.
- `RentalStore.Store`: a class with the two pieces of state the program
  changes, the in-memory `inventory` and the persisted `file`. Its methods
  are the button handlers, each proved against the matching `Records`
  function.
- `Scenarios`: worked examples on concrete rows.

Points of the program's own behaviour that the model keeps:

- The header line of the file is `self.columns` (rental_inventory_app.py:11),
  with "Date Rented" and "Due Date" spelled with spaces.
- `add_rental` refuses duplicate IDs (rental_inventory_app.py:88-90), but
  `update_rental` (rental_inventory_app.py:116-129) never checks the new ID
  against the other rows. `Records.UpdateCanDuplicateIds` shows an update
  that leaves two rows with the same ID. Unique IDs are kept by add, delete
  and mark-as-returned, and by updates that leave the ID blank or unchanged.
- `mark_as_returned` (rental_inventory_app.py:160-163) writes the marked
  row over the first stored row with the same ID and stops there. When IDs
  are duplicated and a later duplicate is selected, the first row is
  overwritten with the later row's values and the later stored row keeps its
  status. `Records.MarkReturned` does the same, and
  `Records.MarkReturnedIdempotent` holds with or without duplicates.
- `edit_rental` (rental_inventory_app.py:98-109) does not search the
  inventory: it copies the selected tree item's values into the form. The
  model states editing as `Records.Lookup` of the selected ID, and
  `Records.LookupFindsRow` links the two: with unique IDs, looking up a
  stored row's own ID gives back that row, so the lookup agrees with the
  selection.

## Model

| member | source | states |
|---|---|---|
| Records.FirstMatch | rental_inventory_app.py:125-129 | the index is the first row whose stripped ID equals the ID searched for, or the list length when no row has it |
| Records.FirstMatchFound | rental_inventory_app.py:125-129 | some row has the ID exactly when the search for it stops inside the list |
| Records.Lookup | rental_inventory_app.py:98-109 | the row editing shows for a selected ID: a row is found exactly when some stored row has the ID, and the row found is a stored row with that ID |
| Records.LookupFindsRow | rental_inventory_app.py:98-109 | with unique IDs, looking up a stored row's own ID gives back that row, so the lookup agrees with the selected tree item whose values `edit_rental` copies |
| Records.Clean | rental_inventory_app.py:217 | the kept rows are stored rows that are not blank, and every non-blank row is kept |
| Records.CleanHasIds | rental_inventory_app.py:217 | every row left after blank filtering has an ID cell |
| Records.CleanAppend | rental_inventory_app.py:217 | blank filtering keeps row order: filtering a concatenation filters each part |
| Records.CleanIdempotent | rental_inventory_app.py:217 | filtering blank rows a second time removes nothing more |
| Records.CleanWithoutBlanks | rental_inventory_app.py:217 | a list without blank rows is saved unchanged |
| Records.CleanSnoc | rental_inventory_app.py:233-235 | reading one more line appends it exactly when it is not blank |
| Records.AppendCleanHasIds | rental_inventory_app.py:233-235 | appending the non-blank rows of a file to rows with ID cells keeps every row's ID cell |
| Records.LoadSavedFile | rental_inventory_app.py:216-236 | loading the file a save wrote gives back exactly the non-blank rows, in order |
| Records.BlankRowNotPersisted | rental_inventory_app.py:217 | a blank row never survives a save followed by a load |
| Records.AddRental | rental_inventory_app.py:83-94 | refused with "missing ID" exactly when the ID field is all whitespace; refused as a duplicate exactly when the stripped ID is already some row's stripped ID; otherwise exactly one row is appended and the old rows stay in front |
| Records.AddKeepsIdsUnique | rental_inventory_app.py:83-94 | an accepted add appends the stripped form data, whose ID is the stripped ID field, and keeps IDs unique |
| Records.AddAccepted | rental_inventory_app.py:88-93 | an ID that is neither blank nor taken is accepted: the stripped form data is appended, it has an ID cell, and unique IDs stay unique |
| Records.LookupAfterAdd | rental_inventory_app.py:83-94 | after an accepted add, looking up the new ID finds the added row |
| Records.MergeFieldwise | rental_inventory_app.py:119-122 | the merged row is as long as the shorter input, and each cell is the entered value when it is not blank, else the original value |
| Records.UpdateAt | rental_inventory_app.py:125-129 | when row i is the first with the selected ID, the update replaces exactly that row by the merged row, and every row keeps an ID cell |
| Records.UpdateMissing | rental_inventory_app.py:130-135 | when no row has the selected ID the update fails |
| Records.ReplaceKeepsIds | rental_inventory_app.py:127 | replacing one row by a row with an ID cell keeps every ID cell |
| Records.UpdateChangesOneRow | rental_inventory_app.py:111-135 | the update fails exactly when no row has the selected ID; otherwise only the first such row changes, it becomes as long as the shorter of the selected row and the form, each of its cells is the stripped form value when that is not blank and the selected row's value otherwise, and all other rows and their order are unchanged |
| Records.UpdateKeepsIdsUnique | rental_inventory_app.py:111-135 | when the form's ID is blank or equals the selected ID, an update keeps IDs unique |
| Records.UpdateCanDuplicateIds | rental_inventory_app.py:116-129 | giving one rental another rental's ID produces two rows with the same ID, because the new ID is never checked |
| Records.DeleteRemovesId | rental_inventory_app.py:145-147 | no row with the deleted ID remains, every other row remains, and the list is unchanged when no row had the ID |
| Records.DeleteUnique | rental_inventory_app.py:145-147 | with unique IDs, deleting an ID that is present removes exactly its one row, keeps the rest in order and keeps IDs unique |
| Records.DeleteAppend | rental_inventory_app.py:147 | deleting keeps the remaining rows in their original order: deleting from a concatenation deletes from each part |
| Records.MarkReturnedOnlyStatus | rental_inventory_app.py:156-163 | with unique IDs, marking a stored row as returned sets its Status cell to "Returned", changes no other cell and no other row, and keeps IDs unique |
| Records.MarkReturnedKeepsIdsUnique | rental_inventory_app.py:157-163 | marking any selected row as returned keeps IDs unique, because the replaced row keeps its ID |
| Records.MarkReturnedIdempotent | rental_inventory_app.py:156-163 | marking the same rental twice gives the same list as marking it once |
| Records.SearchMembers | rental_inventory_app.py:250-255 | a row is shown exactly when one of its lowercased cells contains the lowercased query, and only stored rows are shown |
| Records.SearchEmptyQuery | rental_inventory_app.py:250-255 | an empty query shows every row |
| Records.SearchIgnoresCase | rental_inventory_app.py:251 | lowercasing the query first changes nothing |
| Records.SearchAppend | rental_inventory_app.py:253-255 | the filter keeps store order: searching a concatenation searches each part |
| Records.DueSoonMembers | rental_inventory_app.py:204-212 | a row is listed exactly when its Due Date parses as `%m/%d/%Y`, the due date is 5, 3 or 0 days after today, and its Status cell exists and is not "Returned" |
| Records.DueSoonAppend | rental_inventory_app.py:204-212 | the due-soon list keeps store order |
| Records.Reminders | rental_inventory_app.py:238-248 | one reminder is shown for each due-soon row |
| Records.RemindersSnoc | rental_inventory_app.py:240-246 | one more row adds its reminder at the end exactly when it is due soon |
| Records.FinalNoticeIffDueToday | rental_inventory_app.py:245 | the reminder is the final notice exactly when the due date is today |
| Dates.FirstSlash | rental_inventory_app.py:206 | the index is the first `/` of the text, or its length when it has none |
| Dates.MonthField | rental_inventory_app.py:206 | an accepted `%m` field is a month from 1 to 12 |
| Dates.DayField | rental_inventory_app.py:206 | an accepted `%d` field is a day from 1 to 31 |
| Dates.YearField | rental_inventory_app.py:206 | an accepted `%Y` field is a year from 0 to 9999 |
| Dates.ParseFormatDate | rental_inventory_app.py:206 | every date written zero-padded as MM/DD/YYYY parses back to itself |
| Dates.FirstSlashAfter | rental_inventory_app.py:206 | a text with no `/` followed by `/` has its first `/` right after the text |
| Dates.ParseDateSplit | rental_inventory_app.py:206 | text of the form mm/dd/rest, with no `/` in mm and dd, is read as `%m`, `%d` and all of rest as `%Y`, and the date must exist |
| Dates.ParseUnpadded | rental_inventory_app.py:206 | a single-digit month and day without zero padding are accepted |
| Dates.ParseRefusesShortYear | rental_inventory_app.py:206 | a year that is not exactly four characters, such as `24`, is refused |
| Dates.ParseRefusesMissingDay | rental_inventory_app.py:206 | a day past the end of its month, such as 30 February, is refused |
| Dates.DaysBetweenSign | rental_inventory_app.py:207 | the day count is zero exactly when the due date is today, and positive exactly when it is later |
| Dates.OrdinalNextDay | rental_inventory_app.py:207 | the day after a date has the next day number |
| Dates.OrdinalOrdered | rental_inventory_app.py:207 | an earlier date has a smaller day number |
| Text.TrimShape | rental_inventory_app.py:74 | `strip()` gives a substring of the text, everything it drops before and after that substring is whitespace, and the substring neither starts nor ends with whitespace |
| Text.TrimEmptyIff | rental_inventory_app.py:85 | the stripped text is empty exactly when the text is all whitespace (the `not rental_id` test) |
| Text.TrimIdempotent | rental_inventory_app.py:74 | stripping twice is stripping once |
| Text.ContainsIffOccurs | rental_inventory_app.py:254 | `q in s` holds exactly when `q` occurs at some position of `s` |
| Text.LowerIdempotent | rental_inventory_app.py:251 | lowering twice is lowering once |
| Seqs.Keep | rental_inventory_app.py:147 | the filter keeps only elements that pass the test, keeps every one that passes, and never lengthens the list |
| Seqs.KeepDropsOne | rental_inventory_app.py:147 | when exactly one element fails the test, the filter removes just that element |
| RentalStore.Store.constructor | rental_inventory_app.py:12-19 | the inventory starts empty and is loaded from the file as found |
| RentalStore.Store.Load | rental_inventory_app.py:228-236 | appends, in file order, every non-blank row after the header line; nothing when there is no file |
| RentalStore.Store.Save | rental_inventory_app.py:216-222 | the file becomes the header line followed by the non-blank rows |
| RentalStore.Store.Add | rental_inventory_app.py:83-94 | behaves as `Records.AddRental`: on success the row is appended and saved, on either error nothing changes; unique IDs stay unique |
| RentalStore.Store.Update | rental_inventory_app.py:111-135 | reports whether a row had the selected ID; if so the inventory becomes `Records.UpdateRental` of the old one and is saved, otherwise nothing changes |
| RentalStore.Store.Delete | rental_inventory_app.py:137-148 | the inventory loses every row with the selected ID and is saved; unique IDs stay unique |
| RentalStore.Store.MarkReturned | rental_inventory_app.py:151-164 | a selected row without a Status cell changes nothing; otherwise the first row with its ID is replaced by it with Status "Returned", and the file is saved even when no row matched; unique IDs stay unique |
| RentalStore.Store.StartNewSemester | rental_inventory_app.py:187-191 | the inventory becomes empty and the file holds only the header line |
| RentalStore.Store.Filter | rental_inventory_app.py:250-255 | the rows shown are `Records.Search` of the inventory for the query |
| RentalStore.Store.ShowDueSoon | rental_inventory_app.py:194-212 | the rows listed are `Records.DueSoon` of the inventory for today |
| RentalStore.Store.CheckDueReminders | rental_inventory_app.py:238-248 | the notices are `Records.Reminders` of the inventory for today |
| Scenarios.PartialUpdateKeepsBlankFields | rental_inventory_app.py:119-122 | an update with only Status filled in keeps the renter and sets the status |
| Scenarios.DueSoonOnNewYear | rental_inventory_app.py:204-212 | on 1 January 2024 a rental due in 5 days is listed, one due in 4 days is not, and a returned rental due that day is not |
| Scenarios.SearchFindsRenter | rental_inventory_app.py:250-255 | the query "alex" finds the renter "Alex Smith" and no other row |
| Scenarios.AddRefusesDuplicate | rental_inventory_app.py:84-90 | an ID that matches a stored ID after stripping is refused as a duplicate |
| Scenarios.ResetPersistsNothing | rental_inventory_app.py:187-191 | after a reset, loading the file gives no rows |

## Left out

- The tkinter window, the form widgets, the tree view and the message boxes are left out. The tree item the user selected is passed in as its values (`selected`).
- `clear_entries` and the form refill in `edit_rental` are widget operations. Editing is modelled only as `Records.Lookup` of the selected row.
- When no row is selected, the handlers only show a warning. This is not modelled: every method takes a selected row.
- The delete confirmation dialog is not modelled. `Delete` is the confirmed path.
- `export_csv` and its file dialog are left out, including the export that `start_new_semester` does first, because they only write a copy elsewhere.
- File I/O is modelled as a value: the file is its list of rows, or `None` when it does not exist. CSV quoting and parsing are not modelled.
- The error message shown when a save fails is not modelled: `Save` always succeeds.
- The clock is a `today` parameter.
- The print statements in the constructor and the start-up reminder call are left out. `CheckDueReminders` is the reminder pass on its own.
- Text.Lower: only ASCII letters are lowercased; Python's full Unicode case mapping is not modelled.
- Dates.DayField: `\d` in the `%d` pattern is limited to ASCII digits. Python's `\d` also matches other Unicode decimal digits.
- Dates.YearField: the four `\d` of `%Y` are likewise limited to ASCII digits.
- Cell values are strings, and the tree view's conversion of values is not modelled. ttk turns every tree value that Python's `int()` accepts into an int ("007" into 7, " 42" into 42); other text, such as "1.50", stays as it is. `str(...)` turns them back into strings, but not always into the same text. So an ID "007" comes back as "7", and selecting that row matches no stored row: update reports no match, delete keeps the stored row while removing its tree item, and mark-as-returned changes nothing. A blank update field likewise falls back to the converted text, so a Serial "0100" is rewritten as "100".
- RentalStore.Store.Update: the tree item that is updated before the inventory search is widget state and is not modelled.
