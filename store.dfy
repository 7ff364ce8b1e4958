/**
 * The record store of the rental tracker (`RentalManager` without its
 * widgets): the in-memory inventory, the persisted file it writes through
 * to after every change, and the operations behind the buttons and the
 * search box. The selected display row is passed in as its values; the
 * clock's date is passed in as `today`; the CSV file is its list of rows.
 */
module RentalStore {
  import opened Optional
  import opened Text
  import opened Seqs
  import opened Dates
  import opened Records

  class Store {
    /** `self.inventory`: the rows in display order. */
    var inventory: seq<Row>
    /** `rental_inventory.csv` as its rows, header line first; `None` when the file does not exist. */
    var file: Option<seq<Row>>

    /** Every stored row has an ID cell, so `row[0]` never fails. */
    ghost predicate Valid()
      reads this
    {
      AllHaveIds(inventory)
    }

    /** Start-up: an empty inventory, then `load_inventory` from the file as found. */
    constructor (persisted: Option<seq<Row>>)
      ensures Valid() && file == persisted
      ensures inventory == if persisted.Some? then LoadedRows(persisted.value) else []
    {
      inventory := [];
      file := persisted;
      new;
      Load();
    }

    /** `load_inventory`: skip the header line, then append every non-blank row in file order. */
    method Load()
      requires Valid()
      modifies this`inventory
      ensures Valid()
      ensures inventory == old(inventory) + if file.Some? then LoadedRows(file.value) else []
    {
      if file.None? {
        return;
      }
      var lines := file.value;
      if lines == [] {
        return;
      }
      var body := lines[1..];
      ghost var start := inventory;
      var i := 0;
      while i < |body|
        invariant 0 <= i <= |body|
        invariant inventory == start + Clean(body[..i])
      {
        var row := body[i];
        CleanSnoc(body, i);
        if !IsBlank(row) {
          inventory := inventory + [row];
          assert inventory == start + (Clean(body[..i]) + [row]);
        }
        i := i + 1;
      }
      assert body[..|body|] == body;
      AppendCleanHasIds(start, body);
    }

    /** `save_inventory`: rewrite the file with the header and the non-blank rows. */
    method Save()
      modifies this`file
      ensures file == Some(SavedFile(inventory))
    {
      file := Some([Columns] + Clean(inventory));
    }

    /** `add_rental` with the form's fields. */
    method Add(entries: seq<string>) returns (error: Option<AddError>)
      requires Valid() && |entries| == |Columns|
      modifies this
      ensures Valid()
      ensures match AddRental(old(inventory), entries)
        case Added(rows) => error == None && inventory == rows && file == Some(SavedFile(inventory))
        case Rejected(e) => error == Some(e) && inventory == old(inventory) && file == old(file)
      ensures UniqueIds(old(inventory)) ==> UniqueIds(inventory)
    {
      var id := Trim(entries[IdCell]);
      if id == "" {
        TrimEmptyIff(entries[IdCell]);
        return Some(EmptyId);
      }
      if exists i | 0 <= i < |inventory| :: HasId(inventory[i], id) {
        TrimEmptyIff(entries[IdCell]);
        return Some(DuplicateId);
      }
      AddAccepted(inventory, entries);
      inventory := inventory + [EntryData(entries)];
      Save();
      error := None;
    }

    /**
     * `update_rental`: `selected` holds the values of the selected row and
     * `entries` the form. Returns whether a row with the selected ID was found.
     */
    method Update(selected: Row, entries: seq<string>) returns (updated: bool)
      requires Valid() && |selected| > IdCell && |entries| == |Columns|
      modifies this
      ensures Valid()
      ensures updated == UpdateRental(old(inventory), selected, entries).Some?
      ensures updated ==> inventory == UpdateRental(old(inventory), selected, entries).value &&
                          file == Some(SavedFile(inventory))
      ensures !updated ==> inventory == old(inventory) && file == old(file)
    {
      var selectedId := Trim(selected[IdCell]);
      var merged := Merge(EntryData(entries), selected);
      updated := false;
      var i := 0;
      while i < |inventory|
        invariant 0 <= i <= |inventory|
        invariant inventory == old(inventory)
        invariant forall j :: 0 <= j < i ==> !HasId(inventory[j], selectedId)
      {
        if Trim(inventory[i][IdCell]) == selectedId {
          UpdateAt(inventory, selected, entries, i);
          inventory := inventory[i := merged];
          updated := true;
          break;
        }
        i := i + 1;
      }
      if updated {
        Save();
      } else {
        UpdateMissing(inventory, selected, entries);
      }
    }

    /** `delete_rental`: drop every row whose stripped ID is the selected row's. */
    method Delete(selected: Row)
      requires Valid() && |selected| > IdCell
      modifies this
      ensures Valid()
      ensures inventory == DeleteRental(old(inventory), Key(selected))
      ensures file == Some(SavedFile(inventory))
      ensures UniqueIds(old(inventory)) ==> UniqueIds(inventory)
    {
      var selectedId := Trim(selected[IdCell]);
      ghost var unique, taken := UniqueIds(inventory), IdTaken(inventory, selectedId);
      if unique && taken {
        DeleteUnique(inventory, selectedId);
      } else if !taken {
        DeleteRemovesId(inventory, selectedId);
      }
      var rows := DeleteRental(inventory, selectedId);
      forall j | 0 <= j < |rows| ensures |rows[j]| > IdCell {
        assert rows[j] in inventory;
      }
      inventory := rows;
      Save();
    }

    /**
     * `mark_as_returned` on the selected row's values. A selected row with no
     * Status cell raises before anything changes; otherwise the file is
     * rewritten whether or not a stored row had the ID.
     */
    method MarkReturned(selected: Row)
      requires Valid() && |selected| > IdCell
      modifies this
      ensures Valid()
      ensures Records.MarkReturned(old(inventory), selected).None? ==> inventory == old(inventory) && file == old(file)
      ensures Records.MarkReturned(old(inventory), selected).Some? ==>
        inventory == Records.MarkReturned(old(inventory), selected).value && file == Some(SavedFile(inventory))
      ensures UniqueIds(old(inventory)) ==> UniqueIds(inventory)
    {
      if |selected| <= StatusCell {
        return;
      }
      ghost var unique := UniqueIds(inventory);
      if unique {
        MarkReturnedKeepsIdsUnique(inventory, selected);
      }
      var marked := selected[StatusCell := ReturnedStatus];
      var i := 0;
      while i < |inventory|
        invariant 0 <= i <= |inventory|
        invariant inventory == old(inventory)
        invariant forall j :: 0 <= j < i ==> !HasId(inventory[j], Key(marked))
      {
        if Trim(inventory[i][IdCell]) == Trim(marked[IdCell]) {
          assert FirstMatch(inventory, Key(marked)) == i;
          inventory := inventory[i := marked];
          break;
        }
        i := i + 1;
      }
      Save();
    }

    /** `start_new_semester`, without its export: clear the inventory and rewrite the file. */
    method StartNewSemester()
      modifies this
      ensures Valid() && inventory == [] && file == Some([Columns])
    {
      inventory := [];
      Save();
      assert Clean([]) == [] && [Columns] + [] == [Columns];
    }

    /** `apply_filter`: the rows to show for the search text `query`, in store order. */
    method Filter(query: string) returns (shown: seq<Row>)
      ensures shown == Search(inventory, query)
    {
      var q := Lower(query);
      shown := [];
      var i := 0;
      while i < |inventory|
        invariant 0 <= i <= |inventory|
        invariant shown == Keep(inventory[..i], Matcher(q))
      {
        var row := inventory[i];
        KeepSnoc(inventory, i, Matcher(q));
        if Matches(row, q) {
          shown := shown + [row];
        }
        i := i + 1;
      }
      assert inventory[..|inventory|] == inventory;
    }

    /** `show_due_soon`: the rows listed in the "Due Soon Rentals" window, in store order. */
    method ShowDueSoon(today: CalendarDate) returns (due: seq<Row>)
      ensures due == DueSoon(inventory, today)
    {
      due := [];
      var i := 0;
      while i < |inventory|
        invariant 0 <= i <= |inventory|
        invariant due == Keep(inventory[..i], DueTest(today))
      {
        var row := inventory[i];
        KeepSnoc(inventory, i, DueTest(today));
        if IsDueSoon(row, today) {
          due := due + [row];
        }
        i := i + 1;
      }
      assert inventory[..|inventory|] == inventory;
    }

    /** `check_due_reminders`: the reminder shown for each due-soon row, in store order. */
    method CheckDueReminders(today: CalendarDate) returns (notices: seq<string>)
      ensures notices == Reminders(inventory, today)
    {
      notices := [];
      var i := 0;
      while i < |inventory|
        invariant 0 <= i <= |inventory|
        invariant notices == Reminders(inventory[..i], today)
      {
        var row := inventory[i];
        RemindersSnoc(inventory, i, today);
        if IsDueSoon(row, today) {
          notices := notices + [ReminderText(row, today)];
        }
        i := i + 1;
      }
      assert inventory[..|inventory|] == inventory;
    }
  }
}
