/**
 * Rental records and the store's operations on them, stated as functions on
 * the list of rows: blank filtering for the persisted file, add with its ID
 * checks, the lookup behind editing, the field-by-field update, delete,
 * mark-as-returned, the search filter and the due-soon selection with its
 * reminder messages. The class in store.dfy changes its inventory exactly as
 * these functions say.
 */
module Records {
  import opened Optional
  import opened Text
  import opened Seqs
  import opened Dates

  /** One rental record: its cells in column order. Rows read back from the file may have any number of cells. */
  type Row = seq<string>

  /** `self.columns`, also the header line of the persisted file. */
  const Columns: Row := ["ID", "Item", "Serial", "Renter", "Date Rented", "Due Date", "Status", "Notes"]

  const IdCell: nat := 0
  const DueDateCell: nat := 5
  const StatusCell: nat := 6
  const ReturnedStatus: string := "Returned"

  // ----- Identity -----

  /** The identity of a row: its first cell, stripped. */
  function Key(row: Row): string
    requires |row| > IdCell
  {
    Trim(row[IdCell])
  }

  predicate HasId(row: Row, id: string) {
    |row| > IdCell && Key(row) == id
  }

  /** Every row has an ID cell, so `row[0]` never fails. */
  predicate AllHaveIds(rows: seq<Row>) {
    forall i :: 0 <= i < |rows| ==> |rows[i]| > IdCell
  }

  /** No two rows share a stripped ID. */
  predicate UniqueIds(rows: seq<Row>)
    requires AllHaveIds(rows)
  {
    forall i, j :: 0 <= i < j < |rows| ==> Key(rows[i]) != Key(rows[j])
  }

  /** `any(str(row[0]).strip() == id for row in rows)`. */
  predicate IdTaken(rows: seq<Row>, id: string) {
    exists i :: 0 <= i < |rows| && HasId(rows[i], id)
  }

  /** The position of the first row with the given ID, or `|rows|` when there is none. */
  function FirstMatch(rows: seq<Row>, id: string): (i: nat)
    ensures i <= |rows|
    ensures i < |rows| ==> HasId(rows[i], id)
    ensures forall j :: 0 <= j < i ==> !HasId(rows[j], id)
  {
    if rows == [] then 0
    else if HasId(rows[0], id) then 0
    else 1 + FirstMatch(rows[1..], id)
  }

  /** Some row has the ID exactly when the search for it stops inside the list. */
  lemma FirstMatchFound(rows: seq<Row>, id: string)
    ensures IdTaken(rows, id) <==> FirstMatch(rows, id) < |rows|
  {
    if IdTaken(rows, id) {
      var w :| 0 <= w < |rows| && HasId(rows[w], id);
      assert FirstMatch(rows, id) <= w;
    }
  }

  /**
   * The stored row behind an edit: `edit_rental` copies the selected tree
   * item's values into the form, and this is the first stored row with the
   * same stripped ID. `LookupFindsRow` shows the two agree when IDs are unique.
   */
  function Lookup(rows: seq<Row>, id: string): (r: Option<Row>)
    ensures r.Some? <==> IdTaken(rows, id)
    ensures r.Some? ==> HasId(r.value, id) && r.value in rows
  {
    var i := FirstMatch(rows, id);
    if i < |rows| then Some(rows[i]) else None
  }

  /** With unique IDs, looking up a row's own ID finds that row. */
  lemma LookupFindsRow(rows: seq<Row>, i: nat)
    requires AllHaveIds(rows) && UniqueIds(rows) && i < |rows|
    ensures Lookup(rows, Key(rows[i])) == Some(rows[i])
  {
    var f := FirstMatch(rows, Key(rows[i]));
    assert f <= i;
  }

  // ----- Blank rows and the persisted file -----

  /** Every cell is empty after stripping (a row with no cells is blank too). */
  predicate IsBlank(row: Row) {
    forall k :: 0 <= k < |row| ==> Trim(row[k]) == ""
  }

  predicate NotBlank(row: Row) {
    !IsBlank(row)
  }

  /** `[row for row in rows if any(str(cell).strip() for cell in row)]`. */
  function Clean(rows: seq<Row>): (r: seq<Row>)
    ensures forall i :: 0 <= i < |r| ==> r[i] in rows && !IsBlank(r[i])
    ensures forall i :: 0 <= i < |rows| && !IsBlank(rows[i]) ==> rows[i] in r
  {
    Keep(rows, NotBlank)
  }

  /** The rows `save_inventory` writes: the header line, then the non-blank rows. */
  function SavedFile(rows: seq<Row>): seq<Row> {
    [Columns] + Clean(rows)
  }

  /** The rows `load_inventory` appends for a file: every non-blank line after the first. */
  function LoadedRows(file: seq<Row>): seq<Row> {
    if file == [] then [] else Clean(file[1..])
  }

  /** A non-blank row has a first cell, so every loaded or saved row has an ID cell. */
  lemma CleanHasIds(rows: seq<Row>)
    ensures AllHaveIds(Clean(rows))
  {
    var r := Clean(rows);
    forall i | 0 <= i < |r| ensures |r[i]| > IdCell {
      assert !IsBlank(r[i]);
    }
  }

  /** Reading one more line adds it at the end exactly when it is not blank. */
  lemma CleanSnoc(rows: seq<Row>, i: nat)
    requires i < |rows|
    ensures Clean(rows[..i + 1]) == Clean(rows[..i]) + (if IsBlank(rows[i]) then [] else [rows[i]])
  {
    KeepSnoc(rows, i, NotBlank);
  }

  /** Appending the non-blank rows of a file to rows with ID cells gives rows with ID cells. */
  lemma AppendCleanHasIds(rows: seq<Row>, more: seq<Row>)
    requires AllHaveIds(rows)
    ensures AllHaveIds(rows + Clean(more))
  {
    CleanHasIds(more);
    var all := rows + Clean(more);
    forall j | |rows| <= j < |all| ensures |all[j]| > IdCell {
      assert all[j] == Clean(more)[j - |rows|];
    }
  }

  /** Blank filtering is order preserving: it filters each part of a list separately. */
  lemma CleanAppend(a: seq<Row>, b: seq<Row>)
    ensures Clean(a + b) == Clean(a) + Clean(b)
  {
    KeepAppend(a, b, NotBlank);
  }

  /** Blank filtering a second time removes nothing more. */
  lemma CleanIdempotent(rows: seq<Row>)
    ensures Clean(Clean(rows)) == Clean(rows)
  {
    KeepIdempotent(rows, NotBlank);
  }

  /** A list without blank rows is saved as it is. */
  lemma CleanWithoutBlanks(rows: seq<Row>)
    requires forall i :: 0 <= i < |rows| ==> !IsBlank(rows[i])
    ensures Clean(rows) == rows
  {
    KeepAll(rows, NotBlank);
  }

  /** Loading what was saved gives back the non-blank rows, in order and cell for cell. */
  lemma LoadSavedFile(rows: seq<Row>)
    ensures LoadedRows(SavedFile(rows)) == Clean(rows)
  {
    assert SavedFile(rows)[1..] == Clean(rows);
    CleanIdempotent(rows);
  }

  /** A blank row never comes back from a save and a load. */
  lemma BlankRowNotPersisted(rows: seq<Row>, row: Row)
    requires IsBlank(row)
    ensures row !in LoadedRows(SavedFile(rows))
  {
    LoadSavedFile(rows);
  }

  // ----- Add -----

  datatype AddError = EmptyId | DuplicateId

  datatype AddOutcome = Added(rows: seq<Row>) | Rejected(error: AddError)

  /** `get_entry_data`: the form's fields, each stripped. */
  function EntryData(entries: seq<string>): (r: Row)
    ensures |r| == |entries|
  {
    seq(|entries|, k requires 0 <= k < |entries| => Trim(entries[k]))
  }

  /**
   * `add_rental` on the form fields `entries`: a blank ID and an ID some row
   * already has are refused; otherwise the stripped fields go to the end.
   */
  function AddRental(rows: seq<Row>, entries: seq<string>): (r: AddOutcome)
    requires |entries| == |Columns|
    ensures r == Rejected(EmptyId) <==> AllSpace(entries[IdCell])
    ensures r == Rejected(DuplicateId) <==> !AllSpace(entries[IdCell]) && IdTaken(rows, Trim(entries[IdCell]))
    ensures r.Added? ==> |r.rows| == |rows| + 1 && r.rows[..|rows|] == rows
  {
    var id := Trim(entries[IdCell]);
    TrimEmptyIff(entries[IdCell]);
    if id == "" then Rejected(EmptyId)
    else if IdTaken(rows, id) then Rejected(DuplicateId)
    else Added(rows + [EntryData(entries)])
  }

  /** An accepted add appends one row that carries the new stripped ID and keeps IDs unique. */
  lemma AddKeepsIdsUnique(rows: seq<Row>, entries: seq<string>)
    requires |entries| == |Columns| && AllHaveIds(rows) && UniqueIds(rows)
    requires AddRental(rows, entries).Added?
    ensures var after := AddRental(rows, entries).rows;
      AllHaveIds(after) && UniqueIds(after) && after[|rows|] == EntryData(entries) &&
      Key(after[|rows|]) == Trim(entries[IdCell])
  {
    var after := AddRental(rows, entries).rows;
    var id := Trim(entries[IdCell]);
    TrimIdempotent(entries[IdCell]);
    assert Key(after[|rows|]) == id;
    forall i | 0 <= i < |rows| ensures Key(after[i]) != id {
      assert after[i] == rows[i];
      assert !HasId(rows[i], id);
    }
  }

  /** An add whose ID is not blank and not taken appends the stripped form data, which has an ID cell. */
  lemma AddAccepted(rows: seq<Row>, entries: seq<string>)
    requires |entries| == |Columns| && AllHaveIds(rows)
    requires Trim(entries[IdCell]) != "" && !IdTaken(rows, Trim(entries[IdCell]))
    ensures AddRental(rows, entries) == Added(rows + [EntryData(entries)])
    ensures AllHaveIds(rows + [EntryData(entries)])
    ensures UniqueIds(rows) ==> UniqueIds(rows + [EntryData(entries)])
  {
    if UniqueIds(rows) {
      AddKeepsIdsUnique(rows, entries);
    }
  }

  /** After an accepted add, looking up the new ID finds the added row. */
  lemma LookupAfterAdd(rows: seq<Row>, entries: seq<string>)
    requires |entries| == |Columns| && AllHaveIds(rows) && UniqueIds(rows)
    requires AddRental(rows, entries).Added?
    ensures Lookup(AddRental(rows, entries).rows, Trim(entries[IdCell])) == Some(EntryData(entries))
  {
    AddKeepsIdsUnique(rows, entries);
    LookupFindsRow(AddRental(rows, entries).rows, |rows|);
  }

  // ----- Update -----

  /**
   * The row `update_rental` builds: `zip(new, original)`, taking the new value
   * where it is not blank and the original value otherwise.
   */
  function Merge(entered: Row, original: Row): Row {
    if entered == [] || original == [] then []
    else [if Trim(entered[0]) != "" then entered[0] else original[0]] + Merge(entered[1..], original[1..])
  }

  /** Each cell of the merged row is the non-blank new value, or else the original one. */
  lemma {:induction false} MergeFieldwise(entered: Row, original: Row)
    ensures |Merge(entered, original)| == if |entered| < |original| then |entered| else |original|
    ensures forall k :: 0 <= k < |Merge(entered, original)| ==>
      Merge(entered, original)[k] == if Trim(entered[k]) != "" then entered[k] else original[k]
    decreases |entered|
  {
    if entered != [] && original != [] {
      var tail := Merge(entered[1..], original[1..]);
      MergeFieldwise(entered[1..], original[1..]);
      var head := if Trim(entered[0]) != "" then entered[0] else original[0];
      var m := Merge(entered, original);
      assert m == [head] + tail;
      forall k | 1 <= k < |m|
        ensures m[k] == if Trim(entered[k]) != "" then entered[k] else original[k]
      {
        assert m[k] == tail[k - 1];
        assert entered[1..][k - 1] == entered[k] && original[1..][k - 1] == original[k];
      }
    }
  }

  /** The rows with the first row carrying `id` replaced by `row`; unchanged when no row has `id`. */
  function ReplaceFirst(rows: seq<Row>, id: string, row: Row): seq<Row> {
    var i := FirstMatch(rows, id);
    if i < |rows| then rows[i := row] else rows
  }

  /** Replacing one row by a row with an ID cell keeps every row's ID cell. */
  lemma ReplaceKeepsIds(rows: seq<Row>, i: nat, row: Row)
    requires AllHaveIds(rows) && i < |rows| && |row| > IdCell
    ensures AllHaveIds(rows[i := row])
  {
  }

  /**
   * `update_rental` with `selected` the values of the selected row and
   * `entries` the form: `None` when no row has the selected row's ID.
   */
  function UpdateRental(rows: seq<Row>, selected: Row, entries: seq<string>): Option<seq<Row>>
    requires |selected| > IdCell
  {
    var id := Key(selected);
    if IdTaken(rows, id) then Some(ReplaceFirst(rows, id, Merge(EntryData(entries), selected))) else None
  }

  /** When row `i` is the first with the selected ID, the update replaces it by the merged row. */
  lemma UpdateAt(rows: seq<Row>, selected: Row, entries: seq<string>, i: nat)
    requires |selected| > IdCell && |entries| == |Columns| && AllHaveIds(rows)
    requires i < |rows| && HasId(rows[i], Key(selected))
    requires forall j :: 0 <= j < i ==> !HasId(rows[j], Key(selected))
    ensures UpdateRental(rows, selected, entries) == Some(rows[i := Merge(EntryData(entries), selected)])
    ensures AllHaveIds(rows[i := Merge(EntryData(entries), selected)])
  {
    assert FirstMatch(rows, Key(selected)) == i && IdTaken(rows, Key(selected));
    MergeFieldwise(EntryData(entries), selected);
    ReplaceKeepsIds(rows, i, Merge(EntryData(entries), selected));
  }

  /** When no row has the selected ID, the update fails. */
  lemma UpdateMissing(rows: seq<Row>, selected: Row, entries: seq<string>)
    requires |selected| > IdCell
    requires forall j :: 0 <= j < |rows| ==> !HasId(rows[j], Key(selected))
    ensures UpdateRental(rows, selected, entries) == None
  {
  }

  /**
   * An update changes exactly the first row with the selected ID, cell by
   * cell as the merge rule says, and leaves every other row and the order alone.
   */
  lemma UpdateChangesOneRow(rows: seq<Row>, selected: Row, entries: seq<string>)
    requires |selected| > IdCell && |entries| == |Columns|
    ensures UpdateRental(rows, selected, entries).None? <==> !IdTaken(rows, Key(selected))
    ensures UpdateRental(rows, selected, entries).Some? ==>
      var after := UpdateRental(rows, selected, entries).value;
      var i := FirstMatch(rows, Key(selected));
      i < |rows| && |after| == |rows| &&
      (forall j :: 0 <= j < |rows| && j != i ==> after[j] == rows[j]) &&
      |after[i]| == (if |selected| < |Columns| then |selected| else |Columns|) &&
      (forall k :: 0 <= k < |after[i]| ==>
        after[i][k] == if !AllSpace(entries[k]) then Trim(entries[k]) else selected[k])
  {
    var entered := EntryData(entries);
    MergeFieldwise(entered, selected);
    forall k | 0 <= k < |entered|
      ensures entered[k] == Trim(entries[k]) && Trim(entered[k]) == entered[k]
      ensures Trim(entries[k]) == "" <==> AllSpace(entries[k])
    {
      TrimIdempotent(entries[k]);
      TrimEmptyIff(entries[k]);
    }
    FirstMatchFound(rows, Key(selected));
  }

  /** When the form's ID is blank or unchanged, an update keeps IDs unique (and every ID cell in place). */
  lemma UpdateKeepsIdsUnique(rows: seq<Row>, selected: Row, entries: seq<string>)
    requires |selected| > IdCell && |entries| == |Columns| && AllHaveIds(rows) && UniqueIds(rows)
    requires AllSpace(entries[IdCell]) || Trim(entries[IdCell]) == Key(selected)
    requires UpdateRental(rows, selected, entries).Some?
    ensures AllHaveIds(UpdateRental(rows, selected, entries).value)
    ensures UniqueIds(UpdateRental(rows, selected, entries).value)
  {
    UpdateChangesOneRow(rows, selected, entries);
    var after := UpdateRental(rows, selected, entries).value;
    var i := FirstMatch(rows, Key(selected));
    TrimEmptyIff(entries[IdCell]);
    TrimIdempotent(entries[IdCell]);
    TrimIdempotent(selected[IdCell]);
    assert Key(after[i]) == Key(rows[i]);
    forall j | 0 <= j < |after| ensures Key(after[j]) == Key(rows[j]) {
    }
  }

  /**
   * The update path does not check the new ID against the other rows: giving
   * one rental the ID of another leaves two rows with the same ID.
   */
  lemma UpdateCanDuplicateIds()
    ensures var rows := [["A"], ["B"]];
      var entries := ["B", "", "", "", "", "", "", ""];
      AllHaveIds(rows) && UniqueIds(rows) &&
      UpdateRental(rows, ["A"], entries) == Some([["B"], ["B"]])
  {
    var rows := [["A"], ["B"]];
    var entries := ["B", "", "", "", "", "", "", ""];
    assert Trim("A") == "A" by {
      assert TrimStart("A") == "A";
      assert TrimEnd("A") == "A";
    }
    assert Trim("B") == "B" by {
      assert TrimStart("B") == "B";
      assert TrimEnd("B") == "B";
    }
    assert Key(rows[0]) == "A" && Key(rows[1]) == "B";
    assert HasId(rows[0], "A");
    assert FirstMatch(rows, "A") == 0;
    var entered := EntryData(entries);
    assert entered[0] == "B";
    assert Merge(entered, ["A"]) == ["B"] + Merge(entered[1..], ["A"][1..]);
    assert ["A"][1..] == [];
    assert Merge(entered, ["A"]) == ["B"];
    assert Key(["A"]) == "A" && IdTaken(rows, "A");
    assert ReplaceFirst(rows, "A", ["B"]) == [["B"], ["B"]];
    assert UpdateRental(rows, ["A"], entries) == Some(ReplaceFirst(rows, "A", Merge(entered, ["A"])));
  }

  // ----- Delete -----

  /** The test `str(row[0]).strip() != id` of the delete comprehension. */
  function Unlike(id: string): Row -> bool {
    row => !HasId(row, id)
  }

  /** `delete_rental`: the rows whose stripped ID is not `id`, in their original order. */
  function DeleteRental(rows: seq<Row>, id: string): seq<Row> {
    Keep(rows, Unlike(id))
  }

  /** Deleting from a concatenation deletes from each part, so the kept rows keep their order. */
  lemma DeleteAppend(a: seq<Row>, b: seq<Row>, id: string)
    ensures DeleteRental(a + b, id) == DeleteRental(a, id) + DeleteRental(b, id)
  {
    KeepAppend(a, b, Unlike(id));
  }

  /** No row with the deleted ID remains, and every other row does. */
  lemma DeleteRemovesId(rows: seq<Row>, id: string)
    ensures forall i :: 0 <= i < |DeleteRental(rows, id)| ==> !HasId(DeleteRental(rows, id)[i], id)
    ensures forall i :: 0 <= i < |rows| && !HasId(rows[i], id) ==> rows[i] in DeleteRental(rows, id)
    ensures !IdTaken(rows, id) ==> DeleteRental(rows, id) == rows
  {
    var r := DeleteRental(rows, id);
    forall i | 0 <= i < |r| ensures !HasId(r[i], id) {
      assert Unlike(id)(r[i]);
    }
    if !IdTaken(rows, id) {
      KeepAll(rows, Unlike(id));
    }
  }

  /** With unique IDs, deleting drops exactly the one matching row and keeps the rest in order. */
  lemma DeleteUnique(rows: seq<Row>, id: string)
    requires AllHaveIds(rows) && UniqueIds(rows) && IdTaken(rows, id)
    ensures var i := FirstMatch(rows, id);
      i < |rows| && DeleteRental(rows, id) == rows[..i] + rows[i + 1..]
    ensures AllHaveIds(DeleteRental(rows, id)) && UniqueIds(DeleteRental(rows, id))
  {
    var i := FirstMatch(rows, id);
    FirstMatchFound(rows, id);
    forall j | 0 <= j < |rows| && j != i ensures Unlike(id)(rows[j]) {
      if j < i {
        assert Key(rows[j]) != Key(rows[i]);
      } else {
        assert Key(rows[i]) != Key(rows[j]);
      }
    }
    KeepDropsOne(rows, i, Unlike(id));
    UniqueIdsWithout(rows, i);
  }

  /** Removing one row from a list with unique IDs leaves a list with unique IDs. */
  lemma UniqueIdsWithout(rows: seq<Row>, i: nat)
    requires AllHaveIds(rows) && UniqueIds(rows) && i < |rows|
    ensures AllHaveIds(rows[..i] + rows[i + 1..]) && UniqueIds(rows[..i] + rows[i + 1..])
  {
    var r := rows[..i] + rows[i + 1..];
    forall a | 0 <= a < |r| ensures r[a] == rows[if a < i then a else a + 1] {
    }
    forall a, b | 0 <= a < b < |r| ensures Key(r[a]) != Key(r[b]) {
      var a', b' := if a < i then a else a + 1, if b < i then b else b + 1;
      assert r[a] == rows[a'] && r[b] == rows[b'];
    }
  }

  // ----- Mark as returned -----

  /**
   * `mark_as_returned` on the selected row's values: the values with the
   * Status cell set to "Returned" replace the first row with the same ID.
   * `None` when the selected row has no Status cell (`updated[6]` raises).
   */
  function MarkReturned(rows: seq<Row>, selected: Row): Option<seq<Row>>
    requires |selected| > IdCell
  {
    if |selected| <= StatusCell then None
    else Some(ReplaceFirst(rows, Key(selected), selected[StatusCell := ReturnedStatus]))
  }

  /**
   * Marking a stored row as returned sets its Status cell to "Returned" and
   * changes no other cell and no other row.
   */
  lemma MarkReturnedOnlyStatus(rows: seq<Row>, i: nat)
    requires AllHaveIds(rows) && UniqueIds(rows) && i < |rows| && |rows[i]| > StatusCell
    ensures MarkReturned(rows, rows[i]).Some?
    ensures var after := MarkReturned(rows, rows[i]).value;
      |after| == |rows| && AllHaveIds(after) && UniqueIds(after) &&
      (forall j :: 0 <= j < |rows| && j != i ==> after[j] == rows[j]) &&
      |after[i]| == |rows[i]| && after[i][StatusCell] == ReturnedStatus &&
      (forall k :: 0 <= k < |rows[i]| && k != StatusCell ==> after[i][k] == rows[i][k])
  {
    LookupFindsRow(rows, i);
    var after := MarkReturned(rows, rows[i]).value;
    assert FirstMatch(rows, Key(rows[i])) == i;
    assert after == rows[i := rows[i][StatusCell := ReturnedStatus]];
    forall j | 0 <= j < |after| ensures |after[j]| > IdCell && Key(after[j]) == Key(rows[j]) {
    }
  }

  /** Marking any selected row as returned keeps IDs unique: the replaced row keeps its ID. */
  lemma MarkReturnedKeepsIdsUnique(rows: seq<Row>, selected: Row)
    requires AllHaveIds(rows) && UniqueIds(rows) && |selected| > IdCell
    requires MarkReturned(rows, selected).Some?
    ensures AllHaveIds(MarkReturned(rows, selected).value) && UniqueIds(MarkReturned(rows, selected).value)
  {
    var after := MarkReturned(rows, selected).value;
    forall j | 0 <= j < |after| ensures |after[j]| > IdCell && Key(after[j]) == Key(rows[j]) {
    }
  }

  /** Marking the same rental as returned twice leaves it as marking it once. */
  lemma MarkReturnedIdempotent(rows: seq<Row>, i: nat)
    requires AllHaveIds(rows) && i < |rows| && |rows[i]| > StatusCell
    ensures var once := MarkReturned(rows, rows[i]).value;
      MarkReturned(once, once[i]) == Some(once)
  {
    var id := Key(rows[i]);
    var f := FirstMatch(rows, id);
    assert HasId(rows[i], id);
    assert f <= i;
    var marked := rows[i][StatusCell := ReturnedStatus];
    var once := rows[f := marked];
    assert MarkReturned(rows, rows[i]) == Some(once);
    assert Key(marked) == id;
    assert Key(once[i]) == id;
    var g := FirstMatch(once, id);
    assert HasId(once[f], id);
    assert g == f;
    assert once[i][StatusCell := ReturnedStatus] == once[f];
    assert once[f := once[f]] == once;
  }

  // ----- Search -----

  /** Some cell of the row, lowercased, contains `q` (`any(q in str(cell).lower() for cell in row)`). */
  predicate Matches(row: Row, q: string) {
    exists k :: 0 <= k < |row| && Contains(Lower(row[k]), q)
  }

  function Matcher(q: string): Row -> bool {
    row => Matches(row, q)
  }

  /** `apply_filter`: the rows, in store order, that match the lowercased query. */
  function Search(rows: seq<Row>, query: string): seq<Row> {
    Keep(rows, Matcher(Lower(query)))
  }

  /** Exactly the rows with a cell containing the query, ignoring ASCII case, are shown. */
  lemma SearchMembers(rows: seq<Row>, query: string)
    ensures forall i :: 0 <= i < |Search(rows, query)| ==>
      Search(rows, query)[i] in rows && Matches(Search(rows, query)[i], Lower(query))
    ensures forall i :: 0 <= i < |rows| && Matches(rows[i], Lower(query)) ==> rows[i] in Search(rows, query)
  {
    var r := Search(rows, query);
    forall i | 0 <= i < |r| ensures Matches(r[i], Lower(query)) {
      assert Matcher(Lower(query))(r[i]);
    }
  }

  /** The empty query shows every row. */
  lemma SearchEmptyQuery(rows: seq<Row>)
    requires AllHaveIds(rows)
    ensures Search(rows, "") == rows
  {
    forall i | 0 <= i < |rows| ensures Matcher(Lower(""))(rows[i]) {
      ContainsEmpty(Lower(rows[i][IdCell]));
      assert Lower("") == [];
    }
    KeepAll(rows, Matcher(Lower("")));
  }

  /** Searching ignores the case of the query. */
  lemma SearchIgnoresCase(rows: seq<Row>, query: string)
    ensures Search(rows, Lower(query)) == Search(rows, query)
  {
    LowerIdempotent(query);
  }

  /** The search filter keeps store order: it filters each part of the list separately. */
  lemma SearchAppend(a: seq<Row>, b: seq<Row>, query: string)
    ensures Search(a + b, query) == Search(a, query) + Search(b, query)
  {
    KeepAppend(a, b, Matcher(Lower(query)));
  }

  // ----- Due soon -----

  /** The Due Date cell read as `%m/%d/%Y`; `None` when the row is too short or the date does not parse. */
  function DueDate(row: Row): Option<CalendarDate> {
    if |row| > DueDateCell then ParseDate(row[DueDateCell]) else None
  }

  /** The trigger days of the reminder: exactly 5, 3 or 0 days left. */
  predicate IsTriggerDay(daysLeft: int) {
    daysLeft == 5 || daysLeft == 3 || daysLeft == 0
  }

  /**
   * The test of `show_due_soon` and `check_due_reminders`: the due date
   * parses, the days left are a trigger day and the status is not exactly
   * "Returned". A row without a Status cell fails it, as the `row[6]` lookup
   * raises and the row is skipped.
   */
  predicate IsDueSoon(row: Row, today: CalendarDate) {
    match DueDate(row)
    case None => false
    case Some(due) =>
      IsTriggerDay(DaysBetween(today, due)) && |row| > StatusCell && row[StatusCell] != ReturnedStatus
  }

  function DueTest(today: CalendarDate): Row -> bool {
    row => IsDueSoon(row, today)
  }

  /** The rows listed under "Due Soon Rentals", in store order. */
  function DueSoon(rows: seq<Row>, today: CalendarDate): seq<Row> {
    Keep(rows, DueTest(today))
  }

  /** A row is listed exactly when its due date parses, it falls 5, 3 or 0 days ahead, and it is not returned. */
  lemma DueSoonMembers(rows: seq<Row>, today: CalendarDate)
    ensures forall i :: 0 <= i < |DueSoon(rows, today)| ==>
      var row := DueSoon(rows, today)[i];
      row in rows && |row| > StatusCell && row[StatusCell] != ReturnedStatus &&
      DueDate(row).Some? && IsTriggerDay(DaysBetween(today, DueDate(row).value))
    ensures forall i :: 0 <= i < |rows| ==>
      (|rows[i]| > StatusCell && rows[i][StatusCell] != ReturnedStatus &&
       DueDate(rows[i]).Some? && IsTriggerDay(DaysBetween(today, DueDate(rows[i]).value)) ==>
       rows[i] in DueSoon(rows, today))
  {
    var r := DueSoon(rows, today);
    forall i | 0 <= i < |r| ensures IsDueSoon(r[i], today) {
      assert DueTest(today)(r[i]);
    }
    forall i | 0 <= i < |rows| && IsDueSoon(rows[i], today) ensures rows[i] in r {
      assert DueTest(today)(rows[i]);
    }
  }

  /** The due-soon list keeps store order: it filters each part of the list separately. */
  lemma DueSoonAppend(a: seq<Row>, b: seq<Row>, today: CalendarDate)
    ensures DueSoon(a + b, today) == DueSoon(a, today) + DueSoon(b, today)
  {
    KeepAppend(a, b, DueTest(today));
  }

  /** `str(n)` for the single-digit day counts a reminder can mention. */
  function DigitString(n: int): string
    requires 0 <= n <= 9
  {
    [DigitChar(n)]
  }

  /** The text of the reminder `check_due_reminders` shows for a due-soon row. */
  function ReminderText(row: Row, today: CalendarDate): string
    requires IsDueSoon(row, today)
  {
    var daysLeft := DaysBetween(today, DueDate(row).value);
    if daysLeft > 0 then "Reminder: Rental ID " + row[IdCell] + " is due in " + DigitString(daysLeft) + " days."
    else "FINAL NOTICE: Rental ID " + row[IdCell] + " is due TODAY!"
  }

  /** The reminders, one per due-soon row and in the same order. */
  function Reminders(rows: seq<Row>, today: CalendarDate): (r: seq<string>)
    ensures |r| == |DueSoon(rows, today)|
  {
    var due := DueSoon(rows, today);
    DueSoonMembers(rows, today);
    seq(|due|, k requires 0 <= k < |due| => ReminderText(due[k], today))
  }

  /** Extending the list by one row adds that row's reminder, if it has one, at the end. */
  lemma RemindersSnoc(rows: seq<Row>, i: nat, today: CalendarDate)
    requires i < |rows|
    ensures Reminders(rows[..i + 1], today) ==
      Reminders(rows[..i], today) + (if IsDueSoon(rows[i], today) then [ReminderText(rows[i], today)] else [])
  {
    KeepSnoc(rows, i, DueTest(today));
    var before, after := DueSoon(rows[..i], today), DueSoon(rows[..i + 1], today);
    DueSoonMembers(rows[..i], today);
    DueSoonMembers(rows[..i + 1], today);
    var r, r' := Reminders(rows[..i], today), Reminders(rows[..i + 1], today);
    forall k | 0 <= k < |r| ensures r'[k] == r[k] {
      assert after[k] == before[k];
    }
  }

  /** The final notice is given exactly when the rental is due today. */
  lemma FinalNoticeIffDueToday(row: Row, today: CalendarDate)
    requires IsDueSoon(row, today)
    ensures ReminderText(row, today) == "FINAL NOTICE: Rental ID " + row[IdCell] + " is due TODAY!"
        <==> DueDate(row).value == today
  {
    var due := DueDate(row).value;
    DaysBetweenSign(today, due);
    var daysLeft := DaysBetween(today, due);
    if daysLeft > 0 {
      var r := ReminderText(row, today);
      assert r[0] == 'R';
    }
  }
}
