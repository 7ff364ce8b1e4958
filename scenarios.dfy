/**
 * Worked examples of the store's rules on concrete rows: a partial update,
 * the due-soon trigger days around 1 January 2024, a case-insensitive
 * search, and a duplicate add.
 */
module Scenarios {
  import opened Optional
  import opened Text
  import opened Seqs
  import opened Dates
  import opened Records

  const NewYear: CalendarDate := Date(2024, 1, 1)
  const Jan5: CalendarDate := Date(2024, 1, 5)
  const Jan6: CalendarDate := Date(2024, 1, 6)

  /** Rented on 20 December 2023, due on 6 January 2024. */
  const Laptop: Row := ["L1", "Laptop", "SN-100", "Alex Smith", "12/20/2023", FormatDate(Jan6), "Rented", ""]
  /** Due on 5 January 2024. */
  const Tablet: Row := ["T1", "Tablet", "SN-200", "Jordan", "12/20/2023", FormatDate(Jan5), "Rented", ""]
  /** Due on 1 January 2024, and already returned. */
  const Camera: Row := ["C1", "Camera", "SN-300", "Sam", "12/20/2023", FormatDate(NewYear), "Returned", ""]

  /** A word that neither starts nor ends with whitespace is its own strip. */
  lemma TrimWord(s: string)
    requires s != [] && !IsSpace(s[0]) && !IsSpace(s[|s| - 1])
    ensures Trim(s) == s
  {
  }

  lemma KeepOfTwo<T>(a: T, b: T, p: T -> bool)
    ensures Keep([a, b], p) == (if p(a) then [a] else []) + (if p(b) then [b] else [])
  {
    assert [a, b][1..] == [b];
    assert [b][1..] == [];
  }

  lemma KeepOfThree<T>(a: T, b: T, c: T, p: T -> bool)
    ensures Keep([a, b, c], p) == (if p(a) then [a] else []) + Keep([b, c], p)
  {
    assert [a, b, c][1..] == [b, c];
  }

  /**
   * Updating with a blank Renter and a Status of "Returned" keeps the old
   * renter and changes the status.
   */
  lemma PartialUpdateKeepsBlankFields()
    ensures var entries := ["", "", "", "", "", "", "Returned", ""];
      var after := UpdateRental([Laptop], Laptop, entries);
      after.Some? && |after.value| == 1 && |after.value[0]| == |Columns| &&
      after.value[0][3] == "Alex Smith" && after.value[0][StatusCell] == "Returned"
  {
    var entries := ["", "", "", "", "", "", "Returned", ""];
    TrimWord("L1");
    assert Key(Laptop) == "L1";
    assert HasId([Laptop][0], "L1");
    UpdateChangesOneRow([Laptop], Laptop, entries);
    assert FirstMatch([Laptop], "L1") == 0;
    assert AllSpace(entries[3]);
    assert !AllSpace(entries[StatusCell]) by {
      assert !IsSpace(entries[StatusCell][0]);
    }
    TrimWord("Returned");
  }

  lemma LaptopDueInFiveDays()
    ensures DueDate(Laptop) == Some(Jan6) && DaysBetween(NewYear, Jan6) == 5
    ensures IsDueSoon(Laptop, NewYear)
  {
    ParseFormatDate(Jan6);
  }

  lemma TabletDueInFourDays()
    ensures DueDate(Tablet) == Some(Jan5) && DaysBetween(NewYear, Jan5) == 4
    ensures !IsDueSoon(Tablet, NewYear)
  {
    ParseFormatDate(Jan5);
  }

  /**
   * On 1 January 2024 a rental due 6 January (5 days left) is listed, one
   * due 5 January (4 days left) is not, and a returned rental due that very
   * day is not either.
   */
  lemma DueSoonOnNewYear()
    ensures DueSoon([Laptop, Tablet, Camera], NewYear) == [Laptop]
  {
    LaptopDueInFiveDays();
    TabletDueInFourDays();
    assert !IsDueSoon(Camera, NewYear);
    KeepOfThree(Laptop, Tablet, Camera, DueTest(NewYear));
    KeepOfTwo(Tablet, Camera, DueTest(NewYear));
  }

  /** A string that contains `q` contains each of its characters. */
  lemma ContainsHasChars(s: string, q: string, j: nat)
    requires Contains(s, q) && j < |q|
    ensures q[j] in s
  {
    ContainsIffOccurs(s, q);
    var i :| OccursAt(s, q, i);
    assert s[i..i + |q|][j] == s[i + j];
  }

  lemma LaptopMatchesAlex()
    ensures Matches(Laptop, "alex")
  {
    var cell := Lower(Laptop[3]);
    assert cell[0] == 'a' && cell[1] == 'l' && cell[2] == 'e' && cell[3] == 'x';
    assert cell[..4] == "alex";
    assert Contains(cell, "alex");
  }

  lemma TabletMissesAlex()
    ensures !Matches(Tablet, "alex")
  {
    forall k | 0 <= k < |Tablet| ensures !Contains(Lower(Tablet[k]), "alex") {
      var cell := Lower(Tablet[k]);
      forall j | 0 <= j < |cell| ensures cell[j] != 'x' {
        assert Tablet[k][j] != 'x' && Tablet[k][j] != 'X';
      }
      if Contains(cell, "alex") {
        ContainsHasChars(cell, "alex", 3);
        assert false;
      }
    }
  }

  /** Searching for "alex" finds the rental whose renter is "Alex Smith" and no other. */
  lemma SearchFindsRenter()
    ensures Search([Laptop, Tablet], "alex") == [Laptop]
  {
    assert Lower("alex") == "alex";
    LaptopMatchesAlex();
    TabletMissesAlex();
    KeepOfTwo(Laptop, Tablet, Matcher("alex"));
  }

  /** Adding a rental under an existing ID, even with extra spaces, is refused as a duplicate. */
  lemma AddRefusesDuplicate()
    ensures AddRental([Laptop], [" L1 ", "Mouse", "", "", "", "", "New", ""]) == Rejected(DuplicateId)
  {
    var entries := [" L1 ", "Mouse", "", "", "", "", "New", ""];
    TrimWord("L1");
    assert TrimStart(" L1 ") == "L1 " by {
      assert " L1 "[1..] == "L1 ";
    }
    assert TrimEnd("L1 ") == "L1" by {
      assert "L1 "[..2] == "L1";
    }
    assert Trim(entries[IdCell]) == "L1";
    assert HasId([Laptop][0], "L1");
    assert !AllSpace(entries[IdCell]) by {
      assert !IsSpace(entries[IdCell][1]);
    }
  }

  /** After a reset the persisted file holds only the header, so loading it gives no rows. */
  lemma ResetPersistsNothing()
    ensures LoadedRows(SavedFile([])) == []
  {
    LoadSavedFile([]);
  }
}
