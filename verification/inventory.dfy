/** The in-memory CD inventory (`DataProcessor` and the table `lstTbl`):
    an ordered list of records, appended to by `add_Inv` and thinned by
    `del_Inv`, which removes the first record carrying a given ID. */
module Inventory {
  import opened Wrappers
  import opened IdParse

  /** One row of the table: the dictionary `{ID, CD Title, Artist}`. */
  datatype Record = Record(id: int, title: string, artist: string)

  /** The three strings the user typed for a new CD, ID first. */
  datatype Entry = Entry(idText: string, title: string, artist: string)

  predicate HasId(rows: seq<Record>, id: int) {
    exists j :: 0 <= j < |rows| && rows[j].id == id
  }

  /** `i` is the lowest index holding a record with this ID. */
  predicate FirstMatch(rows: seq<Record>, id: int, i: nat) {
    i < |rows| && rows[i].id == id && forall j :: 0 <= j < i ==> rows[j].id != id
  }

  lemma HasIdCons(rows: seq<Record>, id: int)
    requires rows != []
    ensures HasId(rows, id) <==> rows[0].id == id || HasId(rows[1..], id)
  {
    if HasId(rows, id) && rows[0].id != id {
      var j :| 0 <= j < |rows| && rows[j].id == id;
      assert rows[1..][j - 1].id == id;
    }
    if HasId(rows[1..], id) {
      var j :| 0 <= j < |rows[1..]| && rows[1..][j].id == id;
      assert rows[j + 1].id == id;
    }
  }

  /** The number of records carrying this ID; the table allows duplicates. */
  function CountId(rows: seq<Record>, id: int): (n: nat)
    ensures n > 0 <==> HasId(rows, id)
    ensures n <= |rows|
  {
    if rows == [] then 0
    else
      var rest := CountId(rows[1..], id);
      HasIdCons(rows, id);
      (if rows[0].id == id then 1 else 0) + rest
  }

  /** The table after deleting the first record with this ID, if there is one. */
  function RemoveFirst(rows: seq<Record>, id: int): (r: seq<Record>)
    ensures |r| == if HasId(rows, id) then |rows| - 1 else |rows|
  {
    if rows == [] then []
    else
      assert rows == [rows[0]] + rows[1..];
      HasIdCons(rows, id);
      if rows[0].id == id then rows[1..]
      else [rows[0]] + RemoveFirst(rows[1..], id)
  }

  /** Deleting an ID that no record carries leaves the table as it was. */
  lemma {:induction false} RemoveFirstAbsent(rows: seq<Record>, id: int)
    requires !HasId(rows, id)
    ensures RemoveFirst(rows, id) == rows
    decreases |rows|
  {
    if rows != [] {
      HasIdCons(rows, id);
      RemoveFirstAbsent(rows[1..], id);
    }
  }

  /** Deleting removes exactly the record at the lowest matching index: what
      comes before it and what comes after it, later records with the same
      ID included, stay in order. */
  lemma {:induction false} RemoveFirstAt(rows: seq<Record>, id: int, i: nat)
    requires FirstMatch(rows, id, i)
    ensures RemoveFirst(rows, id) == rows[..i] + rows[i + 1..]
    decreases i
  {
    if i > 0 {
      assert rows[0].id != id;
      RemoveFirstAt(rows[1..], id, i - 1);
      assert rows[1..][..i - 1] == rows[1..i];
      assert rows[1..][i..] == rows[i + 1..];
      assert [rows[0]] + rows[1..i] == rows[..i];
    }
  }

  /** Deleting takes exactly one record, the first match, out of the table. */
  lemma RemoveFirstMultiset(rows: seq<Record>, id: int, i: nat)
    requires FirstMatch(rows, id, i)
    ensures multiset(RemoveFirst(rows, id)) + multiset{rows[i]} == multiset(rows)
  {
    RemoveFirstAt(rows, id, i);
    assert rows == rows[..i] + [rows[i]] + rows[i + 1..];
  }

  /** Deleting an ID takes away one occurrence of it when there is one, and
      no record with any other ID. */
  lemma {:induction false} RemoveFirstCount(rows: seq<Record>, id: int, other: int)
    ensures CountId(RemoveFirst(rows, id), other) ==
            CountId(rows, other) - (if other == id && HasId(rows, id) then 1 else 0)
    decreases |rows|
  {
    if rows != [] && rows[0].id != id {
      var tail := RemoveFirst(rows[1..], id);
      RemoveFirstCount(rows[1..], id, other);
      assert ([rows[0]] + tail)[1..] == tail;
      HasIdCons(rows, id);
    }
  }

  lemma {:induction false} CountAppend(rows: seq<Record>, rec: Record, other: int)
    ensures CountId(rows + [rec], other) == CountId(rows, other) + (if rec.id == other then 1 else 0)
    decreases |rows|
  {
    if rows != [] {
      assert (rows + [rec])[1..] == rows[1..] + [rec];
      CountAppend(rows[1..], rec, other);
    } else {
      assert [] + [rec] == [rec];
    }
  }

  /** Appending a record and then deleting its ID removes the record just
      appended when the ID was new, and otherwise an older record with that
      ID, leaving the new one at the end. */
  lemma {:induction false} RemoveFirstAfterAppend(rows: seq<Record>, rec: Record)
    ensures RemoveFirst(rows + [rec], rec.id) ==
            if HasId(rows, rec.id) then RemoveFirst(rows, rec.id) + [rec] else rows
    decreases |rows|
  {
    var id := rec.id;
    var s := rows + [rec];
    if rows == [] {
      assert s == [rec];
    } else {
      assert s[0] == rows[0] && s[1..] == rows[1..] + [rec];
      HasIdCons(rows, id);
      if rows[0].id != id {
        RemoveFirstAfterAppend(rows[1..], rec);
        var tail := RemoveFirst(rows[1..], id);
        assert RemoveFirst(s, id) == [rows[0]] + RemoveFirst(rows[1..] + [rec], id);
        if HasId(rows, id) {
          assert RemoveFirst(rows, id) == [rows[0]] + tail;
          assert [rows[0]] + (tail + [rec]) == ([rows[0]] + tail) + [rec];
        } else {
          assert [rows[0]] + rows[1..] == rows;
        }
      }
    }
  }

  /** The table `lstTbl`, updated in place by the two `DataProcessor` operations. */
  class Table {
    var rows: seq<Record>

    constructor ()
      ensures rows == []
    {
      rows := [];
    }

    /** `add_Inv`: converts the ID with `int()` and appends the record at the
        end. `ok` is false when `int()` raises `ValueError`, which happens
        before the append, so the table is then unchanged. No check for an
        existing record with the same ID is made. */
    method AddInv(entry: Entry) returns (ok: bool)
      modifies this
      ensures ok <==> IntOf(entry.idText).Some?
      ensures ok ==> rows == old(rows) + [Record(IntOf(entry.idText).value, entry.title, entry.artist)]
      ensures !ok ==> rows == old(rows)
    {
      var intId := IntOf(entry.idText);
      if intId.None? {
        return false;
      }
      var row := Record(intId.value, entry.title, entry.artist);
      rows := rows + [row];
      ok := true;
    }

    /** `del_Inv`: walks the table with a row counter and deletes the first
        record whose ID equals `userInput`, then stops. */
    method DelInv(userInput: int) returns (removed: bool)
      modifies this
      ensures removed <==> HasId(old(rows), userInput)
      ensures rows == RemoveFirst(old(rows), userInput)
      ensures !removed ==> rows == old(rows)
    {
      var rowNr := -1;
      removed := false;
      while rowNr + 1 < |rows|
        invariant -1 <= rowNr < |rows|
        invariant rows == old(rows) && !removed
        invariant forall j :: 0 <= j <= rowNr ==> rows[j].id != userInput
      {
        rowNr := rowNr + 1;
        var row := rows[rowNr];
        if row.id == userInput {
          RemoveFirstAt(rows, userInput, rowNr);
          rows := rows[..rowNr] + rows[rowNr + 1..];
          removed := true;
          break;
        }
      }
      if !removed {
        RemoveFirstAbsent(rows, userInput);
      }
    }
  }
}
