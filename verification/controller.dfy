/** The table-changing part of the main loop: the add (`a`), display (`i`),
    delete (`d`) and exit (`x`) branches, with the lines the user types at
    their prompts given as parameters. Loading and saving are not modelled. */
module Controller {
  import opened Wrappers
  import opened Text
  import opened IdParse
  import opened Inventory

  /** One pass through the menu, with the answers typed at its prompts. */
  datatype Command =
    | AddCd(idLine: string, titleLine: string, artistLine: string)
    | Display
    | DeleteCd(idLine: string)
    | Quit

  /** What the user is told after each pass. */
  datatype Outcome = Added | AddEntryError | Listed | Removed | NotFound | DeleteEntryError | Exited

  /** `IO.get_data`: the three answers, each stripped of surrounding white
      space. Stripping again would change nothing, and the model's conversion
      `IntOf` gives the same result on the ID text as on the line typed. */
  function GetData(idLine: string, titleLine: string, artistLine: string): (r: Entry)
    ensures Strip(r.idText) == r.idText && Strip(r.title) == r.title && Strip(r.artist) == r.artist
    ensures IntOf(r.idText) == IntOf(idLine)
    ensures r.idText == Strip(idLine) && r.title == Strip(titleLine) && r.artist == Strip(artistLine)
  {
    StripIdempotent(idLine);
    StripIdempotent(titleLine);
    StripIdempotent(artistLine);
    IntOfStripped(idLine);
    Entry(Strip(idLine), Strip(titleLine), Strip(artistLine))
  }

  /** The effect of one branch of the main loop on the table. Only a
      successful add or delete changes it: an add appends at the end, a
      delete takes one record out, and entry errors, unknown IDs and the
      listing leave it as it was. */
  function Transition(rows: seq<Record>, cmd: Command): (r: (seq<Record>, Outcome))
    ensures r.1 == Added || r.1 == Removed || r.0 == rows
    ensures r.1 == Added ==> |r.0| == |rows| + 1 && r.0[..|rows|] == rows
    ensures r.1 == Removed ==> |r.0| == |rows| - 1
    ensures r.1 == Exited <==> cmd == Quit
    // add: accepted exactly when `int()` reads the typed ID; then the record goes at the end
    ensures cmd.AddCd? ==> (r.1 == Added <==> IntOf(cmd.idLine).Some?)
    ensures cmd.AddCd? && IntOf(cmd.idLine).Some? ==>
      r.0 == rows + [Record(IntOf(cmd.idLine).value, Strip(cmd.titleLine), Strip(cmd.artistLine))]
    ensures cmd.AddCd? && IntOf(cmd.idLine).None? ==> r == (rows, AddEntryError)
    // display: the table is only shown
    ensures cmd == Display ==> r == (rows, Listed)
    // delete: an entry error for a non-integer ID, otherwise the first match goes
    ensures cmd.DeleteCd? && IntOf(cmd.idLine).None? ==> r == (rows, DeleteEntryError)
    ensures cmd.DeleteCd? && IntOf(cmd.idLine).Some? ==>
      r.0 == RemoveFirst(rows, IntOf(cmd.idLine).value) &&
      (r.1 == Removed || r.1 == NotFound) &&
      (r.1 == Removed <==> HasId(rows, IntOf(cmd.idLine).value))
  {
    match cmd
    case AddCd(idLine, titleLine, artistLine) =>
      var entry := GetData(idLine, titleLine, artistLine);
      (match IntOf(entry.idText)
       case None => (rows, AddEntryError)
       case Some(id) => (rows + [Record(id, entry.title, entry.artist)], Added))
    case Display => (rows, Listed)
    case DeleteCd(idLine) =>
      IntOfStripped(idLine);
      (match IntOf(Strip(idLine))
       case None => (rows, DeleteEntryError)
       case Some(id) =>
         if HasId(rows, id) then (RemoveFirst(rows, id), Removed)
         else RemoveFirstAbsent(rows, id); (rows, NotFound))
    case Quit => (rows, Exited)
  }

  /** One pass of the main loop on the table object: the add branch calls
      `get_data` and `add_Inv`, the delete branch reads an ID with `int()`
      and calls `del_Inv`. */
  method Step(table: Table, cmd: Command) returns (outcome: Outcome)
    modifies table
    ensures (table.rows, outcome) == Transition(old(table.rows), cmd)
  {
    match cmd
    case AddCd(idLine, titleLine, artistLine) =>
      var ok := table.AddInv(GetData(idLine, titleLine, artistLine));
      outcome := if ok then Added else AddEntryError;
    case Display =>
      outcome := Listed;
    case DeleteCd(idLine) =>
      var intIdDel := IntOf(Strip(idLine));
      if intIdDel.None? {
        outcome := DeleteEntryError;
      } else {
        var cdRemoved := table.DelInv(intIdDel.value);
        outcome := if cdRemoved then Removed else NotFound;
      }
    case Quit =>
      outcome := Exited;
  }

  /** The table and the messages after a whole session of commands; the
      session ends at the first `Quit`, and commands after it are never read. */
  function Replay(rows: seq<Record>, cmds: seq<Command>): (r: (seq<Record>, seq<Outcome>))
    ensures |r.1| <= |cmds|
    ensures Quit !in cmds ==> |r.1| == |cmds|
    decreases |cmds|
  {
    if cmds == [] then (rows, [])
    else if cmds[0] == Quit then (rows, [Exited])
    else
      var step := Transition(rows, cmds[0]);
      var rest := Replay(step.0, cmds[1..]);
      assert cmds == [cmds[0]] + cmds[1..];
      (rest.0, [step.1] + rest.1)
  }

  /** The session ends at its first `Quit`: with the first exit at index `k`
      there are exactly `k + 1` messages, the last one `Exited`, and the
      commands after it have no effect on the table or the messages. */
  lemma {:induction false} ReplayStopsAtQuit(rows: seq<Record>, cmds: seq<Command>, k: nat)
    requires k < |cmds| && cmds[k] == Quit && Quit !in cmds[..k]
    ensures Replay(rows, cmds) == Replay(rows, cmds[..k + 1])
    ensures |Replay(rows, cmds).1| == k + 1 && Replay(rows, cmds).1[k] == Exited
    decreases k
  {
    if k > 0 {
      assert cmds[0] == cmds[..k][0];
      var step := Transition(rows, cmds[0]);
      assert cmds[1..][..k - 1] == cmds[..k][1..];
      ReplayStopsAtQuit(step.0, cmds[1..], k - 1);
      assert cmds[..k + 1][0] == cmds[0] && cmds[..k + 1][1..] == cmds[1..][..k];
    }
  }

  /** A session without an exit followed by more commands runs the first
      part and then the second part from the table the first part left. */
  lemma {:induction false} ReplayAppend(rows: seq<Record>, first: seq<Command>, second: seq<Command>)
    requires Quit !in first
    ensures var a := Replay(rows, first);
            var b := Replay(a.0, second);
            Replay(rows, first + second) == (b.0, a.1 + b.1)
    decreases |first|
  {
    if first == [] {
      assert first + second == second;
      assert [] + Replay(rows, second).1 == Replay(rows, second).1;
    } else {
      var step := Transition(rows, first[0]);
      assert (first + second)[0] == first[0];
      assert (first + second)[1..] == first[1..] + second;
      assert Quit !in first[1..] by {
        assert forall j :: 0 <= j < |first[1..]| ==> first[1..][j] == first[j + 1];
      }
      ReplayAppend(step.0, first[1..], second);
      var a := Replay(step.0, first[1..]);
      var b := Replay(a.0, second);
      assert [step.1] + (a.1 + b.1) == ([step.1] + a.1) + b.1;
    }
  }

  /** The main loop: one command per pass until the user exits. */
  method RunSession(table: Table, cmds: seq<Command>) returns (outcomes: seq<Outcome>)
    modifies table
    ensures (table.rows, outcomes) == Replay(old(table.rows), cmds)
  {
    outcomes := [];
    var i := 0;
    assert cmds[i..] == cmds;
    ghost var whole := Replay(table.rows, cmds);
    assert [] + whole.1 == whole.1;
    while i < |cmds|
      invariant 0 <= i <= |cmds|
      invariant Replay(old(table.rows), cmds) ==
                (Replay(table.rows, cmds[i..]).0, outcomes + Replay(table.rows, cmds[i..]).1)
    {
      if cmds[i] == Quit {
        assert Replay(table.rows, cmds[i..]) == (table.rows, [Exited]);
        outcomes := outcomes + [Exited];
        break;
      }
      ghost var before, done := table.rows, outcomes;
      var outcome := Step(table, cmds[i]);
      ghost var rest := Replay(table.rows, cmds[i + 1..]);
      assert cmds[i..][0] == cmds[i] && cmds[i..][1..] == cmds[i + 1..];
      assert Replay(before, cmds[i..]) == (rest.0, [outcome] + rest.1);
      outcomes := outcomes + [outcome];
      assert done + ([outcome] + rest.1) == outcomes + rest.1;
      i := i + 1;
    }
    if i == |cmds| {
      assert cmds[i..] == [];
      assert outcomes + [] == outcomes;
    }
  }

  /** An add whose ID `int()` accepts appends the stripped title and artist. */
  lemma TransitionAdd(rows: seq<Record>, idLine: string, title: string, artist: string, id: int)
    requires IntOf(idLine) == Some(id)
    ensures Transition(rows, AddCd(idLine, title, artist)) ==
            (rows + [Record(id, Strip(title), Strip(artist))], Added)
  {
    IntOfStripped(idLine);
  }

  /** A delete of an ID some record carries removes the first such record. */
  lemma TransitionDelete(rows: seq<Record>, idLine: string, id: int)
    requires IntOf(idLine) == Some(id) && HasId(rows, id)
    ensures Transition(rows, DeleteCd(idLine)) == (RemoveFirst(rows, id), Removed)
  {
    IntOfStripped(idLine);
  }

  /** A session that does not start with an exit runs its first command, then the rest. */
  lemma ReplayCons(rows: seq<Record>, cmds: seq<Command>)
    requires cmds != [] && cmds[0] != Quit
    ensures var step := Transition(rows, cmds[0]);
            var rest := Replay(step.0, cmds[1..]);
            Replay(rows, cmds) == (rest.0, [step.1] + rest.1)
  {
  }

  /** Two commands in a row, neither of them an exit. */
  lemma ReplayTwo(rows: seq<Record>, first: Command, second: Command)
    requires first != Quit && second != Quit
    ensures var mid := Transition(rows, first);
            var last := Transition(mid.0, second);
            Replay(rows, [first, second]) == (last.0, [mid.1, last.1])
  {
    var cmds := [first, second];
    var mid := Transition(rows, first);
    var last := Transition(mid.0, second);
    assert cmds[1..] == [second] && cmds[1..][1..] == [];
    assert Replay(mid.0, cmds[1..]) == (last.0, [last.1] + []);
    assert [mid.1] + ([last.1] + []) == [mid.1, last.1];
  }

  /** Adding a CD under a new ID and then deleting that ID gives back the
      table as it was. */
  lemma AddThenDelete(rows: seq<Record>, idLine: string, title: string, artist: string, id: int)
    requires IntOf(idLine) == Some(id) && !HasId(rows, id)
    ensures Replay(rows, [AddCd(idLine, title, artist), DeleteCd(idLine)]) == (rows, [Added, Removed])
  {
    var rec := Record(id, Strip(title), Strip(artist));
    TransitionAdd(rows, idLine, title, artist, id);
    assert HasId(rows + [rec], id) by {
      assert (rows + [rec])[|rows|].id == id;
    }
    RemoveFirstAfterAppend(rows, rec);
    TransitionDelete(rows + [rec], idLine, id);
    ReplayTwo(rows, AddCd(idLine, title, artist), DeleteCd(idLine));
  }

  /** Listing, deleting the ID of the first of two records, listing again. */
  lemma ListDeleteList(first: Record, second: Record, idLine: string)
    requires IntOf(idLine) == Some(first.id)
    ensures Replay([first, second], [Display, DeleteCd(idLine), Display]) == ([second], [Listed, Removed, Listed])
  {
    var both := [first, second];
    var cmds := [Display, DeleteCd(idLine), Display];
    assert HasId(both, first.id) by {
      assert both[0].id == first.id;
    }
    assert RemoveFirst(both, first.id) == [second] by {
      assert both[1..] == [second];
    }
    TransitionDelete(both, idLine, first.id);
    ReplayTwo(both, cmds[1], cmds[2]);
    assert Replay(both, cmds[1..]) == ([second], [Removed, Listed]) by {
      assert cmds[1..] == [cmds[1], cmds[2]];
    }
    ReplayCons(both, cmds);
    assert [Listed] + [Removed, Listed] == [Listed, Removed, Listed];
  }

  /** A session that starts with an accepted add continues from the table
      with the new record at its end. */
  lemma ReplayAdd(rows: seq<Record>, idLine: string, title: string, artist: string, id: int,
                  rest: seq<Command>)
    requires IntOf(idLine) == Some(id)
    ensures var after := Replay(rows + [Record(id, Strip(title), Strip(artist))], rest);
            Replay(rows, [AddCd(idLine, title, artist)] + rest) == (after.0, [Added] + after.1)
  {
    var cmds := [AddCd(idLine, title, artist)] + rest;
    TransitionAdd(rows, idLine, title, artist, id);
    assert cmds[1..] == rest;
    ReplayCons(rows, cmds);
  }

  /** The second half of the session below: add a second CD, list, delete
      the first ID, list. */
  lemma AddListDeleteList(first: Record, idLine1: string, idLine2: string, title: string, artist: string, id: int)
    requires IntOf(idLine1) == Some(first.id) && IntOf(idLine2) == Some(id)
    ensures Replay([first], [AddCd(idLine2, title, artist), Display, DeleteCd(idLine1), Display])
            == ([Record(id, Strip(title), Strip(artist))], [Added, Listed, Removed, Listed])
  {
    var second := Record(id, Strip(title), Strip(artist));
    var tail := [Display, DeleteCd(idLine1), Display];
    ListDeleteList(first, second, idLine1);
    assert [first] + [second] == [first, second];
    ReplayAdd([first], idLine2, title, artist, id, tail);
    assert [AddCd(idLine2, title, artist)] + tail == [AddCd(idLine2, title, artist), Display, DeleteCd(idLine1), Display];
    assert [Added] + [Listed, Removed, Listed] == [Added, Listed, Removed, Listed];
  }

  /** A session on an empty table: add two CDs, list, delete the first ID,
      list. Only the second CD is left, and every step reports success. */
  lemma Scenario(id1: string, title1: string, artist1: string,
                 id2: string, title2: string, artist2: string, n1: int, n2: int)
    requires IntOf(id1) == Some(n1) && IntOf(id2) == Some(n2)
    ensures Replay([], [AddCd(id1, title1, artist1), AddCd(id2, title2, artist2),
                        Display, DeleteCd(id1), Display])
            == ([Record(n2, Strip(title2), Strip(artist2))], [Added, Added, Listed, Removed, Listed])
  {
    var first := Record(n1, Strip(title1), Strip(artist1));
    var rest := [AddCd(id2, title2, artist2), Display, DeleteCd(id1), Display];
    AddListDeleteList(first, id1, id2, title2, artist2, n2);
    assert [] + [first] == [first];
    ReplayAdd([], id1, title1, artist1, n1, rest);
    assert [AddCd(id1, title1, artist1)] + rest
        == [AddCd(id1, title1, artist1), AddCd(id2, title2, artist2), Display, DeleteCd(id1), Display];
    assert [Added] + [Added, Listed, Removed, Listed] == [Added, Added, Listed, Removed, Listed];
  }

  /** The IDs of the example session, "1" and "2", are read as 1 and 2. */
  lemma ScenarioIds()
    ensures IntOf("1") == Some(1) && IntOf("2") == Some(2)
  {
    NoSpaceStrip("1");
    NoSpaceStrip("2");
    assert "1"[..0] == [] && "2"[..0] == [];
  }
}
