# CD inventory: a Dafny model of the in-memory store

`CDInventory.py` keeps a small CD collection in a list of records
(`{ID, CD Title, Artist}`) and runs a text menu over it. This project models
the part of it that computes rather than prints or touches files:

- `DataProcessor.add_Inv`: convert the typed ID with `int()` and append a record at
  the end of the table. It raises `ValueError`, with nothing appended, when the ID is not an integer.
- `DataProcessor.del_Inv`: walk the table with a row counter, delete the
  first record whose ID matches, stop, and report whether anything was removed.
- `IO.menu_choice`: re-prompt until the typed line, lower-cased and
  stripped, is one of `l`, `a`, `i`, `d`, `s`, `x`.
- The add (`a`), display (`i`), delete (`d`) and exit (`x`) branches of the
  main loop, as transitions of the table driven by the lines the user types.

Files, one module each:

- `wrappers.dfy`: `Option`, the stand-in for "raises instead of returning".
- `text.dfy`: Python's `str.strip()` (full `str.isspace` set) and `str.lower()` (ASCII letters).
- `id_parse.dfy`: `int(text)` as a signed-decimal parser, and `str(n)` for the listing.
- `menu.dfy`: the menu keys and the `menu_choice` prompt loop over a sequence of input lines.
- `inventory.dfy`: the `Record` value, the specification functions `RemoveFirst` and `CountId`, and the
  class `Table` whose field `rows` is the table `lstTbl`. Its methods `AddInv` and `DelInv` update it in place.
- `controller.dfy`: one menu pass as a pure `Transition`, whole sessions as
  `Replay`, and the methods `Step` and `RunSession` that drive a `Table` and are
  proved equal to them.

Console input is a parameter throughout. A line the user types is a `string`, and
a session is a `seq<Command>`. `print` output is not modelled. What each
pass reports appears as an `Outcome` value. `AddEntryError`, `Removed`,
`NotFound` and `DeleteEntryError` stand for messages the program prints.
`Added` and `Listed` are markers of this model: the add and display branches
print only the listing (CDInventory.py:216, 221). `Exited` is a marker too:
exit prints nothing (CDInventory.py:188-189).

## Model

| member | source | states |
|---|---|---|
| `Inventory.Table.constructor` | CDInventory.py:14 | the table `lstTbl` starts empty |
| `Inventory.Table.AddInv` | CDInventory.py:37-39 | succeeds exactly when `int()` accepts the ID text; on success the table is the old table with `{ID: int(id), title, artist}` appended at the end (earlier records unchanged, in order, no uniqueness check); on `ValueError` the table is unchanged |
| `Inventory.Table.DelInv` | CDInventory.py:52-60 | returns true exactly when some record in the old table has the given ID; the new table is `RemoveFirst(old table, id)`, and it is the old table when nothing was removed; the loop keeps the counter `intRowNr` and the fact that no earlier row matched |
| `Inventory.RemoveFirst` | CDInventory.py:54-59 | deleting shortens the table by one when the ID is present and keeps its length otherwise |
| `Inventory.RemoveFirstAt` | CDInventory.py:54-59 | when `i` is the lowest index holding the ID, deleting yields `rows[..i] + rows[i+1..]`: exactly that record goes, and everything before and after, later duplicates included, keeps its order |
| `Inventory.RemoveFirstAbsent` | CDInventory.py:53-60 | deleting an ID no record carries leaves the table as it was |
| `Inventory.RemoveFirstMultiset` | CDInventory.py:57 | the deleted table plus the first matching record is, as a multiset, the old table: one record is removed and nothing else is lost |
| `Inventory.RemoveFirstCount` | CDInventory.py:54-59 | deleting lowers the number of records with that ID by one when there is one, and leaves the count of every other ID unchanged |
| `Inventory.CountId` | CDInventory.py:56 | not an operation of the program but a measure over the table: the number of records whose ID equals the one `del_Inv` compares against, positive exactly when some record carries it and never more than the table length; it states `CountAppend` and `RemoveFirstCount` |
| `Inventory.CountAppend` | CDInventory.py:37-39 | adding a record raises the count of its ID by one even when the ID is already present: duplicates are allowed |
| `Inventory.RemoveFirstAfterAppend` | CDInventory.py:37-60 | appending a record and deleting its ID gives back the old table when the ID was new; otherwise an older record with that ID is deleted and the new one stays last |
| `IdParse.ParseDecimal` | CDInventory.py:37 | accepts a string exactly when it is an optional sign followed by one or more decimal digits; the value is the decimal value of the digits, negated after a leading minus sign; a negative result comes only from a leading minus sign |
| `IdParse.IntOf` | CDInventory.py:37 | the model's `int(text)`: succeeds exactly when the text, after `strip()`, is an optional sign followed by decimal digits (no limit on the number of digits, and a wider set of white space than `int()` skips; see "Left out") |
| `IdParse.SignsAndZeros` | CDInventory.py:37 | a digit string is read as its decimal value; a leading `+` or a leading `0` does not change it and a leading `-` negates it (`+7` and `007` are 7, `-0` is 0) |
| `IdParse.DigitsLeadingZero` | CDInventory.py:37 | a zero written in front of a digit string keeps it a digit string of the same value |
| `IdParse.ShowInt` | CDInventory.py:150 | `str(n)` starts with a minus sign exactly when `n` is negative, the digits after it have the value of `n` (or of `-n`), and there is no leading zero: a text starting with `0` is exactly `"0"` |
| `IdParse.ShowNat` | CDInventory.py:150 | the decimal digits of a natural number are a non-empty digit string whose value is that number, starting with `0` only when it is exactly `"0"`, the text of zero |
| `IdParse.ShowIntRoundTrip` | CDInventory.py:150 | an ID as the listing prints it, typed back in, is read by `int()` as the same ID |
| `IdParse.StrippedIsPlain` | CDInventory.py:166 | on text that was already stripped, as the ID always is when the program converts it, the model's conversion is the plain signed-decimal reading, whatever white space it would skip |
| `IdParse.IntOfStripped` | CDInventory.py:166 | stripping the ID before the model's conversion `IntOf` sees it does not change the result |
| `IdParse.RejectedWord` | CDInventory.py:37 | `int("abc")` fails (entry error) |
| `IdParse.RejectedBlank` | CDInventory.py:37 | `int("  ")` fails: an empty ID is an entry error |
| `IdParse.RejectedSign` | CDInventory.py:231 | `int("-")` fails: a sign without digits is an entry error |
| `Text.Strip` | CDInventory.py:132 | `strip()` returns a string no longer than its input that neither starts nor ends with white space |
| `Text.StripShape` | CDInventory.py:132 | `strip()` returns the empty string exactly when the input is all white space |
| `Text.StripPadded` | CDInventory.py:132 | `strip()` of a word with white space around it is the word |
| `Text.StripIdempotent` | CDInventory.py:166 | stripping twice is stripping once |
| `Text.Lower` | CDInventory.py:132 | `lower()` keeps the length, turns each capital letter into its own small letter (`L` to `l`), keeps every other character, and leaves no capital letter |
| `Menu.Normalise` | CDInventory.py:132 | `line.lower().strip()` is no longer than the line and has no white space at either end |
| `Menu.ChoiceOf` | CDInventory.py:131 | a normalised line selects an operation exactly when it is one of `l, a, i, d, s, x`, and then it is that operation's key |
| `Menu.MenuChoice` | CDInventory.py:130-134 | returns the choice of the first input line that, lower-cased and stripped, is a menu key, after rejecting every earlier line; returns nothing exactly when no line qualifies |
| `Menu.AcceptsPaddedKey` | CDInventory.py:132 | a key typed in either case with white space around it selects its operation |
| `Menu.RejectsLongerInput` | CDInventory.py:131 | a normalised line that is not one character long, such as `add`, is rejected |
| `Controller.GetData` | CDInventory.py:166-169 | the ID, title and artist are the `strip()` of the three lines typed, in that order; stripping them again changes nothing, and the model's conversion `IntOf` gives the same result on the ID text as on the line typed |
| `Controller.Transition` | CDInventory.py:205-242 | an add is accepted exactly when `int()` reads the typed ID, and then appends `{ID, stripped title, stripped artist}` at the end; otherwise it is an entry error with the table unchanged. Display leaves the table unchanged. A delete with a non-integer ID is an entry error with the table unchanged; otherwise the table becomes `RemoveFirst(table, id)` and the message is `Removed` exactly when the ID was present, `NotFound` otherwise. Only a successful add or delete changes the table; `Exited` comes from exit alone |
| `Controller.Step` | CDInventory.py:205-242 | one pass of the loop on the `Table` object (`get_data` + `add_Inv`, or `int()` + `del_Inv`) has exactly the table effect and message of `Transition` |
| `Controller.Replay` | CDInventory.py:181-189 | a session produces at most one message per command, and exactly one per command when there is no exit |
| `Controller.ReplayStopsAtQuit` | CDInventory.py:187-189 | with the first exit at index `k`, the session gives exactly `k + 1` messages, the last `Exited`, and the commands after the exit change neither the table nor the messages |
| `Controller.ReplayAppend` | CDInventory.py:181-242 | a run of commands without an exit followed by more commands is the first run, then the second run started from the table the first one left, with the messages concatenated |
| `Controller.RunSession` | CDInventory.py:181-242 | the main loop on the `Table` object ends with exactly the table and messages `Replay` gives, and stops at the first exit |
| `Controller.TransitionAdd` | CDInventory.py:205-217 | an add whose ID `int()` accepts appends the stripped title and artist under that ID |
| `Controller.TransitionDelete` | CDInventory.py:224-238 | a delete of an ID that is present removes the first record carrying it and reports removal |
| `Controller.AddThenDelete` | CDInventory.py:205-242 | adding a CD under a new ID and then deleting that ID restores the table and reports `Added`, `Removed` |
| `Controller.ReplayAdd` | CDInventory.py:205-217 | a session that starts with an accepted add continues from the table with the new record at its end |
| `Controller.Scenario` | CDInventory.py:205-242 | on an empty table, adding two CDs, listing, deleting the first ID and listing leaves only the second CD, with messages `Added, Added, Listed, Removed, Listed` |
| `Controller.ScenarioIds` | CDInventory.py:231 | the typed IDs `1` and `2` are read as the integers 1 and 2 |

## Left out

- `FileProcessor.read_file` and `FileProcessor.update_file` (load and save): they are file I/O through
  `pickle`, whose encoding is not visible, so no round trip can be stated. One
  observation, not modelled: `read_file` calls `table.clear()` on the list it
  was given before opening the file (CDInventory.py:80-81). At startup
  (CDInventory.py:172-177) the list is still empty and the caught
  `FileNotFoundError` leaves it so. The reload at CDInventory.py:197 has no
  `try`, so a missing or unreadable file there ends the program.
- The load and save branches of the main loop and their yes/no confirmation
  prompts: they only gate the file operations above.
- `IO.print_menu`, `IO.show_inventory` and the `print` calls: console output
  and display formatting. The listing appears only as the `Listed` outcome, and
  `ShowInt` models the decimal text of an ID.
- `IO.get_data` is modelled only as the `strip()` of its three answers (`Controller.GetData`), not as console reads.
- The catch-all `else` branch (CDInventory.py:259-260): the menu loop never
  returns anything else.
- `IdParse.IntOf`: strips with the full `str.isspace` set, like `strip()`.
  Python's `int()` skips only ASCII space, tab, newline, vertical tab, form
  feed and carriage return among the ASCII characters, so `int("\x1c7")`
  raises where `IntOf` reads 7. The program never sees the difference: it
  calls `int()` only on text it has already stripped (CDInventory.py:166
  feeding line 37, and line 231), and on stripped text `IntOf` is the plain
  signed-decimal reading (`IdParse.StrippedIsPlain`).
- `IdParse.ParseDecimal`: models `int()` as an optional sign followed by ASCII digits. Python's
  `int()` also accepts underscores between digits (`1_000`) and non-ASCII
  decimal digits, which the model rejects. In the other direction, Python
  versions with the integer string conversion limit raise `ValueError` for a
  string of more than 4300 digits, which the program reports as an entry
  error. The model accepts any number of digits and adds or deletes under
  that ID instead.
- `Text.Lower`: lower-cases ASCII letters only. This does not change which lines the menu accepts,
  because no other character lower-cases to one of the six keys. `Menu.Normalise` inherits this.
- `Menu.MenuChoice`: end of input, where `input()` raises `EOFError`, is
  modelled as returning nothing.
- `Controller.Replay` and `Controller.RunSession`: a command list that ends
  before a `Quit` is treated as a normal end of the session. In the program,
  the next `input()` raises `EOFError`, which nothing catches, so the program
  stops with an error.
- `Inventory.Table.DelInv`: IDs are compared as integers. Records loaded from a file could hold non-integer
  IDs, but loading is not part of this model.
