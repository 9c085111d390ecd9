/** The menu prompt: `IO.menu_choice` keeps reading lines until one of them,
    lower-cased and stripped, is a menu key. Console input is a parameter:
    the sequence of lines the user would type. */
module Menu {
  import opened Wrappers
  import opened Text

  datatype Choice = Load | Add | Inventory | Delete | Save | Exit

  /** The letter the menu shows for each operation. */
  function Key(c: Choice): char {
    match c
    case Load => 'l'
    case Add => 'a'
    case Inventory => 'i'
    case Delete => 'd'
    case Save => 's'
    case Exit => 'x'
  }

  /** The strings the prompt loop accepts, in the order the program lists them. */
  const MenuKeys: seq<string> := ["l", "a", "i", "d", "s", "x"]

  /** `line.lower().strip()`: no longer than the line, with no white space
      at either end. */
  function Normalise(line: string): (r: string)
    ensures |r| <= |line|
    ensures r != [] ==> !IsSpace(r[0]) && !IsSpace(r[|r| - 1])
  {
    Strip(Lower(line))
  }

  /** The operation a normalised line selects, if it is a menu key. */
  function ChoiceOf(key: string): (r: Option<Choice>)
    ensures r.Some? <==> key in MenuKeys
    ensures r.Some? ==> key == [Key(r.value)]
  {
    if key == "l" then Some(Load)
    else if key == "a" then Some(Add)
    else if key == "i" then Some(Inventory)
    else if key == "d" then Some(Delete)
    else if key == "s" then Some(Save)
    else if key == "x" then Some(Exit)
    else None
  }

  /** The accepted choice and the number of input lines read to get it. */
  datatype Selection = Selection(choice: Choice, consumed: nat)

  /** Reads lines until one normalises to a menu key. `None` means the input
      ran out first (where `input()` would raise `EOFError`). */
  method MenuChoice(lines: seq<string>) returns (r: Option<Selection>)
    ensures r.Some? ==>
      0 < r.value.consumed <= |lines| &&
      ChoiceOf(Normalise(lines[r.value.consumed - 1])) == Some(r.value.choice) &&
      forall j :: 0 <= j < r.value.consumed - 1 ==> ChoiceOf(Normalise(lines[j])).None?
    ensures r.None? <==> forall j :: 0 <= j < |lines| ==> ChoiceOf(Normalise(lines[j])).None?
  {
    var choice := " ";
    var read := 0;
    while choice !in MenuKeys && read < |lines|
      invariant 0 <= read <= |lines|
      invariant read == 0 ==> choice == " "
      invariant read > 0 ==> choice == Normalise(lines[read - 1])
      invariant forall j :: 0 <= j < read - 1 ==> ChoiceOf(Normalise(lines[j])).None?
    {
      choice := Normalise(lines[read]);
      read := read + 1;
    }
    if choice in MenuKeys {
      r := Some(Selection(ChoiceOf(choice).value, read));
    } else {
      r := None;
    }
  }

  /** A key typed in either case and surrounded by white space is accepted:
      the program lower-cases and strips what the user typed. */
  lemma AcceptsPaddedKey(c: Choice, ch: char, p: string, q: string)
    requires LowerChar(ch) == Key(c)
    requires AllSpace(p) && AllSpace(q)
    ensures ChoiceOf(Normalise(p + [ch] + q)) == Some(c)
  {
    LowerConcat(p + [ch], q);
    LowerConcat(p, [ch]);
    LowerSpace(p);
    LowerSpace(q);
    assert Lower([ch]) == [Key(c)];
    StripPadded(p, [Key(c)], q);
  }

  /** Only the six keys are accepted: a word that merely starts with a key,
      such as "add", is rejected and the prompt repeats. */
  lemma RejectsLongerInput(line: string)
    requires |Normalise(line)| != 1
    ensures ChoiceOf(Normalise(line)) == None
  {
  }
}
