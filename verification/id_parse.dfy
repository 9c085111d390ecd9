/** The conversion `int(text)` that turns a typed-in CD ID into an integer,
    modelled as a plain signed-decimal parser, and `str(n)`, the decimal
    text the inventory listing shows for an ID. */
module IdParse {
  import opened Wrappers
  import opened Text

  predicate IsDigit(c: char) {
    '0' <= c <= '9'
  }

  predicate AllDigits(s: string) {
    forall i :: 0 <= i < |s| ==> IsDigit(s[i])
  }

  function DigitValue(c: char): nat
    requires IsDigit(c)
  {
    c as int - '0' as int
  }

  /** The value of a string of decimal digits, most significant first. */
  function DigitsValue(s: string): nat
    requires AllDigits(s)
    decreases |s|
  {
    if s == [] then 0 else DigitsValue(s[..|s| - 1]) * 10 + DigitValue(s[|s| - 1])
  }

  predicate IsSign(c: char) {
    c == '+' || c == '-'
  }

  /** An optional sign followed by one or more decimal digits. */
  predicate IsDecimal(s: string) {
    |s| > 0 &&
    if IsSign(s[0]) then |s| > 1 && AllDigits(s[1..]) else AllDigits(s)
  }

  /** Reads a signed decimal literal; `None` is the `ValueError` of `int()`. */
  function ParseDecimal(s: string): (r: Option<int>)
    ensures r.Some? <==> IsDecimal(s)
    ensures r.Some? && r.value < 0 ==> s[0] == '-'
    ensures r.Some? && s[0] == '-' ==> r.value <= 0
    ensures r.Some? ==> r.value == (if s[0] == '-' then 0 - DigitsValue(s[1..])
                                    else if s[0] == '+' then DigitsValue(s[1..])
                                    else DigitsValue(s))
  {
    if s == [] then None
    else if IsSign(s[0]) then
      var digits := s[1..];
      if digits != [] && AllDigits(digits) then
        var magnitude: int := DigitsValue(digits);
        Some(if s[0] == '-' then -magnitude else magnitude)
      else None
    else if AllDigits(s) then Some(DigitsValue(s))
    else None
  }

  /** The conversion of a typed ID to an integer: the text is stripped with
      `strip()`, then read as a signed decimal. The program only converts
      text it has already stripped, where this agrees with `int(text)`. */
  function IntOf(text: string): (r: Option<int>)
    ensures r.Some? <==> IsDecimal(Strip(text))
  {
    ParseDecimal(Strip(text))
  }

  /** The model's conversion ignores white space around the number, so
      stripping the input first, as the program does, does not change the
      result. */
  lemma IntOfStripped(text: string)
    ensures IntOf(Strip(text)) == IntOf(text)
  {
    StripIdempotent(text);
  }

  /** On text that was already stripped, which is all the program ever
      converts, `IntOf` is the plain signed-decimal reading: which white space
      it would skip does not matter there. */
  lemma StrippedIsPlain(text: string)
    ensures IntOf(Strip(text)) == ParseDecimal(Strip(text))
  {
    StripIdempotent(text);
  }

  /** Decimal digits of a natural number, without leading zeros. */
  function ShowNat(n: nat): (r: string)
    ensures r != [] && AllDigits(r)
    ensures DigitsValue(r) == n
    ensures r[0] == '0' ==> n == 0 && r == "0"
    decreases n
  {
    var last := ['0' + (n % 10) as char];
    if n < 10 then last
    else
      var init := ShowNat(n / 10);
      assert (init + last)[..|init + last| - 1] == init;
      init + last
  }

  /** `str(n)`: the ID as the inventory listing displays it. */
  function ShowInt(n: int): (r: string)
    ensures r != [] && (r[0] == '-' <==> n < 0)
    ensures n < 0 ==> |r| > 1 && AllDigits(r[1..]) && DigitsValue(r[1..]) == -n
    ensures n >= 0 ==> AllDigits(r) && DigitsValue(r) == n
    // no leading zeros: the text is the canonical one `str(n)` prints
    ensures r[0] == '0' ==> n == 0 && r == "0"
    ensures n < 0 ==> r[1] != '0'
  {
    if n < 0 then "-" + ShowNat(-n) else ShowNat(n)
  }

  /** An ID read off the listing and typed back in is read as the same ID. */
  lemma ShowIntRoundTrip(n: int)
    ensures IntOf(ShowInt(n)) == Some(n)
  {
    var s := ShowInt(n);
    if n < 0 {
      assert s[1..] == ShowNat(-n);
    }
    NoSpaceStrip(s);
  }

  /** A zero written in front of a digit string does not change its value. */
  lemma {:induction false} DigitsLeadingZero(s: string)
    requires AllDigits(s)
    ensures AllDigits("0" + s) && DigitsValue("0" + s) == DigitsValue(s)
    decreases |s|
  {
    var z := "0" + s;
    assert forall i :: 1 <= i < |z| ==> z[i] == s[i - 1];
    if s != [] {
      assert z[..|z| - 1] == "0" + s[..|s| - 1];
      DigitsLeadingZero(s[..|s| - 1]);
    }
  }

  /** `int()` reads a leading `+` as no sign, a leading `-` as negation, and
      ignores leading zeros: `int("+7")`, `int("007")` are 7 and `int("-0")` is 0. */
  lemma SignsAndZeros(digits: string)
    requires digits != [] && AllDigits(digits)
    ensures ParseDecimal(digits) == Some(DigitsValue(digits))
    ensures ParseDecimal("+" + digits) == ParseDecimal(digits)
    ensures ParseDecimal("-" + digits) == Some(0 - DigitsValue(digits))
    ensures ParseDecimal("0" + digits) == ParseDecimal(digits)
  {
    assert ("+" + digits)[1..] == digits;
    assert ("-" + digits)[1..] == digits;
    DigitsLeadingZero(digits);
  }

  /** Examples of text `int()` rejects, so that an entry error is reported. */
  lemma RejectedWord()
    ensures IntOf("abc") == None
  {
    NoSpaceStrip("abc");
  }

  lemma RejectedBlank()
    ensures IntOf("  ") == None
  {
    assert AllSpace("  ");
  }

  lemma RejectedSign()
    ensures IntOf("-") == None
  {
    NoSpaceStrip("-");
  }

  lemma NoSpaceStrip(s: string)
    requires s != [] && !IsSpace(s[0]) && !IsSpace(s[|s| - 1])
    ensures Strip(s) == s
  {
    StripPadded([], s, []);
    assert [] + s + [] == s;
  }
}
