/**
 * The `bit-date-picker` component: a text box that formats typed digits as
 * MM/DD/YYYY, a keystroke filter that rejects digits which cannot start a
 * month, day or year, the two date text formats it reads and writes, and
 * the calendar popover's day/month/year navigation.
 */
module DatePicker {
  import opened Text
  import opened JsDate

  // ---------------------------------------------------------------------
  // Typed text: the MM/DD/YYYY auto-slash formatter
  // ---------------------------------------------------------------------

  predicate IsDigitOrSlash(c: char) {
    IsDigit(c) || c == '/'
  }

  /** The digits of `s`, in order. */
  function Digits(s: string): (r: string)
    ensures |r| <= |s|
    ensures forall i :: 0 <= i < |r| ==> IsDigit(r[i])
  {
    if |s| == 0 then ""
    else Digits(s[..|s| - 1]) + (if IsDigit(s[|s| - 1]) then [s[|s| - 1]] else "")
  }

  /** `value.replace(/[^\d/]/g, "")`: only digits and slashes are kept. */
  function Cleaned(value: string): (r: string)
    ensures forall i :: 0 <= i < |r| ==> IsDigitOrSlash(r[i])
    ensures Digits(r) == Digits(value)
  {
    if |value| == 0 then ""
    else
      var c := value[|value| - 1];
      var front := Cleaned(value[..|value| - 1]);
      if IsDigitOrSlash(c) then
        assert (front + [c])[..|front|] == front;
        front + [c]
      else front
  }

  /** The formatter's loop variables `result` and `digitCount`. */
  datatype FormatState = FormatState(result: string, digitCount: int)

  /** `result` with the slash the formatter inserts after the second digit
      and after the fourth. */
  function AutoSlash(st: FormatState): string {
    if st.digitCount == 2 && |st.result| == 2 then st.result + "/"
    else if st.digitCount == 4 && |st.result| == 5 then st.result + "/"
    else st.result
  }

  /** One iteration of the formatter's loop on character `ch`. */
  function FormatStep(st: FormatState, ch: char): FormatState {
    if ch == '/' then FormatState(AutoSlash(st), st.digitCount)
    else FormatState(AutoSlash(st) + [ch], st.digitCount + 1)
  }

  /** The loop variables after reading `cleaned`, the loop stopping once the
      result has 10 characters. */
  function FormatRun(cleaned: string): FormatState {
    if |cleaned| == 0 then FormatState("", 0)
    else
      var st := FormatRun(cleaned[..|cleaned| - 1]);
      if |st.result| >= 10 then st else FormatStep(st, cleaned[|cleaned| - 1])
  }

  /** `formatAndValidateInput(value)` */
  function Format(value: string): string {
    FormatRun(Cleaned(value)).result
  }

  /** At most 10 characters, slashes exactly at indices 2 and 5, digits
      everywhere else. */
  predicate Shaped(r: string) {
    |r| <= 10 && forall i :: 0 <= i < |r| ==> if i == 2 || i == 5 then r[i] == '/' else IsDigit(r[i])
  }

  /** How many of the first `n` places of a shaped string hold a slash. */
  function SlashesBefore(n: nat): nat {
    if n > 5 then 2 else if n > 2 then 1 else 0
  }

  /** The loop invariant of the formatter. */
  predicate Consistent(st: FormatState) {
    Shaped(st.result) && st.digitCount == |st.result| - SlashesBefore(|st.result|)
  }

  /** A step on a digit or a slash keeps the result shaped. */
  lemma FormatStepConsistent(st: FormatState, ch: char)
    requires Consistent(st) && |st.result| < 10 && IsDigitOrSlash(ch)
    ensures Consistent(FormatStep(st, ch))
    ensures |FormatStep(st, ch).result| <= |st.result| + 2
  {
    var r := st.result;
    var a := AutoSlash(st);
    assert |r| == 2 ==> a == r + "/";
    assert |r| == 5 ==> a == r + "/";
    assert |r| != 2 && |r| != 5 ==> a == r;
  }

  lemma {:induction false} FormatRunConsistent(cleaned: string)
    requires forall i :: 0 <= i < |cleaned| ==> IsDigitOrSlash(cleaned[i])
    ensures Consistent(FormatRun(cleaned))
  {
    if |cleaned| > 0 {
      var front := cleaned[..|cleaned| - 1];
      FormatRunConsistent(front);
      var st := FormatRun(front);
      if |st.result| < 10 {
        FormatStepConsistent(st, cleaned[|cleaned| - 1]);
      }
    }
  }

  /** The formatter's output has at most 10 characters: digits, with a
      slash at index 2 and at index 5 when it is that long. */
  lemma FormatShaped(value: string)
    ensures Shaped(Format(value))
  {
    FormatRunConsistent(Cleaned(value));
  }

  /** Once the result has 10 characters, later characters change nothing. */
  lemma {:induction false} FormatRunStops(cleaned: string, i: nat)
    requires i <= |cleaned| && |FormatRun(cleaned[..i]).result| >= 10
    ensures FormatRun(cleaned) == FormatRun(cleaned[..i])
  {
    if i < |cleaned| {
      var front := cleaned[..|cleaned| - 1];
      assert front[..i] == cleaned[..i];
      FormatRunStops(front, i);
    } else {
      assert cleaned[..i] == cleaned;
    }
  }

  /** A shaped string holds one digit per place that is not a slash. */
  lemma {:induction false} ShapedDigitCount(r: string)
    requires Shaped(r)
    ensures |Digits(r)| == |r| - SlashesBefore(|r|)
  {
    if |r| > 0 {
      var front := r[..|r| - 1];
      assert Shaped(front) by {
        forall i | 0 <= i < |front| ensures if i == 2 || i == 5 then front[i] == '/' else IsDigit(front[i]) {
          assert front[i] == r[i];
        }
      }
      ShapedDigitCount(front);
    }
  }

  /** The first eight digits of `ds`, or all of them when there are fewer. */
  function FirstEight(ds: string): (r: string)
    ensures |r| <= 8 && |r| <= |ds| && r == ds[..|r|]
    ensures |ds| <= 8 ==> r == ds
    ensures |ds| > 8 ==> |r| == 8
  {
    if |ds| <= 8 then ds else ds[..8]
  }

  lemma {:induction false} FormatRunDigits(cleaned: string)
    requires forall i :: 0 <= i < |cleaned| ==> IsDigitOrSlash(cleaned[i])
    ensures Digits(FormatRun(cleaned).result) == FirstEight(Digits(cleaned))
  {
    if |cleaned| > 0 {
      var front := cleaned[..|cleaned| - 1];
      var c := cleaned[|cleaned| - 1];
      FormatRunDigits(front);
      FormatRunConsistent(front);
      var st := FormatRun(front);
      ShapedDigitCount(st.result);
      if |st.result| >= 10 {
        assert |Digits(front)| >= 8;
        assert Digits(cleaned)[..8] == Digits(front)[..8];
      } else {
        assert |Digits(front)| < 8;
        var a := AutoSlash(st);
        assert Digits(a) == Digits(st.result) by {
          if a != st.result {
            assert a[..|a| - 1] == st.result;
          }
        }
        if c != '/' {
          var n := a + [c];
          assert n[..|n| - 1] == a;
        }
      }
    }
  }

  /** The output's digits are the input's first eight digits, in order;
      every other character of the input is dropped. */
  lemma FormatKeepsFirstEightDigits(value: string)
    ensures Digits(Format(value)) == FirstEight(Digits(value))
  {
    FormatRunDigits(Cleaned(value));
  }

  /** Reading a shaped string changes nothing. */
  lemma {:induction false} FormatRunOfShaped(r: string)
    requires Shaped(r)
    ensures FormatRun(r) == FormatState(r, |r| - SlashesBefore(|r|))
  {
    if |r| > 0 {
      var front := r[..|r| - 1];
      assert Shaped(front) by {
        forall i | 0 <= i < |front| ensures if i == 2 || i == 5 then front[i] == '/' else IsDigit(front[i]) {
          assert front[i] == r[i];
        }
      }
      FormatRunOfShaped(front);
      assert front + [r[|r| - 1]] == r;
    }
  }

  lemma {:induction false} CleanedOfDigitsAndSlashes(s: string)
    requires forall i :: 0 <= i < |s| ==> IsDigitOrSlash(s[i])
    ensures Cleaned(s) == s
  {
    if |s| > 0 {
      CleanedOfDigitsAndSlashes(s[..|s| - 1]);
      assert s[..|s| - 1] + [s[|s| - 1]] == s;
    }
  }

  /** Shaped text is left as it is. */
  lemma FormatOfShaped(r: string)
    requires Shaped(r)
    ensures Format(r) == r
  {
    CleanedOfDigitsAndSlashes(r);
    FormatRunOfShaped(r);
  }

  /** Formatting is idempotent, so feeding the formatted text back into the
      box on the next keystroke leaves it as it is. */
  lemma FormatIdempotent(value: string)
    ensures Format(Format(value)) == Format(value)
  {
    FormatShaped(value);
    FormatOfShaped(Format(value));
  }

  /** `formatAndValidateInput`, as the component's loop. */
  method FormatAndValidateInput(value: string) returns (result: string)
    ensures result == Format(value)
    ensures Shaped(result)
  {
    var cleaned := Cleaned(value);
    result := "";
    var digitCount := 0;
    var i := 0;
    while i < |cleaned| && |result| < 10
      invariant 0 <= i <= |cleaned|
      invariant FormatState(result, digitCount) == FormatRun(cleaned[..i])
    {
      assert cleaned[..i + 1][..i] == cleaned[..i];
      var ch := cleaned[i];
      if ch == '/' {
        if digitCount == 2 && |result| == 2 {
          result := result + "/";
        } else if digitCount == 4 && |result| == 5 {
          result := result + "/";
        }
      } else {
        if digitCount == 2 && |result| == 2 {
          result := result + "/";
        } else if digitCount == 4 && |result| == 5 {
          result := result + "/";
        }
        result := result + [ch];
        digitCount := digitCount + 1;
      }
      i := i + 1;
    }
    if i < |cleaned| {
      FormatRunStops(cleaned, i);
    } else {
      assert cleaned[..i] == cleaned;
    }
    FormatShaped(value);
  }

  // ---------------------------------------------------------------------
  // Keystroke filter
  // ---------------------------------------------------------------------

  /** Navigation and editing keys, which always pass. */
  const AllowedKeys: seq<string> := [
    "Backspace", "Delete", "Tab", "Escape", "Enter",
    "ArrowLeft", "ArrowRight", "ArrowUp", "ArrowDown", "Home", "End"
  ]

  /** `/[0-9]/.test(key)`: the key's name holds a digit somewhere. */
  predicate HasDigit(key: string) {
    exists i :: 0 <= i < |key| && IsDigit(key[i])
  }

  /** The digit already typed at `index`, as `parseInt(currentValue[index] || "0")`. */
  function TypedDigit(currentValue: string, index: nat): Option<int> {
    if index < |currentValue| then ParseInt([currentValue[index]]) else ParseInt("0")
  }

  /** `x > k` and `x < k` where NaN (None) compares false. */
  predicate Above(x: Option<int>, k: int) {
    x.Some? && x.value > k
  }

  predicate Below(x: Option<int>, k: int) {
    x.Some? && x.value < k
  }

  /** Whether `onKeyDown` lets `key` through (does not call
      `preventDefault`) when the caret is at `cursorPosition` of `currentValue`. */
  function KeyAccepted(key: string, currentValue: string, cursorPosition: nat): bool {
    if key in AllowedKeys then true
    else if !HasDigit(key) then false
    else DigitAccepted(ParseInt(key), currentValue, cursorPosition)
  }

  /** The position rules for a key whose `parseInt` is `digit`: a month
      starts with 0 or 1 and is not 00 or above 12, a day starts with 0 to 3
      and is not 00 or above 31, a year starts with 1 or 2. */
  function DigitAccepted(digit: Option<int>, currentValue: string, cursorPosition: nat): bool {
    if cursorPosition == 0 then !Above(digit, 1)
    else if cursorPosition == 1 then
      var firstDigit := TypedDigit(currentValue, 0);
      !(firstDigit == Some(1) && Above(digit, 2)) && !(firstDigit == Some(0) && digit == Some(0))
    else if cursorPosition == 3 then !Above(digit, 3)
    else if cursorPosition == 4 then
      var firstDigit := TypedDigit(currentValue, 3);
      !(firstDigit == Some(3) && Above(digit, 1)) && !(firstDigit == Some(0) && digit == Some(0))
    else if cursorPosition == 6 then !(Below(digit, 1) || Above(digit, 2))
    else true
  }

  /** A one-character digit key is judged by the position rules alone. */
  lemma DigitKey(c: char, currentValue: string, cursorPosition: nat)
    requires IsDigit(c)
    ensures KeyAccepted([c], currentValue, cursorPosition)
            == DigitAccepted(Some(DigitValue(c)), currentValue, cursorPosition)
  {
    assert forall k :: k in AllowedKeys ==> |k| >= 3;
    assert HasDigit([c]) by { assert IsDigit([c][0]); }
    ParseIntOfDigitChar(c);
  }

  /** Editing keys pass anywhere; a key whose name has no digit never does. */
  lemma EditingKeysAndNonDigits(key: string, currentValue: string, cursorPosition: nat)
    ensures key in AllowedKeys ==> KeyAccepted(key, currentValue, cursorPosition)
    ensures key !in AllowedKeys && !HasDigit(key) ==> !KeyAccepted(key, currentValue, cursorPosition)
  {
  }

  /** At a place outside the month, day and first year digit, every digit
      passes. */
  lemma AnyDigitElsewhere(c: char, currentValue: string, cursorPosition: nat)
    requires IsDigit(c)
    requires cursorPosition !in {0, 1, 3, 4, 6}
    ensures KeyAccepted([c], currentValue, cursorPosition)
  {
    DigitKey(c, currentValue, cursorPosition);
  }

  /** Typing two digits into an empty box passes both keys exactly when
      they spell a month 01..12. */
  lemma MonthDigitsAccepted(c0: char, c1: char)
    requires IsDigit(c0) && IsDigit(c1)
    ensures KeyAccepted([c0], "", 0) && KeyAccepted([c1], [c0], 1)
            <==> 1 <= 10 * DigitValue(c0) + DigitValue(c1) <= 12
  {
    DigitKey(c0, "", 0);
    DigitKey(c1, [c0], 1);
    assert [c0][0] == c0;
    ParseIntOfDigitChar(c0);
  }

  /** With the month typed, the two day digits pass exactly when they spell
      a day 01..31. */
  lemma DayDigitsAccepted(month: string, c3: char, c4: char)
    requires |month| == 3
    requires IsDigit(c3) && IsDigit(c4)
    ensures KeyAccepted([c3], month, 3) && KeyAccepted([c4], month + [c3], 4)
            <==> 1 <= 10 * DigitValue(c3) + DigitValue(c4) <= 31
  {
    DigitKey(c3, month, 3);
    DigitKey(c4, month + [c3], 4);
    assert (month + [c3])[3] == c3;
    ParseIntOfDigitChar(c3);
  }

  /** The first digit of the year must be 1 or 2. */
  lemma YearFirstDigitAccepted(c: char, currentValue: string)
    requires IsDigit(c)
    ensures KeyAccepted([c], currentValue, 6) <==> c == '1' || c == '2'
  {
    DigitKey(c, currentValue, 6);
  }

  /** A second month digit typed after something that is not a digit is
      not checked: `parseInt` of it is NaN and every comparison fails. */
  lemma SecondMonthDigitAfterSlash(c1: char)
    requires IsDigit(c1)
    ensures KeyAccepted([c1], "/", 1)
  {
    DigitKey(c1, "/", 1);
    assert !IsWhitespace('/');
    assert DigitRun("/") == "";
    assert ParseInt("/") == None;
  }

  // ---------------------------------------------------------------------
  // Date text formats
  // ---------------------------------------------------------------------

  /** `formatDate`: MM/DD/YYYY with a zero-padded month and day. */
  function FormatDate(date: Date): string {
    PadStart2(IntToString(date.month + 1)) + "/" + PadStart2(IntToString(date.day)) + "/" + IntToString(date.year)
  }

  /** `formatDateForForm`: YYYY-MM-DD. */
  function FormatDateForForm(date: Date): string {
    IntToString(date.year) + "-" + PadStart2(IntToString(date.month + 1)) + "-" + PadStart2(IntToString(date.day))
  }

  /** The MM/DD/YYYY branch of `parseDate` once the three parts are read as
      numbers: the date when the calendar has it, NaN or not. */
  function SlashedDate(month: Option<int>, day: Option<int>, year: Option<int>): (r: Option<Date>)
    ensures r.Some? ==> ValidDate(r.value) && !(0 <= r.value.year <= 99)
    ensures r.Some? <==> month.Some? && day.Some? && year.Some? && Exact(year.value, month.value - 1, day.value)
    ensures r.Some? ==> r.value == Date(year.value, month.value - 1, day.value)
  {
    if month.Some? && day.Some? && year.Some? && Exact(year.value, month.value - 1, day.value) then
      ExactIffValid(year.value, month.value - 1, day.value);
      Some(Date(year.value, month.value - 1, day.value))
    else None
  }

  /** The MM/DD/YYYY branch of `parseDate`: three slash-separated numbers
      that name a date the calendar has. */
  function ParseSlashed(value: string): (r: Option<Date>)
    ensures r.Some? ==> ValidDate(r.value) && !(0 <= r.value.year <= 99)
  {
    var parts := Split(value, '/');
    if |parts| != 3 then None
    else SlashedDate(ParseInt(parts[0]), ParseInt(parts[1]), ParseInt(parts[2]))
  }

  /** The YYYY-MM-DD branch of `parseDate` once the three parts are read as
      numbers: no range check, so an out-of-range day or month rolls over. */
  function DashedDate(year: Option<int>, month: Option<int>, day: Option<int>): (r: Option<Date>)
    ensures r.Some? <==> year.Some? && month.Some? && day.Some?
    ensures r.Some? ==> r.value == MakeDate(year.value, month.value - 1, day.value)
  {
    if year.Some? && month.Some? && day.Some? then Some(MakeDate(year.value, month.value - 1, day.value))
    else None
  }

  /** The YYYY-MM-DD branch of `parseDate`. */
  function ParseDashed(value: string): (r: Option<Date>)
    ensures r.Some? ==> ValidDate(r.value)
  {
    var parts := Split(value, '-');
    if |parts| != 3 then None
    else DashedDate(ParseInt(parts[0]), ParseInt(parts[1]), ParseInt(parts[2]))
  }

  /** `parseDate`: null for empty text; the MM/DD/YYYY reading when the text
      has a slash and it succeeds, otherwise the YYYY-MM-DD reading when the
      text has a dash. */
  function ParseDate(value: string): (r: Option<Date>)
    ensures value == "" ==> r == None
    ensures '/' !in value && '-' !in value ==> r == None
    ensures r.Some? ==> ValidDate(r.value)
  {
    if value == "" then None
    else
      var slashed := if '/' in value then ParseSlashed(value) else None;
      if slashed.Some? then slashed
      else if '-' in value then ParseDashed(value)
      else None
  }

  predicate AllDigits(s: string) {
    forall i :: 0 <= i < |s| ==> IsDigit(s[i])
  }

  lemma PaddedDigits(n: nat)
    ensures AllDigits(PadStart2(NatToString(n))) && |PadStart2(NatToString(n))| >= 1
  {
    var s := NatToString(n);
    if |s| < 2 {
      assert PadStart2(s) == "0" + s;
    }
  }

  /** Splitting three digit strings joined by a separator gives them back. */
  lemma SplitThree(a: string, b: string, c: string, sep: char)
    requires sep !in a && sep !in b && sep !in c
    ensures Split(a + [sep] + b + [sep] + c, sep) == [a, b, c]
  {
    assert a + [sep] + b + [sep] + c == a + [sep] + (b + [sep] + c);
    SplitAtFirst(a, sep, b + [sep] + c);
    SplitAtFirst(b, sep, c);
  }

  /** The same for three runs of digits and a separator that is not one. */
  lemma SplitThreeDigits(a: string, b: string, c: string, sep: char)
    requires AllDigits(a) && AllDigits(b) && AllDigits(c) && !IsDigit(sep)
    ensures Split(a + [sep] + b + [sep] + c, sep) == [a, b, c]
  {
    assert sep !in a && sep !in b && sep !in c;
    SplitThree(a, b, c, sep);
  }

  lemma SlashedOfSplit(s: string, a: string, b: string, c: string)
    requires Split(s, '/') == [a, b, c]
    ensures ParseSlashed(s) == SlashedDate(ParseInt(a), ParseInt(b), ParseInt(c))
  {
  }

  lemma DashedOfSplit(s: string, a: string, b: string, c: string)
    requires Split(s, '-') == [a, b, c]
    ensures ParseDashed(s) == DashedDate(ParseInt(a), ParseInt(b), ParseInt(c))
  {
  }

  /** Which reading of `parseDate` decides, by the separators present. */
  lemma ParseDateBranch(s: string)
    ensures '/' in s && ParseSlashed(s).Some? ==> ParseDate(s) == ParseSlashed(s)
    ensures '/' in s && '-' !in s ==> ParseDate(s) == ParseSlashed(s)
    ensures '/' !in s && '-' in s ==> ParseDate(s) == ParseDashed(s)
  {
  }

  /** Digits joined by one separator hold no other separator. */
  lemma OnlyDigitsAnd(a: string, b: string, c: string, sep: char, other: char)
    requires AllDigits(a) && AllDigits(b) && AllDigits(c)
    requires other != sep && !IsDigit(other)
    ensures other !in a + [sep] + b + [sep] + c
  {
    var s := a + [sep] + b + [sep] + c;
    forall i | 0 <= i < |s| ensures s[i] != other {
      assert IsDigit(s[i]) || s[i] == sep;
    }
  }

  /** The three fields of `formatDate`: zero-padded month and day, then the
      year (with its sign when negative). */
  lemma FormatDateSplits(date: Date)
    requires ValidDate(date)
    ensures Split(FormatDate(date), '/') == [PadStart2(NatToString(date.month + 1)), PadStart2(NatToString(date.day)), IntToString(date.year)]
    ensures '/' in FormatDate(date)
  {
    var mm := PadStart2(NatToString(date.month + 1));
    var dd := PadStart2(NatToString(date.day));
    var yyyy := IntToString(date.year);
    assert IntToString(date.month + 1) == NatToString(date.month + 1);
    assert IntToString(date.day) == NatToString(date.day);
    assert FormatDate(date) == mm + "/" + dd + "/" + yyyy;
    PaddedDigits(date.month + 1);
    PaddedDigits(date.day);
    assert '/' !in yyyy;
    SplitThree(mm, dd, yyyy, '/');
    assert FormatDate(date)[|mm|] == '/';
  }

  /** Two runs of digits, each followed by a separator, add no other
      character to what follows. */
  lemma OnlyLastMayHold(a: string, b: string, c: string, sep: char, other: char)
    requires AllDigits(a) && AllDigits(b) && other != sep && !IsDigit(other)
    ensures other in a + [sep] + b + [sep] + c <==> other in c
  {
    var front := a + [sep] + b + [sep];
    assert a + [sep] + b + [sep] + c == front + c;
    forall i | 0 <= i < |front| ensures front[i] != other {
      assert IsDigit(front[i]) || front[i] == sep;
    }
  }

  /** `formatDate` holds a '-' exactly when the year is negative. */
  lemma FormatDateDash(date: Date)
    requires ValidDate(date)
    ensures '-' in FormatDate(date) <==> date.year < 0
  {
    var mm := PadStart2(NatToString(date.month + 1));
    var dd := PadStart2(NatToString(date.day));
    var yyyy := IntToString(date.year);
    assert IntToString(date.month + 1) == NatToString(date.month + 1);
    assert IntToString(date.day) == NatToString(date.day);
    assert FormatDate(date) == mm + ['/'] + dd + ['/'] + yyyy;
    PaddedDigits(date.month + 1);
    PaddedDigits(date.day);
    OnlyLastMayHold(mm, dd, yyyy, '/', '-');
    if '-' in yyyy {
      var k :| 0 <= k < |yyyy| && yyyy[k] == '-';
      assert k == 0;
    }
  }

  /** The MM/DD/YYYY reading of `formatDate` is the date, for every year
      that `Date` keeps as given. */
  lemma FormatDateParsesSlashed(date: Date)
    requires ValidDate(date) && !(0 <= date.year <= 99)
    ensures ParseSlashed(FormatDate(date)) == Some(date)
  {
    FormatDateSplits(date);
    SlashedOfSplit(FormatDate(date), PadStart2(NatToString(date.month + 1)), PadStart2(NatToString(date.day)), IntToString(date.year));
    ParseIntOfPadded(date.month + 1);
    ParseIntOfPadded(date.day);
    ParseIntOfIntToString(date.year);
    ExactIffValid(date.year, date.month, date.day);
  }

  /** A date written as MM/DD/YYYY reads back as the same date, negative
      years included; only years 0 to 99, which `Date` reads as 19xx, are
      lost. */
  lemma FormatDateRoundTrip(date: Date)
    requires ValidDate(date)
    ensures !(0 <= date.year <= 99) ==> ParseDate(FormatDate(date)) == Some(date)
    ensures 0 <= date.year <= 99 ==> ParseDate(FormatDate(date)) == None
  {
    FormatDateSplits(date);
    FormatDateDash(date);
    ParseDateBranch(FormatDate(date));
    if !(0 <= date.year <= 99) {
      FormatDateParsesSlashed(date);
    } else {
      SlashedOfSplit(FormatDate(date), PadStart2(NatToString(date.month + 1)), PadStart2(NatToString(date.day)), IntToString(date.year));
      ParseIntOfIntToString(date.year);
    }
  }

  /** The three fields of `formatDateForForm`: the year, then zero-padded
      month and day; the text holds no '/'. */
  lemma FormatDateForFormSplits(date: Date)
    requires ValidDate(date) && date.year >= 100
    ensures Split(FormatDateForForm(date), '-') == [NatToString(date.year), PadStart2(NatToString(date.month + 1)), PadStart2(NatToString(date.day))]
    ensures '-' in FormatDateForForm(date) && '/' !in FormatDateForForm(date)
  {
    var yyyy := NatToString(date.year);
    var mm := PadStart2(NatToString(date.month + 1));
    var dd := PadStart2(NatToString(date.day));
    assert IntToString(date.year) == yyyy;
    assert IntToString(date.month + 1) == NatToString(date.month + 1);
    assert IntToString(date.day) == NatToString(date.day);
    var s := FormatDateForForm(date);
    assert s == yyyy + ['-'] + mm + ['-'] + dd;
    PaddedDigits(date.month + 1);
    PaddedDigits(date.day);
    SplitThreeDigits(yyyy, mm, dd, '-');
    OnlyDigitsAnd(yyyy, mm, dd, '-', '/');
    assert s[|yyyy|] == '-';
  }

  /** The YYYY-MM-DD reading of `formatDateForForm` is the date. */
  lemma FormatDateForFormParsesDashed(date: Date)
    requires ValidDate(date) && date.year >= 100
    ensures ParseDashed(FormatDateForForm(date)) == Some(date)
  {
    FormatDateForFormSplits(date);
    DashedOfSplit(FormatDateForForm(date), NatToString(date.year), PadStart2(NatToString(date.month + 1)), PadStart2(NatToString(date.day)));
    ParseIntOfNatToString(date.year);
    ParseIntOfPadded(date.month + 1);
    ParseIntOfPadded(date.day);
    MakeDateOfValid(date);
  }

  /** A date written as YYYY-MM-DD reads back as the same date. */
  lemma FormatDateForFormRoundTrip(date: Date)
    requires ValidDate(date) && date.year >= 100
    ensures ParseDate(FormatDateForForm(date)) == Some(date)
  {
    FormatDateForFormSplits(date);
    FormatDateForFormParsesDashed(date);
    ParseDateBranch(FormatDateForForm(date));
  }

  /** `formatDateForForm` of a negative year starts with the minus sign. */
  lemma FormatDateForFormNegativeLayout(date: Date)
    requires ValidDate(date) && date.year < 0
    ensures FormatDateForForm(date)
            == ['-'] + NatToString(-date.year) + ['-'] + PadStart2(NatToString(date.month + 1)) + ['-'] + PadStart2(NatToString(date.day))
  {
    assert IntToString(date.year) == ['-'] + NatToString(-date.year);
    assert IntToString(date.month + 1) == NatToString(date.month + 1);
    assert IntToString(date.day) == NatToString(date.day);
  }

  /** Text that starts with a separator is an empty field, the separator
      and the rest. */
  lemma LeadingSeparator(sep: char, a: string, b: string, c: string)
    ensures [sep] + a + [sep] + b + [sep] + c == "" + [sep] + (a + [sep] + b + [sep] + c)
  {
  }

  /** Three runs of digits each preceded by a separator split into an
      empty field and the three runs. */
  lemma SplitLeadingSeparator(sep: char, a: string, b: string, c: string, other: char)
    requires AllDigits(a) && AllDigits(b) && AllDigits(c) && !IsDigit(sep)
    requires other != sep && !IsDigit(other)
    ensures Split([sep] + a + [sep] + b + [sep] + c, sep) == ["", a, b, c]
    ensures other !in [sep] + a + [sep] + b + [sep] + c
  {
    var rest := a + [sep] + b + [sep] + c;
    LeadingSeparator(sep, a, b, c);
    SplitAtFirst("", sep, rest);
    SplitThreeDigits(a, b, c, sep);
    OnlyDigitsAnd(a, b, c, sep, other);
    assert other !in "" + [sep] + rest;
  }

  /** The fields of `formatDateForForm` for a negative year: an empty
      field before the minus sign, then the year's digits and the padded
      month and day. */
  lemma FormatDateForFormNegativeSplits(date: Date)
    requires ValidDate(date) && date.year < 0
    ensures Split(FormatDateForForm(date), '-')
            == ["", NatToString(-date.year), PadStart2(NatToString(date.month + 1)), PadStart2(NatToString(date.day))]
    ensures '/' !in FormatDateForForm(date)
  {
    var yyyy := NatToString(-date.year);
    var mm := PadStart2(NatToString(date.month + 1));
    var dd := PadStart2(NatToString(date.day));
    FormatDateForFormNegativeLayout(date);
    PaddedDigits(date.month + 1);
    PaddedDigits(date.day);
    SplitLeadingSeparator('-', yyyy, mm, dd, '/');
  }

  /** A negative year is written with its minus sign, so YYYY-MM-DD text
      of it splits on '-' into four parts and does not parse. */
  lemma FormatDateForFormNegativeYear(date: Date)
    requires ValidDate(date) && date.year < 0
    ensures ParseDate(FormatDateForForm(date)) == None
  {
    FormatDateForFormNegativeSplits(date);
    assert '-' in FormatDateForForm(date) by {
      assert FormatDateForForm(date)[0] == '-';
    }
    ParseDateBranch(FormatDateForForm(date));
  }

  lemma ParseIntSamples()
    ensures ParseInt("01") == Some(1) && ParseInt("02") == Some(2)
    ensures ParseInt("30") == Some(30) && ParseInt("202") == Some(202) && ParseInt("2024") == Some(2024)
  {
    assert PadStart2(NatToString(1)) == "01";
    assert PadStart2(NatToString(2)) == "02";
    assert NatToString(30) == "30";
    assert NatToString(202) == "202";
    assert NatToString(2024) == "2024";
    ParseIntOfPadded(1);
    ParseIntOfPadded(2);
    ParseIntOfNatToString(30);
    ParseIntOfNatToString(202);
    ParseIntOfNatToString(2024);
  }

  /** 02/30/2024 is not a date: the MM/DD/YYYY reading rejects it. */
  lemma RejectsFebruaryThirtieth()
    ensures ParseDate("02/30/2024") == None
  {
    var s := "02/30/2024";
    assert s == "02" + "/" + "30" + "/" + "2024";
    SplitThreeDigits("02", "30", "2024", '/');
    SlashedOfSplit(s, "02", "30", "2024");
    ParseIntSamples();
    LeapDay();
    OnlyDigitsAnd("02", "30", "2024", '/', '-');
    ParseDateBranch(s);
  }

  /** 2024-02-30 is accepted by the YYYY-MM-DD reading and rolls over to
      the first of March. */
  lemma DashedRollsOver()
    ensures ParseDate("2024-02-30") == Some(Date(2024, 2, 1))
  {
    var s := "2024-02-30";
    assert s == "2024" + "-" + "02" + "-" + "30";
    SplitThreeDigits("2024", "02", "30", '-');
    DashedOfSplit(s, "2024", "02", "30");
    ParseIntSamples();
    LeapDay();
    OnlyDigitsAnd("2024", "02", "30", '-', '/');
    ParseDateBranch(s);
  }

  // ---------------------------------------------------------------------
  // Calendar navigation
  // ---------------------------------------------------------------------

  datatype ViewMode = DayView | MonthView | YearView

  /** The popover's navigation signals. */
  datatype Navigation = Navigation(currentMonth: Date, viewMode: ViewMode, currentYear: int, currentDecade: int)

  /** `nextPeriod`: the next month, year or decade, by view. */
  function NextPeriodOf(n: Navigation): Navigation {
    match n.viewMode
    case DayView => n.(currentMonth := MakeDate(n.currentMonth.year, n.currentMonth.month + 1, 1))
    case MonthView => n.(currentYear := n.currentYear + 1)
    case YearView => n.(currentDecade := n.currentDecade + 10)
  }

  /** `previousPeriod`: the previous month, year or decade, by view. */
  function PreviousPeriodOf(n: Navigation): Navigation {
    match n.viewMode
    case DayView => n.(currentMonth := MakeDate(n.currentMonth.year, n.currentMonth.month - 1, 1))
    case MonthView => n.(currentYear := n.currentYear - 1)
    case YearView => n.(currentDecade := n.currentDecade - 10)
  }

  /** `switchToNextView`: day to month keeping the year, month to year at
      the decade that holds the year, and nothing in the year view. */
  function SwitchToNextViewOf(n: Navigation): Navigation {
    match n.viewMode
    case DayView => n.(currentYear := n.currentMonth.year, viewMode := MonthView)
    case MonthView => n.(currentDecade := (n.currentYear / 10) * 10, viewMode := YearView)
    case YearView => n
  }

  /** `selectMonth(monthIndex)`: the first of that month, in the day view. */
  function SelectMonthOf(n: Navigation, monthIndex: int): Navigation {
    n.(currentMonth := MakeDate(n.currentYear, monthIndex, 1), viewMode := DayView)
  }

  /** `selectYear(year)`: the same month of that year, in the month view. */
  function SelectYearOf(n: Navigation, year: int): Navigation {
    n.(currentYear := year, currentMonth := MakeDate(year, n.currentMonth.month, 1), viewMode := MonthView)
  }

  /** `decadeYears`: the twelve years listed in the year view. */
  function DecadeYears(startYear: int): (years: seq<int>)
    ensures |years| == 12
    ensures forall i :: 0 <= i < 12 ==> years[i] == startYear + i
    ensures forall y :: y in years <==> startYear <= y < startYear + 12
  {
    var years := seq(12, i => startYear + i);
    assert forall y :: startYear <= y < startYear + 12 ==> y in years by {
      forall y | startYear <= y < startYear + 12 ensures y in years {
        assert years[y - startYear] == y;
      }
    }
    years
  }

  /** `getHeaderTitle`, with the locale's month-and-year name for the day
      view given as `monthName`. */
  function HeaderTitle(n: Navigation, monthName: string): string {
    match n.viewMode
    case DayView => monthName
    case MonthView => IntToString(n.currentYear)
    case YearView => IntToString(n.currentDecade) + " - " + IntToString(n.currentDecade + 9)
  }

  /** The month view's title reads back as its year. */
  lemma MonthHeaderIsYear(n: Navigation, monthName: string)
    requires n.viewMode == MonthView
    ensures ParseInt(HeaderTitle(n, monthName)) == Some(n.currentYear)
  {
    ParseIntOfIntToString(n.currentYear);
  }

  /** In the day view, moving forward a month from December rolls over to
      January of the next year. */
  lemma DayNavigationRollsOver(n: Navigation)
    requires n.viewMode == DayView && ValidDate(n.currentMonth) && !(0 <= n.currentMonth.year <= 99)
    ensures var m := n.currentMonth;
            NextPeriodOf(n).currentMonth == (if m.month == 11 then Date(m.year + 1, 0, 1) else Date(m.year, m.month + 1, 1))
    ensures var m := n.currentMonth;
            PreviousPeriodOf(n).currentMonth == (if m.month == 0 then Date(m.year - 1, 11, 1) else Date(m.year, m.month - 1, 1))
  {
    NextMonthStart(n.currentMonth.year, n.currentMonth.month);
    PreviousMonthStart(n.currentMonth.year, n.currentMonth.month);
  }

  /** Forward then back returns to the same year or decade, and in the day
      view to the first of the same month as long as neither month lies in
      the years 0 to 99 that `Date` reads as 19xx. */
  lemma NextThenPrevious(n: Navigation)
    ensures n.viewMode != DayView ==> PreviousPeriodOf(NextPeriodOf(n)) == n
    ensures n.viewMode == DayView && ValidDate(n.currentMonth) && !(-1 <= n.currentMonth.year <= 99) ==>
              PreviousPeriodOf(NextPeriodOf(n)) == n.(currentMonth := n.currentMonth.(day := 1))
  {
    if n.viewMode == DayView && ValidDate(n.currentMonth) && !(-1 <= n.currentMonth.year <= 99) {
      DayNavigationRollsOver(n);
      var next := NextPeriodOf(n);
      PreviousMonthStart(next.currentMonth.year, next.currentMonth.month);
    }
  }

  /** Back then forward returns likewise. */
  lemma PreviousThenNext(n: Navigation)
    ensures n.viewMode != DayView ==> NextPeriodOf(PreviousPeriodOf(n)) == n
    ensures n.viewMode == DayView && ValidDate(n.currentMonth) && !(0 <= n.currentMonth.year <= 100) ==>
              NextPeriodOf(PreviousPeriodOf(n)) == n.(currentMonth := n.currentMonth.(day := 1))
  {
    if n.viewMode == DayView && ValidDate(n.currentMonth) && !(0 <= n.currentMonth.year <= 100) {
      DayNavigationRollsOver(n);
      var previous := PreviousPeriodOf(n);
      NextMonthStart(previous.currentMonth.year, previous.currentMonth.month);
    }
  }

  /** Near year 100 the round trip fails: back from January 100 is December
      of year 99, and forward from there `Date` reads 99 as 1999. */
  lemma NavigationAcrossYear100(n: Navigation)
    requires n.viewMode == DayView && n.currentMonth == Date(100, 0, 1)
    ensures PreviousPeriodOf(n).currentMonth == Date(99, 11, 1)
    ensures NextPeriodOf(PreviousPeriodOf(n)).currentMonth == Date(2000, 0, 1)
  {
    PreviousMonthStart(100, 0);
    assert 12 / 12 == 1 && 12 % 12 == 0;
  }

  /** The view changes: day to month copies the year; month to year picks
      the decade holding the year, which the year view then lists; the year
      view stays put. */
  lemma SwitchToNextViewFacts(n: Navigation)
    ensures n.viewMode == DayView ==>
              SwitchToNextViewOf(n) == n.(viewMode := MonthView, currentYear := n.currentMonth.year)
    ensures n.viewMode == MonthView ==>
              var s := SwitchToNextViewOf(n);
              s.viewMode == YearView && s.currentDecade % 10 == 0
              && s.currentDecade <= n.currentYear < s.currentDecade + 10
              && n.currentYear in DecadeYears(s.currentDecade)
              && s.currentMonth == n.currentMonth && s.currentYear == n.currentYear
    ensures n.viewMode == YearView ==> SwitchToNextViewOf(n) == n
  {
  }

  /** Picking a month shows the first of that month of the current year in
      the day view; picking a year keeps the month and shows the month view. */
  lemma SelectionFacts(n: Navigation, monthIndex: int, year: int)
    requires 0 <= monthIndex < 12 && !(0 <= n.currentYear <= 99)
    requires 0 <= n.currentMonth.month < 12 && !(0 <= year <= 99)
    ensures SelectMonthOf(n, monthIndex).viewMode == DayView
    ensures SelectMonthOf(n, monthIndex).currentMonth == Date(n.currentYear, monthIndex, 1)
    ensures SelectYearOf(n, year).viewMode == MonthView
    ensures SelectYearOf(n, year).currentYear == year
    ensures SelectYearOf(n, year).currentMonth == Date(year, n.currentMonth.month, 1)
  {
    MakeDateOfValid(Date(n.currentYear, monthIndex, 1));
    MakeDateOfValid(Date(year, n.currentMonth.month, 1));
  }

  // ---------------------------------------------------------------------
  // The component
  // ---------------------------------------------------------------------

  class BitDatePicker {
    var selectedDate: Option<Date>
    var currentMonth: Date
    var viewMode: ViewMode
    var currentYear: int
    var currentDecade: int

    function Nav(): Navigation
      reads this
    {
      Navigation(currentMonth, viewMode, currentYear, currentDecade)
    }

    /** A fresh picker shows `today`'s month in the day view, nothing selected. */
    constructor (today: Date)
      ensures selectedDate == None && viewMode == DayView
      ensures currentMonth == today && currentYear == today.year
      ensures currentDecade == (today.year / 10) * 10
    {
      selectedDate := None;
      currentMonth := today;
      viewMode := DayView;
      currentYear := today.year;
      currentDecade := (today.year / 10) * 10;
    }

    /** `onInput`: formats the typed text and shows it, selects the date when
        the text is a complete date, clears the selection when the text is
        empty, and reports the date as YYYY-MM-DD (or null) to the form. */
    method OnInput(value: string) returns (shown: string, notified: Option<string>)
      modifies this
      ensures shown == Format(value)
      ensures ParseDate(shown).Some? && |shown| == 10 ==> selectedDate == ParseDate(shown)
      ensures |shown| == 0 ==> selectedDate == None
      ensures !(ParseDate(shown).Some? && |shown| == 10) && |shown| != 0 ==> selectedDate == old(selectedDate)
      ensures notified == if ParseDate(shown).Some? then Some(FormatDateForForm(ParseDate(shown).value)) else None
      ensures Nav() == old(Nav())
    {
      shown := FormatAndValidateInput(value);
      var parsedDate := ParseDate(shown);
      if parsedDate.Some? && |shown| == 10 {
        selectedDate := parsedDate;
      } else if |shown| == 0 {
        selectedDate := None;
      }
      notified := if parsedDate.Some? then Some(FormatDateForForm(parsedDate.value)) else None;
    }

    method PreviousPeriod()
      modifies this
      ensures Nav() == PreviousPeriodOf(old(Nav())) && selectedDate == old(selectedDate)
    {
      if viewMode == DayView {
        currentMonth := MakeDate(currentMonth.year, currentMonth.month - 1, 1);
      } else if viewMode == MonthView {
        currentYear := currentYear - 1;
      } else {
        currentDecade := currentDecade - 10;
      }
    }

    method NextPeriod()
      modifies this
      ensures Nav() == NextPeriodOf(old(Nav())) && selectedDate == old(selectedDate)
    {
      if viewMode == DayView {
        currentMonth := MakeDate(currentMonth.year, currentMonth.month + 1, 1);
      } else if viewMode == MonthView {
        currentYear := currentYear + 1;
      } else {
        currentDecade := currentDecade + 10;
      }
    }

    method SwitchToNextView()
      modifies this
      ensures Nav() == SwitchToNextViewOf(old(Nav())) && selectedDate == old(selectedDate)
    {
      if viewMode == DayView {
        currentYear := currentMonth.year;
        viewMode := MonthView;
      } else if viewMode == MonthView {
        currentDecade := (currentYear / 10) * 10;
        viewMode := YearView;
      }
    }

    method SelectMonth(monthIndex: int)
      modifies this
      ensures Nav() == SelectMonthOf(old(Nav()), monthIndex) && selectedDate == old(selectedDate)
    {
      currentMonth := MakeDate(currentYear, monthIndex, 1);
      viewMode := DayView;
    }

    method SelectYear(year: int)
      modifies this
      ensures Nav() == SelectYearOf(old(Nav()), year) && selectedDate == old(selectedDate)
    {
      currentYear := year;
      currentMonth := MakeDate(year, currentMonth.month, 1);
      viewMode := MonthView;
    }
  }

  /** While a four-digit year is being typed, the three-digit prefix is
      already a date: the form hears about year 202 although the selection
      is left alone because the text is not yet 10 characters long. */
  lemma PartialYearIsReported()
    ensures Format("01/02/202") == "01/02/202"
    ensures ParseDate("01/02/202") == Some(Date(202, 0, 2))
  {
    PartialYearIsShaped();
    PartialYearParses();
  }

  lemma PartialYearIsShaped()
    ensures Format("01/02/202") == "01/02/202"
  {
    var r := "01/02/202";
    assert Shaped(r) by {
      forall i | 0 <= i < |r| ensures if i == 2 || i == 5 then r[i] == '/' else IsDigit(r[i]) {
      }
    }
    FormatOfShaped(r);
  }

  lemma PartialYearParses()
    ensures ParseDate("01/02/202") == Some(Date(202, 0, 2))
  {
    var r := "01/02/202";
    assert r == "01" + "/" + "02" + "/" + "202";
    SplitThreeDigits("01", "02", "202", '/');
    SlashedOfSplit(r, "01", "02", "202");
    ParseIntSamples();
    ExactIffValid(202, 0, 2);
    ParseDateBranch(r);
  }
}
