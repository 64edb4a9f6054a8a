/**
 * String operations of the JavaScript runtime that the components rely on:
 * `split` and `join` on a one-character separator, `trim`, `includes`,
 * `padStart(2, "0")`, `Number#toString()` and the global `parseInt`.
 * Strings are sequences of characters; numbers are unbounded integers.
 */
module Text {

  datatype Option<+T> = None | Some(value: T)

  predicate IsDigit(c: char) {
    '0' <= c <= '9'
  }

  function DigitValue(c: char): (v: nat)
    requires IsDigit(c)
    ensures v < 10
  {
    (c as int) - ('0' as int)
  }

  function DigitChar(v: nat): (c: char)
    requires v < 10
    ensures IsDigit(c) && DigitValue(c) == v
  {
    (('0' as int) + v) as char
  }

  predicate IsHexDigit(c: char) {
    IsDigit(c) || 'a' <= c <= 'f' || 'A' <= c <= 'F'
  }

  function HexDigitValue(c: char): (v: nat)
    requires IsHexDigit(c)
    ensures v < 16
  {
    if IsDigit(c) then DigitValue(c)
    else if 'a' <= c <= 'f' then (c as int) - ('a' as int) + 10
    else (c as int) - ('A' as int) + 10
  }

  /** The characters that `String.prototype.trim` and `parseInt` skip:
      ECMAScript WhiteSpace and LineTerminator. */
  predicate IsWhitespace(c: char) {
    || c == ' ' || c == '\t' || c == '\n' || c == '\r'
    || c == '\U{000B}' || c == '\U{000C}' || c == '\U{00A0}' || c == '\U{FEFF}'
    || c == '\U{1680}' || ('\U{2000}' <= c <= '\U{200A}')
    || c == '\U{2028}' || c == '\U{2029}' || c == '\U{202F}' || c == '\U{205F}'
    || c == '\U{3000}'
  }

  // ---------------------------------------------------------------------
  // trim

  function TrimStart(s: string): (r: string)
    ensures |r| <= |s| && r == s[|s| - |r|..]
    ensures r == [] || !IsWhitespace(r[0])
    ensures forall i :: 0 <= i < |s| - |r| ==> IsWhitespace(s[i])
  {
    if |s| > 0 && IsWhitespace(s[0]) then
      var r := TrimStart(s[1..]);
      assert s[1..][|s| - 1 - |r|..] == s[|s| - |r|..];
      assert forall i :: 1 <= i < |s| - |r| ==> s[i] == s[1..][i - 1];
      r
    else s
  }

  function TrimEnd(s: string): (r: string)
    ensures |r| <= |s| && r == s[..|r|]
    ensures r == [] || !IsWhitespace(r[|r| - 1])
    ensures forall i :: |r| <= i < |s| ==> IsWhitespace(s[i])
  {
    if |s| > 0 && IsWhitespace(s[|s| - 1]) then TrimEnd(s[..|s| - 1]) else s
  }

  /** `s.trim()` */
  function Trim(s: string): (r: string)
    ensures r == [] || (!IsWhitespace(r[0]) && !IsWhitespace(r[|r| - 1]))
  {
    TrimEnd(TrimStart(s))
  }

  /** Trimming keeps one slice of the text, starting where the leading
      white space ends. */
  lemma TrimIsSlice(s: string)
    ensures var start, r := |s| - |TrimStart(s)|, Trim(s);
            start + |r| <= |s| && r == s[start..start + |r|]
  {
    var t := TrimStart(s);
    var r := TrimEnd(t);
    FrontOfTail(s, |s| - |t|, |r|);
  }

  /** The front of a tail is a middle slice. */
  lemma FrontOfTail(s: string, start: nat, n: nat)
    requires start + n <= |s|
    ensures s[start..][..n] == s[start..start + n]
  {
  }

  /** What trimming removes after that slice is white space. */
  lemma TrimRemovesTrailingWhitespace(s: string)
    ensures var start, r := |s| - |TrimStart(s)|, Trim(s);
            forall i :: start + |r| <= i < |s| ==> IsWhitespace(s[i])
  {
    var t := TrimStart(s);
    var r := TrimEnd(t);
    var start := |s| - |t|;
    forall i | start + |r| <= i < |s|
      ensures IsWhitespace(s[i])
    {
      assert s[i] == t[i - start];
    }
  }

  /** Trimming keeps one slice of the text, starting where the leading
      white space ends, and removes only white space on either side of it. */
  lemma TrimRemovesOnlyWhitespace(s: string)
    ensures var start, r := |s| - |TrimStart(s)|, Trim(s);
            && start + |r| <= |s| && r == s[start..start + |r|]
            && (forall i :: 0 <= i < start ==> IsWhitespace(s[i]))
            && (forall i :: start + |r| <= i < |s| ==> IsWhitespace(s[i]))
  {
    TrimIsSlice(s);
    TrimRemovesTrailingWhitespace(s);
  }

  /** A string is blank when trimming leaves nothing. */
  lemma {:induction false} TrimEmptyIffAllWhitespace(s: string)
    ensures Trim(s) == [] <==> forall i :: 0 <= i < |s| ==> IsWhitespace(s[i])
  {
    var t := TrimStart(s);
    if Trim(s) != [] {
      var r := Trim(s);
      assert r[0] == t[0];
      assert t[0] == s[|s| - |t|];
    }
  }

  // ---------------------------------------------------------------------
  // split / join / includes

  predicate Contains(s: string, c: char) {
    c in s
  }

  /** `s.split(sep)` for a one-character separator: the pieces between
      separators, in order; the empty string splits into one empty piece. */
  function Split(s: string, sep: char): (parts: seq<string>)
    ensures |parts| >= 1
    ensures forall i :: 0 <= i < |parts| ==> sep !in parts[i]
    ensures sep !in s ==> parts == [s]
  {
    if |s| == 0 then [""]
    else
      var rest := Split(s[1..], sep);
      assert s == [s[0]] + s[1..];
      if s[0] == sep then [""] + rest
      else [[s[0]] + rest[0]] + rest[1..]
  }

  /** `parts.join(sep)` */
  function Join(parts: seq<string>, sep: string): string {
    if |parts| == 0 then ""
    else if |parts| == 1 then parts[0]
    else parts[0] + sep + Join(parts[1..], sep)
  }

  /** Joining the pieces of a split with the separator gives back the string. */
  lemma {:induction false} JoinSplit(s: string, sep: char)
    ensures Join(Split(s, sep), [sep]) == s
  {
    if |s| > 0 {
      var rest := Split(s[1..], sep);
      JoinSplit(s[1..], sep);
      if s[0] == sep {
        assert Split(s, sep) == [""] + rest;
        assert s == [s[0]] + s[1..];
      } else {
        var parts := Split(s, sep);
        assert parts[0] == [s[0]] + rest[0];
        if |rest| == 1 {
          assert Join(parts, [sep]) == parts[0] == [s[0]] + s[1..];
        } else {
          assert parts[1..] == rest[1..];
          assert Join(rest, [sep]) == rest[0] + [sep] + Join(rest[1..], [sep]);
          assert Join(parts, [sep]) == [s[0]] + rest[0] + [sep] + Join(rest[1..], [sep]);
        }
        assert s == [s[0]] + s[1..];
      }
    }
  }

  /** Splitting `a + sep + b` where `a` has no separator: `a` is the first piece. */
  lemma {:induction false} SplitAtFirst(a: string, sep: char, b: string)
    requires sep !in a
    ensures Split(a + [sep] + b, sep) == [a] + Split(b, sep)
  {
    if |a| == 0 {
      assert (a + [sep] + b)[1..] == b;
    } else {
      var s := a + [sep] + b;
      assert s[1..] == a[1..] + [sep] + b;
      SplitAtFirst(a[1..], sep, b);
      assert [a[0]] + a[1..] == a;
    }
  }

  /** With two or more pieces, joining all but the last and then the last
      with the separator gives the whole join. */
  lemma {:induction false} JoinSnoc(parts: seq<string>, sep: string)
    requires |parts| >= 2
    ensures Join(parts, sep) == Join(parts[..|parts| - 1], sep) + sep + parts[|parts| - 1]
  {
    if |parts| > 2 {
      JoinSnoc(parts[1..], sep);
      assert parts[1..][..|parts| - 2] == parts[..|parts| - 1][1..];
    }
  }

  /** The last piece of a split is the text after the last separator. */
  lemma {:induction false} SplitLastIsSuffix(s: string, sep: char)
    ensures var parts := Split(s, sep);
            var p := parts[|parts| - 1];
            |p| <= |s| && p == s[|s| - |p|..] && (|p| < |s| ==> s[|s| - |p| - 1] == sep)
  {
    if |s| > 0 {
      var t := s[1..];
      SplitLastIsSuffix(t, sep);
      SplitSingleIffNoSeparator(t, sep);
      var rest := Split(t, sep);
      var q := rest[|rest| - 1];
      if s[0] == sep || |rest| > 1 {
        SplitKeepsLast(s, sep);
        SuffixOfTail(s, q, sep);
        if |q| == |t| {
          assert sep !in t by {
            assert q == t;
          }
        }
      } else {
        assert rest == [t];
        assert Split(s, sep) == [s];
      }
    }
  }

  /** A suffix of a text's tail, and the character before it, sit at the
      same places at the end of the text. */
  lemma SuffixOfTail(s: string, q: string, sep: char)
    requires |s| > 0 && |q| <= |s| - 1 && q == s[1..][|s| - 1 - |q|..]
    requires |q| < |s| - 1 ==> s[1..][|s| - 2 - |q|] == sep
    ensures q == s[|s| - |q|..]
    ensures |q| < |s| - 1 ==> s[|s| - |q| - 1] == sep
  {
    assert s[1..][|s| - 1 - |q|..] == s[|s| - |q|..];
  }

  /** Unless the first character only lengthens the one piece there is,
      the split of a text ends in the same piece as the split of its tail. */
  lemma SplitKeepsLast(s: string, sep: char)
    requires |s| > 0 && (s[0] == sep || |Split(s[1..], sep)| > 1)
    ensures var parts, rest := Split(s, sep), Split(s[1..], sep);
            parts[|parts| - 1] == rest[|rest| - 1]
  {
  }

  lemma {:induction false} SplitSingleIffNoSeparator(s: string, sep: char)
    ensures |Split(s, sep)| == 1 <==> sep !in s
  {
    if |s| > 0 {
      SplitSingleIffNoSeparator(s[1..], sep);
      if s[0] != sep && sep in s {
        assert sep in s[1..];
      }
    }
  }

  /** The first piece of a split is the prefix of `s` before the first separator. */
  lemma {:induction false} SplitFirstIsPrefix(s: string, sep: char)
    ensures var p := Split(s, sep)[0];
            |p| <= |s| && p == s[..|p|] && (|p| < |s| ==> s[|p|] == sep)
  {
    if |s| > 0 {
      SplitFirstIsPrefix(s[1..], sep);
    }
  }

  // ---------------------------------------------------------------------
  // number <-> text

  /** `n.toString()` for a natural number. */
  function NatToString(n: nat): (s: string)
    ensures |s| >= 1
    ensures forall i :: 0 <= i < |s| ==> IsDigit(s[i])
    ensures n >= 10 ==> s[0] != '0'
  {
    if n < 10 then [DigitChar(n)] else NatToString(n / 10) + [DigitChar(n % 10)]
  }

  /** `i.toString()` for any integer. */
  function IntToString(i: int): (r: string)
    ensures |r| >= 1 && (r[0] == '-' <==> i < 0) && (IsDigit(r[0]) || r[0] == '-')
    ensures forall k :: 0 < k < |r| ==> IsDigit(r[k])
  {
    if i < 0 then "-" + NatToString(-i) else NatToString(i)
  }

  /** `s.padStart(2, "0")` */
  function PadStart2(s: string): (r: string)
    ensures |r| == if |s| >= 2 then |s| else 2
  {
    if |s| >= 2 then s else seq(2 - |s|, _ => '0') + s
  }

  /** The longest prefix of `s` made of decimal digits. */
  function DigitRun(s: string): (r: string)
    ensures |r| <= |s| && r == s[..|r|]
    ensures forall i :: 0 <= i < |r| ==> IsDigit(r[i])
    ensures |r| < |s| ==> !IsDigit(s[|r|])
  {
    if |s| > 0 && IsDigit(s[0]) then [s[0]] + DigitRun(s[1..]) else []
  }

  /** The longest prefix of `s` made of hexadecimal digits. */
  function HexRun(s: string): (r: string)
    ensures |r| <= |s| && r == s[..|r|]
    ensures forall i :: 0 <= i < |r| ==> IsHexDigit(r[i])
    ensures |r| < |s| ==> !IsHexDigit(s[|r|])
  {
    if |s| > 0 && IsHexDigit(s[0]) then [s[0]] + HexRun(s[1..]) else []
  }

  /** The value of a string of decimal digits. */
  function DecimalValue(ds: string): nat
    requires forall i :: 0 <= i < |ds| ==> IsDigit(ds[i])
  {
    if |ds| == 0 then 0 else DecimalValue(ds[..|ds| - 1]) * 10 + DigitValue(ds[|ds| - 1])
  }

  /** The value of a string of hexadecimal digits. */
  function HexValue(ds: string): nat
    requires forall i :: 0 <= i < |ds| ==> IsHexDigit(ds[i])
  {
    if |ds| == 0 then 0 else HexValue(ds[..|ds| - 1]) * 16 + HexDigitValue(ds[|ds| - 1])
  }

  /** The value of the longest run of digits at the start of `body` (after
      any sign): base 16 after a `0x`/`0X` prefix, base 10 otherwise; None
      when that run is empty. */
  function UnsignedPrefixValue(body: string): Option<nat> {
    if |body| >= 2 && body[0] == '0' && (body[1] == 'x' || body[1] == 'X') then
      var hex := HexRun(body[2..]);
      if |hex| == 0 then None else Some(HexValue(hex))
    else
      var dec := DigitRun(body);
      if |dec| == 0 then None else Some(DecimalValue(dec))
  }

  /** The global `parseInt(s)` without a radix: leading white space is
      skipped, then an optional sign, then a `0x`/`0X` prefix selects base
      16; the longest run of digits that follows is the value, and a string
      with no such digits is NaN (None). */
  function ParseInt(s: string): (r: Option<int>)
  {
    if |s| > 0 && IsWhitespace(s[0]) then ParseInt(s[1..]) else ParseSigned(s)
  }

  /** `parseInt` of text that does not start with white space. */
  function ParseSigned(t: string): Option<int> {
    var negative := |t| > 0 && t[0] == '-';
    var body := if |t| > 0 && (t[0] == '-' || t[0] == '+') then t[1..] else t;
    match UnsignedPrefixValue(body)
    case None => None
    case Some(v) =>
      var value: int := if negative then -(v as int) else v as int;
      Some(value)
  }

  /** `parseInt` skips exactly what `trimStart` removes. */
  lemma {:induction false} ParseIntSkipsWhitespace(s: string)
    ensures ParseInt(s) == ParseSigned(TrimStart(s))
  {
    if |s| > 0 && IsWhitespace(s[0]) {
      ParseIntSkipsWhitespace(s[1..]);
    }
  }

  lemma {:induction false} DigitRunAll(s: string)
    requires forall i :: 0 <= i < |s| ==> IsDigit(s[i])
    ensures DigitRun(s) == s
  {
    if |s| > 0 {
      DigitRunAll(s[1..]);
      assert [s[0]] + s[1..] == s;
    }
  }

  lemma {:induction false} DecimalValueOfNatToString(n: nat)
    ensures DecimalValue(NatToString(n)) == n
  {
    if n >= 10 {
      var s := NatToString(n);
      DecimalValueOfNatToString(n / 10);
      assert s[..|s| - 1] == NatToString(n / 10);
    }
  }

  /** A leading zero does not change the value of a digit string. */
  lemma {:induction false} DecimalValueLeadingZero(ds: string)
    requires forall i :: 0 <= i < |ds| ==> IsDigit(ds[i])
    ensures DecimalValue("0" + ds) == DecimalValue(ds)
  {
    if |ds| > 0 {
      var z := "0" + ds;
      assert z[..|z| - 1] == "0" + ds[..|ds| - 1];
      DecimalValueLeadingZero(ds[..|ds| - 1]);
    } else {
      assert ("0" + ds)[..0] == [];
    }
  }

  lemma UnsignedPrefixOfDigits(ds: string)
    requires |ds| >= 1
    requires forall i :: 0 <= i < |ds| ==> IsDigit(ds[i])
    ensures UnsignedPrefixValue(ds) == Some(DecimalValue(ds))
  {
    DigitRunAll(ds);
    assert |ds| >= 2 ==> IsDigit(ds[1]);
  }

  /** `parseInt` of a run of decimal digits is the decimal value of the run. */
  lemma ParseIntOfDigits(ds: string)
    requires |ds| >= 1
    requires forall i :: 0 <= i < |ds| ==> IsDigit(ds[i])
    ensures ParseInt(ds) == Some(DecimalValue(ds))
  {
    assert IsDigit(ds[0]) && !IsWhitespace(ds[0]);
    UnsignedPrefixOfDigits(ds);
    assert ds[0] != '-' && ds[0] != '+';
  }

  /** The value of a one-digit string is its digit. */
  lemma DecimalValueOfDigit(c: char)
    requires IsDigit(c)
    ensures DecimalValue([c]) == DigitValue(c)
  {
    assert [c][..0] == [];
  }

  /** `parseInt` of one digit character is that digit. */
  lemma ParseIntOfDigitChar(c: char)
    requires IsDigit(c)
    ensures ParseInt([c]) == Some(DigitValue(c))
  {
    ParseIntOfDigits([c]);
    DecimalValueOfDigit(c);
  }

  /** `parseInt(n.toString()) == n` */
  lemma ParseIntOfNatToString(n: nat)
    ensures ParseInt(NatToString(n)) == Some(n)
  {
    DecimalValueOfNatToString(n);
    ParseIntOfDigits(NatToString(n));
  }

  /** `parseInt(i.toString()) == i`, negative numbers included. */
  lemma ParseIntOfIntToString(i: int)
    ensures ParseInt(IntToString(i)) == Some(i)
  {
    if i >= 0 {
      ParseIntOfNatToString(i);
    } else {
      var ds := NatToString(-i);
      DecimalValueOfNatToString(-i);
      UnsignedPrefixOfDigits(ds);
      var s := "-" + ds;
      assert !IsWhitespace(s[0]) && s[1..] == ds;
    }
  }

  /** `parseInt(n.toString().padStart(2, "0")) == n` */
  lemma ParseIntOfPadded(n: nat)
    ensures ParseInt(PadStart2(NatToString(n))) == Some(n)
  {
    var s := NatToString(n);
    if |s| >= 2 {
      ParseIntOfNatToString(n);
    } else {
      var p := "0" + s;
      assert PadStart2(s) == p;
      assert forall i :: 0 <= i < |p| ==> IsDigit(p[i]);
      DecimalValueOfNatToString(n);
      DecimalValueLeadingZero(s);
      ParseIntOfDigits(p);
    }
  }
}
