/**
 * The parts of the Java standard library whose behaviour the builder's
 * outcome depends on: `String.split(" ")`, `Boolean.valueOf(String)` and the
 * decimal parsers behind `Integer.valueOf`, `Short.valueOf` and `Long.valueOf`.
 */
module JavaLang {
  import opened Wrappers

  // ---------------------------------------------------------------------
  // String.split(" ")
  // ---------------------------------------------------------------------

  /** The position of the first ' ' in `s`, or `|s|` when there is none. */
  function IndexOfSpace(s: string): (r: nat)
    ensures r <= |s|
    ensures r < |s| ==> s[r] == ' '
  {
    if |s| == 0 || s[0] == ' ' then 0 else 1 + IndexOfSpace(s[1..])
  }

  /** No ' ' comes before the first one. */
  lemma {:induction false} NoSpaceBeforeIndex(s: string)
    ensures forall i :: 0 <= i < IndexOfSpace(s) ==> s[i] != ' '
  {
    if |s| > 0 && s[0] != ' ' {
      NoSpaceBeforeIndex(s[1..]);
      forall i | 0 < i < IndexOfSpace(s) ensures s[i] != ' ' {
        assert s[i] == s[1..][i - 1];
      }
    }
  }

  /** Every piece of `s` between its ' ' characters, empty pieces included. */
  function Fields(s: string): (r: seq<string>)
    ensures |r| >= 1 && r[0] == s[..IndexOfSpace(s)]
    decreases |s|
  {
    var i := IndexOfSpace(s);
    if i == |s| then [s] else [s[..i]] + Fields(s[i + 1..])
  }

  /** `parts` without its run of trailing empty strings. */
  function DropTrailingEmpty(parts: seq<string>): (r: seq<string>)
    ensures |r| <= |parts| && r == parts[..|r|]
    ensures r != [] ==> r[|r| - 1] != ""
    ensures forall j :: |r| <= j < |parts| ==> parts[j] == ""
  {
    if parts == [] then []
    else if parts[|parts| - 1] == "" then DropTrailingEmpty(parts[..|parts| - 1])
    else parts
  }

  /**
   * Java's `s.split(" ")` (a one-character, non-meta separator, limit 0):
   * when `s` holds no ' ' the result is `s` itself, otherwise every piece
   * between separators with the trailing empty pieces removed.
   */
  function Split(s: string): seq<string> {
    if IndexOfSpace(s) == |s| then [s] else DropTrailingEmpty(Fields(s))
  }

  /** The text before the first ' ' of `s` (all of `s` when it has none). */
  function TextBeforeSpace(s: string): string {
    s[..IndexOfSpace(s)]
  }

  /** True when some character other than ' ' follows the first ' ' of `s`. */
  predicate HasSecondToken(s: string) {
    var i := IndexOfSpace(s);
    i < |s| && exists k :: i < k < |s| && s[k] != ' '
  }

  /** The text between the first and the second ' ' of `s` (or the end of `s`). */
  function SecondToken(s: string): string
    requires IndexOfSpace(s) < |s|
  {
    var rest := s[IndexOfSpace(s) + 1..];
    rest[..IndexOfSpace(rest)]
  }

  /** A character before the first ' ' makes the first piece non-empty. */
  lemma NonSpaceInFirstField(t: string, k: nat)
    requires k < IndexOfSpace(t)
    ensures Fields(t)[0] != ""
  {
    assert Fields(t)[0][k] == t[k];
  }

  /** A character other than ' ' in `t` lies inside a non-empty piece. */
  lemma {:induction false} NonSpaceInNonEmptyField(t: string, k: nat) returns (j: nat)
    requires k < |t| && t[k] != ' '
    ensures j < |Fields(t)| && Fields(t)[j] != ""
    decreases |t|
  {
    var i := IndexOfSpace(t);
    if k < i {
      j := 0;
      NonSpaceInFirstField(t, k);
    } else {
      var rest := t[i + 1..];
      FieldsUnfold(t, i, rest);
      assert t[i] == ' ' && i < k;
      var m := k - i - 1;
      DropIndex(t, i + 1, m);
      assert m < |rest| && rest[m] != ' ';
      var j' := NonSpaceInNonEmptyField(rest, m);
      j := j' + 1;
      assert Fields(t)[j] == Fields(rest)[j'];
    }
  }

  /** A non-empty piece of `t` holds a character other than ' '. */
  lemma {:induction false} NonEmptyFieldHasNonSpace(t: string, j: nat) returns (k: nat)
    requires j < |Fields(t)| && Fields(t)[j] != ""
    ensures k < |t| && t[k] != ' '
    decreases |t|
  {
    var i := IndexOfSpace(t);
    if j == 0 {
      assert 0 < i;
      k := 0;
    } else {
      FieldsOfNoSpace(t, i);
      var rest := t[i + 1..];
      FieldsPastFirst(t, i, rest, j);
      var k' := NonEmptyFieldHasNonSpace(rest, j - 1);
      k := k' + i + 1;
      DropIndex(t, i + 1, k');
    }
  }

  /** Some piece of `t` is non-empty exactly when `t` holds a character other than ' '. */
  lemma FieldsNonEmpty(t: string)
    ensures (exists j :: 0 <= j < |Fields(t)| && Fields(t)[j] != "")
        <==> (exists k :: 0 <= k < |t| && t[k] != ' ')
  {
    if j :| 0 <= j < |Fields(t)| && Fields(t)[j] != "" {
      var k := NonEmptyFieldHasNonSpace(t, j);
    }
    if k :| 0 <= k < |t| && t[k] != ' ' {
      var j := NonSpaceInNonEmptyField(t, k);
    }
  }

  /** Two elements survive the trimming exactly when a piece after the first is non-empty. */
  lemma DropTrailingEmptyKeepsTwo(parts: seq<string>)
    ensures |DropTrailingEmpty(parts)| >= 2 <==> exists j :: 1 <= j < |parts| && parts[j] != ""
  {
    var r := DropTrailingEmpty(parts);
    if |r| >= 2 {
      assert parts[|r| - 1] == r[|r| - 1];
    }
  }

  /** The pieces of `s` with a first ' ' at `i`: the text before it, then the pieces of the `rest` after it. */
  lemma FieldsUnfold(s: string, i: nat, rest: string)
    requires i == IndexOfSpace(s) && i < |s| && rest == s[i + 1..]
    ensures Fields(s) == [s[..i]] + Fields(rest)
  {
  }

  /** Without a ' ', `t` is its only piece. */
  lemma FieldsOfNoSpace(t: string, i: nat)
    requires i == IndexOfSpace(t)
    ensures i == |t| ==> Fields(t) == [t]
  {
  }

  /** Piece `j` > 0 of `s` is piece `j - 1` of the `rest` after the first ' '. */
  lemma FieldsPastFirst(s: string, i: nat, rest: string, j: nat)
    requires i == IndexOfSpace(s) && i < |s| && rest == s[i + 1..]
    requires 0 < j < |Fields(s)|
    ensures j - 1 < |Fields(rest)| && Fields(rest)[j - 1] == Fields(s)[j]
  {
    FieldsUnfold(s, i, rest);
  }

  /** A list past its head has a non-empty element exactly when its tail does. */
  lemma NonEmptyPastHead(p: seq<string>, head: string, tail: seq<string>)
    requires p == [head] + tail
    ensures (exists j :: 1 <= j < |p| && p[j] != "") <==> (exists j :: 0 <= j < |tail| && tail[j] != "")
  {
    if j :| 1 <= j < |p| && p[j] != "" {
      assert tail[j - 1] != "";
    }
    if j :| 0 <= j < |tail| && tail[j] != "" {
      assert p[j + 1] != "";
    }
  }

  /** The rest of `s` after its first ' ' holds a character other than ' ' exactly when `s` has a second token. */
  lemma RestHasNonSpace(s: string, i: nat, rest: string)
    requires i == IndexOfSpace(s) && i < |s| && rest == s[i + 1..]
    ensures (exists k :: 0 <= k < |rest| && rest[k] != ' ') <==> HasSecondToken(s)
  {
    if k :| 0 <= k < |rest| && rest[k] != ' ' {
      DropIndex(s, i + 1, k);
    }
    if m :| i < m < |s| && s[m] != ' ' {
      DropIndex(s, i + 1, m - i - 1);
    }
  }

  lemma DropIndex(s: string, a: nat, k: nat)
    requires a + k < |s|
    ensures k < |s[a..]| && s[a..][k] == s[a + k]
  {
  }

  /**
   * What a header's split yields at indexes 0 and 1: the split has a second
   * element exactly when some non-space character follows the first ' ', and
   * then element 0 is the text before the first ' ' and element 1 the text
   * up to the next ' '.
   */
  lemma SplitFirstTwo(s: string)
    ensures |Split(s)| >= 2 <==> HasSecondToken(s)
    ensures |Split(s)| >= 2 ==>
      Split(s)[0] == TextBeforeSpace(s) && Split(s)[1] == SecondToken(s)
  {
    var i := IndexOfSpace(s);
    if i < |s| {
      var rest := s[i + 1..];
      var p := Fields(s);
      FieldsUnfold(s, i, rest);
      DropTrailingEmptyKeepsTwo(p);
      NonEmptyPastHead(p, s[..i], Fields(rest));
      FieldsNonEmpty(rest);
      RestHasNonSpace(s, i, rest);
      if |Split(s)| >= 2 {
        assert Split(s)[1] == p[1] == Fields(rest)[0];
      }
    }
  }

  /** `String.join(" ", parts)`. */
  function Join(parts: seq<string>): string
    requires parts != []
    decreases |parts|
  {
    if |parts| == 1 then parts[0] else parts[0] + " " + Join(parts[1..])
  }

  /** Joining the pieces with ' ' gives back the text they were cut from. */
  lemma {:induction false} JoinFields(s: string)
    ensures Join(Fields(s)) == s
    decreases |s|
  {
    var i := IndexOfSpace(s);
    FieldsOfNoSpace(s, i);
    if i < |s| {
      var rest := s[i + 1..];
      FieldsUnfold(s, i, rest);
      JoinFields(rest);
      var p := Fields(s);
      assert p[0] == s[..i] && p[1..] == Fields(rest);
      assert s == s[..i] + " " + rest;
    }
  }

  /** No piece holds the separator. */
  lemma {:induction false} FieldsHaveNoSpace(s: string)
    ensures forall j :: 0 <= j < |Fields(s)| ==> ' ' !in Fields(s)[j]
    decreases |s|
  {
    var i := IndexOfSpace(s);
    FieldsOfNoSpace(s, i);
    NoSpaceBeforeIndex(s);
    if i < |s| {
      var rest := s[i + 1..];
      FieldsUnfold(s, i, rest);
      FieldsHaveNoSpace(rest);
      forall j | 0 < j < |Fields(s)|
        ensures ' ' !in Fields(s)[j]
      {
        assert Fields(s)[j] == Fields(rest)[j - 1];
      }
    }
  }

  /** A split piece never contains the separator. */
  lemma TextBeforeSpaceHasNoSpace(s: string)
    ensures ' ' !in TextBeforeSpace(s)
  {
    NoSpaceBeforeIndex(s);
  }

  // ---------------------------------------------------------------------
  // Boolean.valueOf(String)
  // ---------------------------------------------------------------------

  function ToUpperAscii(c: char): char {
    if 'a' <= c <= 'z' then (c as int - 32) as char else c
  }

  function ToLowerAscii(c: char): char {
    if 'A' <= c <= 'Z' then (c as int + 32) as char else c
  }

  /** `String.equalsIgnoreCase`, with ASCII case mapping. */
  predicate EqualsIgnoreCase(a: string, b: string) {
    |a| == |b| &&
    forall i :: 0 <= i < |a| ==> a[i] == b[i] || ToUpperAscii(a[i]) == ToUpperAscii(b[i])
  }

  /** `Boolean.valueOf(s)`: true exactly when `"true".equalsIgnoreCase(s)`. */
  function BooleanValueOf(s: string): bool {
    EqualsIgnoreCase("true", s)
  }

  /** `s` with every ASCII capital replaced by its lower-case letter. */
  function LowerAscii(s: string): string {
    seq(|s|, i requires 0 <= i < |s| => ToLowerAscii(s[i]))
  }

  /** `Boolean.valueOf(s)` is true exactly when `s` lower-cases to "true". */
  lemma BooleanValueOfIsLowerTrue(s: string)
    ensures BooleanValueOf(s) <==> LowerAscii(s) == "true"
  {
    var lower := LowerAscii(s);
    assert |lower| == |s|;
    if lower == "true" {
      assert lower[0] == ToLowerAscii(s[0]) == 't' && lower[1] == ToLowerAscii(s[1]) == 'r';
      assert lower[2] == ToLowerAscii(s[2]) == 'u' && lower[3] == ToLowerAscii(s[3]) == 'e';
    }
    if BooleanValueOf(s) {
      assert "true"[0] == 't' && "true"[1] == 'r' && "true"[2] == 'u' && "true"[3] == 'e';
      assert forall i :: 0 <= i < 4 ==> lower[i] == ToLowerAscii(s[i]);
      assert lower == "true";
    }
  }

  // ---------------------------------------------------------------------
  // Integer.valueOf, Short.valueOf, Long.valueOf (radix 10)
  // ---------------------------------------------------------------------

  const IntMin: int := -0x8000_0000
  const IntMax: int := 0x7fff_ffff
  const ShortMin: int := -0x8000
  const ShortMax: int := 0x7fff
  const LongMin: int := -0x8000_0000_0000_0000
  const LongMax: int := 0x7fff_ffff_ffff_ffff

  predicate IsDigit(c: char) {
    '0' <= c <= '9'
  }

  predicate AllDigits(s: string) {
    forall i :: 0 <= i < |s| ==> IsDigit(s[i])
  }

  /** The value of a string of decimal digits, most significant first. */
  function DigitsValue(s: string): nat
    requires AllDigits(s)
    decreases |s|
  {
    if s == [] then 0 else DigitsValue(s[..|s| - 1]) * 10 + (s[|s| - 1] as int - '0' as int)
  }

  /**
   * The mathematical value of a decimal literal as `Long.parseLong` reads
   * it: an optional '-' or '+' sign followed by one or more digits, leading
   * zeros allowed, nothing else (no blanks, no decimal point). The range
   * check is left to the callers below.
   */
  function ParseDecimal(s: string): Option<int> {
    if |s| == 0 then None
    else if s[0] == '-' || s[0] == '+' then
      var digits := s[1..];
      if |digits| == 0 || !AllDigits(digits) then None
      else
        var v: int := DigitsValue(digits);
        Some(if s[0] == '-' then -v else v)
    else if AllDigits(s) then Some(DigitsValue(s))
    else None
  }

  /** `Long.valueOf(s)`: None where it throws NumberFormatException. */
  function LongValueOf(s: string): (r: Option<int>)
    ensures r.Some? ==> LongMin <= r.value <= LongMax && ParseDecimal(s) == r
    ensures ParseDecimal(s).Some? && LongMin <= ParseDecimal(s).value <= LongMax ==> r.Some?
  {
    var p := ParseDecimal(s);
    if p.Some? && LongMin <= p.value <= LongMax then p else None
  }

  /** `Integer.valueOf(s)`: None where it throws NumberFormatException. */
  function IntegerValueOf(s: string): (r: Option<int>)
    ensures r.Some? ==> IntMin <= r.value <= IntMax && LongValueOf(s) == r
    ensures ParseDecimal(s).Some? && IntMin <= ParseDecimal(s).value <= IntMax ==> r.Some?
  {
    var p := ParseDecimal(s);
    if p.Some? && IntMin <= p.value <= IntMax then p else None
  }

  /** `Short.valueOf(s)`, which parses with `Integer.parseInt` and then checks the short range. */
  function ShortValueOf(s: string): (r: Option<int>)
    ensures r.Some? ==> ShortMin <= r.value <= ShortMax && IntegerValueOf(s) == r
    ensures ParseDecimal(s).Some? && ShortMin <= ParseDecimal(s).value <= ShortMax ==> r.Some?
  {
    var i := IntegerValueOf(s);
    if i.Some? && ShortMin <= i.value <= ShortMax then i else None
  }

  /** The digit character for 0 <= d < 10. */
  function DigitChar(d: nat): (c: char)
    requires d < 10
    ensures IsDigit(c) && c as int - '0' as int == d
  {
    ('0' as int + d) as char
  }

  /** The decimal digits of `n`, without leading zeros. */
  function NatToDecimal(n: nat): (s: string)
    ensures |s| >= 1 && AllDigits(s)
    decreases n
  {
    if n < 10 then [DigitChar(n)] else NatToDecimal(n / 10) + [DigitChar(n % 10)]
  }

  /** `Long.toString(n)`: a '-' for negative numbers, then the digits of |n|. */
  function ToDecimal(n: int): string {
    if n < 0 then "-" + NatToDecimal(-n) else NatToDecimal(n)
  }

  lemma {:induction false} DigitsValueOfNatToDecimal(n: nat)
    ensures DigitsValue(NatToDecimal(n)) == n
    decreases n
  {
    if n >= 10 {
      var s := NatToDecimal(n);
      DigitsValueOfNatToDecimal(n / 10);
      assert s[..|s| - 1] == NatToDecimal(n / 10);
    }
  }

  /** Every number prints to a literal that parses back to it. */
  lemma ParseDecimalRoundTrip(n: int)
    ensures ParseDecimal(ToDecimal(n)) == Some(n)
  {
    var m := if n < 0 then -n else n;
    DigitsValueOfNatToDecimal(m);
    if n < 0 {
      assert ToDecimal(n)[1..] == NatToDecimal(m);
    } else {
      assert !IsDigit('-') && !IsDigit('+');
      assert ToDecimal(n)[0] != '-' && ToDecimal(n)[0] != '+';
    }
  }

  /** Each integer-family parser reads back exactly the numbers of its type's range. */
  lemma ValueOfRoundTrip(n: int)
    ensures LongValueOf(ToDecimal(n)) == (if LongMin <= n <= LongMax then Some(n) else None)
    ensures IntegerValueOf(ToDecimal(n)) == (if IntMin <= n <= IntMax then Some(n) else None)
    ensures ShortValueOf(ToDecimal(n)) == (if ShortMin <= n <= ShortMax then Some(n) else None)
  {
    ParseDecimalRoundTrip(n);
  }
}
