/** Colour names and numbers (util.c). */
module Colors {
  import opened Strings

  const COLOR_INVALID: CInt := -2
  const COLOR_DEFAULT: CInt := -1

  /** The name table; entry i names colour number i - 2. */
  const COLOR_NAMES: seq<string> :=
    ["invalid", "default", "black", "red", "green", "yellow", "blue", "magenta", "cyan", "white"]

  predicate IsDigit(c: char) { '0' <= c <= '9' }

  function DigitValue(c: char): nat
    requires IsDigit(c)
  {
    c as int - '0' as int
  }

  /** The value of the longest run of digits at the front of s, after acc. */
  function LeadingDigits(s: string, acc: nat): nat {
    if s == "" || !IsDigit(s[0]) then acc else LeadingDigits(s[1..], 10 * acc + DigitValue(s[0]))
  }

  function SkipWhite(s: string): string {
    if s != "" && (s[0] == ' ' || '\t' <= s[0] <= '\r') then SkipWhite(s[1..]) else s
  }

  function Clamp(v: int): int {
    if v < -0x8000_0000_0000_0000 then -0x8000_0000_0000_0000
    else if v > 0x7fff_ffff_ffff_ffff then 0x7fff_ffff_ffff_ffff
    else v
  }

  /** `strtol(s, &p, 10)` on a 64-bit `long`, stored into an `int`; None when no
      digit was read, that is when p == s. */
  function ParseInt(s: string): Option<CInt> {
    var t := SkipWhite(s);
    var negative := t != "" && t[0] == '-';
    var digits := if t != "" && (t[0] == '-' || t[0] == '+') then t[1..] else t;
    if digits == "" || !IsDigit(digits[0]) then None
    else
      var magnitude: int := LeadingDigits(digits, 0);
      var v := Clamp(if negative then -magnitude else magnitude);
      Some((v + 0x8000_0000) % 0x1_0000_0000 - 0x8000_0000)
  }

  /** The first table entry, from index i on, that spells the colour. */
  function NameIndex(color: string, i: nat): nat
    decreases |COLOR_NAMES| - i
  {
    if i >= |COLOR_NAMES| || EqualIgnoringCase(color, COLOR_NAMES[i]) then i else NameIndex(color, i + 1)
  }

  /** What `owl_util_string_to_color` computes on a terminal with `colors` colours. */
  function StringToColor(color: string, colors: CInt): CInt {
    if NameIndex(color, 0) < |COLOR_NAMES| then NameIndex(color, 0) - 2
    else match ParseInt(color)
      case Some(c) => if -1 <= c < colors then c else COLOR_INVALID
      case None => COLOR_INVALID
  }

  method LookupColor(color: string, colors: CInt) returns (c: CInt)
    ensures c == StringToColor(color, colors)
  {
    var i := 0;
    while i < |COLOR_NAMES|
      invariant 0 <= i <= |COLOR_NAMES|
      invariant NameIndex(color, 0) == NameIndex(color, i)
    {
      if EqualIgnoringCase(color, COLOR_NAMES[i]) {
        return i - 2;
      }
      i := i + 1;
    }
    match ParseInt(color) {
      case Some(v) =>
        if -1 <= v < colors { return v; }
      case None =>
    }
    return COLOR_INVALID;
  }

  /** `printf("%i")` of a natural number. */
  function Decimal(n: nat): string {
    if n < 10 then [('0' as int + n) as char] else Decimal(n / 10) + [('0' as int + n % 10) as char]
  }

  /** How `owl_filter_print` writes a colour: by name below 8, else in decimal. */
  function ColorText(color: CInt): string
    requires color >= COLOR_DEFAULT
  {
    if color < 8 then COLOR_NAMES[color + 2] else Decimal(color)
  }

  lemma {:induction false} LeadingDigitsConcat(a: string, b: string, acc: nat)
    requires forall i :: 0 <= i < |a| ==> IsDigit(a[i])
    ensures LeadingDigits(a + b, acc) == LeadingDigits(b, LeadingDigits(a, acc))
    decreases |a|
  {
    if a == "" {
      assert a + b == b;
    } else {
      assert (a + b)[1..] == a[1..] + b;
      LeadingDigitsConcat(a[1..], b, 10 * acc + DigitValue(a[0]));
    }
  }

  lemma {:induction false} DecimalDigits(n: nat)
    ensures Decimal(n) != "" && forall i :: 0 <= i < |Decimal(n)| ==> IsDigit(Decimal(n)[i])
    ensures LeadingDigits(Decimal(n), 0) == n
  {
    if n >= 10 {
      DecimalDigits(n / 10);
      var last := [('0' as int + n % 10) as char];
      LeadingDigitsConcat(Decimal(n / 10), last, 0);
      assert LeadingDigits(last, n / 10) == LeadingDigits("", 10 * (n / 10) + n % 10);
    } else {
      assert LeadingDigits(Decimal(n), 0) == LeadingDigits("", n);
    }
  }

  lemma NamesAreDistinct(i: nat, j: nat)
    requires i < j < |COLOR_NAMES|
    ensures !EqualIgnoringCase(COLOR_NAMES[j], COLOR_NAMES[i])
  {
    assert |COLOR_NAMES[i]| == |COLOR_NAMES[j]| ==>
      Lower(COLOR_NAMES[i][0]) != Lower(COLOR_NAMES[j][0]) || Lower(COLOR_NAMES[i][1]) != Lower(COLOR_NAMES[j][1]) ||
      Lower(COLOR_NAMES[i][2]) != Lower(COLOR_NAMES[j][2]);
  }

  lemma {:induction false} NameIndexOfName(i: nat, k: nat)
    requires i <= k < |COLOR_NAMES|
    ensures NameIndex(COLOR_NAMES[k], i) == k
    decreases k - i
  {
    if i >= k {
    } else {
      NamesAreDistinct(i, k);
      NameIndexOfName(i + 1, k);
    }
  }

  lemma {:induction false} NameIndexOfNumber(s: string, i: nat)
    requires i <= |COLOR_NAMES| && (s == "" || !('a' <= Lower(s[0]) <= 'z'))
    ensures NameIndex(s, i) == |COLOR_NAMES|
    decreases |COLOR_NAMES| - i
  {
    if i == |COLOR_NAMES| {
    } else {
      assert Lower(COLOR_NAMES[i][0]) == COLOR_NAMES[i][0] >= 'a';
      NameIndexOfNumber(s, i + 1);
    }
  }

  /** A colour a filter can hold is read back from the way it is printed, on any
      terminal that accepted it. */
  lemma ColorRoundTrip(color: CInt, colors: CInt)
    requires COLOR_DEFAULT <= color && (color < 8 || color < colors)
    ensures StringToColor(ColorText(color), colors) == color
  {
    if color < 8 {
      NameIndexOfName(0, color + 2);
    } else {
      DecimalDigits(color);
      var s := Decimal(color);
      NameIndexOfNumber(s, 0);
      assert SkipWhite(s) == s;
    }
  }

  /** Lower-case and upper-case letters of a name are the same. */
  lemma CaseIsIgnored()
    ensures EqualIgnoringCase("Red", "rED") && EqualIgnoringCase("AZ", "az") && !EqualIgnoringCase("@[", "`{")
  {
    assert Lower('R') == 'r' && Lower('E') == 'e' && Lower('D') == 'd' && Lower('A') == 'a' && Lower('Z') == 'z';
    assert "@["[0] == '@' && "`{"[0] == '`' && Lower('@') == '@' && Lower('`') == '`';
  }

  lemma {:induction false} NameIndexOfSame(s: string, t: string, i: nat)
    requires EqualIgnoringCase(s, t)
    ensures NameIndex(s, i) == NameIndex(t, i)
    decreases |COLOR_NAMES| - i
  {
    if i >= |COLOR_NAMES| {
    } else {
      assert EqualIgnoringCase(s, COLOR_NAMES[i]) <==> EqualIgnoringCase(t, COLOR_NAMES[i]);
      NameIndexOfSame(s, t, i + 1);
    }
  }

  /** The number of a name, however its letters are written, on every terminal. */
  lemma ColorNumber(s: string, name: string, number: CInt, colors: CInt)
    requires EqualIgnoringCase(s, name)
    requires (name, number) in [("invalid", -2), ("default", -1), ("black", 0), ("red", 1), ("green", 2),
                                ("yellow", 3), ("blue", 4), ("magenta", 5), ("cyan", 6), ("white", 7)]
    ensures StringToColor(s, colors) == number
  {
    assert COLOR_NAMES[number + 2] == name;
    NameIndexOfName(0, number + 2);
    NameIndexOfSame(s, name, 0);
  }

  /** Numbers are read in decimal, after blanks and a sign, up to the first other character. */
  lemma NumbersAreDecimal()
    ensures ParseInt("12") == ParseInt("+12") == ParseInt(" 12x") == Some(12) && ParseInt("-12") == Some(-12)
    ensures ParseInt("x12") == ParseInt("- 12") == ParseInt("") == None
  {
  }

  /** Of a number too large for an int the low bits are kept; one too large even for a long
      reads as -1, the default colour. */
  lemma LargeNumbersWrap(n: nat)
    ensures var v := ParseInt(Decimal(n));
            v.Some? && if n < 0x8000_0000_0000_0000 then (n - v.value) % 0x1_0000_0000 == 0 else v.value == -1
  {
    DecimalDigits(n);
    var s := Decimal(n);
    assert IsDigit(s[0]) && SkipWhite(s) == s;
    var v := Clamp(n);
    var low := (v + 0x8000_0000) % 0x1_0000_0000;
    assert (v - (low - 0x8000_0000)) % 0x1_0000_0000 == 0;
  }

  /** A number is the colour if the terminal has it. */
  lemma NumberIsColor(s: string, colors: CInt)
    requires s == "" || !('a' <= Lower(s[0]) <= 'z')
    ensures StringToColor(s, colors) ==
            if ParseInt(s).Some? && -1 <= ParseInt(s).value < colors then ParseInt(s).value else -2
  {
    NameIndexOfNumber(s, 0);
  }

  /** Every string is either refused or denotes a colour that can be printed. */
  lemma ColorRange(s: string, colors: CInt)
    ensures var c := StringToColor(s, colors);
            c == COLOR_INVALID || (COLOR_DEFAULT <= c && (c < 8 || c < colors))
  {
  }

  lemma ColorTextIsPlain(color: CInt)
    requires color >= COLOR_DEFAULT
    ensures ColorText(color) != ""
    ensures forall i :: 0 <= i < |ColorText(color)| ==> ColorText(color)[i] >= '0'
  {
    if color >= 8 {
      DecimalDigits(color);
    }
  }
}
