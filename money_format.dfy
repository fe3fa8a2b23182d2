/** The storefront money formatter: `formatMoney` and its helper
    `formatWithDelimiters` (extensions/b2b-price/assets/b2b-price.js). */
module MoneyFormat {
  import opened Wrappers

  /** An amount as `formatMoney` may receive it. */
  datatype Amount =
    | Minor(units: nat)   // a JavaScript number holding whole minor units (cents)
    | Text(text: string)  // a string, possibly pre-formatted with a '.'
    | Null
    | Undefined
    | NaN

  /** Why formatting produced no string. */
  datatype FormatError =
    | NoPlaceholder       // the template holds no {{ name }}: the source throws a TypeError
    | UnsupportedNumeral  // a string amount other than a digit string: outside this model

  /** The number `formatWithDelimiters` computes with, after JavaScript's coercion. */
  datatype Numeric = Finite(n: nat) | NotANumber | Unmodelled

  // ---------------------------------------------------------------------------
  // Decimal digit strings

  predicate IsDigit(c: char) { '0' <= c <= '9' }

  predicate AllDigits(s: string) { forall i :: 0 <= i < |s| ==> IsDigit(s[i]) }

  function DigitChar(d: nat): (c: char)
    requires d < 10
    ensures IsDigit(c)
  {
    ('0' as int + d) as char
  }

  function DigitValue(c: char): nat
    requires IsDigit(c)
  {
    c as int - '0' as int
  }

  /** The shortest decimal numeral of n, as JavaScript prints a non-negative integer. */
  function DecimalDigits(n: nat): (s: string)
    ensures |s| > 0 && AllDigits(s)
    ensures s[0] == '0' ==> n == 0 && s == "0"
  {
    if n < 10 then [DigitChar(n)] else DecimalDigits(n / 10) + [DigitChar(n % 10)]
  }

  /** The value of a decimal numeral; the empty numeral is 0, as `Number("")` is. */
  function DigitsValue(s: string): nat
    requires AllDigits(s)
  {
    if s == [] then 0 else DigitsValue(s[..|s| - 1]) * 10 + DigitValue(s[|s| - 1])
  }

  lemma {:induction false} DecimalDigitsRoundTrip(n: nat)
    ensures DigitsValue(DecimalDigits(n)) == n
  {
    if n >= 10 {
      var s := DecimalDigits(n);
      assert s[..|s| - 1] == DecimalDigits(n / 10);
      DecimalDigitsRoundTrip(n / 10);
    }
  }

  /** Exactly two digits, with a leading zero when k < 10. */
  function TwoDigits(k: nat): (s: string)
    requires k < 100
    ensures |s| == 2 && AllDigits(s)
  {
    [DigitChar(k / 10), DigitChar(k % 10)]
  }

  lemma TwoDigitsValue(k: nat)
    requires k < 100
    ensures DigitsValue(TwoDigits(k)) == k
  {
    var s := TwoDigits(k);
    assert DigitValue(s[0]) == k / 10 && DigitValue(s[1]) == k % 10;
    var head := s[..1];
    assert head[..0] == [] && head[0] == s[0];
    assert DigitsValue(head) == DigitValue(s[0]);
    assert DigitsValue(s) == DigitsValue(head) * 10 + DigitValue(s[1]);
  }

  // ---------------------------------------------------------------------------
  // toFixed and digit grouping

  /** `(n / 100.0).toFixed(precision)` for whole minor units n, already split at
      its '.': the integer digits and the fraction digits ("" when precision is 0).
      With precision 2 the digits spell n / 100 and n % 100; with precision 0 they spell
      the whole number nearest n / 100, a tie (n % 100 == 50) going upward as toFixed
      rounds it. The double n / 100.0 prints the same digits while it is below 2^46
      (n below about 7.0 * 10^15), where its rounding error stays under half a cent. */
  function ToFixed(n: nat, precision: nat): (r: (string, string))
    requires precision == 0 || precision == 2
    ensures |r.0| > 0 && AllDigits(r.0) && AllDigits(r.1)
    ensures precision == 2 ==> |r.1| == 2 && 100 * DigitsValue(r.0) + DigitsValue(r.1) == n
    ensures precision == 0 ==> r.1 == "" && 100 * DigitsValue(r.0) <= n + 50 < 100 * DigitsValue(r.0) + 100
  {
    if precision == 2 then
      DecimalDigitsRoundTrip(n / 100);
      TwoDigitsValue(n % 100);
      (DecimalDigits(n / 100), TwoDigits(n % 100))
    else
      DecimalDigitsRoundTrip((n + 50) / 100);
      (DecimalDigits((n + 50) / 100), "")
  }

  /** The global replacement /(\d)(?=(\d\d\d)+(?!\d))/g by '$1' + t on a string of
      digits: a digit followed by a positive multiple of three digits gets t after it,
      so a numeral of at most three digits gets no separator. */
  function InsertThousands(d: string, t: char): (r: string)
    ensures |d| <= 3 ==> r == d
  {
    if d == [] then []
    else [d[0]] + (if |d| > 1 && (|d| - 1) % 3 == 0 then [t] else []) + InsertThousands(d[1..], t)
  }

  /** Reference grouping: the last three digits form a group, the rest is grouped
      the same way, and groups are joined by t; (k - 1) / 3 separators for k digits. */
  function GroupByThrees(d: string, t: char): (r: string)
    ensures |d| <= 3 ==> r == d
    ensures d != [] ==> 3 * (|r| - |d|) <= |d| - 1 < 3 * (|r| - |d|) + 3
    ensures |d| >= 3 ==> r[|r| - 3..] == d[|d| - 3..]
    decreases |d|
  {
    if |d| <= 3 then d else GroupByThrees(d[..|d| - 3], t) + [t] + d[|d| - 3..]
  }

  /** Every character of s except c, in order. */
  function RemoveAll(s: string, c: char): string
  {
    if s == [] then [] else (if s[0] == c then [] else [s[0]]) + RemoveAll(s[1..], c)
  }

  lemma {:induction false} InsertThousandsAppend(a: string, b: string, t: char)
    requires |a| > 0 && |b| > 0 && |b| % 3 == 0
    ensures InsertThousands(a + b, t) == InsertThousands(a, t) + [t] + InsertThousands(b, t)
  {
    var x := a + b;
    assert x[0] == a[0];
    assert x[1..] == a[1..] + b;
    if |a| == 1 {
      assert a[1..] == [];
      assert x[1..] == b;
    } else {
      ModThreeShift(|a| - 1, |b|);
      InsertThousandsAppend(a[1..], b, t);
    }
  }

  lemma ModThreeShift(m: nat, n: nat)
    requires n % 3 == 0
    ensures (m + n) % 3 == m % 3
  {
    var q, r := n / 3, m / 3;
    assert n == 3 * q;
    assert m == 3 * r + m % 3;
    assert m + n == 3 * (r + q) + m % 3;
  }

  /** The regular expression of the source groups digits by threes from the right. */
  lemma {:induction false} InsertThousandsGroupsByThrees(d: string, t: char)
    ensures InsertThousands(d, t) == GroupByThrees(d, t)
    decreases |d|
  {
    if |d| > 3 {
      var a, b := d[..|d| - 3], d[|d| - 3..];
      assert d == a + b;
      InsertThousandsAppend(a, b, t);
      InsertThousandsGroupsByThrees(a, t);
    }
  }

  lemma {:induction false} RemoveAllAppend(a: string, b: string, c: char)
    ensures RemoveAll(a + b, c) == RemoveAll(a, c) + RemoveAll(b, c)
  {
    if a != [] {
      assert (a + b)[0] == a[0];
      assert (a + b)[1..] == a[1..] + b;
      RemoveAllAppend(a[1..], b, c);
    } else {
      assert a + b == b;
    }
  }

  lemma {:induction false} RemoveAllAbsent(s: string, c: char)
    requires forall i :: 0 <= i < |s| ==> s[i] != c
    ensures RemoveAll(s, c) == s
  {
    if s != [] {
      RemoveAllAbsent(s[1..], c);
      assert s == [s[0]] + s[1..];
    }
  }

  /** Removing the separators from the grouped digits gives the digits back. */
  lemma {:induction false} InsertThousandsRemovable(d: string, t: char)
    requires AllDigits(d) && !IsDigit(t)
    ensures RemoveAll(InsertThousands(d, t), t) == d
  {
    if d != [] {
      var sep: string := if |d| > 1 && (|d| - 1) % 3 == 0 then [t] else [];
      RemoveAllAppend([d[0]] + sep, InsertThousands(d[1..], t), t);
      RemoveAllAppend([d[0]], sep, t);
      assert RemoveAll([d[0]], t) == [d[0]] by {
        assert [d[0]][1..] == [];
      }
      assert RemoveAll(sep, t) == [] by {
        if sep != [] { assert sep[1..] == []; }
      }
      InsertThousandsRemovable(d[1..], t);
      assert d == [d[0]] + d[1..];
    }
  }

  // ---------------------------------------------------------------------------
  // formatWithDelimiters

  /** What `isNaN` / `== null` and the arithmetic of `formatWithDelimiters` see. */
  function ToNumeric(a: Amount): (r: Numeric)
    ensures r == NotANumber <==> a.Null? || a.Undefined? || a.NaN?
    ensures r == Unmodelled <==> a.Text? && !AllDigits(a.text)
    ensures r.Finite? && a.Minor? ==> r.n == a.units
    ensures r.Finite? && a.Text? ==> AllDigits(a.text) && r.n == DigitsValue(a.text)
  {
    match a
    case Minor(n) => Finite(n)
    case Text(s) => if AllDigits(s) then Finite(DigitsValue(s)) else Unmodelled
    case _ => NotANumber
  }

  /** `formatWithDelimiters(number, precision, thousands, decimal)`. NaN, null and
      undefined give the number 0, which the template substitution prints as "0". */
  function FormatWithDelimiters(number: Amount, precision: nat, thousands: char, decimal: char)
    : (r: Result<string, FormatError>)
    requires precision == 0 || precision == 2
    ensures ToNumeric(number) == NotANumber ==> r == Ok("0")
    ensures ToNumeric(number) == Unmodelled ==> r == Err(UnsupportedNumeral)
    ensures ToNumeric(number).Finite? && precision == 2 ==>
      r == Ok(GroupByThrees(DecimalDigits(ToNumeric(number).n / 100), thousands) +
              [decimal] + TwoDigits(ToNumeric(number).n % 100))
    ensures ToNumeric(number).Finite? && precision == 0 ==>
      r == Ok(GroupByThrees(DecimalDigits((ToNumeric(number).n + 50) / 100), thousands))
  {
    match ToNumeric(number)
    case NotANumber => Ok("0")
    case Unmodelled => Err(UnsupportedNumeral)
    case Finite(n) =>
      var (whole, fraction) := ToFixed(n, precision);
      InsertThousandsGroupsByThrees(whole, thousands);
      var dollars := InsertThousands(whole, thousands);
      var cents := if fraction != "" then [decimal] + fraction else "";
      assert precision == 2 ==> fraction != "" && dollars + cents == dollars + [decimal] + fraction;
      assert precision == 0 ==> fraction == "" && dollars + cents == dollars;
      Ok(dollars + cents)
  }

  /** Reads a displayed amount back, in units of 10^-precision of the major unit:
      drop the thousands separators, then read the digits that remain. */
  function ParseDisplayed(s: string, thousands: char, decimal: char, precision: nat): Option<nat>
  {
    ParseUngrouped(RemoveAll(s, thousands), decimal, precision)
  }

  /** A numeral without thousands separators; with precision 2 it ends in d + two digits. */
  function ParseUngrouped(u: string, decimal: char, precision: nat): Option<nat>
  {
    if precision == 0 then
      if u != "" && AllDigits(u) then Some(DigitsValue(u)) else None
    else if |u| >= 4 && u[|u| - 3] == decimal && AllDigits(u[..|u| - 3]) && AllDigits(u[|u| - 2..]) then
      Some(DigitsValue(u[..|u| - 3]) * 100 + DigitsValue(u[|u| - 2..]))
    else None
  }

  /** Round trip: with distinct non-digit separators, the display reads back as the
      amount in minor units (precision 2) or as the amount rounded half up to whole
      major units (precision 0). */
  lemma FormatWithDelimitersReadsBack(n: nat, precision: nat, thousands: char, decimal: char)
    requires precision == 0 || precision == 2
    requires !IsDigit(thousands) && !IsDigit(decimal) && thousands != decimal
    ensures FormatWithDelimiters(Minor(n), precision, thousands, decimal).Ok?
    ensures ParseDisplayed(FormatWithDelimiters(Minor(n), precision, thousands, decimal).value,
                           thousands, decimal, precision)
            == Some(if precision == 2 then n else (n + 50) / 100)
  {
    assert ToNumeric(Minor(n)) == Finite(n);
    if precision == 2 {
      ReadsBackCents(n, thousands, decimal);
    } else {
      ReadsBackWhole((n + 50) / 100, thousands, decimal);
    }
  }

  /** The digits of a grouped numeral are what remains once its separators go. */
  lemma UngroupDigits(m: nat, thousands: char)
    requires !IsDigit(thousands)
    ensures RemoveAll(GroupByThrees(DecimalDigits(m), thousands), thousands) == DecimalDigits(m)
  {
    InsertThousandsGroupsByThrees(DecimalDigits(m), thousands);
    InsertThousandsRemovable(DecimalDigits(m), thousands);
  }

  lemma ReadsBackWhole(m: nat, thousands: char, decimal: char)
    requires !IsDigit(thousands)
    ensures ParseDisplayed(GroupByThrees(DecimalDigits(m), thousands), thousands, decimal, 0) == Some(m)
  {
    UngroupDigits(m, thousands);
    DecimalDigitsRoundTrip(m);
  }

  lemma ReadsBackCents(n: nat, thousands: char, decimal: char)
    requires !IsDigit(thousands) && !IsDigit(decimal) && thousands != decimal
    ensures ParseDisplayed(GroupByThrees(DecimalDigits(n / 100), thousands) + [decimal] + TwoDigits(n % 100),
                           thousands, decimal, 2) == Some(n)
  {
    var whole := DecimalDigits(n / 100);
    DecimalDigitsRoundTrip(n / 100);
    UngroupCents(whole, n % 100, thousands, decimal);
    ParseCents(whole, TwoDigits(n % 100), decimal);
    TwoDigitsValue(n % 100);
    assert n == n / 100 * 100 + n % 100;
  }

  lemma UngroupCents(whole: string, k: nat, thousands: char, decimal: char)
    requires AllDigits(whole) && k < 100 && !IsDigit(thousands) && thousands != decimal
    requires whole == DecimalDigits(DigitsValue(whole))
    ensures RemoveAll(GroupByThrees(whole, thousands) + [decimal] + TwoDigits(k), thousands)
         == whole + [decimal] + TwoDigits(k)
  {
    var grouped := GroupByThrees(whole, thousands);
    var tail := [decimal] + TwoDigits(k);
    assert grouped + [decimal] + TwoDigits(k) == grouped + tail;
    assert whole + [decimal] + TwoDigits(k) == whole + tail;
    UngroupDigits(DigitsValue(whole), thousands);
    RemoveAllAppend(grouped, tail, thousands);
    RemoveAllAbsent(tail, thousands);
  }

  lemma ParseCents(whole: string, fraction: string, decimal: char)
    requires |whole| > 0 && AllDigits(whole) && |fraction| == 2 && AllDigits(fraction)
    ensures ParseUngrouped(whole + [decimal] + fraction, decimal, 2)
         == Some(DigitsValue(whole) * 100 + DigitsValue(fraction))
  {
    var u := whole + [decimal] + fraction;
    assert u[..|u| - 3] == whole;
    assert u[|u| - 2..] == fraction;
  }

  // ---------------------------------------------------------------------------
  // The placeholder /\{\{\s*(\w+)\s*\}\}/

  /** JavaScript's \s: the white space and line terminator characters. */
  predicate IsRegexSpace(c: char)
  {
    var k := c as int;
    (9 <= k <= 13) || k == 32 || k == 0xA0 || k == 0x1680 || (0x2000 <= k <= 0x200A) ||
    k == 0x2028 || k == 0x2029 || k == 0x202F || k == 0x205F || k == 0x3000 || k == 0xFEFF
  }

  /** JavaScript's \w: ASCII letters, digits and '_'. */
  predicate IsWordChar(c: char)
  {
    ('a' <= c <= 'z') || ('A' <= c <= 'Z') || IsDigit(c) || c == '_'
  }

  /** The end of the run of \s characters that starts at i. */
  function SkipSpaces(s: string, i: nat): (j: nat)
    requires i <= |s|
    ensures i <= j <= |s|
    ensures forall k :: i <= k < j ==> IsRegexSpace(s[k])
    ensures j < |s| ==> !IsRegexSpace(s[j])
    decreases |s| - i
  {
    if i < |s| && IsRegexSpace(s[i]) then SkipSpaces(s, i + 1) else i
  }

  /** The end of the run of \w characters that starts at i. */
  function SkipWord(s: string, i: nat): (j: nat)
    requires i <= |s|
    ensures i <= j <= |s|
    ensures forall k :: i <= k < j ==> IsWordChar(s[k])
    ensures j < |s| ==> !IsWordChar(s[j])
    decreases |s| - i
  {
    if i < |s| && IsWordChar(s[i]) then SkipWord(s, i + 1) else i
  }

  /** A match of the placeholder: s[start..end] is the whole match, name the captured group. */
  datatype Placeholder = Placeholder(start: nat, name: string, end: nat)

  /** The match of the placeholder expression that starts exactly at i, if any.
      \s, \w and '}' are disjoint, so greedy matching cannot backtrack and the
      match at i is unique. */
  function MatchAt(s: string, i: nat): (m: Option<Placeholder>)
    ensures m.Some? ==> m.value.start == i && i + 4 < m.value.end <= |s| && s[i] == '{'
  {
    if i + 2 <= |s| && s[i] == '{' && s[i + 1] == '{' then
      var a := SkipSpaces(s, i + 2);
      var b := SkipWord(s, a);
      var c := SkipSpaces(s, b);
      if a < b && c + 2 <= |s| && s[c] == '}' && s[c + 1] == '}' then
        Some(Placeholder(i, s[a..b], c + 2))
      else None
    else None
  }

  /** A match is the pattern: `{{`, a run of \s, the captured name (a non-empty run of
      \w characters of s itself), a run of \s, and `}}` at the end of the match. */
  lemma MatchAtShape(s: string, i: nat)
    ensures var m := MatchAt(s, i);
      m.Some? ==>
        s[i + 1] == '{' && s[m.value.end - 2] == '}' && s[m.value.end - 1] == '}' &&
        |m.value.name| > 0 && AllWordChars(m.value.name)
    ensures var m := MatchAt(s, i);
      m.Some? ==>
        exists a: nat, b: nat :: i + 2 <= a < b <= m.value.end - 2 &&
          (forall k :: i + 2 <= k < a ==> IsRegexSpace(s[k])) && s[a..b] == m.value.name &&
          (forall k :: b <= k < m.value.end - 2 ==> IsRegexSpace(s[k]))
  {
    if MatchAt(s, i).Some? {
      var a := SkipSpaces(s, i + 2);
      var b := SkipWord(s, a);
      var c := SkipSpaces(s, b);
      assert i + 2 <= a < b <= c && c + 2 == MatchAt(s, i).value.end;
      assert s[a..b] == MatchAt(s, i).value.name;
      assert forall k :: b <= k < MatchAt(s, i).value.end - 2 ==> IsRegexSpace(s[k]);
    }
  }

  /** The leftmost match at or after position from, as String.prototype.match finds it. */
  function FindPlaceholder(s: string, from: nat): (m: Option<Placeholder>)
    ensures m.Some? ==> from <= m.value.start && MatchAt(s, m.value.start) == m
    decreases |s| - from
  {
    if from >= |s| then None
    else if MatchAt(s, from).Some? then MatchAt(s, from)
    else FindPlaceholder(s, from + 1)
  }

  /** FindPlaceholder finds nothing only when no match starts at or after from. */
  lemma {:induction false} FindPlaceholderNone(s: string, from: nat)
    ensures FindPlaceholder(s, from).None? ==> forall j :: from <= j ==> MatchAt(s, j).None?
    decreases |s| - from
  {
    if from >= |s| {
      forall j | from <= j ensures MatchAt(s, j).None? { NoMatchAtEnd(s, j); }
    } else if MatchAt(s, from).None? {
      FindPlaceholderNone(s, from + 1);
    }
  }

  /** What FindPlaceholder finds is the leftmost match. */
  lemma {:induction false} FindPlaceholderFirst(s: string, from: nat)
    ensures var m := FindPlaceholder(s, from);
      m.Some? ==> forall j :: from <= j < m.value.start ==> MatchAt(s, j).None?
    decreases |s| - from
  {
    if from >= |s| {
      assert FindPlaceholder(s, from).None?;
    } else if MatchAt(s, from).Some? {
      assert FindPlaceholder(s, from).value.start == from;
    } else {
      var m := FindPlaceholder(s, from + 1);
      assert FindPlaceholder(s, from) == m;
      FindPlaceholderFirst(s, from + 1);
      if m.Some? {
        forall j | from <= j < m.value.start ensures MatchAt(s, j).None? {
          if j != from {
            assert from + 1 <= j;
          }
        }
      }
    }
  }

  lemma NoMatchAtEnd(s: string, j: nat)
    requires |s| < j + 2
    ensures MatchAt(s, j).None?
  {
  }

  // ---------------------------------------------------------------------------
  // formatMoney

  const DefaultFormat: string := "${{amount}}"

  /** `format || "${{amount}}"`: an empty (or missing) format falls back to the default. */
  function EffectiveFormat(format: string): (t: string)
    ensures t != ""
    ensures format != "" ==> t == format
    ensures format == "" ==> FindPlaceholder(t, 0) == Some(Placeholder(1, "amount", 11))
  {
    if format == "" then
      assert DefaultFormat == "$" + "{{" + "" + "amount" + "" + "}}" + "";
      TemplateMatch("$", "", "amount", "", "");
      DefaultFormat
    else format
  }

  /** `s.replace('.', '')`: a string pattern replaces its first occurrence only. */
  function DropFirstDot(s: string): (r: string)
    ensures |r| == if '.' in s then |s| - 1 else |s|
  {
    if s == [] then []
    else if s[0] == '.' then s[1..]
    else [s[0]] + DropFirstDot(s[1..])
  }

  /** The precision and separators a placeholder name selects. */
  datatype Style = Style(precision: nat, thousands: char, decimal: char)

  /** The cases of the `switch` on the captured placeholder name. */
  function PlaceholderStyle(name: string): (st: Option<Style>)
    ensures st.Some? ==> st.value.precision == 0 || st.value.precision == 2
  {
    if name == "amount" then Some(Style(2, ',', '.'))
    else if name == "amount_no_decimals" then Some(Style(0, ',', '.'))
    else if name == "amount_with_comma_separator" then Some(Style(2, '.', ','))
    else if name == "amount_no_decimals_with_comma_separator" then Some(Style(0, '.', ','))
    else None
  }

  /** The value the `switch` assigns: the formatted amount, or "" for an unknown name. */
  function PlaceholderValue(name: string, cents: Amount): (r: Result<string, FormatError>)
    ensures r.Err? ==> r.error == UnsupportedNumeral && cents.Text?
    ensures PlaceholderStyle(name).None? ==> r == Ok("")
  {
    match PlaceholderStyle(name)
    case None => Ok("")
    case Some(st) => FormatWithDelimiters(cents, st.precision, st.thousands, st.decimal)
  }

  /** `formatMoney(cents, format)`: the first placeholder of the template is replaced
      by the formatted amount and everything else is copied. */
  function FormatMoney(cents: Amount, format: string): (r: Result<string, FormatError>)
    ensures r == Err(NoPlaceholder) <==> FindPlaceholder(EffectiveFormat(format), 0).None?
    ensures r.Err? ==> r.error == NoPlaceholder || (r.error == UnsupportedNumeral && cents.Text?)
  {
    var amount := Coerced(cents);
    var template := EffectiveFormat(format);
    match FindPlaceholder(template, 0)
    case None => Err(NoPlaceholder)
    case Some(p) =>
      match PlaceholderValue(p.name, amount)
      case Err(e) => Err(e)
      case Ok(value) => Ok(template[..p.start] + value + template[p.end..])
  }

  // ---------------------------------------------------------------------------
  // Properties of formatMoney

  /** The error cases: the template (after the default) has no placeholder at all, or
      a string amount is not a digit string once its first '.' is removed. A number,
      NaN, null or undefined never makes a template with a placeholder fail. */
  lemma FormatMoneyErrors(cents: Amount, format: string)
    ensures FormatMoney(cents, format) == Err(NoPlaceholder)
        <==> forall j :: MatchAt(EffectiveFormat(format), j).None?
    ensures FormatMoney(cents, format) == Err(UnsupportedNumeral)
        <==> cents.Text? && !AllDigits(DropFirstDot(cents.text)) &&
             (exists j :: MatchAt(EffectiveFormat(format), j).Some?) &&
             PlaceholderStyle(FindPlaceholder(EffectiveFormat(format), 0).value.name).Some?
  {
    var t := EffectiveFormat(format);
    var m := FindPlaceholder(t, 0);
    FindPlaceholderNone(t, 0);
    if m.Some? {
      assert MatchAt(t, m.value.start).Some?;
    }
  }

  /** Whether the template (after the default) holds a placeholder anywhere. */
  ghost predicate HasPlaceholder(format: string)
  {
    exists j: nat :: MatchAt(EffectiveFormat(format), j).Some?
  }

  /** A number in minor units is formatted exactly when the template has a placeholder;
      otherwise the only failure is the missing placeholder. */
  lemma FormatMoneyNumber(n: nat, format: string)
    ensures FormatMoney(Minor(n), format).Ok? <==> HasPlaceholder(format)
    ensures FormatMoney(Minor(n), format).Err? ==> FormatMoney(Minor(n), format).error == NoPlaceholder
  {
    FormatMoneyErrors(Minor(n), format);
  }

  predicate AllSpaces(s: string) { forall i :: 0 <= i < |s| ==> IsRegexSpace(s[i]) }

  predicate AllWordChars(s: string) { forall i :: 0 <= i < |s| ==> IsWordChar(s[i]) }

  /** The amount formatWithDelimiters receives from formatMoney. */
  function Coerced(cents: Amount): Amount
  {
    if cents.Text? then Text(DropFirstDot(cents.text)) else cents
  }

  /** A template pre + "{{" + spaces + name + spaces + "}}" + post, where pre holds no
      '{', is matched at |pre| and captures exactly name. */
  lemma TemplateMatch(pre: string, sp1: string, name: string, sp2: string, post: string)
    requires '{' !in pre && AllSpaces(sp1) && AllSpaces(sp2) && |name| > 0 && AllWordChars(name)
    ensures var t := pre + "{{" + sp1 + name + sp2 + "}}" + post;
      FindPlaceholder(t, 0) == Some(Placeholder(|pre|, name, |pre| + 4 + |sp1| + |name| + |sp2|))
  {
    var t := pre + "{{" + sp1 + name + sp2 + "}}" + post;
    var i := |pre|;
    NoMatchBefore(pre, t);
    MatchAtPlaceholder(pre, sp1, name, sp2, post);
    FindFrom(t, 0, i);
  }

  /** No match starts inside a prefix that holds no '{'. */
  lemma NoMatchBefore(pre: string, t: string)
    requires '{' !in pre && pre <= t
    ensures forall j :: 0 <= j < |pre| ==> MatchAt(t, j).None?
  {
    forall j | 0 <= j < |pre| ensures MatchAt(t, j).None? {
      assert t[j] == pre[j];
    }
  }

  lemma MatchAtPlaceholder(pre: string, sp1: string, name: string, sp2: string, post: string)
    requires AllSpaces(sp1) && AllSpaces(sp2) && |name| > 0 && AllWordChars(name)
    ensures var t := pre + "{{" + sp1 + name + sp2 + "}}" + post;
      MatchAt(t, |pre|) == Some(Placeholder(|pre|, name, |pre| + 4 + |sp1| + |name| + |sp2|))
  {
    var t := pre + "{{" + sp1 + name + sp2 + "}}" + post;
    var i := |pre|;
    var a := i + 2 + |sp1|;
    var b := a + |name|;
    var c := b + |sp2|;
    PlaceholderRuns(pre, sp1, name, sp2, post);
    PlaceholderBraces(pre, sp1, name, sp2, post);
    MatchAtRuns(t, i, a, b, c);
  }

  /** The runs of a placeholder template, position by position. */
  lemma PlaceholderRuns(pre: string, sp1: string, name: string, sp2: string, post: string)
    requires AllSpaces(sp1) && AllSpaces(sp2) && AllWordChars(name)
    ensures var t := pre + "{{" + sp1 + name + sp2 + "}}" + post;
      var a := |pre| + 2 + |sp1|;
      var b := a + |name|;
      var c := b + |sp2|;
      c + 2 <= |t| &&
      (forall k :: |pre| + 2 <= k < a ==> IsRegexSpace(t[k])) &&
      (forall k :: a <= k < b ==> IsWordChar(t[k])) &&
      (forall k :: b <= k < c ==> IsRegexSpace(t[k])) &&
      t[a..b] == name
  {
    var p0 := pre + "{{";
    var p1 := p0 + sp1;
    var p2 := p1 + name;
    var p3 := p2 + sp2;
    var p4 := p3 + "}}";
    var t := p4 + post;
    var a, b, c := |p1|, |p2|, |p3|;
    forall k | |p0| <= k < a ensures IsRegexSpace(t[k]) {
      assert t[k] == p4[k] == p3[k] == p2[k] == p1[k] == sp1[k - |p0|];
    }
    forall k | a <= k < b ensures IsWordChar(t[k]) {
      assert t[k] == p4[k] == p3[k] == p2[k] == name[k - a];
    }
    forall k | b <= k < c ensures IsRegexSpace(t[k]) {
      assert t[k] == p4[k] == p3[k] == sp2[k - b];
    }
    assert t[a..b] == p2[a..b] == name;
  }

  /** The braces of a placeholder template. */
  lemma PlaceholderBraces(pre: string, sp1: string, name: string, sp2: string, post: string)
    ensures var t := pre + "{{" + sp1 + name + sp2 + "}}" + post;
      var c := |pre| + 2 + |sp1| + |name| + |sp2|;
      t[|pre|] == '{' && t[|pre| + 1] == '{' && t[c] == '}' && t[c + 1] == '}'
  {
    var p0 := pre + "{{";
    var p4 := p0 + sp1 + name + sp2 + "}}";
    var t := p4 + post;
    var i, c := |pre|, |p4| - 2;
    assert t[i] == p0[i] == '{' && t[i + 1] == p0[i + 1] == '{';
    assert t[c] == p4[c] == '}' && t[c + 1] == p4[c + 1] == '}';
  }

  /** The match at i, described by the boundaries of its runs. */
  lemma MatchAtRuns(t: string, i: nat, a: nat, b: nat, c: nat)
    requires i + 2 <= a < b <= c && c + 2 <= |t|
    requires t[i] == '{' && t[i + 1] == '{' && t[c] == '}' && t[c + 1] == '}'
    requires forall k :: i + 2 <= k < a ==> IsRegexSpace(t[k])
    requires forall k :: a <= k < b ==> IsWordChar(t[k])
    requires forall k :: b <= k < c ==> IsRegexSpace(t[k])
    ensures MatchAt(t, i) == Some(Placeholder(i, t[a..b], c + 2))
  {
    SkipRun(t, i + 2, a, true);
    SkipRun(t, a, b, false);
    SkipRun(t, b, c, true);
  }

  /** A maximal run [i, j) of spaces (or word characters) is what SkipSpaces (SkipWord) finds. */
  lemma SkipRun(s: string, i: nat, j: nat, spaces: bool)
    requires i <= j <= |s|
    requires spaces ==> (forall k :: i <= k < j ==> IsRegexSpace(s[k])) && (j < |s| ==> !IsRegexSpace(s[j]))
    requires !spaces ==> (forall k :: i <= k < j ==> IsWordChar(s[k])) && (j < |s| ==> !IsWordChar(s[j]))
    ensures spaces ==> SkipSpaces(s, i) == j
    ensures !spaces ==> SkipWord(s, i) == j
    decreases j - i
  {
    if i < j { SkipRun(s, i + 1, j, spaces); }
  }

  lemma FindFrom(s: string, from: nat, i: nat)
    requires from <= i && MatchAt(s, i).Some?
    requires forall j :: from <= j < i ==> MatchAt(s, j).None?
    ensures FindPlaceholder(s, from) == MatchAt(s, i)
    decreases i - from
  {
    if from < i { FindFrom(s, from + 1, i); }
  }

  /** For every template: the placeholder the search finds is replaced by the value its
      name selects, and the text before and after it is copied verbatim. */
  lemma FormatMoneyReplacesFoundPlaceholder(cents: Amount, t: string, p: Placeholder)
    requires t != "" && FindPlaceholder(t, 0) == Some(p)
    ensures FormatMoney(cents, t) ==
      match PlaceholderValue(p.name, Coerced(cents))
      case Ok(v) => Ok(t[..p.start] + v + t[p.end..])
      case Err(e) => Err(e)
  {
  }

  /** Only the first placeholder is substituted, by the value its name selects, and
      the rest of the template is copied verbatim. */
  lemma FormatMoneySubstitutesFirstPlaceholder(
    cents: Amount, pre: string, sp1: string, name: string, sp2: string, post: string)
    requires '{' !in pre && AllSpaces(sp1) && AllSpaces(sp2) && |name| > 0 && AllWordChars(name)
    ensures var t := pre + "{{" + sp1 + name + sp2 + "}}" + post;
      FormatMoney(cents, t) ==
        match PlaceholderValue(name, Coerced(cents))
        case Ok(v) => Ok(pre + v + post)
        case Err(e) => Err(e)
  {
    var t := pre + "{{" + sp1 + name + sp2 + "}}" + post;
    TemplateMatch(pre, sp1, name, sp2, post);
    var e := |pre| + 4 + |sp1| + |name| + |sp2|;
    assert t[..|pre|] == pre;
    assert t[e..] == post;
  }

  /** The placeholder written without inner spaces, the usual form of a shop's template. */
  lemma FormatMoneyTightTemplate(cents: Amount, pre: string, name: string, post: string)
    requires '{' !in pre && |name| > 0 && AllWordChars(name)
    ensures FormatMoney(cents, pre + "{{" + name + "}}" + post) ==
      match PlaceholderValue(name, Coerced(cents))
      case Ok(v) => Ok(pre + v + post)
      case Err(e) => Err(e)
  {
    var t := pre + "{{" + name + "}}" + post;
    var e: string := [];
    assert t == pre + "{{" + e + name + e + "}}" + post;
    FormatMoneySubstitutesFirstPlaceholder(cents, pre, e, name, e, post);
  }

  /** A non-empty template without any '{' has no placeholder: the source throws. */
  lemma FormatMoneyRejectsTemplateWithoutPlaceholder(cents: Amount, format: string)
    requires format != "" && '{' !in format
    ensures FormatMoney(cents, format) == Err(NoPlaceholder)
  {
    forall j: nat ensures MatchAt(format, j).None? {
      if j + 2 <= |format| { assert format[j] in format; }
    }
  }

  // Worked examples; with pre == "$" and post == "" they are the storefront's own.

  /** The four names of the switch and the formats they select. */
  lemma PlaceholderStyles()
    ensures PlaceholderStyle("amount") == Some(Style(2, ',', '.'))
    ensures PlaceholderStyle("amount_no_decimals") == Some(Style(0, ',', '.'))
    ensures PlaceholderStyle("amount_with_comma_separator") == Some(Style(2, '.', ','))
    ensures PlaceholderStyle("amount_no_decimals_with_comma_separator") == Some(Style(0, '.', ','))
  {
  }

  lemma DelimitersAmountExample()
    ensures FormatWithDelimiters(Minor(12345), 2, ',', '.') == Ok("123.45")
  {
    assert ToNumeric(Minor(12345)) == Finite(12345);
    assert 12345 / 100 == 123 && 12345 % 100 == 45;
    assert DecimalDigits(1) == "1";
    assert DecimalDigits(12) == "12";
    assert DecimalDigits(123) == "123";
    assert TwoDigits(45) == "45";
    assert "123" + ['.'] + "45" == "123.45";
  }

  lemma DelimitersNoDecimalsExample()
    ensures FormatWithDelimiters(Minor(12345), 0, ',', '.') == Ok("123")
  {
    assert ToNumeric(Minor(12345)) == Finite(12345);
    assert (12345 + 50) / 100 == 123;
    assert DecimalDigits(1) == "1";
    assert DecimalDigits(12) == "12";
    assert DecimalDigits(123) == "123";
  }

  /** toFixed(0) rounds the tie 123.50 up to 124. */
  lemma DelimitersRoundingExample()
    ensures FormatWithDelimiters(Minor(12350), 0, ',', '.') == Ok("124")
  {
    assert ToNumeric(Minor(12350)) == Finite(12350);
    assert (12350 + 50) / 100 == 124;
    assert DecimalDigits(1) == "1";
    assert DecimalDigits(12) == "12";
    assert DecimalDigits(124) == "124";
  }

  lemma DelimitersCommaExample()
    ensures FormatWithDelimiters(Minor(123456), 2, '.', ',') == Ok("1.234,56")
  {
    assert ToNumeric(Minor(123456)) == Finite(123456);
    assert 123456 / 100 == 1234 && 123456 % 100 == 56;
    assert DecimalDigits(1) == "1";
    assert DecimalDigits(12) == "12";
    assert DecimalDigits(123) == "123";
    assert DecimalDigits(1234) == "1234";
    assert GroupByThrees("1234", '.') == "1.234";
    assert TwoDigits(56) == "56";
    assert "1.234" + [','] + "56" == "1.234,56";
  }

  lemma DelimitersNoDecimalsCommaExample()
    ensures FormatWithDelimiters(Minor(123456), 0, '.', ',') == Ok("1.235")
  {
    assert ToNumeric(Minor(123456)) == Finite(123456);
    assert (123456 + 50) / 100 == 1235;
    assert DecimalDigits(1) == "1";
    assert DecimalDigits(12) == "12";
    assert DecimalDigits(123) == "123";
    assert DecimalDigits(1235) == "1235";
    assert GroupByThrees("1235", '.') == "1.235";
  }

  lemma FormatMoneyAmountExample(pre: string, post: string)
    requires '{' !in pre
    ensures FormatMoney(Minor(12345), pre + "{{" + "amount" + "}}" + post) == Ok(pre + "123.45" + post)
  {
    FormatMoneyTightTemplate(Minor(12345), pre, "amount", post);
    PlaceholderStyles();
    DelimitersAmountExample();
  }

  lemma FormatMoneyNoDecimalsExample(pre: string, post: string)
    requires '{' !in pre
    ensures FormatMoney(Minor(12345), pre + "{{" + "amount_no_decimals" + "}}" + post) == Ok(pre + "123" + post)
  {
    FormatMoneyTightTemplate(Minor(12345), pre, "amount_no_decimals", post);
    PlaceholderStyles();
    DelimitersNoDecimalsExample();
  }

  lemma FormatMoneyRoundingExample(pre: string, post: string)
    requires '{' !in pre
    ensures FormatMoney(Minor(12350), pre + "{{" + "amount_no_decimals" + "}}" + post) == Ok(pre + "124" + post)
  {
    FormatMoneyTightTemplate(Minor(12350), pre, "amount_no_decimals", post);
    PlaceholderStyles();
    DelimitersRoundingExample();
  }

  lemma FormatMoneyCommaExample(pre: string, post: string)
    requires '{' !in pre
    ensures FormatMoney(Minor(123456), pre + "{{" + "amount_with_comma_separator" + "}}" + post)
         == Ok(pre + "1.234,56" + post)
  {
    FormatMoneyTightTemplate(Minor(123456), pre, "amount_with_comma_separator", post);
    PlaceholderStyles();
    DelimitersCommaExample();
  }

  lemma FormatMoneyNoDecimalsCommaExample(pre: string, post: string)
    requires '{' !in pre
    ensures FormatMoney(Minor(123456), pre + "{{" + "amount_no_decimals_with_comma_separator" + "}}" + post)
         == Ok(pre + "1.235" + post)
  {
    FormatMoneyTightTemplate(Minor(123456), pre, "amount_no_decimals_with_comma_separator", post);
    PlaceholderStyles();
    DelimitersNoDecimalsCommaExample();
  }

  /** NaN, null and undefined render as "0", whatever the placeholder. */
  lemma FormatMoneyNotANumberExample(pre: string, name: string, post: string)
    requires '{' !in pre && PlaceholderStyle(name).Some? && AllWordChars(name)
    ensures FormatMoney(NaN, pre + "{{" + name + "}}" + post) == Ok(pre + "0" + post)
    ensures FormatMoney(Null, pre + "{{" + name + "}}" + post) == Ok(pre + "0" + post)
    ensures FormatMoney(Undefined, pre + "{{" + name + "}}" + post) == Ok(pre + "0" + post)
  {
    FormatMoneyTightTemplate(NaN, pre, name, post);
    FormatMoneyTightTemplate(Null, pre, name, post);
    FormatMoneyTightTemplate(Undefined, pre, name, post);
  }

  /** A placeholder whose name the switch does not know is replaced by the empty string. */
  lemma FormatMoneyUnknownName(cents: Amount, pre: string, name: string, post: string)
    requires '{' !in pre && |name| > 0 && AllWordChars(name) && PlaceholderStyle(name).None?
    ensures FormatMoney(cents, pre + "{{" + name + "}}" + post) == Ok(pre + post)
  {
    FormatMoneyTightTemplate(cents, pre, name, post);
    EmptyMiddle(pre, PlaceholderValue(name, Coerced(cents)).value, post);
  }

  lemma EmptyMiddle(pre: string, v: string, post: string)
    requires |v| == 0
    ensures pre + v + post == pre + post
  {
  }

  // ---------------------------------------------------------------------------
  // String amounts

  /** A string without '.' is left as it is. */
  lemma {:induction false} DropFirstDotAbsent(s: string)
    requires '.' !in s
    ensures DropFirstDot(s) == s
  {
    if s != [] {
      assert s[0] in s;
      assert forall c :: c in s[1..] ==> c in s;
      DropFirstDotAbsent(s[1..]);
      assert s == [s[0]] + s[1..];
    }
  }

  /** Only the first '.' goes: whatever follows it is kept, further dots included. */
  lemma {:induction false} DropFirstDotSplit(a: string, b: string)
    requires '.' !in a
    ensures DropFirstDot(a + ['.'] + b) == a + b
  {
    var x := a + ['.'] + b;
    if a != [] {
      assert a[0] in a;
      assert forall c :: c in a[1..] ==> c in a;
      assert x[0] == a[0];
      assert x[1..] == a[1..] + ['.'] + b;
      DropFirstDotSplit(a[1..], b);
      assert a + b == [a[0]] + (a[1..] + b);
    } else {
      assert x == ['.'] + b;
    }
  }

  lemma DigitsValueAppendTwo(a: string, t: string)
    requires AllDigits(a) && |t| == 2 && AllDigits(t)
    ensures AllDigits(a + t)
    ensures DigitsValue(a + t) == DigitsValue(a) * 100 + DigitsValue(t)
  {
    var s := a + t;
    assert s[..|s| - 1] == a + [t[0]];
    assert (a + [t[0]])[..|a|] == a;
    assert DigitsValue([t[0]]) == DigitValue(t[0]) by { assert [t[0]][..0] == []; }
    assert t[..1] == [t[0]];
  }

  /** A string of digits formats exactly like the number it spells. */
  lemma FormatMoneyDigitString(n: nat, format: string)
    ensures FormatMoney(Text(DecimalDigits(n)), format) == FormatMoney(Minor(n), format)
  {
    var d := DecimalDigits(n);
    NoDotInDigits(d);
    DropFirstDotAbsent(d);
    DecimalDigitsRoundTrip(n);
    FormatMoneySameNumber(Text(d), Minor(n), format);
  }

  /** A pre-formatted string "major.cc" loses its dot and is read as minor units:
      it formats like the number of cents it spells. */
  lemma FormatMoneyDottedString(major: nat, cents: nat, format: string)
    requires cents < 100
    ensures FormatMoney(Text(DecimalDigits(major) + "." + TwoDigits(cents)), format)
         == FormatMoney(Minor(major * 100 + cents), format)
  {
    var d := DecimalDigits(major);
    NoDotInDigits(d);
    DropFirstDotSplit(d, TwoDigits(cents));
    DigitsValueAppendTwo(d, TwoDigits(cents));
    TwoDigitsValue(cents);
    DecimalDigitsRoundTrip(major);
    FormatMoneySameNumber(Text(d + ['.'] + TwoDigits(cents)), Minor(major * 100 + cents), format);
  }

  /** formatMoney sees an amount only through the number it coerces to. */
  lemma FormatMoneySameNumber(a: Amount, b: Amount, format: string)
    requires ToNumeric(Coerced(a)) == ToNumeric(Coerced(b))
    ensures FormatMoney(a, format) == FormatMoney(b, format)
  {
    forall name ensures PlaceholderValue(name, Coerced(a)) == PlaceholderValue(name, Coerced(b)) {
      if PlaceholderStyle(name).Some? {
        var st := PlaceholderStyle(name).value;
        assert FormatWithDelimiters(Coerced(a), st.precision, st.thousands, st.decimal)
            == FormatWithDelimiters(Coerced(b), st.precision, st.thousands, st.decimal);
      }
    }
  }

  lemma NoDotInDigits(d: string)
    requires AllDigits(d)
    ensures '.' !in d
  {
    forall i | 0 <= i < |d| ensures d[i] != '.' { assert IsDigit(d[i]); }
  }
}
