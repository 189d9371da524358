/** The few JavaScript string operations the charts rely on:
    `trim`, `split(" ")`, `padStart`, number-to-string and `parseInt(s, 10)`.
    Strings are sequences of characters; every character is one UTF-16 code unit
    in the charts' data (names, labels, digits). */
module Text {
  import opened Wrappers

  /** The characters `String.prototype.trim` and `parseInt` skip:
      ECMAScript WhiteSpace (tab, VT, FF, space, NBSP, BOM, category Zs)
      and LineTerminator (LF, CR, LS, PS). */
  predicate IsSpace(c: char) {
    || c == '\t' || c == '\n' || c == '\U{B}' || c == '\U{C}' || c == '\r'
    || c == ' ' || c == '\U{A0}' || c == '\U{1680}'
    || ('\U{2000}' <= c <= '\U{200A}')
    || c == '\U{2028}' || c == '\U{2029}' || c == '\U{202F}' || c == '\U{205F}'
    || c == '\U{3000}' || c == '\U{FEFF}'
  }

  predicate IsDigit(c: char) {
    '0' <= c <= '9'
  }

  predicate AllDigits(s: string) {
    forall k :: 0 <= k < |s| ==> IsDigit(s[k])
  }

  predicate NoSpaceAtEnds(s: string) {
    s == [] || (!IsSpace(s[0]) && !IsSpace(s[|s| - 1]))
  }

  // ---------------------------------------------------------------- trim

  /** The number of white-space characters `s` starts with. */
  function LeadingSpaces(s: string): (n: nat)
    ensures n <= |s|
    ensures n < |s| ==> !IsSpace(s[n])
  {
    if s != [] && IsSpace(s[0]) then 1 + LeadingSpaces(s[1..]) else 0
  }

  /** The number of white-space characters `s` ends with. */
  function TrailingSpaces(s: string): (n: nat)
    ensures n <= |s|
    ensures n < |s| ==> !IsSpace(s[|s| - 1 - n])
  {
    if s != [] && IsSpace(s[|s| - 1]) then 1 + TrailingSpaces(s[..|s| - 1]) else 0
  }

  /** Leading white space is white space. */
  lemma {:induction false} LeadingSpacesAreSpaces(s: string)
    ensures forall k :: 0 <= k < LeadingSpaces(s) ==> IsSpace(s[k])
  {
    if s != [] && IsSpace(s[0]) {
      LeadingSpacesAreSpaces(s[1..]);
    }
  }

  /** Trailing white space is white space. */
  lemma {:induction false} TrailingSpacesAreSpaces(s: string)
    ensures forall k :: |s| - TrailingSpaces(s) <= k < |s| ==> IsSpace(s[k])
  {
    if s != [] && IsSpace(s[|s| - 1]) {
      TrailingSpacesAreSpaces(s[..|s| - 1]);
    }
  }

  /** `s.trimStart()`: `s` without its leading white space. */
  function TrimStart(s: string): string {
    s[LeadingSpaces(s)..]
  }

  /** `s.trimEnd()`: `s` without its trailing white space. */
  function TrimEnd(s: string): string {
    s[..|s| - TrailingSpaces(s)]
  }

  /** `r` is an infix of `s` with nothing but white space cut off either end. */
  predicate TrimmedFrom(r: string, s: string) {
    exists a, b :: 0 <= a <= b <= |s| && r == s[a..b] &&
      (forall k :: 0 <= k < a ==> IsSpace(s[k])) &&
      (forall k :: b <= k < |s| ==> IsSpace(s[k]))
  }

  /** `s.trim()` */
  function Trim(s: string): (r: string)
    ensures NoSpaceAtEnds(r)
    ensures |r| <= |s|
  {
    TrimEnd(TrimStart(s))
  }

  /** What `trim` keeps: the infix of `s` left once the white space at both ends is cut
      off. With `NoSpaceAtEnds`, the cut is the longest possible. */
  lemma TrimStripsSpaces(s: string)
    ensures TrimmedFrom(Trim(s), s)
  {
    var t := TrimStart(s);
    var a := LeadingSpaces(s);
    var b := a + |t| - TrailingSpaces(t);
    LeadingSpacesAreSpaces(s);
    TrailingSpacesAreSpaces(t);
    assert forall k :: b <= k < |s| ==> s[k] == t[k - a];
    assert Trim(s) == s[a..b];
  }

  lemma {:induction false} LeadingSpacesAppend(x: string, y: string)
    ensures LeadingSpaces(x + y) == if LeadingSpaces(x) < |x| then LeadingSpaces(x) else |x| + LeadingSpaces(y)
  {
    if x == [] {
      assert x + y == y;
    } else if IsSpace(x[0]) {
      assert (x + y)[1..] == x[1..] + y;
      LeadingSpacesAppend(x[1..], y);
    }
  }

  /** Trimming ignores one more space in front. */
  lemma TrimDropsLeadingSpace(x: string)
    ensures Trim(" " + x) == Trim(x)
  {
    assert (" " + x)[1..] == x;
  }

  /** Trimming ignores one more space at the end. */
  lemma TrimDropsTrailingSpace(x: string)
    ensures Trim(x + " ") == Trim(x)
  {
    LeadingSpacesAppend(x, " ");
    if LeadingSpaces(x) < |x| {
      TrimEndAppendSpace(x);
    } else {
      assert LeadingSpaces(" ") == 1;
    }
  }

  /** When `x` holds more than white space, a space at its end survives `trimStart` and
      `trimEnd` removes it. */
  lemma TrimEndAppendSpace(x: string)
    requires LeadingSpaces(x) < |x|
    requires LeadingSpaces(x + " ") == LeadingSpaces(x)
    ensures Trim(x + " ") == Trim(x)
  {
    TrimStartKeepsSpace(x);
    TrimEndDropsSpace(TrimStart(x));
  }

  lemma TrimStartKeepsSpace(x: string)
    requires LeadingSpaces(x) <= |x|
    requires LeadingSpaces(x + " ") == LeadingSpaces(x)
    ensures TrimStart(x + " ") == TrimStart(x) + " "
  {
    SuffixAppend(x, LeadingSpaces(x), ' ');
  }

  lemma TrimEndDropsSpace(t: string)
    ensures TrimEnd(t + " ") == TrimEnd(t)
  {
    TrailingSpaceAppended(t);
    PrefixAppend(t, |t| - TrailingSpaces(t), ' ');
  }

  /** Dropping the last character of `s + [c]` gives `s` back. */
  lemma DropLastChar(s: string, c: char)
    ensures var t := s + [c]; t != [] && t[|t| - 1] == c && t[..|t| - 1] == s
  {
    var t := s + [c];
    assert t[..|t| - 1] == s;
  }

  lemma SuffixAppend(x: string, n: nat, c: char)
    requires n <= |x|
    ensures (x + [c])[n..] == x[n..] + [c]
  {
  }

  lemma PrefixAppend(x: string, m: nat, c: char)
    requires m <= |x|
    ensures (x + [c])[..m] == x[..m]
  {
  }

  lemma TrailingSpaceAppended(t: string)
    ensures TrailingSpaces(t + " ") == 1 + TrailingSpaces(t)
  {
    assert (t + " ")[..|t|] == t;
  }

  /** Trimming keeps a string with no white space at its ends as it is. */
  lemma TrimKeepsTrimmed(s: string)
    requires NoSpaceAtEnds(s)
    ensures Trim(s) == s
  {
  }

  /** One space added in front of or behind a trimmed string is trimmed away again. */
  lemma TrimPadded(x: string)
    requires NoSpaceAtEnds(x)
    ensures Trim(" " + x) == x && Trim(x + " ") == x
  {
    TrimDropsLeadingSpace(x);
    TrimDropsTrailingSpace(x);
    TrimKeepsTrimmed(x);
  }

  /** `trim` is idempotent. */
  lemma TrimIdempotent(s: string)
    ensures Trim(Trim(s)) == Trim(s)
  {
    TrimKeepsTrimmed(Trim(s));
  }

  /** Trimming removes only white space: a string without white space at all survives it. */
  lemma TrimOfSpaceless(s: string)
    requires forall k :: 0 <= k < |s| ==> !IsSpace(s[k])
    ensures Trim(s) == s
  {
    TrimKeepsTrimmed(s);
  }

  // ---------------------------------------------------------------- split / join

  /** `s.split(" ")`: the pieces between single spaces; consecutive, leading or
      trailing spaces produce empty pieces, and "" splits into [""]. */
  function Split(s: string): (r: seq<string>)
    ensures |r| >= 1
    decreases |s|
  {
    if ' ' in s then
      var i := IndexOf(s, ' ');
      [s[..i]] + Split(s[i + 1..])
    else [s]
  }

  /** `s.indexOf(c)` for a character that occurs in `s`: its first position. */
  function IndexOf(s: string, c: char): (i: nat)
    requires c in s
    ensures i < |s| && s[i] == c && c !in s[..i]
  {
    if s[0] == c then 0 else
      assert s == [s[0]] + s[1..];
      1 + IndexOf(s[1..], c)
  }

  /** A character is found right after a prefix that does not hold it, and cutting there
      gives the two parts back. */
  lemma IndexOfAfter(a: string, c: char, b: string)
    requires c !in a
    ensures var s := a + [c] + b;
      c in s && IndexOf(s, c) == |a| && s[..|a|] == a && s[|a| + 1..] == b
  {
    var s := a + [c] + b;
    assert s[|a|] == c && s[..|a|] == a;
    assert s[|a| + 1..] == b;
  }

  /** A digit string holds no character other than digits. */
  lemma DigitsExclude(a: string, c: char)
    requires AllDigits(a) && !IsDigit(c)
    ensures c !in a
  {
    forall k | 0 <= k < |a| ensures a[k] != c {
      assert IsDigit(a[k]);
    }
  }

  /** `words.join(" ")` */
  function Join(ws: seq<string>): string {
    if ws == [] then ""
    else if |ws| == 1 then ws[0]
    else ws[0] + " " + Join(ws[1..])
  }

  predicate NoSpaceIn(ws: seq<string>) {
    forall k :: 0 <= k < |ws| ==> ' ' !in ws[k]
  }

  /** The pieces of a split contain no space, and joining them with spaces gives the string back. */
  lemma SplitJoin(s: string)
    ensures NoSpaceIn(Split(s))
    ensures Join(Split(s)) == s
  {
    SplitHasNoSpace(s);
    SplitJoinBack(s);
  }

  lemma {:induction false} SplitHasNoSpace(s: string)
    ensures NoSpaceIn(Split(s))
    decreases |s|
  {
    if ' ' in s {
      var i := IndexOf(s, ' ');
      SplitHasNoSpace(s[i + 1..]);
      var pieces := Split(s[i + 1..]);
      forall k | 0 <= k < |Split(s)| ensures ' ' !in Split(s)[k] {
        if k > 0 {
          assert Split(s)[k] == pieces[k - 1];
        }
      }
    }
  }

  lemma {:induction false} SplitJoinBack(s: string)
    ensures Join(Split(s)) == s
    decreases |s|
  {
    if ' ' in s {
      var i := IndexOf(s, ' ');
      SplitJoinBack(s[i + 1..]);
      SplitJoinStep(s, i);
    }
  }

  /** One piece of a split joined back onto the rest. */
  lemma SplitJoinStep(s: string, i: nat)
    requires ' ' in s && i == IndexOf(s, ' ')
    requires Join(Split(s[i + 1..])) == s[i + 1..]
    ensures Join(Split(s)) == s
  {
    var w, rest := s[..i], s[i + 1..];
    assert s == w + " " + rest;
    SplitAfter(w, rest);
    JoinCons(w, Split(rest));
  }

  lemma JoinCons(w: string, ws: seq<string>)
    requires ws != []
    ensures Join([w] + ws) == w + " " + Join(ws)
  {
    assert ([w] + ws)[1..] == ws;
  }

  /** Splitting at the first space: the piece before it, then the split of the rest. */
  lemma SplitAfter(a: string, b: string)
    requires ' ' !in a
    ensures Split(a + " " + b) == [a] + Split(b)
  {
    IndexOfAfter(a, ' ', b);
    var s := a + [' '] + b;
    assert s[..|a|] == a && s[|a| + 1..] == b;
  }

  /** Splitting undoes joining words that hold no space. */
  lemma {:induction false} JoinSplit(ws: seq<string>)
    requires ws != [] && NoSpaceIn(ws)
    ensures Split(Join(ws)) == ws
  {
    if |ws| > 1 {
      assert NoSpaceIn(ws[1..]) && ' ' !in ws[0];
      JoinSplit(ws[1..]);
      SplitAfter(ws[0], Join(ws[1..]));
      assert [ws[0]] + ws[1..] == ws;
    }
  }

  lemma JoinAppend(ws: seq<string>, w: string)
    requires ws != []
    ensures Join(ws + [w]) == Join(ws) + " " + w
    decreases |ws|
  {
    if |ws| > 1 {
      assert (ws + [w])[1..] == ws[1..] + [w];
      JoinAppend(ws[1..], w);
    }
  }

  // ---------------------------------------------------------------- numbers to text

  function DigitChar(d: nat): (c: char)
    requires d < 10
    ensures IsDigit(c)
  {
    ('0' as int + d) as char
  }

  function DigitValue(c: char): (d: nat)
    requires IsDigit(c)
    ensures d < 10
  {
    c as int - '0' as int
  }

  /** `String(n)` for a whole non-negative number: its decimal digits, without leading zeros. */
  function NatToString(n: nat): (r: string)
    ensures |r| >= 1 && AllDigits(r)
    ensures r[0] == '0' <==> n == 0
    ensures n == 0 ==> r == "0"
  {
    if n < 10 then [DigitChar(n)] else NatToString(n / 10) + [DigitChar(n % 10)]
  }

  /** `String(i)` for a whole number: a minus sign before the digits of a negative one. */
  function IntToString(i: int): (r: string)
    ensures |r| >= 1
    ensures i >= 0 ==> r == NatToString(i)
    ensures i < 0 ==> r == "-" + NatToString(-i)
  {
    if i < 0 then "-" + NatToString(-i) else NatToString(i)
  }

  /** The value of a string of decimal digits (leading zeros allowed). */
  function DigitsValue(s: string): nat
    requires AllDigits(s)
  {
    if s == [] then 0 else DigitsValue(s[..|s| - 1]) * 10 + DigitValue(s[|s| - 1])
  }

  /** Reading back the digits of `n` gives `n`. */
  lemma {:induction false} NatToStringRoundTrip(n: nat)
    ensures DigitsValue(NatToString(n)) == n
  {
    if n >= 10 {
      NatToStringRoundTrip(n / 10);
      var s := NatToString(n);
      assert s[..|s| - 1] == NatToString(n / 10);
    }
  }

  /** A digit string as `String(n)` writes one: non-empty, no leading zero unless it is "0". */
  predicate CanonicalDigits(s: string) {
    s != [] && AllDigits(s) && (s[0] == '0' ==> |s| == 1)
  }

  /** The digits of `n` are canonical, and a canonical digit string is the digits of its
      value: on canonical strings, `NatToString` and `DigitsValue` are inverse. */
  lemma {:induction false} CanonicalDigitsRoundTrip(s: string, n: nat)
    ensures CanonicalDigits(NatToString(n))
    ensures CanonicalDigits(s) ==> NatToString(DigitsValue(s)) == s
    decreases |s|
  {
    if CanonicalDigits(s) && |s| > 1 {
      var p := s[..|s| - 1];
      assert p[0] == s[0];
      CanonicalDigitsRoundTrip(p, 0);
      assert DigitsValue(p) != 0;
      var v := DigitsValue(s);
      assert v / 10 == DigitsValue(p) && v % 10 == DigitValue(s[|s| - 1]);
      assert DigitChar(DigitValue(s[|s| - 1])) == s[|s| - 1];
      assert s == p + [s[|s| - 1]];
    } else if CanonicalDigits(s) {
      assert DigitChar(DigitValue(s[0])) == s[0];
      assert DigitsValue(s) == DigitsValue(s[..0]) * 10 + DigitValue(s[0]);
    }
  }

  /** Leading zeros do not change the value of a digit string. */
  lemma {:induction false} LeadingZerosValue(z: string, s: string)
    requires AllDigits(s) && forall k :: 0 <= k < |z| ==> z[k] == '0'
    ensures AllDigits(z + s) && DigitsValue(z + s) == DigitsValue(s)
    decreases |s|
  {
    if s == [] {
      LeadingZerosOnly(z);
      assert z + s == z;
    } else {
      LeadingZerosValue(z, s[..|s| - 1]);
      assert (z + s)[..|z + s| - 1] == z + s[..|s| - 1];
    }
  }

  lemma {:induction false} LeadingZerosOnly(z: string)
    requires forall k :: 0 <= k < |z| ==> z[k] == '0'
    ensures AllDigits(z) && DigitsValue(z) == 0
  {
    if z != [] {
      LeadingZerosOnly(z[..|z| - 1]);
    }
  }

  /** `s.padStart(n, c)` for a one-character pad string. */
  function PadStart(s: string, n: nat, c: char): (r: string)
    ensures |r| == if |s| >= n then |s| else n
    ensures r[|r| - |s|..] == s
    ensures forall k :: 0 <= k < |r| - |s| ==> r[k] == c
  {
    if |s| >= n then s else seq(n - |s|, _ => c) + s
  }

  // ---------------------------------------------------------------- parseInt

  /** The longest prefix of `s` made of decimal digits. */
  function LeadingDigits(s: string): (r: string)
    ensures AllDigits(r) && |r| <= |s| && r == s[..|r|]
    ensures |r| < |s| ==> !IsDigit(s[|r|])
  {
    if s != [] && IsDigit(s[0]) then [s[0]] + LeadingDigits(s[1..]) else []
  }

  /** `parseInt(s, 10)`: skip leading white space, read an optional sign, then the
      longest run of decimal digits. `None` stands for NaN (no digit at all). */
  function ParseInt(s: string): (r: Option<int>)
    ensures r.None? <==> LeadingDigits(Unsigned(TrimStart(s))) == []
  {
    var t := TrimStart(s);
    var digits := LeadingDigits(Unsigned(t));
    var value: int := if digits == [] then 0 else DigitsValue(digits);
    if digits == [] then None
    else if t[0] == '-' then Some(-value)
    else Some(value)
  }

  /** What follows an optional leading `+` or `-`. */
  function Unsigned(t: string): string {
    if t != [] && (t[0] == '+' || t[0] == '-') then t[1..] else t
  }

  /** `parseInt(s, 10) || 0`: NaN (and -0) become 0. */
  function ParseIntOrZero(s: string): int {
    ParseInt(s).GetOr(0)
  }

  /** Reading back any printed whole number gives that number. */
  lemma ParseIntRoundTrip(i: int)
    ensures ParseInt(IntToString(i)) == Some(i)
    ensures ParseIntOrZero(IntToString(i)) == i
  {
    var s := IntToString(i);
    var n: nat := if i < 0 then -i else i;
    var d := NatToString(n);
    assert TrimStart(s) == s by { assert s[0] == '-' || IsDigit(s[0]); }
    assert Unsigned(s) == d by { if i < 0 { assert s[1..] == d; } }
    assert LeadingDigits(d) == d by { LeadingDigitsOfDigits(d); }
    assert DigitsValue(d) == n by { NatToStringRoundTrip(n); }
  }

  lemma {:induction false} LeadingDigitsOfDigits(d: string)
    requires AllDigits(d)
    ensures LeadingDigits(d) == d
  {
    if d != [] {
      LeadingDigitsOfDigits(d[1..]);
    }
  }

  /** An input whose first visible character is neither a digit nor a sign reads as 0;
      so does an empty or all-blank input. */
  lemma ParseNonNumeric(s: string)
    requires var t := TrimStart(s); t == [] || (!IsDigit(t[0]) && t[0] != '+' && t[0] != '-')
    ensures ParseInt(s) == None
    ensures ParseIntOrZero(s) == 0
  {
  }
}
