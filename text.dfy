/**
 * String helpers that the account manager takes from Python's `str` type:
 * `strip()`, the `"----" in s` test and `s.split("----", 1)`, `s.split("\n")`,
 * `isdigit()`/`int(s)`, decimal `str(n)` and ASCII `upper()`.
 */
module Text {

  datatype Option<+T> = None | Some(value: T)

  // ---------------------------------------------------------------------
  // Whitespace and strip()
  // ---------------------------------------------------------------------

  /** The characters for which Python's `str.isspace()` is true. */
  predicate IsSpace(c: char)
  {
    ('\U{0009}' <= c <= '\U{000D}') || ('\U{001C}' <= c <= '\U{0020}')
    || c == '\U{0085}' || c == '\U{00A0}' || c == '\U{1680}'
    || ('\U{2000}' <= c <= '\U{200A}') || c == '\U{2028}' || c == '\U{2029}'
    || c == '\U{202F}' || c == '\U{205F}' || c == '\U{3000}'
  }

  /** A string with no whitespace at either end, as `strip()` leaves it. */
  predicate IsStripped(s: string)
  {
    s == [] || (!IsSpace(s[0]) && !IsSpace(s[|s| - 1]))
  }

  /** The first index at or after `i` whose character is not whitespace, or `|s|`. */
  function SkipSpaces(s: string, i: nat): (k: nat)
    requires i <= |s|
    ensures i <= k <= |s|
    ensures forall j :: i <= j < k ==> IsSpace(s[j])
    ensures k == |s| || !IsSpace(s[k])
    decreases |s| - i
  {
    if i < |s| && IsSpace(s[i]) then SkipSpaces(s, i + 1) else i
  }

  /** The end, not before `lo`, of `s[..j]` without its trailing whitespace. */
  function SkipSpacesBack(s: string, lo: nat, j: nat): (k: nat)
    requires lo <= j <= |s|
    ensures lo <= k <= j
    ensures forall i :: k <= i < j ==> IsSpace(s[i])
    ensures k == lo || !IsSpace(s[k - 1])
  {
    if j > lo && IsSpace(s[j - 1]) then SkipSpacesBack(s, lo, j - 1) else j
  }

  /** Where the text that `strip()` keeps starts. */
  function StripStart(s: string): nat
  {
    SkipSpaces(s, 0)
  }

  /**
   * `strip()`: the infix of `s` that is left after removing whitespace at both
   * ends; everything removed is whitespace and the result has none at its ends.
   */
  function Strip(s: string): (r: string)
    ensures IsStripped(r)
    ensures var k := StripStart(s);
      k + |r| <= |s| && r == s[k..k + |r|]
      && (forall i :: 0 <= i < k ==> IsSpace(s[i]))
      && (forall i :: k + |r| <= i < |s| ==> IsSpace(s[i]))
  {
    var k := SkipSpaces(s, 0);
    var e := SkipSpacesBack(s, k, |s|);
    assert k < e ==> !IsSpace(s[k]);
    s[k..e]
  }

  /** A string with nothing to strip is its own `strip()`. */
  lemma StripOfStripped(s: string)
    requires IsStripped(s)
    ensures Strip(s) == s
  {
    assert SkipSpaces(s, 0) == 0;
    assert SkipSpacesBack(s, 0, |s|) == |s|;
  }

  /** `strip()` is idempotent. */
  lemma StripIdempotent(s: string)
    ensures Strip(Strip(s)) == Strip(s)
  {
    StripOfStripped(Strip(s));
  }

  /** A string made only of whitespace strips to the empty string. */
  lemma StripOfBlank(s: string)
    requires forall i :: 0 <= i < |s| ==> IsSpace(s[i])
    ensures Strip(s) == []
  {
  }

  /** Whitespace around a non-empty stripped string is exactly what `strip()` removes. */
  lemma StripPadded(x: string, s: string, y: string)
    requires forall i :: 0 <= i < |x| ==> IsSpace(x[i])
    requires forall i :: 0 <= i < |y| ==> IsSpace(y[i])
    requires s != [] && IsStripped(s)
    ensures Strip(x + s + y) == s
  {
    var t := x + s + y;
    var k := StripStart(t);
    var r := Strip(t);
    assert forall j :: 0 <= j < |x| ==> t[j] == x[j];
    assert forall j :: 0 <= j < |s| ==> t[|x| + j] == s[j];
    assert forall j :: 0 <= j < |y| ==> t[|x| + |s| + j] == y[j];
    assert k == |x|;
    assert |r| == |s|;
    assert r == t[|x|..|x| + |s|] == s;
  }

  /** `strip()` removes characters but never introduces one. */
  lemma NoCharInStrip(s: string, c: char)
    requires c !in s
    ensures c !in Strip(s)
  {
    var k := StripStart(s);
    var r := Strip(s);
    forall j | 0 <= j < |r| ensures r[j] != c {
      assert r[j] == s[k + j];
    }
  }

  // ---------------------------------------------------------------------
  // The "----" field separator
  // ---------------------------------------------------------------------

  /** The separator of the text import/export line format. */
  const Sep: string := "----"

  /** The separator occurs in `s` starting at index `i`. */
  predicate SepAt(s: string, i: nat)
  {
    i + |Sep| <= |s| && s[i..i + |Sep|] == Sep
  }

  /** `"----" in s`. */
  predicate ContainsSep(s: string)
  {
    exists i: nat | i <= |s| :: SepAt(s, i)
  }

  function FindSepFrom(s: string, from: nat): (r: Option<nat>)
    requires from <= |s|
    requires forall k: nat :: k < from ==> !SepAt(s, k)
    ensures r.Some? ==> SepAt(s, r.value) && forall k: nat :: k < r.value ==> !SepAt(s, k)
    ensures r.None? ==> forall k: nat :: !SepAt(s, k)
    decreases |s| - from
  {
    if from + |Sep| > |s| then None
    else if s[from..from + |Sep|] == Sep then Some(from)
    else FindSepFrom(s, from + 1)
  }

  /** `s.find("----")`: the index of the first occurrence of the separator, if any. */
  function FindSep(s: string): (r: Option<nat>)
    ensures r.Some? ==> SepAt(s, r.value) && forall k: nat :: k < r.value ==> !SepAt(s, k)
    ensures r.None? <==> !ContainsSep(s)
  {
    FindSepFrom(s, 0)
  }

  /**
   * `s.split("----", 1)` on a line that contains the separator: the text before
   * and after its first occurrence. `None` when the separator does not occur.
   */
  function SplitFirst(s: string): (r: Option<(string, string)>)
    ensures r.None? <==> !ContainsSep(s)
    ensures r.Some? ==> s == r.value.0 + Sep + r.value.1
    ensures r.Some? ==> forall k: nat :: k < |r.value.0| ==> !SepAt(s, k)
  {
    match FindSep(s)
    case None => None
    case Some(i) =>
      assert s == s[..i] + s[i..i + |Sep|] + s[i + |Sep|..];
      Some((s[..i], s[i + |Sep|..]))
  }

  /**
   * Joining two fields with the separator and splitting again gives the fields
   * back, as long as the first field neither contains the separator nor ends
   * with '-' (otherwise an earlier occurrence straddles the join).
   */
  lemma SplitFirstOfJoin(a: string, b: string)
    requires !ContainsSep(a)
    requires a == [] || a[|a| - 1] != '-'
    ensures SplitFirst(a + Sep + b) == Some((a, b))
  {
    var s := a + Sep + b;
    assert SepAt(s, |a|) by { assert s[|a|..|a| + |Sep|] == Sep; }
    forall k: nat | k < |a|
      ensures !SepAt(s, k)
    {
      if k + |Sep| <= |a| {
        assert !SepAt(a, k);
        assert a[k..k + |Sep|] == s[k..k + |Sep|];
      } else if k + |Sep| <= |s| {
        assert s[k..k + |Sep|][|a| - 1 - k] == a[|a| - 1] != '-' == Sep[|a| - 1 - k];
      }
    }
    var i := FindSep(s).value;
    assert |a| <= i <= |a|;
  }

  /** The fields on either side of a separator hold only characters of the whole line. */
  lemma NoCharInParts(s: string, a: string, b: string, c: char)
    requires s == a + Sep + b && c !in s
    ensures c !in a && c !in b
  {
    forall j | 0 <= j < |a| ensures a[j] != c { assert a[j] == s[j]; }
    forall j | 0 <= j < |b| ensures b[j] != c { assert b[j] == s[|a| + |Sep| + j]; }
  }

  /** Joining two stripped fields with the separator leaves nothing to strip. */
  lemma JoinStripped(a: string, b: string)
    requires IsStripped(a) && IsStripped(b)
    ensures IsStripped(a + Sep + b)
  {
    var s := a + Sep + b;
    assert s[0] == if a == [] then '-' else a[0];
    assert s[|s| - 1] == if b == [] then '-' else b[|b| - 1];
  }

  /** A line made of two stripped fields, the first one safe to split, strips and splits back into them. */
  lemma SplitFirstOfStrippedJoin(a: string, b: string)
    requires !ContainsSep(a) && (a == [] || a[|a| - 1] != '-')
    requires IsStripped(a) && IsStripped(b)
    ensures SplitFirst(Strip(a + Sep + b)) == Some((a, b))
  {
    JoinStripped(a, b);
    StripOfStripped(a + Sep + b);
    SplitFirstOfJoin(a, b);
  }

  // ---------------------------------------------------------------------
  // Lines
  // ---------------------------------------------------------------------

  /** `"\n".join(lines)`. */
  function JoinLines(lines: seq<string>): string
    requires |lines| >= 1
  {
    if |lines| == 1 then lines[0] else lines[0] + "\n" + JoinLines(lines[1..])
  }

  /** The first line joined in front of the others. */
  lemma JoinLinesCons(first: string, rest: seq<string>)
    ensures JoinLines([first] + rest) == if rest == [] then first else first + "\n" + JoinLines(rest)
  {
    if rest != [] {
      assert ([first] + rest)[1..] == rest;
    }
  }

  /** Putting a character in front of the first line puts it in front of the joined text. */
  lemma JoinLinesConsChar(c: char, first: string, rest: seq<string>)
    ensures JoinLines([[c] + first] + rest) == [c] + JoinLines([first] + rest)
  {
    JoinLinesCons([c] + first, rest);
    JoinLinesCons(first, rest);
    if rest != [] {
      var tail := "\n" + JoinLines(rest);
      assert ([c] + first) + tail == [c] + (first + tail);
    }
  }

  /**
   * `s.split("\n")`: at least one piece, no piece contains a line break, and
   * joining the pieces with line breaks gives `s` back.
   */
  function SplitLines(s: string): (r: seq<string>)
    ensures |r| >= 1
    ensures forall i :: 0 <= i < |r| ==> '\n' !in r[i]
    ensures JoinLines(r) == s
  {
    if s == [] then [[]]
    else
      var rest := SplitLines(s[1..]);
      if s[0] == '\n' then
        assert ([] + "\n" + JoinLines(rest)) == s;
        [[]] + rest
      else
        assert rest == [rest[0]] + rest[1..];
        JoinLinesConsChar(s[0], rest[0], rest[1..]);
        assert [s[0]] + s[1..] == s;
        [[s[0]] + rest[0]] + rest[1..]
  }

  /** Splitting after a line without a break yields that line first. */
  lemma {:induction false} SplitLinesCons(x: string, y: string)
    requires '\n' !in x
    ensures SplitLines(x + "\n" + y) == [x] + SplitLines(y)
  {
    if x == [] {
      assert ([] + "\n" + y)[1..] == y;
    } else {
      var s := x + "\n" + y;
      assert s[1..] == x[1..] + "\n" + y;
      SplitLinesCons(x[1..], y);
      assert [x[0]] + x[1..] == x;
    }
  }

  /** A text without a line break is a single line. */
  lemma {:induction false} SplitLinesSingle(x: string)
    requires '\n' !in x
    ensures SplitLines(x) == [x]
  {
    if x != [] {
      SplitLinesSingle(x[1..]);
      assert [x[0]] + x[1..] == x;
    }
  }

  /** Splitting lines joined with line breaks gives the lines back, when none of them holds a break. */
  lemma {:induction false} SplitJoinLines(lines: seq<string>)
    requires |lines| >= 1
    requires forall i :: 0 <= i < |lines| ==> '\n' !in lines[i]
    ensures SplitLines(JoinLines(lines)) == lines
    decreases |lines|
  {
    if |lines| == 1 {
      SplitLinesSingle(lines[0]);
    } else {
      SplitJoinLines(lines[1..]);
      SplitLinesCons(lines[0], JoinLines(lines[1..]));
      assert lines == [lines[0]] + lines[1..];
    }
  }

  /** Joined lines start with the first line. */
  lemma JoinLinesFirst(lines: seq<string>)
    requires |lines| >= 1 && lines[0] != []
    ensures |JoinLines(lines)| > 0 && JoinLines(lines)[0] == lines[0][0]
  {
  }

  /** Joined lines end with the last line's last character. */
  lemma {:induction false} JoinLinesLast(lines: seq<string>)
    requires |lines| >= 1 && lines[|lines| - 1] != []
    ensures var s := JoinLines(lines);
      |s| > 0 && s[|s| - 1] == lines[|lines| - 1][|lines[|lines| - 1]| - 1]
    decreases |lines|
  {
    if |lines| > 1 {
      JoinLinesLast(lines[1..]);
    }
  }

  // ---------------------------------------------------------------------
  // Decimal digits: isdigit(), int(s) and str(n)
  // ---------------------------------------------------------------------

  predicate IsDigit(c: char)
  {
    '0' <= c <= '9'
  }

  /** `s.isdigit()` over ASCII digits: true only for a non-empty string of digits. */
  predicate IsDigits(s: string)
  {
    |s| > 0 && forall i :: 0 <= i < |s| ==> IsDigit(s[i])
  }

  function DigitChar(d: nat): (c: char)
    requires d < 10
    ensures IsDigit(c) && c as int - '0' as int == d
  {
    ('0' as int + d) as char
  }

  /** `int(s)` for a string of decimal digits (leading zeros allowed). */
  function DecimalValue(s: string): nat
    requires forall i :: 0 <= i < |s| ==> IsDigit(s[i])
  {
    if s == [] then 0
    else
      assert IsDigit(s[|s| - 1]);
      DecimalValue(s[..|s| - 1]) * 10 + (s[|s| - 1] as int - '0' as int)
  }

  /** `str(n)`: the decimal digits of `n`, without leading zeros. */
  function NatStr(n: nat): (r: string)
    ensures IsDigits(r)
    ensures |r| > 1 ==> r[0] != '0'
  {
    if n < 10 then [DigitChar(n)] else NatStr(n / 10) + [DigitChar(n % 10)]
  }

  /** Reading back the digits `str(n)` writes yields `n`: `int(str(n)) == n`. */
  lemma {:induction false} DecimalOfNatStr(n: nat)
    ensures DecimalValue(NatStr(n)) == n
  {
    if n >= 10 {
      var s := NatStr(n);
      assert s[..|s| - 1] == NatStr(n / 10);
      DecimalOfNatStr(n / 10);
    }
  }

  // ---------------------------------------------------------------------
  // upper()
  // ---------------------------------------------------------------------

  /** `c.upper()` restricted to ASCII letters; every other character is unchanged. */
  function UpperChar(c: char): (r: char)
    ensures 'a' <= c <= 'z' ==> r as int == c as int - 32
    ensures !('a' <= c <= 'z') ==> r == c
  {
    if 'a' <= c <= 'z' then (c as int - 32) as char else c
  }

  /** `s.upper()`, character by character. */
  function Upper(s: string): (r: string)
    ensures |r| == |s|
    ensures forall i :: 0 <= i < |s| ==> r[i] == UpperChar(s[i])
  {
    if s == [] then [] else [UpperChar(s[0])] + Upper(s[1..])
  }
}
