/**
 * What the `apply()` methods of the dialogs in Program/dialogs.py make of the
 * text and numbers entered: the days-and-hours pair of `DaysHoursDialog`, the
 * date and time of `DateTimeDialog`, the account lines of `AddAccountDialog`
 * and the remark of `CustomRemarkDialog`. Widgets, focus and buttons are not
 * modelled; each dialog is its entered values and the `result` it leaves.
 */
module Dialogs {
  import opened Text
  import opened Records
  import opened Store

  // ---------------------------------------------------------------------
  // DaysHoursDialog.apply
  // ---------------------------------------------------------------------

  /** A field the dialog accepts: blank after `strip()`, or all decimal digits. */
  predicate AcceptedField(s: string)
  {
    Strip(s) == [] || IsDigits(Strip(s))
  }

  /** The number an accepted field stands for: 0 when blank, otherwise `int` of its digits. */
  function FieldValue(s: string): nat
    requires AcceptedField(s)
  {
    if Strip(s) == [] then 0 else DecimalValue(Strip(s))
  }

  /**
   * `DaysHoursDialog.apply`: the pair of custom days and hours, or `None` when
   * a field is neither blank nor a string of digits.
   */
  function DaysHours(days: string, hours: string): (r: Option<(nat, nat)>)
    ensures r.Some? <==> AcceptedField(days) && AcceptedField(hours)
    ensures r.Some? && Strip(days) == [] ==> r.value.0 == 0
    ensures r.Some? && Strip(hours) == [] ==> r.value.1 == 0
  {
    if AcceptedField(days) && AcceptedField(hours) then Some((FieldValue(days), FieldValue(hours)))
    else None
  }

  /**
   * Entering the decimal forms of `d` and `h`, with any whitespace around
   * them, gives back exactly `(d, h)`.
   */
  lemma DaysHoursRoundTrip(d: nat, h: nat, x1: string, y1: string, x2: string, y2: string)
    requires forall i :: 0 <= i < |x1| ==> IsSpace(x1[i])
    requires forall i :: 0 <= i < |y1| ==> IsSpace(y1[i])
    requires forall i :: 0 <= i < |x2| ==> IsSpace(x2[i])
    requires forall i :: 0 <= i < |y2| ==> IsSpace(y2[i])
    ensures DaysHours(x1 + NatStr(d) + y1, x2 + NatStr(h) + y2) == Some((d, h))
  {
    FieldOfNatStr(x1, d, y1);
    FieldOfNatStr(x2, h, y2);
  }

  /** One field holding the decimal form of `n` with whitespace around it is accepted and stands for `n`. */
  lemma FieldOfNatStr(x: string, n: nat, y: string)
    requires forall i :: 0 <= i < |x| ==> IsSpace(x[i])
    requires forall i :: 0 <= i < |y| ==> IsSpace(y[i])
    ensures AcceptedField(x + NatStr(n) + y) && FieldValue(x + NatStr(n) + y) == n
  {
    StripPadded(x, NatStr(n), y);
    DecimalOfNatStr(n);
  }

  /** Two blank fields give zero days and zero hours. */
  lemma DaysHoursBlank(days: string, hours: string)
    requires forall i :: 0 <= i < |days| ==> IsSpace(days[i])
    requires forall i :: 0 <= i < |hours| ==> IsSpace(hours[i])
    ensures DaysHours(days, hours) == Some((0, 0))
  {
    StripOfBlank(days);
    StripOfBlank(hours);
  }

  /** A negative number is refused rather than read as a shift back in time. */
  lemma DaysHoursNegative(n: nat, hours: string)
    ensures DaysHours("-" + NatStr(n), hours).None?
    ensures DaysHours(hours, "-" + NatStr(n)).None?
  {
    var s := "-" + NatStr(n);
    StripOfStripped(s);
    assert !IsDigit(s[0]);
  }

  // ---------------------------------------------------------------------
  // DateTimeDialog.apply
  // ---------------------------------------------------------------------

  /** The Gregorian leap-year rule of `datetime`. */
  predicate IsLeapYear(y: int)
  {
    y % 4 == 0 && (y % 100 != 0 || y % 400 == 0)
  }

  function DaysInYear(y: int): nat
  {
    if IsLeapYear(y) then 366 else 365
  }

  function DaysInMonth(y: int, m: int): (n: nat)
    requires 1 <= m <= 12
    ensures 28 <= n <= 31
  {
    if m == 2 then (if IsLeapYear(y) then 29 else 28)
    else if m == 4 || m == 6 || m == 9 || m == 11 then 30
    else 31
  }

  /** The days of a common year before each month. */
  const DaysBeforeMonthTable: seq<nat> := [0, 31, 59, 90, 120, 151, 181, 212, 243, 273, 304, 334]

  /** The days of year `y` before month `m`: one more after February in a leap year. */
  function DaysBeforeMonth(y: int, m: int): nat
    requires 1 <= m <= 12
  {
    DaysBeforeMonthTable[m - 1] + (if m > 2 && IsLeapYear(y) then 1 else 0)
  }

  /** The days from 0001-01-01 to the first day of year `y`. */
  function DaysBeforeYear(y: int): int
  {
    var p := y - 1;
    365 * p + p / 4 - p / 100 + p / 400
  }

  /** The arguments `datetime.datetime(year, month, day, hour, minute)` accepts. */
  predicate ValidDateTime(year: int, month: int, day: int, hour: int, minute: int)
  {
    && 1 <= year <= 9999
    && 1 <= month <= 12
    && 1 <= day <= DaysInMonth(year, month)
    && 0 <= hour < 24
    && 0 <= minute < 60
  }

  /** The count of whole days from 0001-01-01 to the given date. */
  function DayNumber(year: int, month: int, day: int): int
    requires 1 <= month <= 12
  {
    DaysBeforeYear(year) + DaysBeforeMonth(year, month) + day - 1
  }

  /**
   * `DateTimeDialog.apply`: the entered date and time as a minute count since
   * 0001-01-01 00:00, or `None` where the constructor raises ValueError.
   */
  function DateTimeResult(year: int, month: int, day: int, hour: int, minute: int): (r: Option<nat>)
    ensures r.Some? <==> ValidDateTime(year, month, day, hour, minute)
  {
    if ValidDateTime(year, month, day, hour, minute) then
      DayNumberBounds(year, month, day);
      Some(DayNumber(year, month, day) * 1440 + hour * 60 + minute)
    else None
  }

  /** A year has one day more than usual exactly when it is a leap year. */
  lemma DaysBeforeNextYear(y: int)
    ensures DaysBeforeYear(y + 1) == DaysBeforeYear(y) + DaysInYear(y)
  {
    DivStep4(y);
    DivStep100(y);
    DivStep400(y);
  }

  lemma DivStep4(y: int)
    ensures y / 4 == (y - 1) / 4 + (if y % 4 == 0 then 1 else 0)
  {
  }

  lemma DivStep100(y: int)
    ensures y / 100 == (y - 1) / 100 + (if y % 100 == 0 then 1 else 0)
  {
  }

  lemma DivStep400(y: int)
    ensures y / 400 == (y - 1) / 400 + (if y % 400 == 0 then 1 else 0)
  {
  }

  /** The days before a later year include the whole of an earlier one. */
  lemma {:induction false} DaysBeforeLaterYear(y: int, z: int)
    requires y < z
    ensures DaysBeforeYear(y) + DaysInYear(y) <= DaysBeforeYear(z)
    decreases z - y
  {
    DaysBeforeNextYear(y);
    if y + 1 < z {
      DaysBeforeLaterYear(y + 1, z);
      DaysBeforeNextYear(y + 1);
    }
  }

  /** The table agrees with the month lengths: each month starts where the one before it ends. */
  lemma NextMonth(y: int, m: int)
    requires 1 <= m < 12
    ensures DaysBeforeMonth(y, m + 1) == DaysBeforeMonth(y, m) + DaysInMonth(y, m)
  {
  }

  /** The months of a year add up to the year. */
  lemma DaysBeforeMonthBound(y: int, m: int)
    requires 1 <= m <= 12
    ensures DaysBeforeMonth(y, m) + DaysInMonth(y, m) <= DaysInYear(y)
    ensures DaysBeforeMonth(y, 12) + DaysInMonth(y, 12) == DaysInYear(y)
  {
  }

  /** A later month of the same year starts after every day of an earlier one. */
  lemma {:induction false} DaysBeforeLaterMonth(y: int, m: int, n: int)
    requires 1 <= m < n <= 12
    ensures DaysBeforeMonth(y, m) + DaysInMonth(y, m) <= DaysBeforeMonth(y, n)
    decreases n - m
  {
    NextMonth(y, m);
    if m + 1 < n {
      DaysBeforeLaterMonth(y, m + 1, n);
    }
  }

  /** The day number of a valid date lies between 0001-01-01 and 9999-12-31. */
  lemma DayNumberBounds(year: int, month: int, day: int)
    requires 1 <= year <= 9999 && 1 <= month <= 12 && 1 <= day <= DaysInMonth(year, month)
    ensures 0 <= DayNumber(year, month, day) <= 3652058
  {
    DaysBeforeMonthBound(year, month);
    if year < 10000 {
      DaysBeforeLaterYear(year, 10000);
    }
    if year > 1 {
      DaysBeforeLaterYear(1, year);
    }
  }

  /**
   * Every value the dialog yields is one `datetime` can hold, and the first
   * and last representable minutes are reached.
   */
  lemma DateTimeRange(year: int, month: int, day: int, hour: int, minute: int)
    requires ValidDateTime(year, month, day, hour, minute)
    ensures DateTimeResult(year, month, day, hour, minute).value <= MaxMinute
    ensures DateTimeResult(1, 1, 1, 0, 0) == Some(0)
    ensures DateTimeResult(9999, 12, 31, 23, 59) == Some(MaxMinute)
  {
    DayNumberBounds(year, month, day);
    assert DaysBeforeMonth(9999, 12) == 334;
  }

  /** Date-times in lexicographic order. */
  predicate EarlierDateTime(a: (int, int, int, int, int), b: (int, int, int, int, int))
  {
    || a.0 < b.0
    || (a.0 == b.0 && a.1 < b.1)
    || (a.0 == b.0 && a.1 == b.1 && a.2 < b.2)
    || (a.0 == b.0 && a.1 == b.1 && a.2 == b.2 && a.3 < b.3)
    || (a.0 == b.0 && a.1 == b.1 && a.2 == b.2 && a.3 == b.3 && a.4 < b.4)
  }

  /** An earlier valid date lies on an earlier day, or on the same day. */
  lemma DayNumberMonotone(a: (int, int, int, int, int), b: (int, int, int, int, int))
    requires ValidDateTime(a.0, a.1, a.2, a.3, a.4) && ValidDateTime(b.0, b.1, b.2, b.3, b.4)
    requires EarlierDateTime(a, b)
    ensures DayNumber(a.0, a.1, a.2) <= DayNumber(b.0, b.1, b.2)
    ensures (a.0, a.1, a.2) != (b.0, b.1, b.2) ==> DayNumber(a.0, a.1, a.2) < DayNumber(b.0, b.1, b.2)
  {
    if a.0 < b.0 {
      DaysBeforeMonthBound(a.0, a.1);
      DaysBeforeLaterYear(a.0, b.0);
    } else if a.1 < b.1 {
      DaysBeforeLaterMonth(a.0, a.1, b.1);
    }
  }

  /**
   * The dialog's result keeps the order of the entered date-times, so two
   * different valid entries never give the same instant.
   */
  lemma DateTimeOrder(a: (int, int, int, int, int), b: (int, int, int, int, int))
    requires ValidDateTime(a.0, a.1, a.2, a.3, a.4) && ValidDateTime(b.0, b.1, b.2, b.3, b.4)
    requires EarlierDateTime(a, b)
    ensures DateTimeResult(a.0, a.1, a.2, a.3, a.4).value < DateTimeResult(b.0, b.1, b.2, b.3, b.4).value
  {
    DayNumberMonotone(a, b);
  }

  // ---------------------------------------------------------------------
  // AddAccountDialog.apply
  // ---------------------------------------------------------------------

  /** One entry of `new_accounts_data`: account, password and the rest of the line. */
  type Entry3 = (string, string, string)

  /**
   * One line of `AddAccountDialog.apply`: stripped, split at the first two
   * occurrences of "----" (`split("----", 2)`), each part stripped; kept only
   * when account and password are both non-empty. The rest is "" when the
   * line holds a single separator and may itself contain "----".
   */
  function EntryOfLine(raw: string): Option<Entry3>
  {
    var first := SplitFirst(Strip(raw));
    if first.None? then None
    else
      var second := SplitFirst(first.value.1);
      var account := Strip(first.value.0);
      var password := Strip(if second.Some? then second.value.0 else first.value.1);
      var others := if second.Some? then Strip(second.value.1) else [];
      if account != [] && password != [] then Some((account, password, others)) else None
  }

  /** The entries `AddAccountDialog.apply` collects from the text box, in line order. */
  function Entries(content: string): seq<Entry3>
  {
    if Strip(content) == [] then [] else FilterMap(SplitLines(Strip(content)), EntryOfLine)
  }

  /** Every collected entry has a non-empty account and password, and no part has surrounding whitespace or a line break. */
  lemma EntryOfLineWellFormed(raw: string)
    requires '\n' !in raw
    requires EntryOfLine(raw).Some?
    ensures var e := EntryOfLine(raw).value;
      e.0 != [] && e.1 != [] && IsStripped(e.0) && IsStripped(e.1) && IsStripped(e.2)
      && '\n' !in e.0 && '\n' !in e.1 && '\n' !in e.2
  {
    var line := Strip(raw);
    NoCharInStrip(raw, '\n');
    var first := SplitFirst(line).value;
    NoCharInParts(line, first.0, first.1, '\n');
    NoCharInStrip(first.0, '\n');
    NoCharInStrip(first.1, '\n');
    var second := SplitFirst(first.1);
    if second.Some? {
      NoCharInParts(first.1, second.value.0, second.value.1, '\n');
      NoCharInStrip(second.value.0, '\n');
      NoCharInStrip(second.value.1, '\n');
    }
  }

  /** Every entry collected from the text box is well formed. */
  lemma EntriesWellFormed(content: string, e: Entry3)
    requires e in Entries(content)
    ensures e.0 != [] && e.1 != [] && IsStripped(e.0) && IsStripped(e.1) && IsStripped(e.2)
    ensures '\n' !in e.0 && '\n' !in e.1 && '\n' !in e.2
  {
    var lines := SplitLines(Strip(content));
    FilterMapMember(lines, EntryOfLine, e);
    var i :| 0 <= i < |lines| && EntryOfLine(lines[i]) == Some(e);
    EntryOfLineWellFormed(lines[i]);
  }

  /** Blank content yields no entries. */
  lemma EntriesOfBlank(content: string)
    requires forall i :: 0 <= i < |content| ==> IsSpace(content[i])
    ensures Entries(content) == []
  {
    StripOfBlank(content);
  }

  /** The line an entry is typed as. */
  function EntryLine(e: Entry3): string
  {
    e.0 + Sep + e.1 + Sep + e.2
  }

  /**
   * An entry that reads back as itself: account and password are non-empty,
   * contain no "----" and do not end with '-', and no part has surrounding
   * whitespace or a line break. The rest may contain "----".
   */
  predicate Typable(e: Entry3)
  {
    && e.0 != [] && e.1 != []
    && !ContainsSep(e.0) && e.0[|e.0| - 1] != '-'
    && !ContainsSep(e.1) && e.1[|e.1| - 1] != '-'
    && IsStripped(e.0) && IsStripped(e.1) && IsStripped(e.2)
    && '\n' !in e.0 && '\n' !in e.1 && '\n' !in e.2
  }

  lemma EntryLineReadsBack(e: Entry3)
    requires Typable(e)
    ensures EntryOfLine(EntryLine(e)) == Some(e)
  {
    var rest := e.1 + Sep + e.2;
    JoinStripped(e.1, e.2);
    JoinStripped(e.0, rest);
    assert EntryLine(e) == e.0 + Sep + rest;
    StripOfStripped(EntryLine(e));
    SplitFirstOfJoin(e.0, rest);
    SplitFirstOfJoin(e.1, e.2);
    StripOfStripped(e.0);
    StripOfStripped(e.1);
    StripOfStripped(e.2);
  }

  function EntryLines(es: seq<Entry3>): (lines: seq<string>)
    ensures |lines| == |es| && forall i :: 0 <= i < |es| ==> lines[i] == EntryLine(es[i])
  {
    seq(|es|, i requires 0 <= i < |es| => EntryLine(es[i]))
  }

  /** A line holds no break when none of its parts does. */
  lemma EntryLineNoBreak(e: Entry3)
    requires '\n' !in e.0 && '\n' !in e.1 && '\n' !in e.2
    ensures '\n' !in EntryLine(e)
  {
  }

  /** Lines that each read back as their entry yield all the entries, in order. */
  lemma {:induction false} EntriesOfLines(lines: seq<string>, es: seq<Entry3>)
    requires |lines| == |es|
    requires forall i :: 0 <= i < |es| ==> lines[i] == EntryLine(es[i]) && Typable(es[i])
    ensures FilterMap(lines, EntryOfLine) == es
  {
    if es != [] {
      var n := |es| - 1;
      EntriesOfLines(lines[..n], es[..n]);
      EntryLineReadsBack(es[n]);
      FilterMapSnoc(lines, n, EntryOfLine);
      InitAndLast(lines);
      InitAndLast(es);
    }
  }

  lemma InitAndLast<T>(s: seq<T>)
    requires s != []
    ensures s[..|s|] == s && s[..|s| - 1] + [s[|s| - 1]] == s
  {
  }

  /**
   * Typing entries one per line and confirming gives back exactly those
   * entries, in order.
   */
  lemma EntriesRoundTrip(es: seq<Entry3>)
    requires es != []
    requires forall i :: 0 <= i < |es| ==> Typable(es[i])
    ensures Entries(JoinLines(EntryLines(es))) == es
  {
    var lines := EntryLines(es);
    var content := JoinLines(lines);
    forall i | 0 <= i < |lines| ensures '\n' !in lines[i] {
      EntryLineNoBreak(es[i]);
    }
    JoinLinesFirst(lines);
    JoinLinesLast(lines);
    var last := EntryLine(es[|es| - 1]);
    assert last[|last| - 1] == if es[|es| - 1].2 == [] then '-' else es[|es| - 1].2[|es[|es| - 1].2| - 1];
    assert IsStripped(content);
    StripOfStripped(content);
    SplitJoinLines(lines);
    EntriesOfLines(lines, es);
  }

  /** The lines loop of `AddAccountDialog.apply`. */
  method CollectEntries(lines: seq<string>) returns (entries: seq<Entry3>)
    ensures entries == FilterMap(lines, EntryOfLine)
  {
    entries := [];
    var i := 0;
    while i < |lines|
      invariant 0 <= i <= |lines|
      invariant entries == FilterMap(lines[..i], EntryOfLine)
    {
      var step := ParseLine(lines[i]);
      FilterMapSnoc(lines, i, EntryOfLine);
      if step.Some? {
        entries := entries + [step.value];
      }
      assert entries == FilterMap(lines[..i + 1], EntryOfLine);
      i := i + 1;
    }
    assert lines[..i] == lines;
  }

  /** The body of the lines loop for one line. */
  method ParseLine(raw: string) returns (r: Option<Entry3>)
    ensures r == EntryOfLine(raw)
  {
    var line := Strip(raw);
    var first := SplitFirst(line);
    if first.None? {
      return None;
    }
    var parts := first.value;
    var account := Strip(parts.0);
    var password, others;
    var second := SplitFirst(parts.1);
    if second.Some? {
      password, others := Strip(second.value.0), Strip(second.value.1);
    } else {
      password, others := Strip(parts.1), [];
    }
    if account != [] && password != [] {
      return Some((account, password, others));
    }
    return None;
  }

  /** The state `AddAccountDialog` leaves for its caller. */
  class AddAccountDialog {
    /** `new_accounts_data`. */
    var newAccountsData: seq<Entry3>

    constructor ()
      ensures newAccountsData == []
    {
      newAccountsData := [];
    }

    /** `apply()`: the list is reset, then filled from the stripped text box content. */
    method Apply(content: string)
      modifies this
      ensures newAccountsData == Entries(content)
    {
      newAccountsData := [];
      var text := Strip(content);
      if text == [] {
        return;
      }
      newAccountsData := CollectEntries(SplitLines(text));
    }
  }

  // ---------------------------------------------------------------------
  // CustomRemarkDialog.apply
  // ---------------------------------------------------------------------

  /** `CustomRemarkDialog.apply`: the entered remark without surrounding whitespace. */
  function CustomRemark(entered: string): (r: string)
    ensures IsStripped(r)
    ensures forall c :: c in r ==> c in entered
    ensures IsStripped(entered) ==> r == entered
  {
    NoCharInStripAll(entered);
    if IsStripped(entered) then StripOfStripped(entered); Strip(entered) else
    Strip(entered)
  }

  lemma NoCharInStripAll(s: string)
    ensures forall c :: c in Strip(s) ==> c in s
  {
    forall c | c !in s ensures c !in Strip(s) {
      NoCharInStrip(s, c);
    }
  }

  /** Confirming a remark that is already trimmed keeps it, with any whitespace typed around it removed. */
  lemma CustomRemarkPadded(x: string, remark: string, y: string)
    requires forall i :: 0 <= i < |x| ==> IsSpace(x[i])
    requires forall i :: 0 <= i < |y| ==> IsSpace(y[i])
    requires remark != [] && IsStripped(remark)
    ensures CustomRemark(x + remark + y) == remark
  {
    StripPadded(x, remark, y);
  }

  /** Re-entering the remark the dialog produced gives it back unchanged. */
  lemma CustomRemarkIdempotent(entered: string)
    ensures CustomRemark(CustomRemark(entered)) == CustomRemark(entered)
  {
    StripIdempotent(entered);
  }
}
