/**
 * The record-list operations of `AccountManagerApp` (main.py) stated on
 * values: adding with duplicate rejection, the two text parsers that feed it,
 * the shortcut time adjustment with its move to the front, deletion of the
 * selected records, the export line format and the visible-row projection.
 * The class in manager.dfy runs these as the source does, step by step, and is
 * proved to compute exactly these values.
 */
module Store {
  import opened Text
  import opened Records

  // ---------------------------------------------------------------------
  // Keeping the defined results of a partial map, in order
  // ---------------------------------------------------------------------

  /** The values `f` yields over `xs`, in the order of `xs`, skipping the `None`s. */
  function FilterMap<A, B>(xs: seq<A>, f: A -> Option<B>): (r: seq<B>)
    ensures |r| <= |xs|
  {
    if xs == [] then []
    else
      var init := FilterMap(xs[..|xs| - 1], f);
      match f(xs[|xs| - 1])
      case Some(y) => init + [y]
      case None => init
  }

  /** FilterMap distributes over concatenation: the output keeps the input order, line by line. */
  lemma {:induction false} FilterMapAppend<A, B>(xs: seq<A>, ys: seq<A>, f: A -> Option<B>)
    ensures FilterMap(xs + ys, f) == FilterMap(xs, f) + FilterMap(ys, f)
    decreases |ys|
  {
    if ys == [] {
      assert xs + ys == xs;
    } else {
      var n := |ys| - 1;
      assert (xs + ys)[..|xs + ys| - 1] == xs + ys[..n];
      assert (xs + ys)[|xs + ys| - 1] == ys[n];
      FilterMapAppend(xs, ys[..n], f);
    }
  }

  /** Extending the input by one element extends the output by that element's value, if any. */
  lemma FilterMapSnoc<A, B>(xs: seq<A>, i: nat, f: A -> Option<B>)
    requires i < |xs|
    ensures FilterMap(xs[..i + 1], f)
      == FilterMap(xs[..i], f) + (if f(xs[i]).Some? then [f(xs[i]).value] else [])
  {
    assert xs[..i + 1][..i] == xs[..i];
  }

  /** One input element contributes its value when `f` yields one, and nothing otherwise. */
  lemma FilterMapSingle<A, B>(x: A, f: A -> Option<B>)
    ensures FilterMap([x], f) == if f(x).Some? then [f(x).value] else []
  {
    assert [x][..0] == [];
  }

  /** A value is in the output exactly when some input element yields it. */
  lemma {:induction false} FilterMapMember<A, B>(xs: seq<A>, f: A -> Option<B>, y: B)
    ensures y in FilterMap(xs, f) <==> exists i :: 0 <= i < |xs| && f(xs[i]) == Some(y)
  {
    if xs != [] {
      var n := |xs| - 1;
      FilterMapMember(xs[..n], f, y);
      if exists i :: 0 <= i < |xs| && f(xs[i]) == Some(y) {
        var i :| 0 <= i < |xs| && f(xs[i]) == Some(y);
        if i < n { assert xs[..n][i] == xs[i]; }
      }
      if exists i :: 0 <= i < n && f(xs[..n][i]) == Some(y) {
        var i :| 0 <= i < n && f(xs[..n][i]) == Some(y);
        assert xs[i] == xs[..n][i];
      }
    }
  }

  // ---------------------------------------------------------------------
  // Adding records (_add_new_account_entry)
  // ---------------------------------------------------------------------

  /** Some record has this (account, password) pair. */
  predicate HasPair(accs: seq<Account>, p: (string, string))
  {
    exists i :: 0 <= i < |accs| && Pair(accs[i]) == p
  }

  /** No two records share an (account, password) pair. */
  predicate NoDupPairs(accs: seq<Account>)
  {
    forall i, j :: 0 <= i < j < |accs| ==> Pair(accs[i]) != Pair(accs[j])
  }

  /** A record as `_add_new_account_entry` creates it: available now, no remark, not selected. */
  function NewAccount(p: (string, string), now: nat): (a: Account)
    ensures Pair(a) == p && a.remarks == "" && !a.selected && a.extra == map[]
    ensures a.availableTime == At(MinuteOf(now)) && StatusOf(a, now) == Available
  {
    Account(p.0, p.1, At(MinuteOf(now)), "", false, map[])
  }

  /** The list after `_add_new_account_entry(p.0, p.1)`: appended only when the pair is new. */
  function AddEntry(accs: seq<Account>, p: (string, string), now: nat): seq<Account>
  {
    if HasPair(accs, p) then accs else accs + [NewAccount(p, now)]
  }

  /** The list after adding the pairs one after the other. */
  function AddPairs(accs: seq<Account>, ps: seq<(string, string)>, now: nat): (r: seq<Account>)
    ensures |accs| <= |r| <= |accs| + |ps|
  {
    if ps == [] then accs else AddEntry(AddPairs(accs, ps[..|ps| - 1], now), ps[|ps| - 1], now)
  }

  /**
   * Adding keeps the old records as a prefix, appends only fresh default
   * records, ends with every given pair present and no other new pair, and
   * never creates a duplicate pair.
   */
  lemma AddPairsFacts(accs: seq<Account>, ps: seq<(string, string)>, now: nat)
    ensures var r := AddPairs(accs, ps, now);
      |accs| <= |r| <= |accs| + |ps| && r[..|accs|] == accs
    ensures var r := AddPairs(accs, ps, now);
      forall i :: |accs| <= i < |r| ==> r[i] == NewAccount(Pair(r[i]), now) && Pair(r[i]) in ps
    ensures var r := AddPairs(accs, ps, now);
      forall p :: HasPair(r, p) <==> HasPair(accs, p) || p in ps
    ensures NoDupPairs(accs) ==> NoDupPairs(AddPairs(accs, ps, now))
  {
    AddPairsPrefix(accs, ps, now);
    AddPairsHas(accs, ps, now);
    if NoDupPairs(accs) {
      AddPairsNoDup(accs, ps, now);
    }
  }

  /** The pairs of a non-empty list are those of all but its last element, and the last one. */
  lemma PairsSnoc(ps: seq<(string, string)>)
    requires ps != []
    ensures forall q :: q in ps <==> q in ps[..|ps| - 1] || q == ps[|ps| - 1]
  {
    assert ps == ps[..|ps| - 1] + [ps[|ps| - 1]];
  }

  lemma {:induction false} AddPairsPrefix(accs: seq<Account>, ps: seq<(string, string)>, now: nat)
    ensures var r := AddPairs(accs, ps, now);
      r[..|accs|] == accs
      && forall i :: |accs| <= i < |r| ==> r[i] == NewAccount(Pair(r[i]), now) && Pair(r[i]) in ps
  {
    if ps != [] {
      var init := ps[..|ps| - 1];
      var p := ps[|ps| - 1];
      AddPairsPrefix(accs, init, now);
      PairsSnoc(ps);
      var s := AddPairs(accs, init, now);
      if !HasPair(s, p) {
        var r := s + [NewAccount(p, now)];
        assert r[..|accs|] == s[..|accs|];
      }
    }
  }

  /** After `AddEntry` the pairs present are the old ones and the added one. */
  lemma AddEntryHas(s: seq<Account>, p: (string, string), now: nat)
    ensures forall q :: HasPair(AddEntry(s, p, now), q) <==> HasPair(s, q) || q == p
  {
    if !HasPair(s, p) {
      var r := s + [NewAccount(p, now)];
      forall q ensures HasPair(r, q) <==> HasPair(s, q) || q == p {
        if HasPair(s, q) {
          var i :| 0 <= i < |s| && Pair(s[i]) == q;
          assert Pair(r[i]) == q;
        }
        if q == p { assert Pair(r[|s|]) == q; }
        if HasPair(r, q) {
          var i :| 0 <= i < |r| && Pair(r[i]) == q;
          if i < |s| { assert Pair(s[i]) == q; }
        }
      }
    }
  }

  lemma {:induction false} AddPairsHas(accs: seq<Account>, ps: seq<(string, string)>, now: nat)
    ensures forall p :: HasPair(AddPairs(accs, ps, now), p) <==> HasPair(accs, p) || p in ps
  {
    if ps != [] {
      var init := ps[..|ps| - 1];
      AddPairsHas(accs, init, now);
      AddEntryHas(AddPairs(accs, init, now), ps[|ps| - 1], now);
      PairsSnoc(ps);
    }
  }

  lemma {:induction false} AddPairsNoDup(accs: seq<Account>, ps: seq<(string, string)>, now: nat)
    requires NoDupPairs(accs)
    ensures NoDupPairs(AddPairs(accs, ps, now))
  {
    if ps != [] {
      var init := ps[..|ps| - 1];
      var p := ps[|ps| - 1];
      AddPairsNoDup(accs, init, now);
      var s := AddPairs(accs, init, now);
      if !HasPair(s, p) {
        var r := s + [NewAccount(p, now)];
        forall i, j | 0 <= i < j < |r| ensures Pair(r[i]) != Pair(r[j]) {
          if j == |s| {
            assert Pair(r[i]) == Pair(s[i]);
          }
        }
      }
    }
  }

  /** Adding a pair that is already present leaves the list as it is; a new pair is appended. */
  lemma AddEntryDuplicate(accs: seq<Account>, p: (string, string), now: nat)
    ensures HasPair(accs, p) ==> AddEntry(accs, p, now) == accs
    ensures !HasPair(accs, p) ==> AddEntry(accs, p, now) == accs + [NewAccount(p, now)]
  {
  }

  /**
   * Duplicates are keyed on the pair: the same account with another password
   * is a distinct record and is appended.
   */
  lemma SameAccountOtherPassword(account: string, pw1: string, pw2: string, now: nat)
    requires pw1 != pw2
    ensures AddPairs([], [(account, pw1), (account, pw2)], now)
      == [NewAccount((account, pw1), now), NewAccount((account, pw2), now)]
    ensures AddPairs([], [(account, pw1), (account, pw1)], now) == [NewAccount((account, pw1), now)]
  {
    var once := [NewAccount((account, pw1), now)];
    assert [(account, pw1), (account, pw2)][..1] == [(account, pw1)];
    assert [(account, pw1), (account, pw1)][..1] == [(account, pw1)];
    assert AddPairs([], [(account, pw1)], now) == once;
    assert Pair(once[0]) == (account, pw1);
    assert !HasPair(once, (account, pw2));
  }

  // ---------------------------------------------------------------------
  // Line parsers: import_txt and ManualAddAccountDialog._add_accounts
  // ---------------------------------------------------------------------

  /**
   * One line of an imported TXT file: after `strip()`, a line containing
   * "----" is split at its first occurrence and both sides are stripped.
   * Empty sides are kept.
   */
  function ImportLinePair(line: string): (r: Option<(string, string)>)
    ensures r.None? <==> !ContainsSep(Strip(line))
    ensures r.Some? ==> IsStripped(r.value.0) && IsStripped(r.value.1)
  {
    var sides := SplitFirst(Strip(line));
    if sides.None? then None else Some((Strip(sides.value.0), Strip(sides.value.1)))
  }

  /** The steps of the import loop for one line. */
  lemma ImportLineStep(line: string)
    ensures ContainsSep(Strip(line)) ==> SplitFirst(Strip(line)).Some?
    ensures ContainsSep(Strip(line)) ==>
      ImportLinePair(line) == Some((Strip(SplitFirst(Strip(line)).value.0), Strip(SplitFirst(Strip(line)).value.1)))
    ensures !ContainsSep(Strip(line)) ==> ImportLinePair(line).None?
  {
  }

  /** The pairs an imported file offers to `_add_new_account_entry`, in line order. */
  function ImportPairs(lines: seq<string>): seq<(string, string)>
  {
    FilterMap(lines, ImportLinePair)
  }

  /**
   * One line of the manual-entry box: as for import, but the line is kept only
   * when both stripped sides are non-empty.
   */
  function ManualLinePair(line: string): Option<(string, string)>
  {
    var r := ImportLinePair(line);
    if r.Some? && r.value.0 != [] && r.value.1 != [] then r else None
  }

  /** The steps of the `_add_accounts` loop for one line. */
  lemma ManualLineStep(line: string)
    ensures ContainsSep(Strip(line)) ==> SplitFirst(Strip(line)).Some?
    ensures ManualLinePair(line).Some? <==>
      (ContainsSep(Strip(line)) && Strip(SplitFirst(Strip(line)).value.0) != [] && Strip(SplitFirst(Strip(line)).value.1) != [])
    ensures ManualLinePair(line).Some? ==>
      ManualLinePair(line).value == (Strip(SplitFirst(Strip(line)).value.0), Strip(SplitFirst(Strip(line)).value.1))
  {
  }

  /** The pairs `_add_accounts` collects from the text box: the stripped text split at line breaks. */
  function ManualPairs(text: string): seq<(string, string)>
  {
    FilterMap(SplitLines(Strip(text)), ManualLinePair)
  }

  /** Every pair `_add_accounts` keeps has two non-empty stripped sides, taken from some line. */
  lemma ManualPairsWellFormed(text: string, p: (string, string))
    requires p in ManualPairs(text)
    ensures p.0 != [] && p.1 != [] && IsStripped(p.0) && IsStripped(p.1)
    ensures '\n' !in p.0 && '\n' !in p.1
  {
    var lines := SplitLines(Strip(text));
    FilterMapMember(lines, ManualLinePair, p);
    var i :| 0 <= i < |lines| && ManualLinePair(lines[i]) == Some(p);
    var l := Strip(lines[i]);
    NoCharInStrip(lines[i], '\n');
    var (a, b) := SplitFirst(l).value;
    NoCharInParts(l, a, b, '\n');
    NoCharInStrip(a, '\n');
    NoCharInStrip(b, '\n');
  }

  // ---------------------------------------------------------------------
  // Export (export_txt) and its round trip through import
  // ---------------------------------------------------------------------

  /** The line `export_txt` writes for one record. */
  function ExportLine(a: Account): string
  {
    a.account + Sep + a.password + "\n"
  }

  /** Everything `export_txt` writes: one line per record, in list order. */
  function ExportText(accs: seq<Account>): string
  {
    if accs == [] then [] else ExportLine(accs[0]) + ExportText(accs[1..])
  }

  function Pairs(accs: seq<Account>): (ps: seq<(string, string)>)
    ensures |ps| == |accs| && forall i :: 0 <= i < |accs| ==> ps[i] == Pair(accs[i])
  {
    seq(|accs|, i requires 0 <= i < |accs| => Pair(accs[i]))
  }

  lemma PairsCons(a: Account, rest: seq<Account>)
    ensures Pairs([a] + rest) == [Pair(a)] + Pairs(rest)
  {
    var l := Pairs([a] + rest);
    var r := [Pair(a)] + Pairs(rest);
    assert |l| == |r|;
    forall i | 0 <= i < |l| ensures l[i] == r[i] {
      if i > 0 { assert ([a] + rest)[i] == rest[i - 1]; }
    }
  }

  /**
   * A record whose line reads back as its own pair: the account neither
   * contains "----" nor ends with '-', and neither field has surrounding
   * whitespace or a line break.
   */
  predicate Exportable(a: Account)
  {
    && !ContainsSep(a.account)
    && (a.account == [] || a.account[|a.account| - 1] != '-')
    && IsStripped(a.account) && IsStripped(a.password)
    && '\n' !in a.account && '\n' !in a.password
  }

  lemma ExportLineReadsBack(a: Account)
    requires Exportable(a)
    ensures ImportLinePair(a.account + Sep + a.password) == Some(Pair(a))
  {
    JoinReadsBack(a.account, a.password);
  }

  lemma JoinReadsBack(x: string, y: string)
    requires !ContainsSep(x) && (x == [] || x[|x| - 1] != '-') && IsStripped(x) && IsStripped(y)
    ensures ImportLinePair(x + Sep + y) == Some((x, y))
  {
    SplitFirstOfStrippedJoin(x, y);
    StripOfStripped(x);
    StripOfStripped(y);
  }

  /**
   * Importing an exported file yields the exported (account, password) pairs
   * in the same order.
   */
  lemma {:induction false} ExportImportRoundTrip(accs: seq<Account>)
    requires forall i :: 0 <= i < |accs| ==> Exportable(accs[i])
    ensures ImportPairs(SplitLines(ExportText(accs))) == Pairs(accs)
  {
    if accs == [] {
      ImportOfEmpty();
    } else {
      var rest := accs[1..];
      assert accs == [accs[0]] + rest;
      assert forall i :: 0 <= i < |rest| ==> Exportable(rest[i]) by {
        forall i | 0 <= i < |rest| ensures Exportable(rest[i]) { assert rest[i] == accs[i + 1]; }
      }
      ExportImportRoundTrip(rest);
      ImportOfExportCons(accs[0], rest);
      PairsCons(accs[0], rest);
    }
  }

  lemma ImportOfEmpty()
    ensures ImportPairs(SplitLines([])) == []
  {
    assert SplitLines([]) == [[]];
    FilterMapSingle([], ImportLinePair);
    assert !ContainsSep(Strip([]));
  }

  lemma ImportOfExportCons(a: Account, rest: seq<Account>)
    requires Exportable(a)
    ensures ImportPairs(SplitLines(ExportText([a] + rest)))
      == [Pair(a)] + ImportPairs(SplitLines(ExportText(rest)))
  {
    var x := a.account + Sep + a.password;
    assert '\n' !in x;
    assert ([a] + rest)[1..] == rest;
    assert ExportText([a] + rest) == x + "\n" + ExportText(rest);
    SplitLinesCons(x, ExportText(rest));
    FilterMapAppend([x], SplitLines(ExportText(rest)), ImportLinePair);
    FilterMapSingle(x, ImportLinePair);
    ExportLineReadsBack(a);
  }

  // ---------------------------------------------------------------------
  // Shortcut adjustment (apply_shortcut)
  // ---------------------------------------------------------------------

  /** The new available instant (seconds) of a shortcut action, `None` for an unknown action. */
  function ShortcutInstant(action: string, days: nat, hours: nat, now: nat): (t: Option<nat>)
    ensures action == "reset" ==> t == Some(now)
    ensures action == "delta" ==> t == Some(now + days * SecondsPerDay + hours * SecondsPerHour)
    ensures t.Some? ==> now <= t.value
    ensures action != "reset" && action != "delta" ==> t.None?
  {
    if action == "reset" then Some(now)
    else if action == "delta" then Some(now + days * SecondsPerDay + hours * SecondsPerHour)
    else None
  }

  /** The first index whose record has the same pair as record `k`. */
  function FirstPairIndex(s: seq<Account>, k: nat): (j: nat)
    requires k < |s|
    ensures j <= k && Pair(s[j]) == Pair(s[k])
    ensures forall i :: 0 <= i < j ==> Pair(s[i]) != Pair(s[k])
  {
    FirstPairFrom(s, k, 0)
  }

  function FirstPairFrom(s: seq<Account>, k: nat, from: nat): (j: nat)
    requires from <= k < |s|
    requires forall i :: 0 <= i < from ==> Pair(s[i]) != Pair(s[k])
    ensures from <= j <= k && Pair(s[j]) == Pair(s[k])
    ensures forall i :: 0 <= i < j ==> Pair(s[i]) != Pair(s[k])
    decreases k - from
  {
    if Pair(s[from]) == Pair(s[k]) then from else FirstPairFrom(s, k, from + 1)
  }

  /** `accounts_data.insert(0, accounts_data.pop(j))`. */
  function MoveToFront<T>(s: seq<T>, j: nat): (r: seq<T>)
    requires j < |s|
    ensures |r| == |s| && r[0] == s[j]
    ensures forall i :: 0 <= i < j ==> r[i + 1] == s[i]
    ensures forall i :: j < i < |s| ==> r[i] == s[i]
    ensures multiset(r) == multiset(s)
  {
    assert s == s[..j] + [s[j]] + s[j + 1..];
    [s[j]] + s[..j] + s[j + 1..]
  }

  /**
   * The list after `apply_shortcut(accs[k], ...)` with new instant `t`: record
   * `k` gets minute `t` (seconds dropped), then the first record with the same
   * pair moves to the front.
   */
  function Shortcut(accs: seq<Account>, k: nat, t: nat): seq<Account>
    requires k < |accs|
  {
    var updated := accs[k := accs[k].(availableTime := At(MinuteOf(t)))];
    MoveToFront(updated, FirstPairIndex(updated, k))
  }

  /**
   * The shortcut keeps the length and the records (as a multiset, with record
   * `k` retimed), and puts in front a record with `k`'s pair. When pairs are
   * unique that record is `k` itself, retimed, and every other record keeps
   * its relative order.
   */
  lemma ShortcutFacts(accs: seq<Account>, k: nat, t: nat)
    requires k < |accs|
    ensures var r := Shortcut(accs, k, t);
      |r| == |accs| && Pair(r[0]) == Pair(accs[k])
      && multiset(r) == multiset(accs[k := accs[k].(availableTime := At(MinuteOf(t)))])
    ensures NoDupPairs(accs) ==>
      var r := Shortcut(accs, k, t);
      r[0] == accs[k].(availableTime := At(MinuteOf(t))) && r[1..] == accs[..k] + accs[k + 1..]
  {
    var updated := accs[k := accs[k].(availableTime := At(MinuteOf(t)))];
    var j := FirstPairIndex(updated, k);
    if NoDupPairs(accs) {
      assert Pair(updated[j]) == Pair(accs[j]);
      assert j == k;
      var r := Shortcut(accs, k, t);
      assert r[1..] == updated[..k] + updated[k + 1..];
      assert updated[..k] == accs[..k];
      assert updated[k + 1..] == accs[k + 1..];
    }
  }

  /**
   * "reset" makes the record available now; a positive "delta" makes it
   * unavailable now, until its new time.
   */
  lemma ShortcutStatus(accs: seq<Account>, k: nat, action: string, days: nat, hours: nat, now: nat)
    requires k < |accs| && NoDupPairs(accs)
    requires ShortcutInstant(action, days, hours, now).Some?
    ensures var r := Shortcut(accs, k, ShortcutInstant(action, days, hours, now).value);
      (action == "reset" ==> StatusOf(r[0], now) == Available)
      && (action == "delta" && (days > 0 || hours > 0) ==> StatusOf(r[0], now) == Unavailable)
  {
    ShortcutFacts(accs, k, ShortcutInstant(action, days, hours, now).value);
  }

  /** A zero "delta" sets the same time as "reset". */
  lemma ZeroDeltaIsReset(accs: seq<Account>, k: nat, now: nat)
    requires k < |accs|
    ensures ShortcutInstant("delta", 0, 0, now) == ShortcutInstant("reset", 0, 0, now)
  {
  }

  // ---------------------------------------------------------------------
  // Deleting the selected records (delete_selected)
  // ---------------------------------------------------------------------

  /** `[(acc['account'], acc['password']) for acc in accounts_data if acc['selected_state']]`. */
  function SelectedPairs(accs: seq<Account>): seq<(string, string)>
  {
    FilterMap(accs, (a: Account) => if a.selected then Some(Pair(a)) else None)
  }

  /** The records whose pair is not among `ps`, in their original order. */
  function WithoutPairs(accs: seq<Account>, ps: seq<(string, string)>): seq<Account>
  {
    FilterMap(accs, (a: Account) => if Pair(a) in ps then None else Some(a))
  }

  /**
   * Deletion removes exactly the records whose pair belongs to a selected
   * record: every selected record, and every record sharing its pair, is gone;
   * every other record stays, and the kept ones keep their order.
   */
  lemma DeleteSelectedFacts(accs: seq<Account>)
    ensures var sel := SelectedPairs(accs);
      forall p :: p in sel <==> exists i :: 0 <= i < |accs| && accs[i].selected && Pair(accs[i]) == p
    ensures var r := WithoutPairs(accs, SelectedPairs(accs));
      forall a :: a in r <==> a in accs && Pair(a) !in SelectedPairs(accs)
    ensures var r := WithoutPairs(accs, SelectedPairs(accs));
      forall i :: 0 <= i < |r| ==> !r[i].selected
    ensures SelectedPairs(accs) == [] ==> WithoutPairs(accs, SelectedPairs(accs)) == accs
  {
    var sel := SelectedPairs(accs);
    var fs := (a: Account) => if a.selected then Some(Pair(a)) else None;
    var fk := (a: Account) => if Pair(a) in sel then None else Some(a);
    forall p ensures p in sel <==> exists i :: 0 <= i < |accs| && accs[i].selected && Pair(accs[i]) == p {
      FilterMapMember(accs, fs, p);
    }
    forall a ensures a in WithoutPairs(accs, sel) <==> a in accs && Pair(a) !in sel {
      FilterMapMember(accs, fk, a);
    }
    var r := WithoutPairs(accs, sel);
    forall i | 0 <= i < |r| ensures !r[i].selected {
      assert r[i] in r;
      FilterMapMember(accs, fk, r[i]);
      var j :| 0 <= j < |accs| && fk(accs[j]) == Some(r[i]);
      if accs[j].selected {
        FilterMapMember(accs, fs, Pair(accs[j]));
      }
    }
    if sel == [] {
      KeepAll(accs, fk);
    }
  }

  lemma {:induction false} KeepAll(accs: seq<Account>, f: Account -> Option<Account>)
    requires forall i :: 0 <= i < |accs| ==> f(accs[i]) == Some(accs[i])
    ensures FilterMap(accs, f) == accs
  {
    if accs != [] {
      var n := |accs| - 1;
      KeepAll(accs[..n], f);
      assert accs == accs[..n] + [accs[n]];
    }
  }

  /** Deleting keeps the surviving records in order: it distributes over concatenation. */
  lemma DeleteKeepsOrder(xs: seq<Account>, ys: seq<Account>, ps: seq<(string, string)>)
    ensures WithoutPairs(xs + ys, ps) == WithoutPairs(xs, ps) + WithoutPairs(ys, ps)
  {
    FilterMapAppend(xs, ys, (a: Account) => if Pair(a) in ps then None else Some(a));
  }

  // ---------------------------------------------------------------------
  // The visible rows (filter_treeview / populate_treeview)
  // ---------------------------------------------------------------------

  /** A record passes the "只显示可用" filter: the filter is off, or the record is available. */
  predicate Shown(a: Account, showAvailableOnly: bool, now: nat)
  {
    !showAvailableOnly || StatusOf(a, now) == Available
  }

  predicate StrictlyIncreasing(rows: seq<nat>)
  {
    forall x, y :: 0 <= x < y < |rows| ==> rows[x] < rows[y]
  }

  /**
   * The indices of the first `n` records that pass the filter, in list order:
   * the rows `filter_treeview` hands to `populate_treeview`.
   */
  function VisibleUpTo(accs: seq<Account>, show: bool, now: nat, n: nat): (rows: seq<nat>)
    requires n <= |accs|
    ensures forall x :: 0 <= x < |rows| ==> rows[x] < n
  {
    if n == 0 then []
    else
      var init := VisibleUpTo(accs, show, now, n - 1);
      if Shown(accs[n - 1], show, now) then init + [n - 1] else init
  }

  function VisibleRows(accs: seq<Account>, show: bool, now: nat): (rows: seq<nat>)
    ensures forall x :: 0 <= x < |rows| ==> rows[x] < |accs|
  {
    VisibleUpTo(accs, show, now, |accs|)
  }

  /**
   * The first `n` visible rows are the indices below `n` of the records that
   * pass the filter, each once, in increasing (list) order.
   */
  lemma VisibleUpToFacts(accs: seq<Account>, show: bool, now: nat, n: nat)
    requires n <= |accs|
    ensures var rows := VisibleUpTo(accs, show, now, n);
      StrictlyIncreasing(rows) && forall i :: 0 <= i < n ==> (i in rows <==> Shown(accs[i], show, now))
  {
    VisibleUpToIncreasing(accs, show, now, n);
    VisibleUpToMembers(accs, show, now, n);
  }

  lemma {:induction false} VisibleUpToIncreasing(accs: seq<Account>, show: bool, now: nat, n: nat)
    requires n <= |accs|
    ensures StrictlyIncreasing(VisibleUpTo(accs, show, now, n))
  {
    if n > 0 {
      VisibleUpToIncreasing(accs, show, now, n - 1);
    }
  }

  lemma {:induction false} VisibleUpToMembers(accs: seq<Account>, show: bool, now: nat, n: nat)
    requires n <= |accs|
    ensures forall i :: 0 <= i < n ==> (i in VisibleUpTo(accs, show, now, n) <==> Shown(accs[i], show, now))
  {
    if n > 0 {
      VisibleUpToMembers(accs, show, now, n - 1);
      var init := VisibleUpTo(accs, show, now, n - 1);
      assert n - 1 !in init;
    }
  }

  /** The visible rows are the records that pass the filter, in list order. */
  lemma VisibleRowsFacts(accs: seq<Account>, show: bool, now: nat)
    ensures var rows := VisibleRows(accs, show, now);
      StrictlyIncreasing(rows) && forall i :: 0 <= i < |accs| ==> (i in rows <==> Shown(accs[i], show, now))
  {
    VisibleUpToFacts(accs, show, now, |accs|);
  }

  /** The visible rows depend only on which of the first `n` records pass the filter. */
  lemma {:induction false} VisibleUpToAgree(a: seq<Account>, b: seq<Account>, show: bool, now: nat, n: nat)
    requires n <= |a| && n <= |b|
    requires forall j :: 0 <= j < n ==> (Shown(a[j], show, now) <==> Shown(b[j], show, now))
    ensures VisibleUpTo(a, show, now, n) == VisibleUpTo(b, show, now, n)
  {
    if n > 0 {
      VisibleUpToAgree(a, b, show, now, n - 1);
    }
  }

  /** Normalising the records does not change which ones are shown. */
  lemma VisibleRowsOfNormalized(accs: seq<Account>, show: bool, now: nat)
    ensures VisibleRows(NormalizeAll(accs), show, now) == VisibleUpTo(accs, show, now, |accs|)
  {
    var n := NormalizeAll(accs);
    forall j | 0 <= j < |accs| ensures Shown(accs[j], show, now) <==> Shown(n[j], show, now) {
      NormalizeKeepsStatus(accs[j], now);
    }
    VisibleUpToAgree(accs, n, show, now, |accs|);
  }

  /** With the filter off every record is shown, in list order. */
  lemma {:induction false} AllRowsWhenUnfiltered(accs: seq<Account>, now: nat, n: nat)
    requires n <= |accs|
    ensures VisibleUpTo(accs, false, now, n) == seq(n, i => i)
  {
    if n > 0 {
      AllRowsWhenUnfiltered(accs, now, n - 1);
    }
  }

  /** One more row extends the rows to reselect by that row when its record is selected. */
  lemma ReselectSnoc(accs: seq<Account>, rows: seq<nat>, k: nat)
    requires k < |rows| && forall x :: 0 <= x < |rows| ==> rows[x] < |accs|
    ensures ReselectRows(accs, rows[..k + 1])
      == ReselectRows(accs, rows[..k]) + (if accs[rows[k]].selected then [rows[k]] else [])
  {
    assert rows[..k + 1][..k] == rows[..k];
  }

  /** The rows among `rows` whose record is selected: `items_to_reselect_in_ui`. */
  function ReselectRows(accs: seq<Account>, rows: seq<nat>): (r: seq<nat>)
    requires forall x :: 0 <= x < |rows| ==> rows[x] < |accs|
    ensures |r| <= |rows|
  {
    if rows == [] then []
    else
      var init := ReselectRows(accs, rows[..|rows| - 1]);
      var last := rows[|rows| - 1];
      if accs[last].selected then init + [last] else init
  }

  /** The rows to reselect are exactly the shown rows whose record is selected. */
  lemma {:induction false} ReselectRowsFacts(accs: seq<Account>, rows: seq<nat>)
    requires forall x :: 0 <= x < |rows| ==> rows[x] < |accs|
    ensures forall i :: i in ReselectRows(accs, rows) <==> i in rows && accs[i].selected
  {
    if rows != [] {
      var last := rows[|rows| - 1];
      ReselectRowsFacts(accs, rows[..|rows| - 1]);
      assert rows == rows[..|rows| - 1] + [last];
    }
  }

}
