/**
 * `AccountManagerApp` (main.py) as a class: the record list, the
 * "只显示可用" flag, the rows the tree view shows and the drag-selection state,
 * with one method per event handler or helper that changes them. Each method is
 * proved to leave the state that the value-level definitions of the modules
 * Records, Persistence, Store and Selection describe.
 *
 * Dialogs, files and message boxes become parameters and results: what the
 * user typed or picked is an argument, what a message box would report is the
 * returned outcome. The clock is the argument `now`, in whole seconds.
 */
module Manager {
  import opened Text
  import opened Records
  import opened Persistence
  import opened Store
  import opened Selection

  /** The columns of the tree view, in display order. */
  datatype Column =
    | SelectColumn | AccountColumn | PasswordColumn | StatusColumn
    | TimeColumn | RemarksColumn | ShortcutColumn

  /**
   * The cells `populate_treeview` writes for one record: the check box, the
   * account and password, the status, the available minute, the remark and
   * the remaining-time text.
   */
  datatype RowView = RowView(
    checked: bool,
    account: string,
    password: string,
    status: Status,
    minute: nat,
    remarks: string,
    shortcut: string)

  function RowViewOf(a: Account, now: nat): RowView
  {
    RowView(a.selected, a.account, a.password, StatusOf(a, now),
      ParsedMinute(a.availableTime), a.remarks, ShortcutText(a, now))
  }

  /** The two derived cells agree: the remaining-time text is empty exactly on the rows shown as "可用". */
  lemma RowViewAgrees(a: Account, now: nat)
    ensures var v := RowViewOf(a, now);
      (v.shortcut == "" <==> v.status == Available)
      && (v.status == Available <==> v.minute * SecondsPerMinute <= now)
  {
    RemainingTextEmpty(ParsedMinute(a.availableTime), now);
  }

  /** What `load_data` finds: no file, a file it cannot read or parse, or the stored entries. */
  datatype StoredFile = Missing | Unreadable | Entries(entries: seq<Entry>)

  datatype LoadOutcome = NoFile | LoadFailed | Loaded(count: nat)

  /** The records `load_data` leaves in `accounts_data` (before normalisation). */
  function LoadedAccounts(f: StoredFile, now: nat, c: TimeCodec): seq<Account>
  {
    match f
    case Entries(es) => (if LoadAll(es, now, c).Some? then LoadAll(es, now, c).value else [])
    case _ => []
  }

  /** The error message `load_data` shows, or the number of records it loaded. */
  function LoadOutcomeOf(f: StoredFile, now: nat, c: TimeCodec): LoadOutcome
  {
    match f
    case Missing => NoFile
    case Unreadable => LoadFailed
    case Entries(es) => (if LoadAll(es, now, c).Some? then Loaded(|es|) else LoadFailed)
  }

  /** A missing file and an unreadable one both leave the list empty, and a load reports every entry it read. */
  lemma LoadedAccountsFacts(f: StoredFile, now: nat, c: TimeCodec)
    ensures !f.Entries? ==> LoadedAccounts(f, now, c) == []
    ensures LoadOutcomeOf(f, now, c).Loaded? <==>
      f.Entries? && LoadAll(f.entries, now, c).Some? && |LoadedAccounts(f, now, c)| == |f.entries|
  {
  }

  /** The text file `import_txt` is asked to read: none chosen, one that cannot be opened, or its content. */
  datatype TextFile = Cancelled | Unopenable | Content(text: string)

  datatype ImportOutcome = ImportCancelled | ImportFailed | Imported(count: nat)
  datatype ManualOutcome = NoInput | Added(count: nat)
  datatype DeleteOutcome = NothingSelected | Declined | Deleted(count: nat)
  /** The file `export_txt` is asked to write: none chosen, one that cannot be written, or a writable one. */
  datatype ExportTarget = NotChosen | Unwritable | Writable
  datatype ExportOutcome = NoData | ExportCancelled | ExportFailed | Written(text: string)

  /**
   * The loop of `load_data` over the decoded entries: each is turned into a
   * record; the first one without a string account or password ends the
   * load with nothing loaded.
   */
  method ReadEntries(es: seq<Entry>, now: nat, c: TimeCodec) returns (r: Option<seq<Account>>)
    ensures r == LoadAll(es, now, c)
  {
    var loaded: seq<Account> := [];
    var i := 0;
    while i < |es|
      invariant 0 <= i <= |es| && |loaded| == i
      invariant forall j :: 0 <= j < i ==> LoadEntry(es[j], now, c).Some? && loaded[j] == LoadEntry(es[j], now, c).value
    {
      var e := LoadEntry(es[i], now, c);
      if e.None? {
        assert LoadAll(es, now, c).None?;
        return None;
      }
      loaded := loaded + [e.value];
      i := i + 1;
    }
    assert LoadAll(es, now, c).Some?;
    assert loaded == LoadAll(es, now, c).value;
    return Some(loaded);
  }

  /**
   * The loop of `filter_treeview`: every record normalised, and the rows of
   * those that pass the filter, in list order.
   */
  method NormalizeAndFilter(accounts: seq<Account>, show: bool, now: nat) returns (accs: seq<Account>, filtered: seq<nat>)
    ensures accs == NormalizeAll(accounts)
    ensures filtered == VisibleRows(accs, show, now)
  {
    accs := accounts;
    filtered := [];
    var i := 0;
    while i < |accs|
      invariant 0 <= i <= |accs| == |accounts|
      invariant forall j :: 0 <= j < i ==> accs[j] == Normalize(accounts[j])
      invariant forall j :: i <= j < |accs| ==> accs[j] == accounts[j]
      invariant filtered == VisibleUpTo(accounts, show, now, i)
    {
      var a := Normalize(accs[i]);
      NormalizeKeepsStatus(accounts[i], now);
      accs := accs[i := a];
      if Shown(a, show, now) {
        filtered := filtered + [i];
      }
      i := i + 1;
    }
    assert accs == NormalizeAll(accounts);
    VisibleRowsOfNormalized(accounts, show, now);
  }

  /** The writing loop of `export_txt`: one "account----password" line per record. */
  method ExportLines(accs: seq<Account>) returns (text: string)
    ensures text == ExportText(accs)
  {
    text := "";
    var i := 0;
    while i < |accs|
      invariant 0 <= i <= |accs|
      invariant text + ExportText(accs[i..]) == ExportText(accs)
    {
      assert accs[i..][1..] == accs[i + 1..];
      ghost var rest := ExportText(accs[i + 1..]);
      text := text + ExportLine(accs[i]);
      assert text + rest == ExportText(accs);
      i := i + 1;
    }
  }

  /** The loop of `populate_treeview`: one view per row, and the rows whose record is selected. */
  method RowViews(accounts: seq<Account>, rows: seq<nat>, now: nat) returns (views: seq<RowView>, reselect: seq<nat>)
    requires forall k :: 0 <= k < |rows| ==> rows[k] < |accounts|
    ensures |views| == |rows|
    ensures forall k :: 0 <= k < |rows| ==> views[k] == RowViewOf(Normalize(accounts[rows[k]]), now)
    ensures reselect == ReselectRows(accounts, rows)
  {
    views := [];
    reselect := [];
    var k := 0;
    while k < |rows|
      invariant 0 <= k <= |rows|
      invariant |views| == k
      invariant forall x :: 0 <= x < k ==> views[x] == RowViewOf(Normalize(accounts[rows[x]]), now)
      invariant reselect == ReselectRows(accounts, rows[..k])
    {
      ReselectSnoc(accounts, rows, k);
      var a := Normalize(accounts[rows[k]]);
      views := views + [RowViewOf(a, now)];
      if a.selected {
        reselect := reselect + [rows[k]];
      }
      k := k + 1;
    }
    assert rows[..k] == rows;
  }

  /** The loop of `clear_selection`: every record deselected. */
  method ClearFlags(accounts: seq<Account>) returns (accs: seq<Account>)
    ensures accs == ClearAll(accounts)
  {
    accs := accounts;
    var i := 0;
    while i < |accs|
      invariant 0 <= i <= |accs| == |accounts|
      invariant forall j :: 0 <= j < i ==> accs[j] == accounts[j].(selected := false)
      invariant forall j :: i <= j < |accs| ==> accs[j] == accounts[j]
    {
      accs := accs[i := accs[i].(selected := false)];
      i := i + 1;
    }
  }

  /** The first loop of `select_all_toggle`: whether every visible record is selected. */
  method AllChecked(accounts: seq<Account>, rows: seq<nat>) returns (all: bool)
    requires forall k :: 0 <= k < |rows| ==> rows[k] < |accounts|
    ensures all == AllSelected(accounts, rows)
  {
    all := true;
    var k := 0;
    while k < |rows|
      invariant 0 <= k <= |rows|
      invariant all <==> forall x :: 0 <= x < k ==> accounts[rows[x]].selected
    {
      if !accounts[rows[k]].selected {
        all := false;
      }
      k := k + 1;
    }
  }

  /** The second loop of `select_all_toggle`: every visible record gets `state`. */
  method SetRows(accounts: seq<Account>, rows: seq<nat>, state: bool) returns (accs: seq<Account>)
    requires forall k :: 0 <= k < |rows| ==> rows[k] < |accounts|
    ensures accs == SetEach(accounts, RowSet(rows), state)
  {
    accs := accounts;
    var k := 0;
    while k < |rows|
      invariant 0 <= k <= |rows|
      invariant |accs| == |accounts|
      invariant forall i :: 0 <= i < |accs| ==>
        accs[i] == (if i in rows[..k] then accounts[i].(selected := state) else accounts[i])
    {
      assert forall i :: i in rows[..k + 1] <==> i in rows[..k] || i == rows[k] by {
        assert rows[..k + 1] == rows[..k] + [rows[k]];
      }
      accs := accs[rows[k] := accs[rows[k]].(selected := state)];
      k := k + 1;
    }
    assert rows[..k] == rows;
  }

  /** The first loop of `delete_selected`: the pairs of the selected records, in list order. */
  method CollectSelected(accounts: seq<Account>) returns (sel: seq<(string, string)>)
    ensures sel == SelectedPairs(accounts)
  {
    sel := [];
    var i := 0;
    while i < |accounts|
      invariant 0 <= i <= |accounts|
      invariant sel == SelectedPairs(accounts[..i])
    {
      FilterMapSnoc(accounts, i, (a: Account) => if a.selected then Some(Pair(a)) else None);
      if accounts[i].selected {
        sel := sel + [Pair(accounts[i])];
      }
      i := i + 1;
    }
    assert accounts[..i] == accounts;
  }

  /** The rebuilding loop of `delete_selected`: the records whose pair is not in `sel`. */
  method RemovePairs(accounts: seq<Account>, sel: seq<(string, string)>) returns (kept: seq<Account>)
    ensures kept == WithoutPairs(accounts, sel)
  {
    kept := [];
    var i := 0;
    while i < |accounts|
      invariant 0 <= i <= |accounts|
      invariant kept == WithoutPairs(accounts[..i], sel)
    {
      FilterMapSnoc(accounts, i, (a: Account) => if Pair(a) in sel then None else Some(a));
      if Pair(accounts[i]) !in sel {
        kept := kept + [accounts[i]];
      }
      i := i + 1;
    }
    assert accounts[..i] == accounts;
  }

  /** The branches of `load_data` on what opening and decoding the file gives. */
  method ReadFile(file: StoredFile, now: nat, c: TimeCodec) returns (loaded: seq<Account>, outcome: LoadOutcome)
    ensures loaded == LoadedAccounts(file, now, c)
    ensures outcome == LoadOutcomeOf(file, now, c)
  {
    loaded := [];
    outcome := NoFile;
    match file {
      case Missing =>
      case Unreadable =>
        outcome := LoadFailed;
      case Entries(es) =>
        var r := ReadEntries(es, now, c);
        if r.Some? {
          loaded := r.value;
          outcome := Loaded(|es|);
        } else {
          outcome := LoadFailed;
        }
    }
  }

  /**
   * The lines `ManualAddAccountDialog._add_accounts` collects from the text
   * box: each stripped line that contains "----" and whose two stripped sides
   * are both non-empty, in input order.
   */
  method CollectManualPairs(text: string) returns (pairs: seq<(string, string)>)
    ensures pairs == ManualPairs(text)
  {
    pairs := CollectManualLines(SplitLines(Strip(text)));
  }

  /** The lines loop of `_add_accounts`. */
  method CollectManualLines(lines: seq<string>) returns (pairs: seq<(string, string)>)
    ensures pairs == FilterMap(lines, ManualLinePair)
  {
    pairs := [];
    var i := 0;
    while i < |lines|
      invariant 0 <= i <= |lines|
      invariant pairs == FilterMap(lines[..i], ManualLinePair)
    {
      var step := ManualLine(lines[i]);
      FilterMapSnoc(lines, i, ManualLinePair);
      if step.Some? {
        pairs := pairs + [step.value];
      }
      assert pairs == FilterMap(lines[..i + 1], ManualLinePair);
      i := i + 1;
    }
    assert lines[..i] == lines;
  }

  /** One line of `_add_accounts`: used only when both stripped sides of the first "----" are non-empty. */
  method ManualLine(raw: string) returns (r: Option<(string, string)>)
    ensures r == ManualLinePair(raw)
  {
    ManualLineStep(raw);
    var line := Strip(raw);
    if !ContainsSep(line) {
      return None;
    }
    var sides := SplitFirst(line).value;
    var account := Strip(sides.0);
    var password := Strip(sides.1);
    if account == [] || password == [] {
      return None;
    }
    return Some((account, password));
  }

  /** One line of `import_txt`: stripped, split at the first "----", both sides stripped. */
  method ImportLine(raw: string) returns (r: Option<(string, string)>)
    ensures r == ImportLinePair(raw)
  {
    ImportLineStep(raw);
    var line := Strip(raw);
    if !ContainsSep(line) {
      return None;
    }
    var sides := SplitFirst(line).value;
    return Some((Strip(sides.0), Strip(sides.1)));
  }

  /**
   * The lines loop of `import_txt`: every stripped line containing "----"
   * yields its two stripped sides, in line order.
   */
  method CollectImportPairs(lines: seq<string>) returns (pairs: seq<(string, string)>)
    ensures pairs == ImportPairs(lines)
  {
    pairs := [];
    var i := 0;
    while i < |lines|
      invariant 0 <= i <= |lines|
      invariant pairs == FilterMap(lines[..i], ImportLinePair)
    {
      var step := ImportLine(lines[i]);
      FilterMapSnoc(lines, i, ImportLinePair);
      if step.Some? {
        pairs := pairs + [step.value];
      }
      i := i + 1;
    }
    assert lines[..i] == lines;
  }

  /**
   * `_set_account_selection_state(acc, state)` for every record of `s`, one
   * after the other, as the loops of `on_tree_drag_motion` do.
   */
  method SetFlags(accs: seq<Account>, s: set<nat>, state: bool) returns (r: seq<Account>)
    requires forall i :: i in s ==> i < |accs|
    ensures r == SetEach(accs, s, state)
  {
    r := accs;
    var toDo := s;
    while toDo != {}
      invariant toDo <= s
      invariant |r| == |accs|
      invariant forall i :: 0 <= i < |r| ==>
        r[i] == (if i in s - toDo then accs[i].(selected := state) else accs[i])
      decreases toDo
    {
      var x :| x in toDo;
      r := r[x := r[x].(selected := state)];
      toDo := toDo - {x};
    }
  }

  /**
   * The two loops of `on_tree_drag_motion` once the anchor's position `p` and
   * the pointer's position `q` are known: the records of `last` outside the
   * new range get `!mode`, then those of the range get `mode`.
   */
  method DragStep(accs: seq<Account>, rows: seq<nat>, last: set<nat>, p: nat, q: nat, mode: bool)
    returns (r: seq<Account>, range: set<nat>)
    requires p < |rows| && q < |rows|
    requires forall k :: 0 <= k < |rows| ==> rows[k] < |accs|
    requires forall i :: i in last ==> i in rows
    ensures range == RowRange(rows, p, q)
    ensures forall i :: i in range ==> i in rows
    ensures r == DragMotion(accs, last, range, mode) && |r| == |accs|
  {
    range := RowRange(rows, p, q);
    RowRangeFacts(rows, p, q);
    forall i | i in range + last ensures i < |accs| {
      var k :| 0 <= k < |rows| && rows[k] == i;
    }
    r := SetFlags(accs, last - range, !mode);
    r := SetFlags(r, range, mode);
  }

  /**
   * The list edits of `apply_shortcut` once the new instant `t` is known:
   * record `k` is retimed, then the loop moves the first record with the same
   * pair to the front.
   */
  method ShortcutList(accs: seq<Account>, k: nat, t: nat) returns (r: seq<Account>)
    requires k < |accs|
    ensures r == Shortcut(accs, k, t)
  {
    r := accs[k := accs[k].(availableTime := At(MinuteOf(t)))];
    var j := 0;
    while Pair(r[j]) != Pair(r[k])
      invariant 0 <= j <= k
      invariant forall i :: 0 <= i < j ==> Pair(r[i]) != Pair(r[k])
      decreases k - j
    {
      j := j + 1;
    }
    assert j == FirstPairIndex(r, k);
    var moved := r[j];
    r := [moved] + (r[..j] + r[j + 1..]);
  }

  class AccountManager {
    /** `accounts_data`, in list order. */
    var accounts: seq<Account>
    /** `show_available_only_var`. */
    var showAvailableOnly: bool
    /** The rows of the tree view, each naming the record it shows by its index. */
    var rows: seq<nat>
    /** `_drag_start_item`: the record the drag started on. */
    var dragStart: Option<nat>
    /** `_last_selected_items_in_drag`. */
    var dragLast: set<nat>
    /** `_selection_mode_toggle`: the flag a drag gives to the rows it sweeps. */
    var dragMode: Option<bool>

    /**
     * Every row names a record, each record at most once and in list order; a
     * drag in progress starts on and sweeps only shown records.
     */
    ghost predicate Valid()
      reads this
    {
      && (forall k :: 0 <= k < |rows| ==> rows[k] < |accounts|)
      && StrictlyIncreasing(rows)
      && (dragStart.Some? <==> dragMode.Some?)
      && (dragStart.Some? ==> dragStart.value in rows)
      && (forall i :: i in dragLast ==> i in rows)
    }

    /** No drag in progress. */
    ghost predicate NoDrag()
      reads this
    {
      dragStart.None? && dragMode.None? && dragLast == {}
    }

    /** The view shows what `filter_treeview` computes at `now`, and no drag is under way. */
    ghost predicate Displayed(now: nat)
      reads this
    {
      rows == VisibleRows(accounts, showAvailableOnly, now) && NoDrag()
    }

    /** `__init__`: an empty list, the filter off, then `load_data`. */
    constructor (file: StoredFile, now: nat, c: TimeCodec)
      ensures Valid() && Displayed(now) && !showAvailableOnly
      ensures accounts == NormalizeAll(LoadedAccounts(file, now, c))
    {
      accounts := [];
      showAvailableOnly := false;
      rows := [];
      dragStart := None;
      dragLast := {};
      dragMode := None;
      new;
      var _ := LoadData(file, now, c);
    }

    // -------------------------------------------------------------------
    // Showing the records (filter_treeview, populate_treeview)
    // -------------------------------------------------------------------

    /**
     * `populate_treeview` over the current rows: the cells of each row and the
     * rows to mark selected, in row order.
     */
    method Populate(now: nat) returns (views: seq<RowView>, reselect: seq<nat>)
      requires forall k :: 0 <= k < |rows| ==> rows[k] < |accounts|
      ensures |views| == |rows|
      ensures forall k :: 0 <= k < |rows| ==> views[k] == RowViewOf(Normalize(accounts[rows[k]]), now)
      ensures reselect == ReselectRows(accounts, rows)
    {
      views, reselect := RowViews(accounts, rows, now);
    }

    /**
     * `filter_treeview`: normalises every record's time, keeps the rows that
     * pass the filter, in list order, and ends any drag. What it then hands to
     * `populate_treeview` is `Populate` on the new state.
     */
    method FilterTreeview(now: nat)
      modifies this
      ensures Valid() && Displayed(now)
      ensures accounts == NormalizeAll(old(accounts)) && showAvailableOnly == old(showAvailableOnly)
    {
      var accs, filtered := NormalizeAndFilter(accounts, showAvailableOnly, now);
      VisibleRowsFacts(accs, showAvailableOnly, now);
      accounts := accs;
      rows := filtered;
      dragStart := None;
      dragLast := {};
      dragMode := None;
    }

    /** The "只显示可用" check box: sets the flag and calls `filter_treeview`. */
    method SetShowAvailableOnly(value: bool, now: nat)
      requires Valid()
      modifies this
      ensures Valid() && Displayed(now) && showAvailableOnly == value
      ensures accounts == NormalizeAll(old(accounts))
    {
      showAvailableOnly := value;
      FilterTreeview(now);
    }

    // -------------------------------------------------------------------
    // Selection flags
    // -------------------------------------------------------------------

    /** `_set_account_selection_state(accounts[i], state)`. */
    method SetSelectionState(i: nat, state: bool)
      requires Valid() && i < |accounts|
      modifies this
      ensures Valid()
      ensures accounts == SetSelected(old(accounts), i, state)
      ensures rows == old(rows) && showAvailableOnly == old(showAvailableOnly)
      ensures dragStart == old(dragStart) && dragLast == old(dragLast) && dragMode == old(dragMode)
    {
      accounts := accounts[i := accounts[i].(selected := state)];
    }

    /** The loop that deselects every record of `accounts_data`. */
    method ClearSelection()
      requires Valid()
      modifies this
      ensures Valid()
      ensures accounts == ClearAll(old(accounts))
      ensures rows == old(rows) && showAvailableOnly == old(showAvailableOnly)
      ensures dragStart == old(dragStart) && dragLast == old(dragLast) && dragMode == old(dragMode)
    {
      var accs := ClearFlags(accounts);
      accounts := accs;
    }

    /**
     * `on_tree_button_press`. `row` is the position of the pressed row, `None`
     * for empty space; `modifier` is whether Ctrl or Cmd is held. The drag
     * state is reset; a press on empty space without a modifier deselects every
     * record; a press in the "选择" column toggles the record and starts a drag
     * whose mode is the record's new flag.
     */
    method Press(row: Option<nat>, column: Column, modifier: bool)
      requires Valid()
      requires row.Some? ==> row.value < |rows|
      modifies this
      ensures Valid()
      ensures rows == old(rows) && showAvailableOnly == old(showAvailableOnly)
      ensures row.None? ==> NoDrag() && accounts == (if modifier then old(accounts) else ClearAll(old(accounts)))
      ensures row.Some? && column != SelectColumn ==> NoDrag() && accounts == old(accounts)
      ensures row.Some? && column == SelectColumn ==>
        var a := old(rows)[row.value];
        var mode := !old(accounts)[a].selected;
        && accounts == SetSelected(old(accounts), a, mode)
        && dragStart == Some(a) && dragMode == Some(mode) && dragLast == {a}
    {
      dragStart := None;
      dragLast := {};
      dragMode := None;
      if row.None? {
        if !modifier {
          ClearSelection();
        }
        return;
      }
      if column == SelectColumn {
        var a := rows[row.value];
        var current := accounts[a].selected;
        SetSelectionState(a, !current);
        dragStart := Some(a);
        dragMode := Some(!current);
        dragLast := {a};
      }
    }

    /** The first position of record `i` among the rows: `all_visible_items.index(i)`. */
    method FindRow(i: nat) returns (p: Option<nat>)
      ensures p.None? <==> i !in rows
      ensures p.Some? ==> p.value == PositionOf(rows, i)
    {
      var k := 0;
      while k < |rows|
        invariant 0 <= k <= |rows|
        invariant forall x :: 0 <= x < k ==> rows[x] != i
      {
        if rows[k] == i {
          return Some(k);
        }
        k := k + 1;
      }
      return None;
    }

    /**
     * `on_tree_drag_motion` over the row at position `row` (`None` when the
     * pointer is not over a row). Within a drag, the records swept last time
     * but outside the new range get the opposite of the mode, then every record
     * of the range between the anchor's row and this one gets the mode.
     */
    method Motion(row: Option<nat>)
      requires Valid()
      requires row.Some? ==> row.value < |rows|
      modifies this
      ensures Valid()
      ensures rows == old(rows) && showAvailableOnly == old(showAvailableOnly)
      ensures dragStart == old(dragStart) && dragMode == old(dragMode)
      ensures old(dragStart).None? || row.None? ==> accounts == old(accounts) && dragLast == old(dragLast)
      ensures old(dragStart).Some? && row.Some? ==>
        var range := RowRange(rows, PositionOf(rows, old(dragStart).value), row.value);
        accounts == DragMotion(old(accounts), old(dragLast), range, old(dragMode).value)
        && dragLast == range
    {
      if dragStart.None? || row.None? {
        return;
      }
      var start := FindRow(dragStart.value);
      var accs, range := DragStep(accounts, rows, dragLast, start.value, row.value, dragMode.value);
      accounts, dragLast := accs, range;
    }

    /** `on_tree_button_release`: the drag ends. */
    method Release()
      requires Valid()
      modifies this
      ensures Valid() && NoDrag()
      ensures accounts == old(accounts) && rows == old(rows) && showAvailableOnly == old(showAvailableOnly)
    {
      dragStart := None;
      dragLast := {};
      dragMode := None;
    }

    /**
     * The selection part of `on_tree_right_click` on the row at position `row`:
     * outside the "备注" and "快捷" columns and without a modifier, only the
     * clicked record stays selected. The menus it then opens call `SetRemarks`
     * and `ApplyShortcut`.
     */
    method RightClick(row: Option<nat>, column: Column, modifier: bool)
      requires Valid()
      requires row.Some? ==> row.value < |rows|
      modifies this
      ensures Valid()
      ensures rows == old(rows) && showAvailableOnly == old(showAvailableOnly)
      ensures dragStart == old(dragStart) && dragLast == old(dragLast) && dragMode == old(dragMode)
      ensures row.Some? && column != RemarksColumn && column != ShortcutColumn && !modifier
        ==> accounts == SelectOnly(old(accounts), old(rows)[row.value])
      ensures row.None? || column == RemarksColumn || column == ShortcutColumn || modifier
        ==> accounts == old(accounts)
    {
      if row.None? {
        return;
      }
      var a := rows[row.value];
      if column != RemarksColumn && column != ShortcutColumn && !modifier {
        ClearSelection();
        SetSelectionState(a, true);
      }
    }

    /**
     * `select_all_toggle`: with no visible row nothing happens; otherwise every
     * visible record is deselected when all of them are selected, and selected
     * when some is not.
     */
    method SelectAllToggle()
      requires Valid()
      modifies this
      ensures Valid()
      ensures accounts == SelectAllToggled(old(accounts), old(rows))
      ensures rows == old(rows) && showAvailableOnly == old(showAvailableOnly)
      ensures dragStart == old(dragStart) && dragLast == old(dragLast) && dragMode == old(dragMode)
    {
      if rows == [] {
        return;
      }
      var all := AllChecked(accounts, rows);
      var accs := SetRows(accounts, rows, !all);
      accounts := accs;
    }

    // -------------------------------------------------------------------
    // Editing records
    // -------------------------------------------------------------------

    /** `set_remarks`: stores the text as typed or picked, then `filter_treeview`. */
    method SetRemarks(i: nat, text: string, now: nat)
      requires Valid() && i < |accounts|
      modifies this
      ensures Valid() && Displayed(now) && showAvailableOnly == old(showAvailableOnly)
      ensures accounts == NormalizeAll(old(accounts)[i := old(accounts)[i].(remarks := text)])
    {
      accounts := accounts[i := accounts[i].(remarks := text)];
      FilterTreeview(now);
    }

    /**
     * `apply_shortcut(accounts[k], action, hours, days)`. An unknown action
     * changes nothing, and so does a time past `datetime.max` (the addition
     * raises). Otherwise record `k` gets the new minute, the first record with
     * its pair moves to the front, and `filter_treeview` runs.
     */
    method ApplyShortcut(k: nat, action: string, days: nat, hours: nat, now: nat)
      requires Valid() && k < |accounts|
      modifies this
      ensures var t := ShortcutInstant(action, days, hours, now);
        t.None? || t.value > MaxSecond ==> unchanged(this)
      ensures var t := ShortcutInstant(action, days, hours, now);
        t.Some? && t.value <= MaxSecond ==>
          accounts == NormalizeAll(Shortcut(old(accounts), k, t.value)) && Displayed(now)
      ensures Valid() && showAvailableOnly == old(showAvailableOnly)
    {
      var t := ShortcutInstant(action, days, hours, now);
      if t.None? || t.value > MaxSecond {
        return;
      }
      var r := ShortcutList(accounts, k, t.value);
      accounts := r;
      FilterTreeview(now);
    }

    /**
     * `on_tree_double_click` on the row at position `row`: in "备注" the
     * remark becomes the entered text (`None` when the dialog is cancelled), in
     * "快捷" the record is reset to available now. Other columns do nothing.
     */
    method DoubleClick(row: Option<nat>, column: Column, entered: Option<string>, now: nat)
      requires Valid()
      requires row.Some? ==> row.value < |rows|
      modifies this
      ensures Valid() && showAvailableOnly == old(showAvailableOnly)
      ensures row.None? || (column != RemarksColumn && column != ShortcutColumn) ==> unchanged(this)
      ensures column == RemarksColumn && entered.None? ==> unchanged(this)
      ensures row.Some? && column == RemarksColumn && entered.Some? ==>
        var i := old(rows)[row.value];
        accounts == NormalizeAll(old(accounts)[i := old(accounts)[i].(remarks := entered.value)]) && Displayed(now)
      ensures column == ShortcutColumn && now > MaxSecond ==> unchanged(this)
      ensures row.Some? && column == ShortcutColumn && now <= MaxSecond ==>
        accounts == NormalizeAll(Shortcut(old(accounts), old(rows)[row.value], now)) && Displayed(now)
    {
      if row.None? {
        return;
      }
      var i := rows[row.value];
      if column == RemarksColumn {
        if entered.Some? {
          SetRemarks(i, entered.value, now);
        }
      } else if column == ShortcutColumn {
        ResetAvailable(i, now);
      }
    }

    /** `apply_shortcut(obj, "reset")`. */
    method ResetAvailable(i: nat, now: nat)
      requires Valid() && i < |accounts|
      modifies this
      ensures Valid() && showAvailableOnly == old(showAvailableOnly)
      ensures now > MaxSecond ==> unchanged(this)
      ensures now <= MaxSecond ==> accounts == NormalizeAll(Shortcut(old(accounts), i, now)) && Displayed(now)
    {
      ApplyShortcut(i, "reset", 0, 0, now);
    }

    // -------------------------------------------------------------------
    // Adding records
    // -------------------------------------------------------------------

    /**
     * `_add_new_account_entry(p.0, p.1)`: appends a fresh record unless one
     * with the same pair exists; reports whether it appended.
     */
    method AddNewEntry(p: (string, string), now: nat) returns (added: bool)
      requires Valid()
      modifies this
      ensures Valid()
      ensures added <==> !HasPair(old(accounts), p)
      ensures accounts == Store.AddEntry(old(accounts), p, now)
      ensures rows == old(rows) && showAvailableOnly == old(showAvailableOnly)
      ensures dragStart == old(dragStart) && dragLast == old(dragLast) && dragMode == old(dragMode)
    {
      var i := 0;
      while i < |accounts|
        invariant 0 <= i <= |accounts|
        invariant forall j :: 0 <= j < i ==> Pair(accounts[j]) != p
      {
        if accounts[i].account == p.0 && accounts[i].password == p.1 {
          return false;
        }
        i := i + 1;
      }
      accounts := accounts + [NewAccount(p, now)];
      return true;
    }

    /** Adds the pairs one by one and counts the records appended. */
    method AddAll(ps: seq<(string, string)>, now: nat) returns (count: nat)
      requires Valid()
      modifies this
      ensures Valid()
      ensures accounts == AddPairs(old(accounts), ps, now)
      ensures count == |accounts| - |old(accounts)|
      ensures rows == old(rows) && showAvailableOnly == old(showAvailableOnly)
      ensures dragStart == old(dragStart) && dragLast == old(dragLast) && dragMode == old(dragMode)
    {
      count := 0;
      var i := 0;
      while i < |ps|
        invariant 0 <= i <= |ps|
        invariant Valid()
        invariant accounts == AddPairs(old(accounts), ps[..i], now)
        invariant |old(accounts)| <= |accounts| && count == |accounts| - |old(accounts)|
        invariant rows == old(rows) && showAvailableOnly == old(showAvailableOnly)
        invariant dragStart == old(dragStart) && dragLast == old(dragLast) && dragMode == old(dragMode)
      {
        assert ps[..i + 1][..i] == ps[..i];
        var added := AddNewEntry(ps[i], now);
        if added {
          count := count + 1;
        }
        i := i + 1;
      }
      assert ps[..i] == ps;
    }

    /**
     * `import_txt`: every stripped line containing "----" offers its two
     * stripped sides to `_add_new_account_entry`; the number of records
     * appended is reported and `filter_treeview` runs. The content is split at
     * line breaks.
     */
    method ImportTxt(file: TextFile, now: nat) returns (outcome: ImportOutcome)
      requires Valid()
      modifies this
      ensures Valid() && showAvailableOnly == old(showAvailableOnly)
      ensures file.Cancelled? ==> unchanged(this) && outcome == ImportCancelled
      ensures file.Unopenable? ==> unchanged(this) && outcome == ImportFailed
      ensures file.Content? ==>
        accounts == NormalizeAll(AddPairs(old(accounts), ImportPairs(SplitLines(file.text)), now)) && Displayed(now)
      ensures file.Content? ==> outcome.Imported? && outcome.count == |accounts| - |old(accounts)|
    {
      if file.Cancelled? {
        return ImportCancelled;
      }
      if file.Unopenable? {
        return ImportFailed;
      }
      var pairs := CollectImportPairs(SplitLines(file.text));
      ghost var before := accounts;
      var count := AddAll(pairs, now);
      ghost var added := accounts;
      assert count == |added| - |before|;
      FilterTreeview(now);
      assert |accounts| == |added|;
      outcome := Imported(count);
    }

    /**
     * `manual_add_account_dialog`: `entered` is the text of the dialog when
     * "添加" is pressed, `None` when it is closed. Without a usable line
     * nothing happens; otherwise the pairs are added, the number appended is
     * reported and `filter_treeview` runs.
     */
    method ManualAdd(entered: Option<string>, now: nat) returns (outcome: ManualOutcome)
      requires Valid()
      modifies this
      ensures Valid() && showAvailableOnly == old(showAvailableOnly)
      ensures entered.None? || ManualPairs(entered.value) == [] ==> unchanged(this) && outcome == NoInput
      ensures entered.Some? && ManualPairs(entered.value) != [] ==>
        accounts == NormalizeAll(AddPairs(old(accounts), ManualPairs(entered.value), now)) && Displayed(now)
      ensures entered.Some? && ManualPairs(entered.value) != [] ==>
        outcome.Added? && outcome.count == |accounts| - |old(accounts)|
    {
      var pairs: seq<(string, string)> := [];
      if entered.Some? {
        pairs := CollectManualPairs(entered.value);
      }
      if pairs == [] {
        return NoInput;
      }
      var count := AddAll(pairs, now);
      ghost var added := accounts;
      FilterTreeview(now);
      assert |accounts| == |added|;
      return Added(count);
    }

    // -------------------------------------------------------------------
    // Deleting and exporting
    // -------------------------------------------------------------------

    /**
     * `delete_selected`: with no record selected nothing happens; when the
     * user confirms, every record whose pair belongs to a selected record is
     * removed, `filter_treeview` runs, and the number of selected records is
     * reported.
     */
    method DeleteSelected(confirm: bool, now: nat) returns (outcome: DeleteOutcome)
      requires Valid()
      modifies this
      ensures Valid() && showAvailableOnly == old(showAvailableOnly)
      ensures SelectedPairs(old(accounts)) == [] ==> unchanged(this) && outcome == NothingSelected
      ensures SelectedPairs(old(accounts)) != [] && !confirm ==> unchanged(this) && outcome == Declined
      ensures SelectedPairs(old(accounts)) != [] && confirm ==>
        var sel := SelectedPairs(old(accounts));
        accounts == NormalizeAll(WithoutPairs(old(accounts), sel)) && Displayed(now)
        && outcome == Deleted(|sel|)
    {
      var sel := CollectSelected(accounts);
      if sel == [] {
        return NothingSelected;
      }
      if !confirm {
        return Declined;
      }
      var kept := RemovePairs(accounts, sel);
      DeleteSelectedFacts(accounts);
      accounts := kept;
      FilterTreeview(now);
      return Deleted(|sel|);
    }

    /**
     * `export_txt`: nothing without records, before the file is asked for;
     * nothing when no file is chosen; an error when the file cannot be
     * written; otherwise one "account----password" line per record, in list
     * order. The records are untouched.
     */
    method ExportTxt(target: ExportTarget) returns (outcome: ExportOutcome)
      ensures accounts == [] ==> outcome == NoData
      ensures accounts != [] && target.NotChosen? ==> outcome == ExportCancelled
      ensures accounts != [] && target.Unwritable? ==> outcome == ExportFailed
      ensures accounts != [] && target.Writable? ==> outcome == Written(ExportText(accounts))
    {
      if accounts == [] {
        return NoData;
      }
      if target.NotChosen? {
        return ExportCancelled;
      }
      if target.Unwritable? {
        return ExportFailed;
      }
      var text := ExportLines(accounts);
      return Written(text);
    }

    // -------------------------------------------------------------------
    // Saving and loading
    // -------------------------------------------------------------------

    /** `save_data`: the entries handed to `json.dump`, one per record; the records themselves are untouched. */
    method SaveData(c: TimeCodec) returns (entries: seq<Entry>)
      requires Valid()
      ensures entries == SaveAll(accounts, c)
    {
      entries := [];
      var i := 0;
      while i < |accounts|
        invariant 0 <= i <= |accounts|
        invariant |entries| == i
        invariant forall j :: 0 <= j < i ==> entries[j] == SaveEntry(accounts[j], c)
      {
        entries := entries + [SaveEntry(accounts[i], c)];
        i := i + 1;
      }
    }

    /**
     * `load_data`: the stored entries become the record list, or the list is
     * emptied when the file is missing or one entry cannot be read; then
     * `filter_treeview` runs.
     */
    method LoadData(file: StoredFile, now: nat, c: TimeCodec) returns (outcome: LoadOutcome)
      modifies this
      ensures Valid() && Displayed(now) && showAvailableOnly == old(showAvailableOnly)
      ensures accounts == NormalizeAll(LoadedAccounts(file, now, c))
      ensures outcome == LoadOutcomeOf(file, now, c)
    {
      var loaded;
      loaded, outcome := ReadFile(file, now, c);
      accounts := loaded;
      rows := [];
      dragStart := None;
      dragLast := {};
      dragMode := None;
      FilterTreeview(now);
    }

    /** `refresh_treeview`: `load_data`, then `filter_treeview` once more. */
    method RefreshFromFile(file: StoredFile, now: nat, c: TimeCodec) returns (outcome: LoadOutcome)
      modifies this
      ensures Valid() && Displayed(now) && showAvailableOnly == old(showAvailableOnly)
      ensures accounts == NormalizeAll(LoadedAccounts(file, now, c))
      ensures outcome == LoadOutcomeOf(file, now, c)
    {
      outcome := LoadData(file, now, c);
      NormalizeAllIdempotent(LoadedAccounts(file, now, c));
      FilterTreeview(now);
    }
  }
}
