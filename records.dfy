/**
 * One account record of `AccountManagerApp.accounts_data` (main.py) and the
 * rules that derive its status and its "快捷" (shortcut) column text from its
 * available time and the current time.
 *
 * Time: an available time is a minute count since 0001-01-01 00:00
 * (`datetime.min`), the precision of the stored format "%Y-%m-%d %H:%M";
 * "now" is a count of whole seconds since the same instant.
 */
module Records {
  import opened Text

  /** A JSON scalar as `json.load` yields it for the fields this program reads. */
  datatype Json = JStr(s: string) | JInt(i: int) | JBool(b: bool) | JNull

  /**
   * The stored `available_time`: `At(m)` is the text strftime writes for minute
   * `m`; `Unparsed(raw)` is a stored value strptime rejects (a malformed
   * string, or a value that is not a string at all).
   */
  datatype AvailableTime = At(minute: nat) | Unparsed(raw: Json)

  /**
   * The keys `load_data` removes or puts into a dedicated field, and the
   * transient keys `save_data` removes: none of them is kept in `extra`.
   */
  const Reserved: set<string> := {
    "account", "password", "available_time", "remarks", "selected_state",
    "tree_id", "status", "id", "shortcut", "delay_days", "delay_hours"}

  /**
   * The keys of a loaded entry that this program neither reads nor removes.
   * `load_data` drops or takes over every reserved key, so none is among them.
   */
  type Extra = m: map<string, Json> | m.Keys !! Reserved witness map[]

  /**
   * One entry of `accounts_data`. `selected` is the transient `selected_state`;
   * `extra` holds the keys of a loaded entry that this program neither reads nor
   * removes, which `save_data` writes back unchanged.
   */
  datatype Account = Account(
    account: string,
    password: string,
    availableTime: AvailableTime,
    remarks: string,
    selected: bool,
    extra: Extra)

  const SecondsPerMinute: nat := 60
  const SecondsPerHour: nat := 3600
  const SecondsPerDay: nat := 86400

  /** The last minute `datetime` can represent, 9999-12-31 23:59 (3652059 days after 0001-01-01). */
  const MaxMinute: nat := 3652059 * 1440 - 1
  /** The last whole second `datetime` can represent. */
  const MaxSecond: nat := (MaxMinute + 1) * 60 - 1

  /** The minute that a clock reading `t` (in seconds) is written as: strftime drops the seconds. */
  function MinuteOf(t: nat): (m: nat)
    ensures m * SecondsPerMinute <= t < m * SecondsPerMinute + SecondsPerMinute
  {
    t / SecondsPerMinute
  }

  /** The pair on which duplicates, shortcut matching and deletion are keyed. */
  function Pair(a: Account): (string, string)
  {
    (a.account, a.password)
  }

  // ---------------------------------------------------------------------
  // Status derivation and normalisation (_update_account_status_and_time)
  // ---------------------------------------------------------------------

  /** The minute strptime reads from the stored time; a rejected value reads as `datetime.min`. */
  function ParsedMinute(t: AvailableTime): nat
  {
    match t
    case At(m) => m
    case Unparsed(_) => 0
  }

  /** The stored time after `_update_account_status_and_time` rewrites it as formatted text. */
  function NormalizeTime(t: AvailableTime): (r: AvailableTime)
    ensures r.At?
    ensures r.minute == ParsedMinute(t)
    ensures t.At? ==> r == t
  {
    At(ParsedMinute(t))
  }

  /** The record after `_update_account_status_and_time(acc)` (without a new time). */
  function Normalize(a: Account): (r: Account)
    ensures r.availableTime.At? && r.availableTime.minute == ParsedMinute(a.availableTime)
    ensures r == a.(availableTime := r.availableTime)
  {
    a.(availableTime := NormalizeTime(a.availableTime))
  }

  /** The two values of the derived `status` field. */
  datatype Status = Available | Unavailable
  {
    /** The label shown in the status column and used as the row tag. */
    function Label(): string
    {
      match this
      case Available => "可用"
      case Unavailable => "不可用"
    }
  }

  predicate IsAvailable(a: Account, now: nat)
  {
    ParsedMinute(a.availableTime) * SecondsPerMinute <= now
  }

  /** The derived status: "可用" when the available time is not after now, else "不可用". */
  function StatusOf(a: Account, now: nat): (s: Status)
    ensures s == Available <==> IsAvailable(a, now)
  {
    if IsAvailable(a, now) then Available else Unavailable
  }

  /** Normalising twice is normalising once. */
  lemma NormalizeIdempotent(a: Account)
    ensures Normalize(Normalize(a)) == Normalize(a)
  {
  }

  /** Normalising keeps the derived status; a value strptime rejects is always available. */
  lemma NormalizeKeepsStatus(a: Account, now: nat)
    ensures StatusOf(Normalize(a), now) == StatusOf(a, now)
    ensures a.availableTime.Unparsed? ==> StatusOf(a, now) == Available
    ensures a.availableTime.Unparsed? ==> Normalize(a).availableTime == At(0)
  {
  }

  /** Status is monotone in time: once available, a record stays available as the clock advances. */
  lemma AvailableStaysAvailable(a: Account, now: nat, later: nat)
    requires now <= later
    requires StatusOf(a, now) == Available
    ensures StatusOf(a, later) == Available
  {
  }

  /** `_update_account_status_and_time` applied to every record, as `filter_treeview` does. */
  function NormalizeAll(accs: seq<Account>): (r: seq<Account>)
    ensures |r| == |accs|
    ensures forall i :: 0 <= i < |accs| ==> r[i] == Normalize(accs[i])
  {
    seq(|accs|, i requires 0 <= i < |accs| => Normalize(accs[i]))
  }

  lemma NormalizeAllIdempotent(accs: seq<Account>)
    ensures NormalizeAll(NormalizeAll(accs)) == NormalizeAll(accs)
  {
  }

  /** Every record's time is in the `At` form, as it is after any `filter_treeview`. */
  predicate AllNormalized(accs: seq<Account>)
  {
    forall i :: 0 <= i < |accs| ==> accs[i].availableTime.At?
  }

  lemma NormalizeAllNormalizes(accs: seq<Account>)
    ensures AllNormalized(NormalizeAll(accs))
    ensures AllNormalized(accs) ==> NormalizeAll(accs) == accs
  {
  }

  // ---------------------------------------------------------------------
  // The remaining-time text of the "快捷" column (populate_treeview)
  // ---------------------------------------------------------------------

  /**
   * For an available minute `m` after `now`, the whole days and the whole hours
   * of the part of a day (`timedelta.days` and `timedelta.seconds // 3600`) that
   * remain; `None` when nothing remains.
   */
  function Remaining(m: nat, now: nat): (r: Option<(nat, nat)>)
    ensures r.None? <==> m * SecondsPerMinute <= now
  {
    if m * SecondsPerMinute <= now then None
    else
      var left := m * SecondsPerMinute - now;
      Some((left / SecondsPerDay, (left % SecondsPerDay) / SecondsPerHour))
  }

  /**
   * The two components are the truncated ones: the hours are below 24, and
   * the remaining time lies in the hour-long span that starts `d` days and
   * `h` hours after now.
   */
  lemma RemainingSpan(m: nat, now: nat)
    requires now < m * SecondsPerMinute
    ensures Remaining(m, now).Some?
    ensures var (d, h) := Remaining(m, now).value;
      h < 24
      && now + d * SecondsPerDay + h * SecondsPerHour <= m * SecondsPerMinute
      && m * SecondsPerMinute < now + d * SecondsPerDay + h * SecondsPerHour + SecondsPerHour
  {
  }

  /** The span condition of `Remaining` pins down the days and the hours. */
  lemma RemainingUnique(m: nat, now: nat, d: nat, h: nat)
    requires h < 24 && now < m * SecondsPerMinute
    requires now + d * SecondsPerDay + h * SecondsPerHour <= m * SecondsPerMinute
    requires m * SecondsPerMinute < now + d * SecondsPerDay + h * SecondsPerHour + SecondsPerHour
    ensures Remaining(m, now) == Some((d, h))
  {
    var left := m * 60 - now;
    assert d * 86400 <= left < d * 86400 + 86400;
    assert left / 86400 == d;
    assert left % 86400 == left - d * 86400;
    assert h * 3600 <= left % 86400 < h * 3600 + 3600;
    assert (left % 86400) / 3600 == h;
  }

  const DaySuffix: string := "天"
  const HourSuffix: string := "小时"
  const UnderOneHour: string := "不足1小时"

  /** The shortcut column text for available minute `m` at `now`. */
  function RemainingText(m: nat, now: nat): string
  {
    var r := Remaining(m, now);
    if r.None? then ""
    else if r.value.0 > 0 then NatStr(r.value.0) + DaySuffix + NatStr(r.value.1) + HourSuffix
    else if r.value.1 > 0 then NatStr(r.value.1) + HourSuffix
    else UnderOneHour
  }

  /** The shortcut column text of a record, computed after normalisation as populate_treeview does. */
  function ShortcutText(a: Account, now: nat): string
  {
    RemainingText(ParsedMinute(a.availableTime), now)
  }

  /** The text is empty exactly when the record is available. */
  lemma RemainingTextEmpty(m: nat, now: nat)
    ensures RemainingText(m, now) == "" <==> m * SecondsPerMinute <= now
  {
  }

  /** With less than an hour left the text is "不足1小时", and only then. */
  lemma RemainingTextUnderOneHour(m: nat, now: nat)
    ensures RemainingText(m, now) == UnderOneHour
        <==> now < m * SecondsPerMinute < now + SecondsPerHour
  {
    var r := Remaining(m, now);
    if r.Some? {
      var (d, h) := r.value;
      if d > 0 || h > 0 {
        var t := RemainingText(m, now);
        assert IsDigit(t[0]);
        assert t != UnderOneHour by { assert !IsDigit(UnderOneHour[0]); }
      }
    }
  }

  /** With `h` whole hours (1 to 23) and no whole day left, the text is "{h}小时". */
  lemma RemainingTextHours(m: nat, now: nat, h: nat)
    requires 0 < h < 24
    requires now + h * SecondsPerHour <= m * SecondsPerMinute < now + h * SecondsPerHour + SecondsPerHour
    ensures RemainingText(m, now) == NatStr(h) + HourSuffix
  {
    RemainingUnique(m, now, 0, h);
  }

  /**
   * With `d >= 1` whole days and `h` hours (0 to 23) left, the text is
   * "{d}天{h}小时", the hours written even when they are 0.
   */
  lemma RemainingTextDays(m: nat, now: nat, d: nat, h: nat)
    requires 0 < d && h < 24
    requires now + d * SecondsPerDay + h * SecondsPerHour <= m * SecondsPerMinute
    requires m * SecondsPerMinute < now + d * SecondsPerDay + h * SecondsPerHour + SecondsPerHour
    ensures RemainingText(m, now) == NatStr(d) + DaySuffix + NatStr(h) + HourSuffix
  {
    RemainingUnique(m, now, d, h);
  }
}
