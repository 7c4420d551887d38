/**
 * The JSON boundary of `AccountManagerApp` (main.py): what `save_data` writes
 * for each record and how `load_data` turns a stored entry back into one.
 * The file is modelled as the sequence of entries (field maps) that
 * `json.dump` writes and `json.load` reads; the text layout of the file is not.
 */
module Persistence {
  import opened Text
  import opened Records

  /** One stored entry: the keys and values of one JSON object. */
  type Entry = map<string, Json>

  /**
   * The formatting and parsing of "%Y-%m-%d %H:%M": `format(m)` is strftime of
   * minute `m`, `parse(s)` is strptime, `None` when it raises ValueError.
   */
  datatype TimeCodec = TimeCodec(format: nat -> string, parse: string -> Option<nat>)

  /** strptime reads back what strftime writes, and never yields a minute past `datetime.max`. */
  ghost predicate Sound(c: TimeCodec)
  {
    && (forall m: nat :: m <= MaxMinute ==> c.parse(c.format(m)) == Some(m))
    && (forall s: string :: c.parse(s).Some? ==> c.parse(s).value <= MaxMinute)
  }

  // ---------------------------------------------------------------------
  // Remark code tables (REMARKS_TO_JSON, REMARKS_FROM_JSON)
  // ---------------------------------------------------------------------

  const BlankRemark: string := "空白"
  const Level1: string := "一级"
  const Level2: string := "二级"
  const Level10: string := "十级"

  /** A remark that the code tables carry through a save and a load. */
  predicate IsStandardRemark(r: string)
  {
    r == "" || r == Level1 || r == Level2 || r == Level10
  }

  /** `REMARKS_TO_JSON.get(remark, 0)`. */
  function RemarkCode(r: string): (code: int)
    ensures 0 <= code <= 3
    ensures code != 0 <==> r == Level1 || r == Level2 || r == Level10
  {
    if r == Level1 then 1
    else if r == Level2 then 2
    else if r == Level10 then 3
    else 0
  }

  /**
   * `REMARKS_FROM_JSON.get(value, '')`. Python looks the value up by equality,
   * so `true` finds the entry of 1 and `false` that of 0; a string finds nothing.
   */
  function RemarkLabel(j: Json): (r: string)
    ensures IsStandardRemark(r)
  {
    match j
    case JInt(1) => Level1
    case JInt(2) => Level2
    case JInt(3) => Level10
    case JBool(true) => Level1
    case _ => ""
  }

  /**
   * The remark code round trip: a remark comes back from its code exactly when
   * it is "", "一级", "二级" or "十级"; every other remark (including "空白")
   * comes back as "".
   */
  lemma RemarkRoundTrip(r: string)
    ensures RemarkLabel(JInt(RemarkCode(r))) == r <==> IsStandardRemark(r)
    ensures !IsStandardRemark(r) ==> RemarkLabel(JInt(RemarkCode(r))) == ""
    ensures RemarkLabel(JInt(RemarkCode(BlankRemark))) == ""
  {
  }

  /** The remark a record has after a save and a load. */
  function ReloadedRemark(r: string): (r': string)
    ensures r' == RemarkLabel(JInt(RemarkCode(r)))
  {
    if IsStandardRemark(r) then r else ""
  }

  // ---------------------------------------------------------------------
  // Entries
  // ---------------------------------------------------------------------

  /** What `save_data` writes for a stored time: the formatted text, or the raw rejected value. */
  function TimeToJson(t: AvailableTime, c: TimeCodec): Json
  {
    match t
    case At(m) => JStr(c.format(m))
    case Unparsed(j) => j
  }

  /** How a stored `available_time` value is read back. */
  function TimeFromJson(j: Json, c: TimeCodec): (t: AvailableTime)
    ensures t.Unparsed? ==> t.raw == j
  {
    match j
    case JStr(s) => (if c.parse(s).Some? then At(c.parse(s).value) else Unparsed(j))
    case _ => Unparsed(j)
  }

  /**
   * The entry `save_data` writes for one record: a copy without `tree_id`,
   * `selected_state` and `status`, whose remark is replaced by its code.
   */
  function SaveEntry(a: Account, c: TimeCodec): (e: Entry)
    ensures e.Keys == a.extra.Keys + {"account", "password", "available_time", "remarks"}
    ensures "selected_state" !in e && "tree_id" !in e && "status" !in e
    ensures e["remarks"] == JInt(RemarkCode(a.remarks))
    ensures forall k :: k in a.extra ==> e[k] == a.extra[k]
  {
    a.extra + map[
      "account" := JStr(a.account),
      "password" := JStr(a.password),
      "available_time" := TimeToJson(a.availableTime, c),
      "remarks" := JInt(RemarkCode(a.remarks))]
  }

  /** The list `save_data` hands to `json.dump`, one entry per record, in order. */
  function SaveAll(accs: seq<Account>, c: TimeCodec): (es: seq<Entry>)
    ensures |es| == |accs|
    ensures forall i :: 0 <= i < |accs| ==> es[i] == SaveEntry(accs[i], c)
  {
    seq(|accs|, i requires 0 <= i < |accs| => SaveEntry(accs[i], c))
  }

  /** Python's truth value of a stored `selected_state`. */
  function Truthy(j: Json): bool
  {
    match j
    case JStr(s) => s != ""
    case JInt(i) => i != 0
    case JBool(b) => b
    case JNull => false
  }

  /**
   * One entry as `load_data` leaves it: `selected_state` defaults to False,
   * `available_time` to now, the remark code is mapped back through the table,
   * and `id`, `shortcut`, `delay_days`, `delay_hours` and `status` are dropped.
   * An entry without a string account and password has no record (`None`).
   */
  function LoadEntry(e: Entry, now: nat, c: TimeCodec): (r: Option<Account>)
    ensures r.Some? <==> "account" in e && e["account"].JStr? && "password" in e && e["password"].JStr?
    ensures r.Some? ==> r.value.account == e["account"].s && r.value.password == e["password"].s
    ensures r.Some? ==> r.value.remarks == RemarkLabel(if "remarks" in e then e["remarks"] else JInt(0))
    ensures r.Some? ==> IsStandardRemark(r.value.remarks)
    ensures r.Some? && "selected_state" in e ==> r.value.selected == Truthy(e["selected_state"])
    ensures r.Some? && "selected_state" !in e ==> !r.value.selected
    ensures r.Some? && "available_time" in e ==> r.value.availableTime == TimeFromJson(e["available_time"], c)
    ensures r.Some? && "available_time" !in e ==> r.value.availableTime == At(MinuteOf(now))
    ensures r.Some? ==> r.value.extra.Keys == e.Keys - Reserved
    ensures r.Some? ==> forall k :: k in e && k !in Reserved ==> r.value.extra[k] == e[k]
  {
    if "account" in e && e["account"].JStr? && "password" in e && e["password"].JStr? then
      var selected := if "selected_state" in e then Truthy(e["selected_state"]) else false;
      var time := if "available_time" in e then TimeFromJson(e["available_time"], c) else At(MinuteOf(now));
      var remarks := RemarkLabel(if "remarks" in e then e["remarks"] else JInt(0));
      var extra := map k | k in e && k !in Reserved :: e[k];
      Some(Account(e["account"].s, e["password"].s, time, remarks, selected, extra))
    else None
  }

  /** All entries loaded in order, or `None` when one of them cannot be read. */
  function LoadAll(es: seq<Entry>, now: nat, c: TimeCodec): (r: Option<seq<Account>>)
    ensures r.Some? <==> forall i :: 0 <= i < |es| ==> LoadEntry(es[i], now, c).Some?
    ensures r.Some? ==> |r.value| == |es|
    ensures r.Some? ==> forall i :: 0 <= i < |es| ==> r.value[i] == LoadEntry(es[i], now, c).value
  {
    if es == [] then Some([])
    else
      match LoadEntry(es[0], now, c)
      case None => None
      case Some(a) =>
        match LoadAll(es[1..], now, c)
        case None => None
        case Some(rest) => Some([a] + rest)
  }

  // ---------------------------------------------------------------------
  // The save/load round trip
  // ---------------------------------------------------------------------

  /**
   * A record whose every field survives a save and a load: a formatted time
   * is one `datetime` can hold, and a rejected time is still rejected when
   * read back.
   */
  predicate Reloadable(a: Account, c: TimeCodec)
  {
    && (a.availableTime.At? ==> a.availableTime.minute <= MaxMinute)
    && (a.availableTime.Unparsed? && a.availableTime.raw.JStr? ==> c.parse(a.availableTime.raw.s).None?)
  }

  /** A record as it comes back from a save and a load. */
  function Reloaded(a: Account): Account
  {
    a.(remarks := ReloadedRemark(a.remarks), selected := false)
  }

  lemma SaveLoadEntry(a: Account, now: nat, c: TimeCodec)
    requires Sound(c) && Reloadable(a, c)
    ensures LoadEntry(SaveEntry(a, c), now, c) == Some(Reloaded(a))
  {
    var e := SaveEntry(a, c);
    var r := LoadEntry(e, now, c).value;
    assert r.availableTime == a.availableTime by {
      match a.availableTime
      case At(m) =>
        assert c.parse(c.format(m)) == Some(m);
      case Unparsed(j) =>
    }
    assert r.extra == a.extra;
  }

  /**
   * Save then load gives every record back in order, with its account,
   * password, time and extra keys unchanged, its remark mapped through the
   * code tables and its selection cleared.
   */
  lemma {:induction false} SaveLoadRoundTrip(accs: seq<Account>, now: nat, c: TimeCodec)
    requires Sound(c)
    requires forall i :: 0 <= i < |accs| ==> Reloadable(accs[i], c)
    ensures LoadAll(SaveAll(accs, c), now, c).Some?
    ensures var loaded := LoadAll(SaveAll(accs, c), now, c).value;
      |loaded| == |accs| && forall i :: 0 <= i < |accs| ==> loaded[i] == Reloaded(accs[i])
  {
    var es := SaveAll(accs, c);
    forall i | 0 <= i < |accs|
      ensures LoadEntry(es[i], now, c) == Some(Reloaded(accs[i]))
    {
      SaveLoadEntry(accs[i], now, c);
    }
  }

  /** A record whose remark is one of the standard labels reloads as itself apart from its selection. */
  lemma ReloadStandardRemark(a: Account)
    requires IsStandardRemark(a.remarks)
    ensures Reloaded(a) == a.(selected := false)
  {
  }
}
