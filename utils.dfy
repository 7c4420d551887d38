/**
 * The helpers of Program/utils.py that compute a value: the language key
 * chosen from the locale name (`get_system_language`) and the upper-case
 * initial-letter abbreviation of a text (`get_pinyin_initial_abbr`). The
 * locale query and the pypinyin dictionary are parameters.
 */
module Utils {
  import opened Text

  // ---------------------------------------------------------------------
  // get_system_language
  // ---------------------------------------------------------------------

  const ChineseKey: string := "Chinese"
  const EnglishKey: string := "en"

  predicate StartsWith(s: string, prefix: string)
  {
    |prefix| <= |s| && s[..|prefix|] == prefix
  }

  /**
   * `get_system_language` on the language name of `locale.getlocale()`:
   * no key when the name is absent or empty, "Chinese" for a name starting
   * with "Chinese", "en" for any other name.
   */
  function SystemLanguage(locale: Option<string>): (r: Option<string>)
    ensures r.None? <==> locale.None? || locale.value == []
    ensures r.Some? ==> r.value == ChineseKey || r.value == EnglishKey
  {
    if locale.None? || locale.value == [] then None
    else if StartsWith(locale.value, ChineseKey) then Some(ChineseKey)
    else Some(EnglishKey)
  }

  /** Every locale name that starts with "Chinese" selects the Chinese texts, whatever follows. */
  lemma ChineseLocale(rest: string)
    ensures SystemLanguage(Some(ChineseKey + rest)) == Some(ChineseKey)
  {
    assert (ChineseKey + rest)[..|ChineseKey|] == ChineseKey;
  }

  /** The Chinese texts are chosen only for a name starting with "Chinese"; any other non-empty name gives "en". */
  lemma OtherLocale(name: string)
    requires name != [] && !StartsWith(name, ChineseKey)
    ensures SystemLanguage(Some(name)) == Some(EnglishKey)
  {
  }

  /** A POSIX-style name such as "zh_CN" does not start with "Chinese" and so selects "en". */
  lemma PosixChineseLocale()
    ensures SystemLanguage(Some("zh_CN")) == Some(EnglishKey)
  {
    assert !StartsWith("zh_CN", ChineseKey);
  }

  // ---------------------------------------------------------------------
  // get_pinyin_initial_abbr
  // ---------------------------------------------------------------------

  /**
   * The pypinyin lookup of one character (`pinyin(c, style=FIRST_LETTER,
   * strict=False)`): the first string of its first reading, or `None` when
   * the result or its first reading is empty.
   */
  type Lookup = char -> Option<string>

  /** The piece one character contributes: its initial upper-cased, or the character itself upper-cased. */
  function Piece(lookup: Lookup, c: char): string
  {
    var found := lookup(c);
    if found.Some? then Upper(found.value) else Upper([c])
  }

  /** The pieces of the characters of `text`, in order. */
  function Pieces(lookup: Lookup, text: string): (ps: seq<string>)
    ensures |ps| == |text| && forall i :: 0 <= i < |text| ==> ps[i] == Piece(lookup, text[i])
  {
    seq(|text|, i requires 0 <= i < |text| => Piece(lookup, text[i]))
  }

  /** `''.join(ps)`. */
  function Concat(ps: seq<string>): string
  {
    if ps == [] then [] else ps[0] + Concat(ps[1..])
  }

  /** What `get_pinyin_initial_abbr(text)` returns. */
  function Abbreviation(lookup: Lookup, text: string): string
  {
    Concat(Pieces(lookup, text))
  }

  /** `get_pinyin_initial_abbr`: one piece per character, collected in a list and joined. */
  method PinyinInitialAbbr(text: string, lookup: Lookup) returns (r: string)
    ensures r == Abbreviation(lookup, text)
  {
    if text == [] {
      return "";
    }
    var initials: seq<string> := [];
    for i := 0 to |text|
      invariant |initials| == i
      invariant forall k :: 0 <= k < i ==> initials[k] == Piece(lookup, text[k])
    {
      var found := lookup(text[i]);
      if found.Some? {
        initials := initials + [Upper(found.value)];
      } else {
        initials := initials + [Upper([text[i]])];
      }
    }
    assert initials == Pieces(lookup, text);
    r := Concat(initials);
  }

  lemma {:induction false} ConcatAppend(xs: seq<string>, ys: seq<string>)
    ensures Concat(xs + ys) == Concat(xs) + Concat(ys)
  {
    if xs == [] {
      assert xs + ys == ys;
    } else {
      assert (xs + ys)[1..] == xs[1..] + ys;
      ConcatAppend(xs[1..], ys);
    }
  }

  /** The abbreviation of a text is the abbreviations of its parts, one after the other. */
  lemma AbbreviationAppend(lookup: Lookup, a: string, b: string)
    ensures Abbreviation(lookup, a + b) == Abbreviation(lookup, a) + Abbreviation(lookup, b)
  {
    assert Pieces(lookup, a + b) == Pieces(lookup, a) + Pieces(lookup, b);
    ConcatAppend(Pieces(lookup, a), Pieces(lookup, b));
  }

  /** The empty text has the empty abbreviation, and one character has its own piece. */
  lemma AbbreviationBase(lookup: Lookup, c: char)
    ensures Abbreviation(lookup, []) == []
    ensures Abbreviation(lookup, [c]) == Piece(lookup, c)
  {
    assert Pieces(lookup, [c]) == [Piece(lookup, c)];
    assert [Piece(lookup, c)][1..] == [];
  }

  /** The abbreviation is the first character's piece followed by the abbreviation of the rest. */
  lemma AbbreviationCons(lookup: Lookup, text: string)
    requires text != []
    ensures Abbreviation(lookup, text) == Piece(lookup, text[0]) + Abbreviation(lookup, text[1..])
  {
    assert Pieces(lookup, text)[1..] == Pieces(lookup, text[1..]);
  }

  /** A text none of whose characters has a reading is simply upper-cased. */
  lemma {:induction false} AbbreviationWithoutReadings(lookup: Lookup, text: string)
    requires forall i :: 0 <= i < |text| ==> lookup(text[i]).None?
    ensures Abbreviation(lookup, text) == Upper(text)
  {
    if text != [] {
      AbbreviationCons(lookup, text);
      AbbreviationWithoutReadings(lookup, text[1..]);
    }
  }

  /** With one-letter initials, as the first-letter style gives, the abbreviation has one letter per character. */
  lemma {:induction false} AbbreviationLength(lookup: Lookup, text: string)
    requires forall i :: 0 <= i < |text| ==> lookup(text[i]).Some? ==> |lookup(text[i]).value| == 1
    ensures |Abbreviation(lookup, text)| == |text|
  {
    if text != [] {
      AbbreviationCons(lookup, text);
      AbbreviationLength(lookup, text[1..]);
    }
  }
}
