/**
 * Resolution of a font's full name from the font's `name` table
 * (`get_font_name` in rename-file-name-to-title.py).
 *
 * The font container parser and the UTF-16-BE decoder are not modelled:
 * a font is given as the parser's view of it (`FontData`), and every
 * record carries its text already decoded, or `None` when its bytes do
 * not decode.
 */
module FontNames {
  import opened Wrappers

  /** nameID of the "full font name" record of the OpenType `name` table. */
  const FullNameId: int := 4
  /** platformID of the Windows platform. */
  const WindowsPlatformId: int := 3

  /** One record of a `name` table; `text` is None when the bytes are not valid UTF-16-BE. */
  datatype NameRecord = NameRecord(nameID: int, platformID: int, text: Option<string>)

  /**
   * What the font parser makes of a file: nothing (`Unparsable`), or a font
   * whose `name` table may be missing (a lookup that raises in the source).
   */
  datatype FontData = Unparsable | Font(nameTable: Option<seq<NameRecord>>)

  predicate IsFullNameRecord(r: NameRecord) {
    r.nameID == FullNameId && r.platformID == WindowsPlatformId
  }

  /** `i` is the first record, in table order, that is the Windows full name. */
  predicate IsFirstFullName(records: seq<NameRecord>, i: int) {
    0 <= i < |records| && IsFullNameRecord(records[i]) &&
    forall j :: 0 <= j < i ==> !IsFullNameRecord(records[j])
  }

  /** Linear search from position `k` for the first Windows full-name record. */
  function FindFullNameFrom(records: seq<NameRecord>, k: nat): (r: Option<nat>)
    requires k <= |records|
    ensures r.Some? ==> k <= r.value < |records| && IsFullNameRecord(records[r.value])
    ensures r.Some? ==> forall j :: k <= j < r.value ==> !IsFullNameRecord(records[j])
    ensures r.None? ==> forall j :: k <= j < |records| ==> !IsFullNameRecord(records[j])
    decreases |records| - k
  {
    if k == |records| then None
    else if IsFullNameRecord(records[k]) then Some(k)
    else FindFullNameFrom(records, k + 1)
  }

  /** The search over a whole table finds exactly the first full-name record, if any. */
  function FindFullName(records: seq<NameRecord>): (r: Option<nat>)
    ensures r.Some? <==> exists i :: IsFirstFullName(records, i)
    ensures r.Some? ==> IsFirstFullName(records, r.value)
  {
    var r := FindFullNameFrom(records, 0);
    if r.None? then r
    else
      assert IsFirstFullName(records, r.value);
      r
  }

  // ---------------------------------------------------------------------------
  // Python's `str.split(sep)` and `str.strip()`

  /** Index of the first occurrence of `c` in `s`. */
  function IndexOf(s: string, c: char): (i: nat)
    requires c in s
    ensures i < |s| && s[i] == c && c !in s[..i]
  {
    if s[0] == c then 0 else 1 + IndexOf(s[1..], c)
  }

  /** Python's `s.split(sep)` for a one-character separator. */
  function Split(s: string, sep: char): (parts: seq<string>)
    ensures |parts| >= 1
    ensures forall i :: 0 <= i < |parts| ==> sep !in parts[i]
    decreases |s|
  {
    if sep !in s then [s]
    else
      var i := IndexOf(s, sep);
      [s[..i]] + Split(s[i + 1..], sep)
  }

  /** Python's `sep.join(parts)`. */
  function Join(parts: seq<string>, sep: char): string
    requires |parts| >= 1
  {
    if |parts| == 1 then parts[0] else parts[0] + [sep] + Join(parts[1..], sep)
  }

  /** Splitting at the first separator: the text before it, then the split of the rest. */
  lemma SplitAtFirst(s: string, sep: char)
    requires sep in s
    ensures Split(s, sep) == [s[..IndexOf(s, sep)]] + Split(s[IndexOf(s, sep) + 1..], sep)
  {
  }

  /** Splitting loses nothing: joining the parts with the separator gives back the text. */
  lemma {:induction false} JoinSplit(s: string, sep: char)
    ensures Join(Split(s, sep), sep) == s
    decreases |s|
  {
    if sep in s {
      var i := IndexOf(s, sep);
      var rest := Split(s[i + 1..], sep);
      SplitAtFirst(s, sep);
      JoinSplit(s[i + 1..], sep);
      assert Join([s[..i]] + rest, sep) == s[..i] + [sep] + Join(rest, sep) by {
        assert ([s[..i]] + rest)[1..] == rest;
      }
      assert s[..i] + [sep] + s[i + 1..] == s by {
        assert s[i] == sep;
      }
    }
  }

  /** Python's `s.split(sep)[-1]`. */
  function LastSegment(s: string, sep: char): (r: string)
    ensures sep !in r
  {
    var parts := Split(s, sep);
    parts[|parts| - 1]
  }

  /**
   * The last segment is the text after the last separator: it holds no
   * separator, and when the text holds one, a separator stands right before it.
   */
  lemma {:induction false} LastSegmentFollowsLastSeparator(s: string, sep: char)
    ensures var last := LastSegment(s, sep);
      sep !in last && |last| <= |s| && last == s[|s| - |last|..] &&
      (sep !in s ==> last == s) &&
      (sep in s ==> |last| < |s| && s[|s| - |last| - 1] == sep)
    decreases |s|
  {
    if sep in s {
      var i := IndexOf(s, sep);
      var rest := s[i + 1..];
      LastSegmentFollowsLastSeparator(rest, sep);
      assert LastSegment(s, sep) == LastSegment(rest, sep);
    }
  }

  /** Python's `str.isspace()` for one character (Unicode White_Space minus U+180E and U+200B). */
  predicate IsSpace(c: char) {
    ('\U{9}' <= c <= '\U{D}') || ('\U{1C}' <= c <= '\U{20}') ||
    c == '\U{85}' || c == '\U{A0}' || c == '\U{1680}' ||
    ('\U{2000}' <= c <= '\U{200A}') || c == '\U{2028}' || c == '\U{2029}' ||
    c == '\U{202F}' || c == '\U{205F}' || c == '\U{3000}'
  }

  /** Python's `s.lstrip()`: drops the leading whitespace. */
  function TrimStart(s: string): (r: string)
    ensures |r| <= |s| && r == s[|s| - |r|..]
    ensures forall i :: 0 <= i < |s| - |r| ==> IsSpace(s[i])
    ensures r != [] ==> !IsSpace(r[0])
  {
    if s != [] && IsSpace(s[0]) then TrimStart(s[1..]) else s
  }

  /** Python's `s.rstrip()`: drops the trailing whitespace. */
  function TrimEnd(s: string): (r: string)
    ensures |r| <= |s| && r == s[..|r|]
    ensures forall i :: |r| <= i < |s| ==> IsSpace(s[i])
    ensures r != [] ==> !IsSpace(r[|r| - 1])
  {
    if s != [] && IsSpace(s[|s| - 1]) then TrimEnd(s[..|s| - 1]) else s
  }

  /** `r` is the slice of `s` at offset `a`, and all of `s` outside that slice is whitespace. */
  predicate IsTrimmedSlice(s: string, a: int, r: string) {
    0 <= a <= a + |r| <= |s| && r == s[a..a + |r|] &&
    (forall i :: 0 <= i < a ==> IsSpace(s[i])) &&
    (forall i :: a + |r| <= i < |s| ==> IsSpace(s[i]))
  }

  /**
   * Python's `s.strip()`: the result is a slice of `s` that neither starts nor
   * ends with whitespace, and everything cut off on either side is whitespace.
   */
  function Strip(s: string): (r: string)
    ensures exists a :: IsTrimmedSlice(s, a, r)
    ensures r != [] ==> !IsSpace(r[0]) && !IsSpace(r[|r| - 1])
  {
    var t := TrimStart(s);
    var r := TrimEnd(t);
    var a := |s| - |t|;
    assert IsTrimmedSlice(s, a, r);
    r
  }

  // ---------------------------------------------------------------------------
  // get_font_name

  /**
   * The post-processing of a decoded full name: text holding a `;` is cut to
   * what follows the last `;`, stripped of whitespace; any other text is kept
   * exactly as decoded.
   */
  function ResolveFullName(decoded: string): (r: string)
    ensures ';' !in decoded ==> r == decoded
    ensures ';' in decoded ==> ';' !in r
    ensures ';' in decoded ==>
      (exists i :: 0 <= i < |decoded| && decoded[i] == ';' &&
        ';' !in decoded[i + 1..] && r == Strip(decoded[i + 1..]))
  {
    if ';' in decoded then
      LastSegmentFollowsLastSeparator(decoded, ';');
      var last := LastSegment(decoded, ';');
      var r := Strip(last);
      assert ';' !in r by {
        forall c | c in r ensures c != ';' {
          var k :| 0 <= k < |r| && r[k] == c;
          assert r[k] in last;
        }
      }
      assert decoded[|decoded| - |last| - 1] == ';';
      r
    else decoded
  }

  /**
   * `get_font_name`: the resolved text of the first Windows full-name record;
   * None when the file does not parse, has no `name` table, has no such
   * record, or that record does not decode. It never fails otherwise.
   */
  function GetFontName(font: FontData): (r: Option<string>)
    ensures r.Some? <==>
      (font.Font? && font.nameTable.Some? &&
       exists i :: IsFirstFullName(font.nameTable.value, i) && font.nameTable.value[i].text.Some?)
    ensures font.Font? && font.nameTable.Some? ==>
      forall i :: IsFirstFullName(font.nameTable.value, i) && font.nameTable.value[i].text.Some? ==>
        r == Some(ResolveFullName(font.nameTable.value[i].text.value))
  {
    match font
    case Unparsable => None
    case Font(None) => None
    case Font(Some(records)) =>
      match FindFullName(records)
      case None => None
      case Some(i) =>
        match records[i].text
        case None => None
        case Some(decoded) => Some(ResolveFullName(decoded))
  }

  /**
   * Whatever precedes the last `;`, the resolved name is the text after it,
   * stripped: for `prefix + ";" + tail` with no `;` in `tail`, it is `Strip(tail)`.
   */
  lemma ResolveAfterLastSemicolon(prefix: string, tail: string)
    requires ';' !in tail
    ensures ResolveFullName(prefix + [';'] + tail) == Strip(tail)
  {
    var d := prefix + [';'] + tail;
    assert d[|prefix|] == ';';
    assert d[|prefix| + 1..] == tail;
  }

  /** Text made of whitespace only strips to the empty text. */
  lemma StripAllSpace(s: string)
    requires forall i :: 0 <= i < |s| ==> IsSpace(s[i])
    ensures Strip(s) == []
  {
  }

  /**
   * A name that is only whitespace after its last `;` (as in "Foo;   ")
   * resolves to the empty text.
   */
  lemma ResolveBlankTail(prefix: string, tail: string)
    requires forall i :: 0 <= i < |tail| ==> IsSpace(tail[i])
    ensures ResolveFullName(prefix + [';'] + tail) == ""
  {
    assert ';' !in tail by {
      forall k | 0 <= k < |tail| ensures tail[k] != ';' {
        assert IsSpace(tail[k]);
      }
    }
    ResolveAfterLastSemicolon(prefix, tail);
    StripAllSpace(tail);
  }
}
