/**
 * File-name arithmetic of rename-file-name-to-title.py: Python's
 * `os.path.splitext` on a directory entry's name, the set of font extensions,
 * and the names `move_failed_font` tries in the failure directory
 * (`name`, then `root_1ext`, `root_2ext`, ...) with its first-free-slot search.
 *
 * Names are the plain entry names `os.listdir` returns; they hold no `/`.
 */
module FileNames {

  /** `FONT_EXTENSIONS`: compared exactly, so ".TTF" is not among them. */
  const FontExtensions: set<string> := {".ttf", ".otf", ".ttc", ".fon"}

  /** Index of the last `.` in `s`, or -1 when there is none. */
  function LastDot(s: string): (d: int)
    ensures -1 <= d < |s|
    ensures d >= 0 ==> s[d] == '.'
    ensures forall j :: d < j < |s| ==> s[j] != '.'
  {
    if s == [] then -1
    else if s[|s| - 1] == '.' then |s| - 1
    else LastDot(s[..|s| - 1])
  }

  /** Some character before position `d` is not a dot. */
  predicate HasNonDotBefore(s: string, d: int)
    requires d <= |s|
  {
    exists i :: 0 <= i < d && s[i] != '.'
  }

  /**
   * `os.path.splitext(name)[1]`: from the last dot to the end, unless every
   * character before that dot is a dot too (".ttf" and "..ttf" have no extension).
   */
  function Ext(name: string): (e: string)
    ensures |e| <= |name| && e == name[|name| - |e|..]
    ensures e != [] ==> IsExtensionShaped(e)
  {
    var d := LastDot(name);
    if d >= 0 && HasNonDotBefore(name, d) then name[d..] else []
  }

  /** `os.path.splitext(name)[0]`. */
  function Root(name: string): (r: string)
    ensures name == r + Ext(name)
  {
    name[..|name| - |Ext(name)|]
  }

  /** `s` ends with `suffix`. */
  predicate EndsWith(s: string, suffix: string) {
    |suffix| <= |s| && s[|s| - |suffix|..] == suffix
  }

  /** An extension is a dot followed by dot-free text. */
  predicate IsExtensionShaped(e: string) {
    e != [] && e[0] == '.' && forall i :: 1 <= i < |e| ==> e[i] != '.'
  }

  lemma FontExtensionsAreExtensionShaped(e: string)
    requires e in FontExtensions
    ensures IsExtensionShaped(e)
  {
  }

  /**
   * A name has an extension exactly when some dot in it comes after a
   * character that is not a dot.
   */
  lemma ExtEmptyIff(name: string)
    ensures Ext(name) == [] <==>
      !exists i, j :: 0 <= i < j < |name| && name[i] != '.' && name[j] == '.'
  {
    var d := LastDot(name);
    if d >= 0 && HasNonDotBefore(name, d) {
      var i :| 0 <= i < d && name[i] != '.';
      assert name[d] == '.';
    } else {
      forall i, j | 0 <= i < j < |name| && name[i] != '.'
        ensures name[j] != '.'
      {
        if name[j] == '.' {
          assert false;
        }
      }
    }
  }

  /**
   * Appending an extension-shaped `e` to `r`: the new name's extension is `e`
   * exactly when `r` has some non-dot character, and is empty otherwise.
   */
  lemma {:induction false} ExtOfAppended(r: string, e: string)
    requires IsExtensionShaped(e)
    ensures Ext(r + e) == if HasNonDotBefore(r, |r|) then e else []
  {
    var s := r + e;
    var d := LastDot(s);
    assert s[|r|] == '.';
    assert d == |r|;
    if HasNonDotBefore(r, |r|) {
      var i :| 0 <= i < |r| && r[i] != '.';
      assert s[i] != '.';
      assert s[d..] == e;
    }
  }

  // ---------------------------------------------------------------------------
  // The decimal counter of move_failed_font

  function DigitChar(n: nat): char
    requires n < 10
  {
    "0123456789"[n]
  }

  function DigitValue(c: char): nat {
    if '0' <= c <= '9' then (c as int - '0' as int) as nat else 0
  }

  /** `str(n)` for a natural number: its decimal digits, most significant first. */
  function Decimal(n: nat): (s: string)
    ensures |s| >= 1
    ensures forall i :: 0 <= i < |s| ==> '0' <= s[i] <= '9'
    ensures |s| == 1 <==> n < 10
    ensures |s| > 1 ==> s[0] != '0'
  {
    if n < 10 then [DigitChar(n)] else Decimal(n / 10) + [DigitChar(n % 10)]
  }

  /** `int(s)` for a string of decimal digits. */
  function ParseDecimal(s: string): nat {
    if s == [] then 0 else ParseDecimal(s[..|s| - 1]) * 10 + DigitValue(s[|s| - 1])
  }

  /** Reading back the decimal text of a number gives the number. */
  lemma {:induction false} ParseDecimalOfDecimal(n: nat)
    ensures ParseDecimal(Decimal(n)) == n
  {
    var s := Decimal(n);
    if n < 10 {
      assert DigitValue(DigitChar(n)) == n;
    } else {
      ParseDecimalOfDecimal(n / 10);
      assert s[..|s| - 1] == Decimal(n / 10);
      assert DigitValue(DigitChar(n % 10)) == n % 10;
    }
  }

  /** Distinct counters have distinct decimal texts. */
  lemma DecimalInjective(m: nat, n: nat)
    requires Decimal(m) == Decimal(n)
    ensures m == n
  {
    ParseDecimalOfDecimal(m);
    ParseDecimalOfDecimal(n);
  }

  // ---------------------------------------------------------------------------
  // Names tried in the failure directory

  /**
   * The `k`-th name `move_failed_font` tries for `name`: the name itself for
   * k = 0, otherwise the root, `_`, the counter and the original extension.
   */
  function SlotName(name: string, k: nat): (r: string)
    ensures k == 0 ==> r == name
    ensures k > 0 ==> |r| > |name|
  {
    if k == 0 then name else Root(name) + "_" + Decimal(k) + Ext(name)
  }

  /** Every name tried keeps the original extension at its end. */
  lemma SlotNameKeepsExtension(name: string, k: nat)
    ensures EndsWith(SlotName(name, k), Ext(name))
  {
    var r := SlotName(name, k);
    if k != 0 {
      assert r == (Root(name) + "_" + Decimal(k)) + Ext(name);
    }
  }

  /** Different counters give different names, so the search never tries a name twice. */
  lemma SlotNameInjective(name: string, j: nat, k: nat)
    requires SlotName(name, j) == SlotName(name, k)
    ensures j == k
  {
    var root, ext := Root(name), Ext(name);
    if j != 0 && k != 0 {
      var sj, sk := SlotName(name, j), SlotName(name, k);
      assert |Decimal(j)| == |Decimal(k)|;
      assert sj[|root| + 1..|sj| - |ext|] == Decimal(j);
      assert sk[|root| + 1..|sk| - |ext|] == Decimal(k);
      DecimalInjective(j, k);
    }
  }

  /** The values `f(0)`, ..., `f(k - 1)`. */
  function Image(f: nat -> string, k: nat): set<string> {
    if k == 0 then {} else Image(f, k - 1) + {f(k - 1)}
  }

  /** For an injective `f`, a later value is none of the first `k` values. */
  lemma {:induction false} ImageMissesLater(f: nat -> string, k: nat, m: nat)
    requires forall i: nat, j: nat :: i != j ==> f(i) != f(j)
    requires k <= m
    ensures f(m) !in Image(f, k)
  {
    if k > 0 {
      ImageMissesLater(f, k - 1, m);
    }
  }

  /** For an injective `f`, the first `k` values are `k` different values. */
  lemma {:induction false} ImageCount(f: nat -> string, k: nat)
    requires forall i: nat, j: nat :: i != j ==> f(i) != f(j)
    ensures |Image(f, k)| == k
  {
    if k > 0 {
      ImageCount(f, k - 1);
      ImageMissesLater(f, k - 1, k - 1);
    }
  }

  lemma {:induction false} ImageWithin(f: nat -> string, k: nat, existing: set<string>)
    requires forall j: nat :: j < k ==> f(j) in existing
    ensures Image(f, k) <= existing
  {
    if k > 0 {
      ImageWithin(f, k - 1, existing);
    }
  }

  /**
   * When the first `k` names are all taken, there are at least `k` taken
   * names: the bound that makes the search terminate.
   */
  lemma TakenBound(existing: set<string>, name: string, k: nat)
    requires forall j :: 0 <= j < k ==> SlotName(name, j) in existing
    ensures k <= |existing|
  {
    var f := (j: nat) => SlotName(name, j);
    forall i: nat, j: nat | i != j ensures f(i) != f(j) {
      if f(i) == f(j) {
        SlotNameInjective(name, i, j);
      }
    }
    ImageCount(f, k);
    ImageWithin(f, k, existing);
    var tried := Image(f, k);
    assert existing == tried + (existing - tried);
    assert tried * (existing - tried) == {};
  }

  /** Index of the first name, from the `k`-th on, that is not taken. */
  function FirstFreeIndexFrom(existing: set<string>, name: string, k: nat): (m: nat)
    requires forall j :: 0 <= j < k ==> SlotName(name, j) in existing
    ensures k <= m && SlotName(name, m) !in existing
    ensures forall j :: 0 <= j < m ==> SlotName(name, j) in existing
    decreases |existing| - k
  {
    TakenBound(existing, name, k);
    if SlotName(name, k) !in existing then k
    else
      TakenBound(existing, name, k + 1);
      FirstFreeIndexFrom(existing, name, k + 1)
  }

  /**
   * Where a failed font lands: the first name in the order `name`, `root_1ext`,
   * `root_2ext`, ... that is not already taken. It is free and keeps the
   * original extension.
   */
  function FirstFreeSlot(existing: set<string>, name: string): (r: string)
    ensures r !in existing
    ensures EndsWith(r, Ext(name))
  {
    var m := FirstFreeIndexFrom(existing, name, 0);
    SlotNameKeepsExtension(name, m);
    SlotName(name, m)
  }

  /** The slot is the first free one: every name tried before it is taken. */
  lemma FirstFreeSlotIsFirst(existing: set<string>, name: string)
    ensures exists m: nat ::
      FirstFreeSlot(existing, name) == SlotName(name, m) &&
      (forall j :: 0 <= j < m ==> SlotName(name, j) in existing)
  {
    var m := FirstFreeIndexFrom(existing, name, 0);
    assert FirstFreeSlot(existing, name) == SlotName(name, m);
  }

  /** A second failed file with a taken name gets the `_1` name when that one is free. */
  lemma SecondFailureGetsSuffixOne(existing: set<string>, name: string)
    requires name in existing && SlotName(name, 1) !in existing
    ensures FirstFreeSlot(existing, name) == Root(name) + "_1" + Ext(name)
  {
    var m := FirstFreeIndexFrom(existing, name, 0);
    assert SlotName(name, 0) == name;
    assert m == 1;
    assert Decimal(1) == "1";
    assert Root(name) + "_" + Decimal(1) == Root(name) + "_1";
  }

  /**
   * The counter loop of `move_failed_font`: try `name`, then `root_1ext`,
   * `root_2ext`, ... while the name is taken.
   */
  method FindFreeSlot(existing: set<string>, name: string) returns (slot: string)
    ensures slot == FirstFreeSlot(existing, name)
  {
    slot := name;
    var counter := 1;
    while slot in existing
      invariant 1 <= counter <= |existing| + 1
      invariant slot == SlotName(name, counter - 1)
      invariant forall j :: 0 <= j < counter - 1 ==> SlotName(name, j) in existing
      decreases |existing| + 1 - counter
    {
      TakenBound(existing, name, counter);
      slot := Root(name) + "_" + Decimal(counter) + Ext(name);
      counter := counter + 1;
    }
  }
}
