/**
 * The directory scan of rename-file-name-to-title.py
 * (`rename_font_files_in_directory` and `move_failed_font`) over an abstract
 * directory: a map from entry names to entries, plus the entries of the
 * failure directory `failed_fonts`.
 *
 * A file's contents are modelled as what the font parser makes of them
 * (`FontData`), so a rename or a move carries them along. Filesystem errors
 * that the source does not catch end the scan; the model returns that as an
 * incomplete outcome with the directory as it was before the failing call.
 */
module FontDirectory {
  import opened Wrappers
  import opened FontNames
  import opened FileNames

  /** Name of the quarantine subdirectory. */
  const FailedDirName: string := "failed_fonts"

  /** A directory entry: a regular file, or a subdirectory (whose contents are not modelled). */
  datatype Entry = File(data: FontData) | Dir

  /** The scanned directory's entries, and the entries inside `failed_fonts`. */
  datatype Tree = Tree(entries: map<string, Entry>, failed: map<string, Entry>)

  /** The result of a scan: the final tree, and whether every listed entry was processed. */
  datatype Outcome = Outcome(tree: Tree, completed: bool)

  /** `after` agrees with `before` on every name other than `x` and `y`. */
  ghost predicate SameOutside(before: map<string, Entry>, after: map<string, Entry>, x: string, y: string) {
    forall n :: n != x && n != y ==>
      (n in after <==> n in before) && (n in before ==> after[n] == before[n])
  }

  predicate HasFailedDir(t: Tree) {
    FailedDirName in t.entries && t.entries[FailedDirName].Dir?
  }

  /** The failure directory can only hold entries when it exists as a directory. */
  predicate WellFormed(t: Tree) {
    !HasFailedDir(t) ==> t.failed == map[]
  }

  /** `os.path.isfile`. */
  predicate IsRegularFile(t: Tree, name: string) {
    name in t.entries && t.entries[name].File?
  }

  /** An entry the scan processes: a regular file with one of the four font extensions. */
  predicate IsCandidate(t: Tree, name: string): (b: bool)
    ensures b ==> name in t.entries && t.entries[name].File?
    ensures b ==> name != FailedDirName
  {
    IsRegularFile(t, name) && Ext(name) in FontExtensions
  }

  /**
   * The name a font file should carry: its resolved full name followed by its
   * own extension, or None when the resolved name is missing or empty.
   */
  function TargetName(font: FontData, name: string): (r: Option<string>)
    ensures r.None? <==> GetFontName(font).None? || GetFontName(font).value == ""
    ensures r.Some? ==>
      |Ext(name)| < |r.value| &&
      r.value[..|r.value| - |Ext(name)|] == GetFontName(font).value &&
      r.value[|r.value| - |Ext(name)|..] == Ext(name)
  {
    match GetFontName(font)
    case Some(resolved) => if resolved != "" then Some(resolved + Ext(name)) else None
    case None => None
  }

  /** The target name keeps the file's extension, unless the resolved name is nothing but dots. */
  lemma TargetKeepsExtension(font: FontData, name: string)
    requires Ext(name) in FontExtensions
    requires TargetName(font, name).Some?
    requires HasNonDotBefore(GetFontName(font).value, |GetFontName(font).value|)
    ensures Ext(TargetName(font, name).value) == Ext(name)
  {
    FontExtensionsAreExtensionShaped(Ext(name));
    ExtOfAppended(GetFontName(font).value, Ext(name));
  }

  /**
   * `os.rename(src, dst)` within the directory for a regular file: an existing
   * regular file at `dst` is replaced, an existing subdirectory makes it fail.
   */
  function Renamed(t: Tree, src: string, dst: string): (r: Option<Tree>)
    requires IsRegularFile(t, src) && src != dst
    ensures r.None? <==> dst in t.entries && t.entries[dst].Dir?
    ensures r.Some? ==>
      src !in r.value.entries && dst in r.value.entries &&
      r.value.entries[dst] == t.entries[src] && r.value.failed == t.failed
    ensures r.Some? ==> SameOutside(t.entries, r.value.entries, src, dst)
  {
    if dst in t.entries && t.entries[dst].Dir? then None
    else Some(Tree((t.entries - {src})[dst := t.entries[src]], t.failed))
  }

  /**
   * `move_failed_font`: create `failed_fonts` when absent, then move the file
   * into it under the first free name. Fails, changing nothing, when
   * `failed_fonts` is a regular file.
   */
  function Quarantined(t: Tree, name: string): (r: Option<Tree>)
    requires IsRegularFile(t, name)
    ensures r.None? <==> IsRegularFile(t, FailedDirName)
    ensures r.Some? ==> name !in r.value.entries && HasFailedDir(r.value)
    ensures r.Some? ==> SameOutside(t.entries, r.value.entries, name, FailedDirName)
    ensures r.Some? ==> |r.value.failed| == |t.failed| + 1
    ensures r.Some? ==> forall k :: k in t.failed ==> k in r.value.failed && r.value.failed[k] == t.failed[k]
    ensures r.Some? ==>
      exists slot :: slot in r.value.failed && slot !in t.failed &&
        r.value.failed[slot] == t.entries[name] && EndsWith(slot, Ext(name))
    ensures r.Some? ==>
      exists m: nat ::
        r.value.failed == t.failed[SlotName(name, m) := t.entries[name]] &&
        (forall j :: 0 <= j < m ==> SlotName(name, j) in t.failed)
  {
    if IsRegularFile(t, FailedDirName) then None
    else
      var slot := FirstFreeSlot(t.failed.Keys, name);
      var entries := (t.entries - {name})[FailedDirName := Dir];
      var failed := t.failed[slot := t.entries[name]];
      assert name != FailedDirName && name !in entries;
      assert SameOutside(t.entries, entries, name, FailedDirName);
      assert slot in failed && slot !in t.failed;
      assert |failed| == |t.failed| + 1;
      FirstFreeSlotIsFirst(t.failed.Keys, name);
      Some(Tree(entries, failed))
  }

  /** Where `move_failed_font` puts the file when it succeeds. */
  lemma QuarantinedPlacement(t: Tree, name: string)
    requires IsRegularFile(t, name) && !IsRegularFile(t, FailedDirName)
    ensures Quarantined(t, name) == Some(Tree((t.entries - {name})[FailedDirName := Dir],
      t.failed[FirstFreeSlot(t.failed.Keys, name) := t.entries[name]]))
  {
  }

  /**
   * One iteration of the scan for the listed entry `name`: candidates with a
   * usable name are renamed to it when it differs (case included), candidates
   * without one are quarantined, and everything else is left alone. None when
   * the filesystem call fails.
   */
  function Step(t: Tree, name: string): (r: Option<Tree>)
    ensures r.None? ==> IsCandidate(t, name)
    ensures r.Some? ==> r.value == t || name !in r.value.entries
    ensures r.Some? ==> forall k :: k in t.failed ==> k in r.value.failed && r.value.failed[k] == t.failed[k]
  {
    if !IsCandidate(t, name) then Some(t)
    else
      match TargetName(t.entries[name].data, name)
      case Some(target) => if target == name then Some(t) else Renamed(t, name, target)
      case None => Quarantined(t, name)
  }

  /** The scan over a directory listing, stopping at the first failing filesystem call. */
  function Run(t: Tree, listing: seq<string>): (r: Outcome)
    ensures WellFormed(t) ==> WellFormed(r.tree)
    ensures forall k :: k in t.failed ==> k in r.tree.failed && r.tree.failed[k] == t.failed[k]
    decreases |listing|
  {
    if listing == [] then Outcome(t, true)
    else
      match Step(t, listing[0])
      case None => Outcome(t, false)
      case Some(next) =>
        if WellFormed(t) then StepPreservesWellFormed(t, listing[0]); Run(next, listing[1..])
        else Run(next, listing[1..])
  }

  // ---------------------------------------------------------------------------
  // Properties of one step

  /** Non-candidates (other extensions, ".TTF", subdirectories, missing names) are never touched. */
  lemma StepSkipsNonCandidates(t: Tree, name: string)
    requires !IsCandidate(t, name)
    ensures Step(t, name) == Some(t)
  {
  }

  /**
   * For a candidate with a usable name, the directory changes exactly when the
   * target differs from the current name in any character; then the file's
   * contents move to the target, replacing a regular file there, and nothing
   * else changes.
   */
  lemma StepRenameDecision(t: Tree, name: string)
    requires IsCandidate(t, name)
    requires TargetName(t.entries[name].data, name).Some?
    ensures var target := TargetName(t.entries[name].data, name).value;
      (Step(t, name) == Some(t) <==> target == name) &&
      (target != name && !(target in t.entries && t.entries[target].Dir?) ==>
        Step(t, name) == Some(Tree((t.entries - {name})[target := t.entries[name]], t.failed)))
  {
    var target := TargetName(t.entries[name].data, name).value;
    if target != name {
      var r := Renamed(t, name, target);
      if r.Some? {
        assert name !in r.value.entries;
      }
    }
  }

  /** Extension matching is case-sensitive: "X.TTF" is not a candidate and stays as it is. */
  lemma UpperCaseExtensionSkipped(t: Tree)
    ensures Step(t, "X.TTF") == Some(t)
  {
    ExtOfAppended("X", ".TTF");
    assert "X" + ".TTF" == "X.TTF";
    assert !IsCandidate(t, "X.TTF");
  }

  /** A name that differs from the target only in case is still renamed: "myfont.ttf" becomes "MyFont.ttf". */
  lemma CaseOnlyDifferenceRenamed(t: Tree, font: FontData)
    requires "myfont.ttf" in t.entries && t.entries["myfont.ttf"] == File(font)
    requires GetFontName(font) == Some("MyFont")
    requires !("MyFont.ttf" in t.entries && t.entries["MyFont.ttf"].Dir?)
    ensures Step(t, "myfont.ttf") ==
      Some(Tree((t.entries - {"myfont.ttf"})["MyFont.ttf" := File(font)], t.failed))
  {
    ExtOfAppended("myfont", ".ttf");
    assert "myfont" + ".ttf" == "myfont.ttf";
    assert "MyFont" + ".ttf" == "MyFont.ttf";
    assert "MyFont.ttf"[0] != "myfont.ttf"[0];
    StepRenameDecision(t, "myfont.ttf");
  }

  /** A candidate whose resolved name is missing or empty goes to the failure directory. */
  lemma StepQuarantinesUnnamed(t: Tree, name: string)
    requires IsCandidate(t, name)
    requires TargetName(t.entries[name].data, name).None?
    ensures Step(t, name) == Quarantined(t, name)
    ensures Step(t, name).Some? ==> name !in Step(t, name).value.entries
  {
  }

  /** Every step keeps the failure directory's contents tied to its existence. */
  lemma StepPreservesWellFormed(t: Tree, name: string)
    requires WellFormed(t)
    requires Step(t, name).Some?
    ensures WellFormed(Step(t, name).value)
  {
  }

  // ---------------------------------------------------------------------------
  // Properties of the whole scan

  /** The candidate `n` already carries its target name (vacuous for non-candidates). */
  predicate AtTarget(t: Tree, n: string) {
    IsCandidate(t, n) ==> TargetName(t.entries[n].data, n) == Some(n)
  }

  /** Every font file in the directory already carries its target name. */
  predicate Settled(t: Tree) {
    forall n :: n in t.entries ==> AtTarget(t, n)
  }

  /** A file that a step renames lands on its own target name. */
  lemma RenamedLandsAtTarget(t: Tree, name: string, target: string)
    requires IsCandidate(t, name)
    requires TargetName(t.entries[name].data, name) == Some(target) && target != name
    requires Renamed(t, name, target).Some?
    ensures AtTarget(Renamed(t, name, target).value, target)
  {
    var t' := Renamed(t, name, target).value;
    var font := t.entries[name].data;
    if IsCandidate(t', target) {
      var resolved := GetFontName(font).value;
      FontExtensionsAreExtensionShaped(Ext(name));
      ExtOfAppended(resolved, Ext(name));
      assert target == resolved + Ext(name);
      assert Ext(target) == Ext(name);
    }
  }

  /**
   * When a step changes the entries only at `name` and at one other name
   * `landed` that it leaves settled, every entry outside `rest` stays settled.
   */
  lemma SettledOutside(t: Tree, t': Tree, name: string, landed: string, rest: seq<string>)
    requires forall n :: n in t.entries && n !in [name] + rest ==> AtTarget(t, n)
    requires AtTarget(t', name) && AtTarget(t', landed)
    requires SameOutside(t.entries, t'.entries, name, landed)
    ensures forall n :: n in t'.entries && n !in rest ==> AtTarget(t', n)
  {
    forall n | n in t'.entries && n !in rest && n != name && n != landed
      ensures AtTarget(t', n)
    {
      assert n !in [name] + rest;
      assert AtTarget(t, n);
    }
  }

  /** A step settles the entry it processes and keeps every other settled entry settled. */
  lemma StepSettles(t: Tree, name: string, rest: seq<string>)
    requires forall n :: n in t.entries && n !in [name] + rest ==> AtTarget(t, n)
    requires Step(t, name).Some?
    ensures forall n :: n in Step(t, name).value.entries && n !in rest ==> AtTarget(Step(t, name).value, n)
  {
    var t' := Step(t, name).value;
    if !IsCandidate(t, name) {
      assert t' == t;
      SettledOutside(t, t', name, name, rest);
    } else {
      var target := TargetName(t.entries[name].data, name);
      if target.None? {
        assert t' == Quarantined(t, name).value;
        SettledOutside(t, t', name, FailedDirName, rest);
      } else if target.value == name {
        assert t' == t;
        SettledOutside(t, t', name, name, rest);
      } else {
        assert t' == Renamed(t, name, target.value).value;
        RenamedLandsAtTarget(t, name, target.value);
        SettledOutside(t, t', name, target.value, rest);
      }
    }
  }

  lemma {:induction false} RunSettlesRest(t: Tree, rest: seq<string>)
    requires forall n :: n in t.entries && n !in rest ==> AtTarget(t, n)
    ensures Run(t, rest).completed ==> Settled(Run(t, rest).tree)
    decreases |rest|
  {
    if rest != [] {
      var name := rest[0];
      if Step(t, name).Some? {
        assert rest == [name] + rest[1..];
        StepSettles(t, name, rest[1..]);
        RunSettlesRest(Step(t, name).value, rest[1..]);
      }
    }
  }

  /**
   * A scan over a listing of every entry that runs to completion leaves every
   * font file under its target name: quarantined files are gone and renamed
   * ones sit at their targets.
   */
  lemma ScanSettles(t: Tree, listing: seq<string>)
    requires forall n :: n in t.entries ==> n in listing
    ensures Run(t, listing).completed ==> Settled(Run(t, listing).tree)
  {
    RunSettlesRest(t, listing);
  }

  /** Scanning a settled directory, in any order, completes and changes nothing. */
  lemma {:induction false} ScanOfSettledChangesNothing(t: Tree, listing: seq<string>)
    requires Settled(t)
    ensures Run(t, listing) == Outcome(t, true)
    decreases |listing|
  {
    if listing != [] {
      var name := listing[0];
      if IsCandidate(t, name) {
        assert AtTarget(t, name);
      }
      assert Step(t, name) == Some(t);
      ScanOfSettledChangesNothing(t, listing[1..]);
    }
  }

  /** Running the tool a second time after a completed run makes no changes. */
  lemma ScanIdempotent(t: Tree, first: seq<string>, second: seq<string>)
    requires forall n :: n in t.entries ==> n in first
    requires Run(t, first).completed
    ensures Run(Run(t, first).tree, second) == Outcome(Run(t, first).tree, true)
  {
    ScanSettles(t, first);
    ScanOfSettledChangesNothing(Run(t, first).tree, second);
  }

  // ---------------------------------------------------------------------------
  // The directory as mutable state

  class FontFolder {
    var entries: map<string, Entry>
    var failed: map<string, Entry>

    function State(): Tree
      reads this
    {
      Tree(entries, failed)
    }

    ghost predicate Valid()
      reads this
    {
      WellFormed(State())
    }

    constructor (entries0: map<string, Entry>, failed0: map<string, Entry>)
      requires WellFormed(Tree(entries0, failed0))
      ensures Valid() && State() == Tree(entries0, failed0)
    {
      entries := entries0;
      failed := failed0;
    }

    /** `os.rename` of the regular file `src` to `dst` in the scanned directory. */
    method RenameFile(src: string, dst: string) returns (ok: bool)
      requires Valid() && IsRegularFile(State(), src) && src != dst
      modifies this
      ensures Valid()
      ensures ok == Renamed(old(State()), src, dst).Some?
      ensures State() == Renamed(old(State()), src, dst).GetOr(old(State()))
    {
      if dst in entries && entries[dst].Dir? {
        return false;
      }
      entries := (entries - {src})[dst := entries[src]];
      ok := true;
      assert HasFailedDir(State()) ==> HasFailedDir(old(State()));
    }

    /** `move_failed_font`: quarantine the regular file `name`. */
    method MoveFailedFont(name: string) returns (ok: bool)
      requires Valid() && IsRegularFile(State(), name)
      modifies this
      ensures Valid()
      ensures ok == Quarantined(old(State()), name).Some?
      ensures State() == Quarantined(old(State()), name).GetOr(old(State()))
    {
      if FailedDirName in entries && entries[FailedDirName].File? {
        // `failed_fonts` is a regular file: the move raises
        return false;
      }
      ghost var t := State();
      if FailedDirName !in entries {
        entries := entries[FailedDirName := Dir];
      }
      var slot := FindFreeSlot(failed.Keys, name);
      failed := failed[slot := entries[name]];
      entries := entries - {name};
      ok := true;
      assert entries == (t.entries - {name})[FailedDirName := Dir];
      QuarantinedPlacement(t, name);
    }

    /** One iteration of the loop in `rename_font_files_in_directory`. */
    method ProcessEntry(name: string) returns (ok: bool)
      requires Valid()
      modifies this
      ensures Valid()
      ensures ok == Step(old(State()), name).Some?
      ensures State() == Step(old(State()), name).GetOr(old(State()))
    {
      var ext := Ext(name);
      if name in entries && entries[name].File? && ext in FontExtensions {
        var fontName := GetFontName(entries[name].data);
        if fontName.Some? && fontName.value != "" {
          var newName := fontName.value + ext;
          if newName != name {
            ok := RenameFile(name, newName);
          } else {
            ok := true;
          }
        } else {
          ok := MoveFailedFont(name);
        }
      } else {
        ok := true;
      }
    }

    /**
     * `rename_font_files_in_directory` over `listing`, the names `os.listdir`
     * returned. On completion every font file carries its target name.
     */
    method RenameFontFilesInDirectory(listing: seq<string>) returns (completed: bool)
      requires Valid()
      requires forall n :: n in entries ==> n in listing
      modifies this
      ensures Valid()
      ensures State() == Run(old(State()), listing).tree
      ensures completed == Run(old(State()), listing).completed
      ensures completed ==> Settled(State())
    {
      ScanSettles(State(), listing);
      for i := 0 to |listing|
        invariant Valid()
        invariant Run(old(State()), listing) == Run(State(), listing[i..])
      {
        assert listing[i..][0] == listing[i] && listing[i..][1..] == listing[i + 1..];
        var ok := ProcessEntry(listing[i]);
        if !ok {
          return false;
        }
      }
      completed := true;
    }
  }
}
