/** One game, one group: the save files of a game and its ROM fall into the same group. */
module SaveGroups {
  import opened Options
  import opened PosixPaths
  import opened SaveSelection
  import opened GroupKeys

  // ---- the ROM's side -----------------------------------------------------------------------

  function LayoutById(layouts: seq<Layout>, id: string): (r: Option<Layout>)
    ensures r.Some? ==> r.value in layouts && r.value.id == id
    ensures r.None? ==> forall layout | layout in layouts :: layout.id != id
  {
    if layouts == [] then None
    else if layouts[0].id == id then Some(layouts[0])
    else LayoutById(layouts[1..], id)
  }

  /** `group_id_for_rom` */
  function GroupIdForRom(reg: Registry, layoutId: string, romFilename: string): Option<string> {
    match LayoutById(reg.layouts, layoutId)
    case None => None
    case Some(layout) =>
      if layout.shared || layout.hasContainer || (layout.groupBy != ByRootStem && layout.groupBy != ByN64Title) then None
      else
        var stem := Fold(reg, Stem(romFilename));
        Some(layoutId + "/" + if layout.groupBy == ByN64Title then reg.dropControllerSlot(stem) else stem)
  }

  // ---- stems ------------------------------------------------------------------------------

  /** Folding leaves dots alone, makes none, and keeps the letters of the state markers. */
  ghost predicate FoldKeepsMarkers(reg: Registry) {
    && (forall c :: reg.fold(c) == '.' <==> c == '.')
    && (forall c | c in SAVESTAT :: reg.fold(c) == c)
  }

  predicate Contains(s: string, needle: string) {
    Find(s, needle, 0).Some?
  }

  predicate MarkerFree(s: string) {
    !Contains(s, SAVESTAT) && !Contains(s, STATE)
  }

  lemma Differs(s: string, needle: string, k: nat, i: nat)
    requires k + i < |s| && i < |needle| && s[k + i] != needle[i]
    ensures !OccursAt(s, needle, k)
  {
    assert s[k..][i] == s[k + i];
  }

  /** A marker has its only dot in front, so it cannot straddle the dot that ends a stem. */
  lemma NoStraddling(a: string, b: string, marker: string, k: nat)
    requires marker == SAVESTAT || marker == STATE
    requires k < |a| && b != "" && b[0] == '.' && !OccursAt(a, marker, k)
    ensures !OccursAt(a + b, marker, k)
  {
    if k + |marker| <= |a| {
      assert (a + b)[k..][..|marker|] == a[k..][..|marker|];
    } else {
      Differs(a + b, marker, k, |a| - k);
    }
  }

  lemma OccursBehind(a: string, b: string, marker: string, k: nat)
    requires k <= |b|
    ensures OccursAt(a + b, marker, |a| + k) <==> OccursAt(b, marker, k)
  {
    assert (a + b)[|a| + k..] == b[k..];
  }

  /** The first occurrence is where it is, however it was found. */
  lemma FirstOccurrence(s: string, needle: string, r: Option<nat>)
    requires forall k: nat | OccursAt(s, needle, k) :: r.Some? && r.value <= k
    requires r.Some? ==> OccursAt(s, needle, r.value)
    ensures Find(s, needle, 0) == r
  {
  }

  /** Where a text occurs nowhere before or across `a`, looking for it behind `a` finds the same. */
  lemma FindBehind(a: string, b: string, needle: string)
    requires forall k: nat | OccursAt(a + b, needle, k) :: |a| <= k && OccursAt(b, needle, k - |a|)
    ensures Find(a + b, needle, 0) == match Find(b, needle, 0) { case None => None case Some(k) => Some(|a| + k) }
  {
    match Find(b, needle, 0)
    case None =>
      FirstOccurrence(a + b, needle, None);
    case Some(k) =>
      OccursBehind(a, b, needle, k);
      FirstOccurrence(a + b, needle, Some(|a| + k));
  }

  lemma FindBehindStem(a: string, b: string, marker: string)
    requires marker == SAVESTAT || marker == STATE
    requires !Contains(a, marker) && b != "" && b[0] == '.'
    ensures Find(a + b, marker, 0) == match Find(b, marker, 0) { case None => None case Some(k) => Some(|a| + k) }
  {
    forall k: nat | OccursAt(a + b, marker, k) ensures |a| <= k && OccursAt(b, marker, k - |a|) {
      FoundBehindStem(a, b, marker, k);
    }
    FindBehind(a, b, marker);
  }

  lemma FoundBehindStem(a: string, b: string, marker: string, k: nat)
    requires marker == SAVESTAT || marker == STATE
    requires !Contains(a, marker) && b != "" && b[0] == '.' && OccursAt(a + b, marker, k)
    ensures |a| <= k && OccursAt(b, marker, k - |a|)
  {
    if k < |a| { NoStraddling(a, b, marker, k); }
    OccursBehind(a, b, marker, k - |a|);
  }

  lemma {:induction false} LastDot(stem: string, ext: string)
    requires '.' !in ext
    ensures FindLast(stem + "." + ext, '.') == Some(|stem|)
  {
    if ext != "" {
      var n := |ext| - 1;
      LastDot(stem, ext[..n]);
      assert (stem + "." + ext)[..|stem| + 1 + n] == stem + "." + ext[..n];
    }
  }

  lemma StemOfFile(stem: string, ext: string)
    requires stem != "" && ext != "" && '.' !in ext
    ensures Stem(stem + "." + ext) == stem
  {
    LastDot(stem, ext);
    assert (stem + "." + ext)[..|stem|] == stem;
  }

  /** A name falls into a stem and an extension, neither of them empty. */
  predicate FallsInto(name: string, stem: string, ext: string) {
    name == stem + "." + ext && stem != "" && ext != "" && '.' !in ext
  }

  lemma NoDotBehind(name: string, last: nat)
    requires FindLast(name, '.') == Some(last)
    ensures '.' !in name[last + 1..]
  {
    var ext := name[last + 1..];
    forall k | 0 <= k < |ext| ensures ext[k] != '.' {
      assert ext[k] == name[last + 1 + k];
    }
  }

  /** The stem of a name is what stands before its extension; a name without one is its own stem, dots or not. */
  lemma StemExactly(name: string)
    ensures forall stem, ext | FallsInto(name, stem, ext) :: Stem(name) == stem
    ensures (forall stem, ext :: !FallsInto(name, stem, ext)) ==> Stem(name) == name
  {
    forall stem, ext | FallsInto(name, stem, ext) ensures Stem(name) == stem {
      StemOfFile(stem, ext);
    }
    var dot := FindLast(name, '.');
    if dot.Some? && 0 < dot.value < |name| - 1 {
      var stem, ext := name[..dot.value], name[dot.value + 1..];
      assert name == stem + "." + ext;
      NoDotBehind(name, dot.value);
      assert FallsInto(name, stem, ext);
    }
  }

  /** The first place at which one text occurs in another. */
  ghost predicate FirstAt(s: string, needle: string, k: nat) {
    OccursAt(s, needle, k) && forall j: nat | j < k :: !OccursAt(s, needle, j)
  }

  lemma FirstAtFound(s: string, needle: string, k: nat)
    ensures FirstAt(s, needle, k) <==> Find(s, needle, 0) == Some(k)
  {
  }

  /**
   * The root stem of any name: what stands before the first `.savestat`, or else before the first `.state`, or else
   * before the extension; a marker at the very front does not count.
   */
  lemma RootStemExactly(reg: Registry, name: string)
    ensures forall k: nat | k > 0 && FirstAt(Fold(reg, name), ".savestat", k) :: RootStem(reg, name) == Fold(reg, name[..k])
    ensures (forall j: nat | FirstAt(Fold(reg, name), ".savestat", j) :: j == 0) ==>
      forall k: nat | k > 0 && FirstAt(Fold(reg, name), ".state", k) :: RootStem(reg, name) == Fold(reg, name[..k])
    ensures (forall j: nat | FirstAt(Fold(reg, name), ".savestat", j) || FirstAt(Fold(reg, name), ".state", j) :: j == 0) ==>
      RootStem(reg, name) == Fold(reg, Stem(name))
  {
    var folded := Fold(reg, name);
    forall k: nat
      ensures FirstAt(folded, ".savestat", k) <==> Find(folded, SAVESTAT, 0) == Some(k)
      ensures FirstAt(folded, ".state", k) <==> Find(folded, STATE, 0) == Some(k)
    {
      FirstAtFound(folded, SAVESTAT, k);
      FirstAtFound(folded, STATE, k);
    }
    var savestat, state := Find(folded, SAVESTAT, 0), Find(folded, STATE, 0);
    if savestat.Some? { assert FirstAt(folded, ".savestat", savestat.value); }
    if state.Some? { assert FirstAt(folded, ".state", state.value); }
  }

  /** A file `stem.ext` has the folded stem as its root stem, whatever the extension. */
  lemma PlainFileStem(reg: Registry, stem: string, ext: string)
    requires FoldKeepsMarkers(reg) && stem != "" && MarkerFree(Fold(reg, stem)) && ext != "" && '.' !in ext
    ensures RootStem(reg, stem + "." + ext) == Fold(reg, stem)
  {
    var tail := "." + ext;
    var folded := Fold(reg, tail);
    assert stem + "." + ext == stem + tail;
    FoldConcat(reg, stem, tail);
    FindBehindStem(Fold(reg, stem), folded, SAVESTAT);
    FindBehindStem(Fold(reg, stem), folded, STATE);
    OnlyLeadingDot(folded, SAVESTAT);
    OnlyLeadingDot(folded, STATE);
    StemOfFile(stem, ext);
    assert (stem + tail)[..|stem|] == stem;
  }

  /** With no other dot than the leading one, a marker can only be found in front. */
  lemma OnlyLeadingDot(s: string, marker: string)
    requires marker == SAVESTAT || marker == STATE
    requires forall k | 0 < k < |s| :: s[k] != '.'
    ensures var f := Find(s, marker, 0); f == None || f == Some(0)
  {
    var f := Find(s, marker, 0);
    if f.Some? { assert s[f.value..][0] == marker[0]; }
  }

  /** A state file `stem.state<rest>` has it exactly when `rest` does not hold the longer marker. */
  lemma StateFileStem(reg: Registry, stem: string, rest: string)
    requires FoldKeepsMarkers(reg) && stem != "" && MarkerFree(Fold(reg, stem))
    ensures RootStem(reg, stem + ".state" + rest) == Fold(reg, stem) <==> !Contains(Fold(reg, rest), ".savestat")
  {
    var tail := STATE + rest;
    var file, folded := stem + tail, Fold(reg, tail);
    assert stem + STATE + rest == file;
    FoldConcat(reg, stem, tail);
    FoldConcat(reg, STATE, rest);
    assert Fold(reg, STATE) == STATE;
    FindBehindStem(Fold(reg, stem), folded, SAVESTAT);
    FindBehindStem(Fold(reg, stem), folded, STATE);
    assert OccursAt(folded, STATE, 0);
    LongerMarkerBehind(Fold(reg, rest));
    var found := Find(Fold(reg, file), SAVESTAT, 0);
    if found.Some? {
      assert |Fold(reg, file[..found.value])| > |stem|;
    } else {
      assert file[..|stem|] == stem;
    }
  }

  /** A state file `stem.savestat<rest>` has it whatever follows. */
  lemma SavestatFileStem(reg: Registry, stem: string, rest: string)
    requires FoldKeepsMarkers(reg) && stem != "" && MarkerFree(Fold(reg, stem))
    ensures RootStem(reg, stem + ".savestat" + rest) == Fold(reg, stem)
  {
    var tail := SAVESTAT + rest;
    var file, folded := stem + tail, Fold(reg, tail);
    assert stem + SAVESTAT + rest == file;
    FoldConcat(reg, stem, tail);
    FoldConcat(reg, SAVESTAT, rest);
    assert Fold(reg, SAVESTAT) == SAVESTAT;
    FindBehindStem(Fold(reg, stem), folded, SAVESTAT);
    assert OccursAt(folded, SAVESTAT, 0);
    assert file[..|stem|] == stem;
  }

  /** In front of and across `.state` there is no room for `.savestat`. */
  lemma LongerMarkerBehind(rest: string)
    ensures Contains(STATE + rest, SAVESTAT) <==> Contains(rest, SAVESTAT)
    ensures !OccursAt(STATE + rest, SAVESTAT, 0)
  {
    var s := STATE + rest;
    forall k: nat | k < |STATE| ensures !OccursAt(s, SAVESTAT, k) {
      Differs(s, SAVESTAT, k, if k == 0 then 2 else 0);
    }
    var f, g := Find(s, SAVESTAT, 0), Find(rest, SAVESTAT, 0);
    if f.Some? { OccursBehind(STATE, rest, SAVESTAT, f.value - |STATE|); }
    if g.Some? { OccursBehind(STATE, rest, SAVESTAT, g.value); }
  }

  // ---- groups -----------------------------------------------------------------------------

  /** The group of a stem in a layout that groups by it. */
  function StemGroup(reg: Registry, layout: Layout, stem: string): string {
    layout.id + "/" + if layout.groupBy == ByN64Title then reg.dropControllerSlot(stem) else stem
  }

  predicate GroupsByStem(layout: Layout) {
    (layout.groupBy == ByRootStem || layout.groupBy == ByN64Title) && !layout.shared && !layout.hasContainer
  }

  lemma KeyOfFileName(reg: Registry, layout: Layout, root: seq<string>, rest: seq<string>, name: string)
    requires GroupsByStem(layout) && rest != [] && rest[|rest| - 1] == name
    ensures layout.id + "/" + GroupKey(reg, layout, root, rest) == StemGroup(reg, layout, RootStem(reg, name))
  {
  }

  /** The group of a path in a layout that groups by stem depends on its file name alone. */
  lemma GroupOfFileName(reg: Registry, layout: Layout, segments: seq<string>, id: string)
    requires ValidRegistry(reg) && layout in reg.layouts && GroupsByStem(layout) && HasGroup(reg, layout, segments, id)
    ensures id == StemGroup(reg, layout, RootStem(reg, segments[|segments| - 1]))
  {
    KeyOfPath(reg, layout, segments, id);
    KeyOfFileName(reg, layout, RootOf(layout, segments), BelowRoot(layout, segments), segments[|segments| - 1]);
  }

  lemma GroupOfRom(reg: Registry, layout: Layout, stem: string, ext: string)
    requires ValidRegistry(reg) && layout in reg.layouts && GroupsByStem(layout)
    requires stem != "" && ext != "" && '.' !in ext
    ensures GroupIdForRom(reg, layout.id, stem + "." + ext) == Some(StemGroup(reg, layout, Fold(reg, stem)))
  {
    StemOfFile(stem, ext);
  }

  /** A save file `stem.saveExt` is in exactly the group of the ROM `stem.romExt`. */
  lemma SaveFileSharesRomGroup(reg: Registry, layout: Layout, segments: seq<string>, id: string, stem: string, saveExt: string, romExt: string)
    requires ValidRegistry(reg) && FoldKeepsMarkers(reg) && layout in reg.layouts && GroupsByStem(layout)
    requires stem != "" && MarkerFree(Fold(reg, stem)) && saveExt != "" && '.' !in saveExt && romExt != "" && '.' !in romExt
    requires HasGroup(reg, layout, segments, id) && segments[|segments| - 1] == stem + "." + saveExt
    ensures GroupIdForRom(reg, layout.id, stem + "." + romExt) == Some(id)
  {
    GroupOfFileName(reg, layout, segments, id);
    PlainFileStem(reg, stem, saveExt);
    GroupOfRom(reg, layout, stem, romExt);
  }

  /** A state file `stem.state<rest>` is, in a layout grouped by stem, exactly if `rest` does not hold `.savestat`. */
  lemma StateFileSharesRomGroup(reg: Registry, layout: Layout, segments: seq<string>, id: string, stem: string, rest: string, romExt: string)
    requires ValidRegistry(reg) && FoldKeepsMarkers(reg) && layout in reg.layouts && GroupsByStem(layout) && layout.groupBy == ByRootStem
    requires stem != "" && MarkerFree(Fold(reg, stem)) && romExt != "" && '.' !in romExt
    requires HasGroup(reg, layout, segments, id) && segments[|segments| - 1] == stem + ".state" + rest
    ensures GroupIdForRom(reg, layout.id, stem + "." + romExt) == Some(id) <==> !Contains(Fold(reg, rest), ".savestat")
  {
    GroupOfFileName(reg, layout, segments, id);
    GroupOfRom(reg, layout, stem, romExt);
    StateFileStem(reg, stem, rest);
    PrefixInjective(layout.id + "/", Fold(reg, stem), RootStem(reg, stem + ".state" + rest));
  }

  /** A game's save file `stem.ext`, or a state file `stem.savestat<rest>`, or `stem.state<rest>` without the longer marker in `rest`. */
  ghost predicate IsGameFile(reg: Registry, stem: string, name: string) {
    || (exists ext :: ext != "" && '.' !in ext && name == stem + "." + ext)
    || (exists rest :: name == stem + ".savestat" + rest)
    || (exists rest :: !Contains(Fold(reg, rest), ".savestat") && name == stem + ".state" + rest)
  }

  lemma GameFileStem(reg: Registry, stem: string, name: string)
    requires FoldKeepsMarkers(reg) && stem != "" && MarkerFree(Fold(reg, stem)) && IsGameFile(reg, stem, name)
    ensures RootStem(reg, name) == Fold(reg, stem)
  {
    if ext :| ext != "" && '.' !in ext && name == stem + "." + ext {
      PlainFileStem(reg, stem, ext);
    } else if rest :| name == stem + ".savestat" + rest {
      SavestatFileStem(reg, stem, rest);
    } else {
      var rest :| !Contains(Fold(reg, rest), ".savestat") && name == stem + ".state" + rest;
      StateFileStem(reg, stem, rest);
    }
  }

  /** Files of two games, save or state, share a group exactly if the games' names differ in case alone. */
  lemma GamesShareGroupsOnlyByCase(reg: Registry, layout: Layout, segments: seq<string>, segments': seq<string>, id: string, id': string,
                                   stem: string, stem': string)
    requires ValidRegistry(reg) && FoldKeepsMarkers(reg) && layout in reg.layouts && GroupsByStem(layout) && layout.groupBy == ByRootStem
    requires stem != "" && MarkerFree(Fold(reg, stem)) && stem' != "" && MarkerFree(Fold(reg, stem'))
    requires HasGroup(reg, layout, segments, id) && IsGameFile(reg, stem, segments[|segments| - 1])
    requires HasGroup(reg, layout, segments', id') && IsGameFile(reg, stem', segments'[|segments'| - 1])
    ensures id == id' <==> Fold(reg, stem) == Fold(reg, stem')
  {
    GroupOfFileName(reg, layout, segments, id);
    GroupOfFileName(reg, layout, segments', id');
    GameFileStem(reg, stem, segments[|segments| - 1]);
    GameFileStem(reg, stem', segments'[|segments'| - 1]);
    PrefixInjective(layout.id + "/", Fold(reg, stem), Fold(reg, stem'));
  }

  /** A layout in which a ROM's own name determines its group. */
  predicate GroupsRoms(layout: Layout, layoutId: string) {
    layout.id == layoutId && !layout.shared && !layout.hasContainer && (layout.groupBy == ByRootStem || layout.groupBy == ByN64Title)
  }

  /** A ROM has a group exactly if its layout is registered, neither shared nor a container, and groups by stem or title. */
  lemma RomHasGroupExactlyWhen(reg: Registry, layoutId: string, romFilename: string)
    requires ValidRegistry(reg)
    ensures GroupIdForRom(reg, layoutId, romFilename).Some? <==> exists layout :: layout in reg.layouts && GroupsRoms(layout, layoutId)
  {
    if layout :| layout in reg.layouts && GroupsRoms(layout, layoutId) {
      assert LayoutById(reg.layouts, layoutId).value == layout;
    }
  }
}
