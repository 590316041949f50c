/** `cue_parser.py` and `cache_paths.py`: from a cue sheet's references to places in the cache. */
module CuePaths {
  import opened Options
  import opened PosixPaths
  import opened Ordering

  // ---- posixpath ------------------------------------------------------------------------------

  predicate IsAbsolute(path: string) { path != "" && path[0] == '/' }

  /** One component met by `normpath`'s loop. */
  function Push(absolute: bool, stack: seq<string>, component: string): seq<string> {
    if !Moves(component) then stack
    else if component != ".." || (!absolute && stack == []) || (stack != [] && stack[|stack| - 1] == "..") then stack + [component]
    else if stack != [] then stack[..|stack| - 1]
    else stack
  }

  function Normalise(absolute: bool, components: seq<string>): seq<string> {
    if components == [] then []
    else Push(absolute, Normalise(absolute, components[..|components| - 1]), components[|components| - 1])
  }

  /** POSIX keeps exactly two leading slashes apart from one or many. */
  function LeadingSlashes(path: string): string {
    if !IsAbsolute(path) then ""
    else if "//" <= path && !("///" <= path) then "//"
    else "/"
  }

  /** `posixpath.normpath` */
  function Normpath(path: string): string {
    if path == "" then "."
    else
      var result := LeadingSlashes(path) + Join(Normalise(IsAbsolute(path), Split(path)));
      if result == "" then "." else result
  }

  /** `posixpath.join` of two paths. */
  function JoinPath(directory: string, path: string): string {
    if IsAbsolute(path) then path
    else if directory == "" || directory[|directory| - 1] == '/' then directory + path
    else directory + "/" + path
  }

  // ---- what a path means ------------------------------------------------------------------------

  /** A place in a directory tree, by the names on the way down from its root. */
  type Place = seq<string>

  /** One step: stay, go up (the root is its own parent), or go down. */
  function Go(place: Place, component: string): Place {
    if !Moves(component) then place
    else if component == ".." then if place == [] then [] else place[..|place| - 1]
    else place + [component]
  }

  function Walk(start: Place, components: seq<string>): Place {
    if components == [] then start
    else Go(Walk(start, components[..|components| - 1]), components[|components| - 1])
  }

  lemma {:induction false} WalkConcat(start: Place, a: seq<string>, b: seq<string>)
    ensures Walk(start, a + b) == Walk(Walk(start, a), b)
  {
    if b == [] {
      assert a + b == a;
    } else {
      var n := |b| - 1;
      WalkConcat(start, a, b[..n]);
      assert (a + b)[..|a| + n] == a + b[..n] && (a + b)[|a| + n] == b[n];
    }
  }

  lemma WalkOne(start: Place, a: seq<string>, component: string)
    ensures Walk(start, a + [component]) == Go(Walk(start, a), component)
  {
    assert (a + [component])[..|a|] == a;
  }

  /** A normal form: every component moves, steps up come first, and an absolute path has none. */
  ghost predicate Normal(absolute: bool, stack: seq<string>) {
    && (forall component | component in stack :: Moves(component) && '/' !in component)
    && (forall j, k | 0 <= j < k < |stack| && stack[k] == ".." :: stack[j] == "..")
    && (absolute ==> ".." !in stack)
  }

  lemma {:induction false} NormaliseIsNormal(absolute: bool, components: seq<string>)
    requires forall component | component in components :: '/' !in component
    ensures Normal(absolute, Normalise(absolute, components))
  {
    if components != [] {
      var n := |components| - 1;
      NormaliseIsNormal(absolute, components[..n]);
      var stack := Normalise(absolute, components[..n]);
      assert stack != [] && absolute ==> stack[|stack| - 1] in stack;
    }
  }

  lemma UpUndoesDown(start: Place, front: seq<string>, name: string)
    requires Moves(name) && name != ".."
    ensures Go(Walk(start, front + [name]), "..") == Walk(start, front)
  {
    WalkOne(start, front, name);
  }

  /** Pushing a component onto a normal form does what walking it does. */
  lemma PushKeepsMeaning(absolute: bool, stack: seq<string>, component: string, start: Place)
    requires Normal(absolute, stack) && (absolute ==> start == [])
    ensures Walk(start, Push(absolute, stack, component)) == Go(Walk(start, stack), component)
  {
    WalkOne(start, stack, component);
    if component == ".." && stack != [] && stack[|stack| - 1] != ".." {
      assert stack[|stack| - 1] in stack;
      assert stack == stack[..|stack| - 1] + [stack[|stack| - 1]];
      UpUndoesDown(start, stack[..|stack| - 1], stack[|stack| - 1]);
    }
  }

  /** Normalising changes no meaning: from any place, or from the root for an absolute path, the walk ends where it did. */
  lemma {:induction false} NormaliseKeepsMeaning(absolute: bool, components: seq<string>, start: Place)
    requires forall component | component in components :: '/' !in component
    requires absolute ==> start == []
    ensures Walk(start, Normalise(absolute, components)) == Walk(start, components)
  {
    if components != [] {
      var n := |components| - 1;
      NormaliseKeepsMeaning(absolute, components[..n], start);
      NormaliseIsNormal(absolute, components[..n]);
      PushKeepsMeaning(absolute, Normalise(absolute, components[..n]), components[n], start);
    }
  }

  lemma PartsAfterSlash(rest: string)
    ensures Parts("/" + rest) == Parts(rest)
  {
    assert ("/" + rest)[1..] == rest;
    assert ([""] + Split(rest))[1..] == Split(rest);
  }

  lemma PartsAfterSlashes(path: string, rest: string)
    ensures Parts(LeadingSlashes(path) + rest) == Parts(rest)
  {
    if LeadingSlashes(path) == "/" {
      PartsAfterSlash(rest);
    } else if LeadingSlashes(path) == "//" {
      PartsAfterSlash(rest);
      PartsAfterSlash("/" + rest);
      assert "//" + rest == "/" + ("/" + rest);
    } else {
      assert "" + rest == rest;
    }
  }

  lemma DotHasNoParts()
    ensures Parts(".") == [] && Parts("") == []
  {
    SplitPlain(".");
    SplitPlain("");
  }

  /** The parts of a normalised path are the stack that `normpath` ends with. */
  lemma PartsOfNormpath(path: string)
    ensures Parts(Normpath(path)) == Normalise(IsAbsolute(path), Split(path))
    ensures Normal(IsAbsolute(path), Normalise(IsAbsolute(path), Split(path)))
  {
    SplitSegmentsHaveNoSlash(path);
    NormaliseIsNormal(IsAbsolute(path), Split(path));
    var stack := Normalise(IsAbsolute(path), Split(path));
    DotHasNoParts();
    PartsOfJoin(stack);
    PartsAfterSlashes(path, Join(stack));
    if path == "" { assert Split(path) == [""] && stack == []; }
  }

  /** `normpath` keeps the meaning of a path, and its result is a normal form. */
  lemma NormpathKeepsMeaning(path: string, start: Place)
    requires IsAbsolute(path) ==> start == []
    ensures Walk(start, Parts(Normpath(path))) == Walk(start, Split(path))
    ensures Normal(IsAbsolute(path), Parts(Normpath(path)))
  {
    PartsOfNormpath(path);
    SplitSegmentsHaveNoSlash(path);
    NormaliseKeepsMeaning(IsAbsolute(path), Split(path), start);
  }

  // ---- resolve_cue_dependencies -------------------------------------------------------------------

  datatype Dependency = Dependency(reference: string, relativePath: string)

  datatype Rejection = Rejection(reference: string, reason: string)

  function CueParts(cue: string): seq<string> {
    Split(Normpath(Slashes(cue)))
  }

  function System(cue: string): string {
    CueParts(cue)[0]
  }

  function CueDirectory(cue: string): string {
    var directory := Join(CueParts(cue)[..|CueParts(cue)| - 1]);
    if directory == "" then System(cue) else directory
  }

  function Candidate(cue: string, reference: string): seq<string> {
    Parts(Normpath(JoinPath(CueDirectory(cue), Slashes(reference))))
  }

  predicate Accepts(cue: string, reference: string) {
    var parts := Candidate(cue, reference);
    System(cue) != "" && parts != [] && parts[0] == System(cue) && ".." !in parts
  }

  function Dependencies(cue: string, references: seq<string>): seq<Dependency> {
    if references == [] then []
    else
      var n := |references| - 1;
      Dependencies(cue, references[..n]) +
        if Accepts(cue, references[n]) then [Dependency(references[n], Join(Candidate(cue, references[n])))] else []
  }

  const NO_SYSTEM := "cue path has no system component"
  const TRAVERSAL := "path traversal outside system source root"

  function Rejections(cue: string, references: seq<string>): seq<Rejection> {
    if references == [] then []
    else
      var n := |references| - 1;
      Rejections(cue, references[..n]) +
        if Accepts(cue, references[n]) then [] else [Rejection(references[n], if System(cue) == "" then NO_SYSTEM else TRAVERSAL)]
  }

  lemma ResolveSnoc(cue: string, references: seq<string>, i: nat)
    requires i < |references|
    ensures Dependencies(cue, references[..i + 1]) == Dependencies(cue, references[..i]) +
      if Accepts(cue, references[i]) then [Dependency(references[i], Join(Candidate(cue, references[i])))] else []
    ensures Rejections(cue, references[..i + 1]) == Rejections(cue, references[..i]) +
      if Accepts(cue, references[i]) then [] else [Rejection(references[i], if System(cue) == "" then NO_SYSTEM else TRAVERSAL)]
  {
    assert references[..i + 1][..i] == references[..i];
  }

  /** The body of the loop over the references. */
  method ResolveOne(cue: string, system: string, directory: string, reference: string) returns (relativePath: Option<string>)
    requires system == System(cue) != "" && directory == CueDirectory(cue)
    ensures relativePath.Some? == Accepts(cue, reference)
    ensures relativePath.Some? ==> relativePath.value == Join(Candidate(cue, reference))
  {
    var parts := Parts(Normpath(JoinPath(directory, Slashes(reference))));
    if parts == [] || parts[0] != system || ".." in parts { return None; }
    return Some(Join(parts));
  }

  /** The comprehension for a cue path without a system. */
  method RejectAll(cue: string, references: seq<string>) returns (rejected: seq<Rejection>)
    requires System(cue) == ""
    ensures rejected == Rejections(cue, references) && Dependencies(cue, references) == []
  {
    rejected := [];
    var i := 0;
    while i < |references|
      invariant i <= |references|
      invariant Dependencies(cue, references[..i]) == [] && rejected == Rejections(cue, references[..i])
    {
      ResolveSnoc(cue, references, i);
      rejected := rejected + [Rejection(references[i], NO_SYSTEM)];
      i := i + 1;
    }
    assert references[..i] == references;
  }

  /** `resolve_cue_dependencies`, given the references that the cue sheet holds. */
  method ResolveCueDependencies(cue: string, references: seq<string>) returns (dependencies: seq<Dependency>, rejected: seq<Rejection>)
    ensures dependencies == Dependencies(cue, references) && rejected == Rejections(cue, references)
  {
    var system := System(cue);
    if system == "" {
      rejected := RejectAll(cue, references);
      return [], rejected;
    }
    var directory := CueDirectory(cue);
    dependencies, rejected := [], [];
    var i := 0;
    while i < |references|
      invariant i <= |references|
      invariant dependencies == Dependencies(cue, references[..i]) && rejected == Rejections(cue, references[..i])
    {
      ResolveSnoc(cue, references, i);
      var resolved := ResolveOne(cue, system, directory, references[i]);
      if resolved == None {
        rejected := rejected + [Rejection(references[i], TRAVERSAL)];
      } else {
        dependencies := dependencies + [Dependency(references[i], resolved.value)];
      }
      i := i + 1;
    }
    assert references[..i] == references;
  }

  // ---- what acceptance means ------------------------------------------------------------------------

  /** At or below a directory. */
  predicate Within(place: Place, directory: Place) {
    directory <= place
  }

  /** The components of a relative reference, from the directory that holds the systems. */
  function ReferenceComponents(cue: string, reference: string): seq<string> {
    Split(CueDirectory(cue)) + Split(Slashes(reference))
  }

  lemma {:induction false} WalkNames(start: Place, names: seq<string>)
    requires forall name | name in names :: Moves(name) && name != ".."
    ensures Walk(start, names) == start + names
  {
    if names == [] {
      assert start + names == start;
    } else {
      var n := |names| - 1;
      WalkNames(start, names[..n]);
      assert names[n] in names && names == names[..n] + [names[n]];
    }
  }

  /** A place from which as many steps up lead to the root, and whose first name starts no path of these names. */
  function Elsewhere(ups: nat, names: seq<string>): (root: Place)
    ensures |root| == ups && forall k | 0 <= k < ups :: root[k] == if names == [] then "" else names[0] + "x"
  {
    seq(ups, i => if names == [] then "" else names[0] + "x")
  }

  lemma NotWithinElsewhere(ups: nat, names: seq<string>, system: string)
    requires ups > 0
    ensures !Within(names, Elsewhere(ups, names) + [system])
  {
    var root := Elsewhere(ups, names);
    if names != [] {
      assert (root + [system])[0] == names[0] + "x";
      assert |names[0] + "x"| != |names[0]|;
    }
  }

  /** The names that a normal form leaves behind its steps up. */
  lemma NamesBehindUps(stack: seq<string>)
    requires Normal(false, stack)
    ensures forall name | name in stack[CountUps(stack)..] :: Moves(name) && name != ".."
  {
    var ups := CountUps(stack);
    forall name | name in stack[ups..] ensures Moves(name) && name != ".." {
      var j :| ups <= j < |stack| && stack[j] == name;
      assert stack[j] in stack && stack[ups] != "..";
    }
  }

  lemma UpsComeFirst(stack: seq<string>)
    requires Normal(false, stack) && ".." in stack
    ensures CountUps(stack) > 0
  {
    var k :| 0 <= k < |stack| && stack[k] == "..";
    assert stack[0] == "..";
  }

  /** Where a normal form leads, from a place deep enough for its steps up. */
  lemma WalkNormal(stack: seq<string>, root: Place)
    requires Normal(false, stack) && |root| == CountUps(stack)
    ensures Walk(root, stack) == stack[CountUps(stack)..]
  {
    var ups := CountUps(stack);
    NamesBehindUps(stack);
    assert stack == stack[..ups] + stack[ups..];
    forall k | 0 <= k < ups ensures stack[..ups][k] == ".." {}
    WalkUpsThenNames(root, stack[..ups], stack[ups..]);
  }

  lemma WalkUpsThenNames(root: Place, ups: seq<string>, names: seq<string>)
    requires |root| == |ups| && (forall k | 0 <= k < |ups| :: ups[k] == "..")
    requires forall name | name in names :: Moves(name) && name != ".."
    ensures Walk(root, ups + names) == names
  {
    var top: Place := [];
    WalkUps(root, ups);
    assert root[..|root| - |ups|] == top;
    WalkConcat(root, ups, names);
    WalkNames(top, names);
    assert top + names == names;
  }

  /** A normal form that begins by stepping up leads out of some directory. */
  lemma UpLeadsOut(stack: seq<string>, system: string) returns (root: Place)
    requires Normal(false, stack) && ".." in stack
    ensures !Within(Walk(root, stack), root + [system])
  {
    var ups := CountUps(stack);
    UpsComeFirst(stack);
    root := Elsewhere(ups, stack[ups..]);
    WalkNormal(stack, root);
    NotWithinElsewhere(ups, stack[ups..], system);
  }

  function CountUps(stack: seq<string>): (n: nat)
    ensures n <= |stack| && forall k | 0 <= k < n :: stack[k] == ".."
    ensures n < |stack| ==> stack[n] != ".."
  {
    if stack == [] || stack[0] != ".." then 0 else 1 + CountUps(stack[1..])
  }

  lemma {:induction false} WalkUps(root: Place, ups: seq<string>)
    requires |root| >= |ups| && forall k | 0 <= k < |ups| :: ups[k] == ".."
    ensures Walk(root, ups) == root[..|root| - |ups|]
  {
    if ups != [] { WalkUps(root, ups[..|ups| - 1]); }
  }

  predicate Named(segment: string) { segment != "" && '/' !in segment }

  lemma {:induction false} JoinEnds(segments: seq<string>)
    requires segments != [] && forall k | 0 <= k < |segments| :: Named(segments[k])
    ensures var s := Join(segments); s != "" && s[0] != '/' && s[|s| - 1] != '/'
  {
    assert Named(segments[0]);
    if |segments| > 1 { JoinEnds(segments[1..]); }
  }

  /** The components of a relative cue path are proper names, steps up, or the one dot of an empty path. */
  lemma CuePartsAreNamed(cue: string)
    requires !IsAbsolute(Slashes(cue))
    ensures forall k | 0 <= k < |CueParts(cue)| :: Named(CueParts(cue)[k])
  {
    var path := Slashes(cue);
    var stack := Normalise(false, Split(path));
    PartsOfNormpath(path);
    if stack == [] {
      SplitPlain(".");
    } else {
      forall k | 0 <= k < |stack| ensures Named(stack[k]) { assert stack[k] in stack; }
      JoinEnds(stack);
      SplitJoin(stack);
      assert "" + Join(stack) == Join(stack);
    }
  }

  /** A cue path has no system exactly if it is absolute. */
  lemma NoSystemExactlyWhenAbsolute(cue: string)
    ensures System(cue) == "" <==> IsAbsolute(Slashes(cue))
  {
    if IsAbsolute(Slashes(cue)) {
      assert Normpath(Slashes(cue))[0] == '/';
    } else {
      CuePartsAreNamed(cue);
      assert Named(CueParts(cue)[0]);
    }
  }

  lemma DirectoryIsRelative(cue: string)
    requires System(cue) != ""
    ensures var d := CueDirectory(cue); d != "" && !IsAbsolute(d) && d[|d| - 1] != '/'
  {
    NoSystemExactlyWhenAbsolute(cue);
    CuePartsAreNamed(cue);
    var parts := CueParts(cue);
    if |parts| > 1 {
      JoinEnds(parts[..|parts| - 1]);
    } else {
      assert Named(parts[0]);
    }
  }

  /** A relative reference is walked from the cue sheet's own directory. */
  lemma RelativeCandidate(cue: string, reference: string)
    requires System(cue) != "" && !IsAbsolute(Slashes(reference))
    ensures Candidate(cue, reference) == Normalise(false, ReferenceComponents(cue, reference))
    ensures Normal(false, Candidate(cue, reference))
    ensures forall component | component in ReferenceComponents(cue, reference) :: '/' !in component
  {
    DirectoryIsRelative(cue);
    var path := CueDirectory(cue) + "/" + Slashes(reference);
    SplitConcat(CueDirectory(cue), Slashes(reference));
    SplitSegmentsHaveNoSlash(path);
    PartsOfNormpath(path);
  }

  /**
   * A relative reference is accepted exactly if, wherever the directory that holds the systems may be, the walk from
   * the cue sheet's directory ends in the cue sheet's own system.
   */
  lemma AcceptedExactlyWhenInside(cue: string, reference: string)
    requires System(cue) != "" && !IsAbsolute(Slashes(reference))
    ensures Accepts(cue, reference) <==>
      forall root: Place :: Within(Walk(root, ReferenceComponents(cue, reference)), root + [System(cue)])
  {
    var components, stack := ReferenceComponents(cue, reference), Candidate(cue, reference);
    RelativeCandidate(cue, reference);
    forall root: Place ensures Walk(root, components) == Walk(root, stack) {
      NormaliseKeepsMeaning(false, components, root);
    }
    if ".." in stack {
      var root := UpLeadsOut(stack, System(cue));
      assert !Within(Walk(root, components), root + [System(cue)]);
    } else {
      forall root: Place ensures Walk(root, stack) == root + stack {
        WalkNames(root, stack);
      }
      forall root: Place ensures Within(root + stack, root + [System(cue)]) <==> stack != [] && stack[0] == System(cue) {
        WithinNames(root, stack, System(cue));
      }
      assert Walk([], components) == [] + stack;
    }
  }

  lemma WithinNames(root: Place, names: seq<string>, system: string)
    ensures Within(root + names, root + [system]) <==> names != [] && names[0] == system
  {
    if Within(root + names, root + [system]) {
      assert (root + names)[|root|] == (root + [system])[|root|];
    }
    if names != [] && names[0] == system {
      assert root + names == root + [system] + names[1..];
    }
  }

  /** An absolute reference is read from the directory that holds the systems, not from the cue sheet's own. */
  lemma AbsoluteReferencesCountFromTheTop(cue: string, reference: string)
    requires System(cue) != "" && IsAbsolute(Slashes(reference))
    ensures Accepts(cue, reference) <==> Within(Walk([], Split(Slashes(reference))), [System(cue)])
    ensures Candidate(cue, reference) == Walk([], Split(Slashes(reference)))
  {
    var path := Slashes(reference);
    NormpathKeepsMeaning(path, []);
    var stack := Parts(Normpath(path));
    forall name | name in stack ensures Moves(name) && name != ".." {}
    WalkNames([], stack);
    assert [] + stack == stack;
    WithinNames([], stack, System(cue));
    assert [] + [System(cue)] == [System(cue)];
  }

  // ---- every reference is answered once ---------------------------------------------------------------

  function DependencyReferences(dependencies: seq<Dependency>): (r: seq<string>)
    ensures |r| == |dependencies| && forall k | 0 <= k < |r| :: r[k] == dependencies[k].reference
  {
    seq(|dependencies|, k requires 0 <= k < |dependencies| => dependencies[k].reference)
  }

  function RejectionReferences(rejections: seq<Rejection>): (r: seq<string>)
    ensures |r| == |rejections| && forall k | 0 <= k < |r| :: r[k] == rejections[k].reference
  {
    seq(|rejections|, k requires 0 <= k < |rejections| => rejections[k].reference)
  }

  function Accepting(cue: string): string -> bool { reference => Accepts(cue, reference) }

  function Rejecting(cue: string): string -> bool { reference => !Accepts(cue, reference) }

  lemma {:induction false} AcceptedInOrder(cue: string, references: seq<string>)
    ensures DependencyReferences(Dependencies(cue, references)) == Filter(Accepting(cue), references)
  {
    if references != [] {
      var n := |references| - 1;
      AcceptedInOrder(cue, references[..n]);
      FilterSnoc(Accepting(cue), references, n);
      assert references[..n + 1] == references;
    }
  }

  lemma {:induction false} RejectedInOrder(cue: string, references: seq<string>)
    ensures RejectionReferences(Rejections(cue, references)) == Filter(Rejecting(cue), references)
  {
    if references != [] {
      var n := |references| - 1;
      RejectedInOrder(cue, references[..n]);
      FilterSnoc(Rejecting(cue), references, n);
      assert references[..n + 1] == references;
    }
  }

  /** One rejected reference never takes another with it: each is accepted or rejected on its own, in order. */
  lemma EveryReferenceIsAnswered(cue: string, references: seq<string>)
    ensures DependencyReferences(Dependencies(cue, references)) == Filter(Accepting(cue), references)
    ensures RejectionReferences(Rejections(cue, references)) == Filter(Rejecting(cue), references)
  {
    AcceptedInOrder(cue, references);
    RejectedInOrder(cue, references);
  }

  // ---- the shape of an accepted reference ---------------------------------------------------------------

  lemma {:induction false} NormaliseInvents(absolute: bool, components: seq<string>)
    ensures forall component | component in Normalise(absolute, components) :: component in components
  {
    if components != [] {
      var n := |components| - 1;
      NormaliseInvents(absolute, components[..n]);
      assert components == components[..n] + [components[n]];
    }
  }

  /** Nothing on the way to a candidate brings a backslash back. */
  lemma NormpathKeepsBackslashesOut(path: string)
    requires '\\' !in path
    ensures forall part | part in Normalise(IsAbsolute(path), Split(path)) :: '\\' !in part
    ensures '\\' !in Normpath(path)
  {
    var stack := Normalise(IsAbsolute(path), Split(path));
    NormaliseInvents(IsAbsolute(path), Split(path));
    JoinSplit(path);
    JoinCharacters(Split(path), '\\');
    forall part | part in stack ensures '\\' !in part {
      var k :| 0 <= k < |Split(path)| && Split(path)[k] == part;
    }
    JoinCharacters(stack, '\\');
  }

  lemma DirectoryHasNoBackslash(cue: string)
    ensures '\\' !in CueDirectory(cue)
  {
    NormpathKeepsBackslashesOut(Slashes(cue));
    var parts := CueParts(cue);
    JoinSplit(Normpath(Slashes(cue)));
    JoinCharacters(parts, '\\');
    JoinCharacters(parts[..|parts| - 1], '\\');
  }

  /** A name that stands for itself on the way down. */
  predicate Plain(name: string) {
    Moves(name) && name != ".." && '/' !in name && '\\' !in name
  }

  lemma CandidateHasNoBackslash(cue: string, reference: string)
    ensures forall part | part in Candidate(cue, reference) :: '\\' !in part && Moves(part) && '/' !in part
  {
    DirectoryHasNoBackslash(cue);
    JoinedHasNoBackslash(CueDirectory(cue), Slashes(reference));
    PlainPartsOfNormpath(JoinPath(CueDirectory(cue), Slashes(reference)));
  }

  lemma JoinedHasNoBackslash(directory: string, path: string)
    requires '\\' !in directory && '\\' !in path
    ensures '\\' !in JoinPath(directory, path)
  {
  }

  lemma PlainPartsOfNormpath(path: string)
    requires '\\' !in path
    ensures forall part | part in Parts(Normpath(path)) :: '\\' !in part && Moves(part) && '/' !in part
  {
    NormpathKeepsBackslashesOut(path);
    PartsOfNormpath(path);
  }

  /** Plain names read back from the path they spell. */
  lemma PlainNamesReadBack(parts: seq<string>)
    requires parts != [] && forall part | part in parts :: Plain(part)
    ensures Slashes(Join(parts)) == Join(parts) && Parts(Join(parts)) == parts && !IsAbsolute(Join(parts))
  {
    JoinCharacters(parts, '\\');
    PartsOfJoin(parts);
    forall k | 0 <= k < |parts| ensures Named(parts[k]) { assert Plain(parts[k]); }
    JoinEnds(parts);
  }

  /** An accepted reference is spelled by plain names that start with the cue sheet's own system. */
  lemma AcceptedPathIsPlain(cue: string, reference: string)
    ensures var parts := Candidate(cue, reference);
      Accepts(cue, reference) ==>
      && parts != [] && parts[0] == System(cue) && (forall part | part in parts :: Plain(part))
      && Parts(Slashes(Join(parts))) == parts
  {
    if Accepts(cue, reference) {
      CandidateHasNoBackslash(cue, reference);
      PlainNamesReadBack(Candidate(cue, reference));
    }
  }

  // ---- cache_paths.py -----------------------------------------------------------------------------------

  datatype CacheError = InvalidSystem | InvalidPath | ForeignSystem | NoFilename | Traversal

  /** `_validate_system` */
  predicate ValidSystem(system: string) {
    system != "" && system != "." && system != ".." && '/' !in system && '\\' !in system
  }

  /** `system_relative_path` */
  function SystemRelativePath(system: string, relativePath: string): Result<seq<string>, CacheError> {
    var normalised := Slashes(relativePath);
    var parts := Parts(normalised);
    if !ValidSystem(system) then Err(InvalidSystem)
    else if IsAbsolute(normalised) || parts == [] then Err(InvalidPath)
    else if parts[0] != system then Err(ForeignSystem)
    else if |parts| == 1 then Err(NoFilename)
    else if exists part | part in parts[1..] :: part == ".." || part == "." || part == "" then Err(Traversal)
    else Ok(parts[1..])
  }

  /** `resolve_cache_path`, as a place. */
  function ResolveCachePath(cacheRoot: Place, system: string, relativePath: string): Result<Place, CacheError> {
    match SystemRelativePath(system, relativePath)
    case Err(error) => Err(error)
    case Ok(remainder) => Ok(cacheRoot + [system] + remainder)
  }

  /** Blank components move nowhere. */
  lemma {:induction false} WalkParts(start: Place, components: seq<string>)
    ensures Walk(start, Filter(Moves, components)) == Walk(start, components)
  {
    if components != [] {
      var n := |components| - 1;
      WalkParts(start, components[..n]);
      FilterSnoc(Moves, components, n);
      assert components[..n + 1] == components;
      WalkOne(start, Filter(Moves, components[..n]), components[n]);
      assert Filter(Moves, components[..n]) + [] == Filter(Moves, components[..n]);
    }
  }

  lemma FirstAndRest(parts: seq<string>, name: string)
    requires parts != []
    ensures name in parts <==> name == parts[0] || name in parts[1..]
  {
    assert parts == [parts[0]] + parts[1..];
  }

  /**
   * A path has a place in the cache exactly if the system is a plain name, and the path is relative, begins with the
   * system, names something below it and never steps up.
   */
  lemma CachedExactlyWhenBelow(cacheRoot: Place, system: string, relativePath: string)
    ensures var parts := Parts(Slashes(relativePath));
      ResolveCachePath(cacheRoot, system, relativePath).Ok? <==>
        && Plain(system)
        && !IsAbsolute(Slashes(relativePath)) && |parts| >= 2 && parts[0] == system && ".." !in parts
  {
    var parts := Parts(Slashes(relativePath));
    PartsOfSlashes(relativePath);
    if parts != [] {
      FirstAndRest(parts, "..");
      forall part | part in parts[1..] ensures Moves(part) { FirstAndRest(parts, part); }
    }
  }

  lemma PlaceIsRootAndParts(cacheRoot: Place, system: string, relativePath: string)
    requires ResolveCachePath(cacheRoot, system, relativePath).Ok?
    ensures var parts := Parts(Slashes(relativePath));
      |parts| >= 2 && parts[0] == system && ResolveCachePath(cacheRoot, system, relativePath).value == cacheRoot + parts
  {
    var parts := Parts(Slashes(relativePath));
    assert cacheRoot + [system] + parts[1..] == cacheRoot + parts;
  }

  /** Its place is where it leads from the cache root, and lies below the system's directory there. */
  lemma CachePathIsWhereItLeads(cacheRoot: Place, system: string, relativePath: string)
    requires ResolveCachePath(cacheRoot, system, relativePath).Ok?
    ensures var place := ResolveCachePath(cacheRoot, system, relativePath).value;
      place == Walk(cacheRoot, Split(Slashes(relativePath))) && cacheRoot + [system] < place
  {
    PlaceIsRootAndParts(cacheRoot, system, relativePath);
    CachedExactlyWhenBelow(cacheRoot, system, relativePath);
    WalkPlainParts(cacheRoot, Slashes(relativePath));
  }

  lemma WalkPlainParts(start: Place, path: string)
    requires ".." !in Parts(path)
    ensures Walk(start, Split(path)) == start + Parts(path)
  {
    WalkParts(start, Split(path));
    FilterElements(Moves, Split(path));
    WalkNames(start, Parts(path));
  }

  /** Two paths share a place in the cache only if they name the same system and the same parts. */
  lemma CachePathsAreInjective(cacheRoot: Place, system: string, relativePath: string, system': string, relativePath': string)
    requires ResolveCachePath(cacheRoot, system, relativePath).Ok?
    requires ResolveCachePath(cacheRoot, system, relativePath) == ResolveCachePath(cacheRoot, system', relativePath')
    ensures system == system' && Parts(Slashes(relativePath)) == Parts(Slashes(relativePath'))
  {
    var parts, parts' := Parts(Slashes(relativePath)), Parts(Slashes(relativePath'));
    var place := ResolveCachePath(cacheRoot, system, relativePath).value;
    assert parts == [parts[0]] + parts[1..] && parts' == [parts'[0]] + parts'[1..];
    assert place[|cacheRoot|..] == [system] + parts[1..] == [system'] + parts'[1..];
    assert ([system] + parts[1..])[1..] == parts[1..] && ([system'] + parts'[1..])[1..] == parts'[1..];
  }

  /** A cue sheet's accepted reference has a place below its system in the cache, unless it names the system's directory itself. */
  lemma DependenciesAreCached(cacheRoot: Place, cue: string, reference: string)
    ensures var parts := Candidate(cue, reference);
      Accepts(cue, reference) ==>
        ResolveCachePath(cacheRoot, System(cue), Join(parts)) == if |parts| >= 2 then Ok(cacheRoot + parts) else Err(NoFilename)
  {
    AcceptedPathIsPlain(cue, reference);
    if Accepts(cue, reference) { PlainNamesAreCached(cacheRoot, Candidate(cue, reference)); }
  }

  lemma PlainNamesAreCached(cacheRoot: Place, parts: seq<string>)
    requires parts != [] && forall part | part in parts :: Plain(part)
    ensures ResolveCachePath(cacheRoot, parts[0], Join(parts)) == if |parts| >= 2 then Ok(cacheRoot + parts) else Err(NoFilename)
  {
    PlainNamesReadBack(parts);
    assert Plain(parts[0]);
    CachedExactlyWhenBelow(cacheRoot, parts[0], Join(parts));
    if |parts| >= 2 {
      assert ".." !in parts by { assert !Plain(".."); }
      PlaceIsRootAndParts(cacheRoot, parts[0], Join(parts));
    }
  }

  /** References of two cue sheets that share a place in the cache are the same path. */
  lemma CachedDependenciesAreInjective(cacheRoot: Place, cue: string, reference: string, cue': string, reference': string)
    ensures
      var place := ResolveCachePath(cacheRoot, System(cue), Join(Candidate(cue, reference)));
      var place' := ResolveCachePath(cacheRoot, System(cue'), Join(Candidate(cue', reference')));
      Accepts(cue, reference) && Accepts(cue', reference') && place.Ok? && place == place' ==>
        Candidate(cue, reference) == Candidate(cue', reference')
  {
    AcceptedPathIsPlain(cue, reference);
    AcceptedPathIsPlain(cue', reference');
    var path, path' := Join(Candidate(cue, reference)), Join(Candidate(cue', reference'));
    var place := ResolveCachePath(cacheRoot, System(cue), path);
    if place.Ok? && place == ResolveCachePath(cacheRoot, System(cue'), path') {
      CachePathsAreInjective(cacheRoot, System(cue), path, System(cue'), path');
    }
  }

  // ---- a reference from the top ---------------------------------------------------------------------------

  lemma {:induction false} NormaliseNames(absolute: bool, names: seq<string>)
    requires forall name | name in names :: Moves(name) && name != ".."
    ensures Normalise(absolute, names) == names
  {
    if names != [] {
      var n := |names| - 1;
      NormaliseNames(absolute, names[..n]);
      assert names[n] in names && names == names[..n] + [names[n]];
    }
  }

  /** A cue path of plain names is its own normal form. */
  lemma PlainCue(names: seq<string>)
    requires names != [] && forall name | name in names :: Plain(name)
    ensures CueParts(Join(names)) == names
  {
    PlainNamesReadBack(names);
    SplitJoin(names);
    NormpathOfPlain(names);
  }

  lemma NormpathOfPlain(names: seq<string>)
    requires names != [] && forall name | name in names :: Plain(name)
    ensures Normpath(Join(names)) == Join(names)
  {
    var path := Join(names);
    PlainNamesReadBack(names);
    SplitJoin(names);
    NormaliseNames(false, names);
    assert path != "" by { assert Parts(path) != []; DotHasNoParts(); }
    assert "" + path == path;
  }

  lemma SlashesOfTop(path: string)
    requires Slashes(path) == path
    ensures Slashes("/" + path) == "/" + path && IsAbsolute("/" + path)
  {
  }

  /**
   * A cue sheet in a directory of its own system names a file by `/system/file`: the reference is accepted as that
   * path, although it does not lie in the cue sheet's directory.
   */
  lemma ReferenceFromTheTop(system: string, directory: string, sheet: string, file: string)
    requires Plain(system) && Plain(directory) && Plain(sheet) && Plain(file) && file != directory
    ensures var cue, reference := Join([system, directory, sheet]), "/" + Join([system, file]);
      && CueDirectory(cue) == Join([system, directory])
      && Accepts(cue, reference) && Candidate(cue, reference) == [system, file]
      && !Within([system, file], [system, directory])
  {
    var cue, reference := Join([system, directory, sheet]), "/" + Join([system, file]);
    PlainCue([system, directory, sheet]);
    assert CueParts(cue)[..2] == [system, directory];
    forall k | 0 <= k < 2 ensures Named([system, directory][k]) {}
    JoinEnds([system, directory]);
    PlainNamesReadBack([system, file]);
    SlashesOfTop(Join([system, file]));
    AbsoluteReferencesCountFromTheTop(cue, reference);
    PartsAfterSlash(Join([system, file]));
    WalkPlainParts([], reference);
    assert [] + [system, file] == [system, file] && [system, file][..1] == [system];
  }

  /** For example the reference `/psx/a.bin` of the cue sheet `psx/d/g.cue`. */
  lemma AbsoluteReferenceIsAccepted()
    ensures Accepts(Join(["psx", "d", "g.cue"]), "/" + Join(["psx", "a.bin"]))
    ensures Candidate(Join(["psx", "d", "g.cue"]), "/" + Join(["psx", "a.bin"])) == ["psx", "a.bin"]
  {
    assert "psx" != ".." && "d" != ".." && |"g.cue"| != 2 && |"a.bin"| != |"d"|;
    ReferenceFromTheTop("psx", "d", "g.cue", "a.bin");
  }
}
