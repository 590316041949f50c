/** Where a cue sheet lies, and so where its references lead. */
module CueDirectories {
  import opened Options
  import opened PosixPaths
  import opened Ordering
  import opened CuePaths

  /** A relative cue path that leads, from wherever the systems lie, to the file with these names. */
  ghost predicate LeadsTo(cue: string, names: seq<string>) {
    !IsAbsolute(Slashes(cue)) && names != [] && forall root: Place :: Walk(root, Split(Slashes(cue))) == root + names
  }

  /** However it is spelled, a path of plain names leads to them. */
  lemma NamesLeadThere(names: seq<string>)
    requires names != [] && forall name | name in names :: Plain(name)
    ensures LeadsTo(Join(names), names)
  {
    PlainNamesReadBack(names);
    SplitJoin(names);
    forall root: Place ensures Walk(root, Split(Join(names))) == root + names {
      WalkNames(root, names);
    }
  }

  lemma NormalFormOfNames(cue: string, names: seq<string>)
    requires LeadsTo(cue, names)
    ensures Normalise(false, Split(Slashes(cue))) == names && Normal(false, names) && ".." !in names
  {
    var path := Slashes(cue);
    var stack := Normalise(false, Split(path));
    SplitSegmentsHaveNoSlash(path);
    NormaliseIsNormal(false, Split(path));
    forall root: Place ensures Walk(root, stack) == root + names {
      NormaliseKeepsMeaning(false, Split(path), root);
    }
    if ".." in stack {
      var root := UpLeadsOut(stack, names[0]);
      WithinNames(root, names, names[0]);
      assert false;
    }
    WalkNames([], stack);
    assert [] + stack == stack && [] + names == names;
  }

  lemma NormpathOfNames(cue: string, names: seq<string>)
    requires LeadsTo(cue, names)
    ensures Normpath(Slashes(cue)) == Join(names)
  {
    NormalFormOfNames(cue, names);
    forall k | 0 <= k < |names| ensures Named(names[k]) { assert names[k] in names; }
    JoinEnds(names);
    DotHasNoParts();
    if Slashes(cue) == "" {
      NormaliseNothing();
    }
    assert "" + Join(names) == Join(names);
  }

  lemma NormaliseNothing()
    ensures Normalise(false, Split("")) == []
  {
    assert Split("") == [""];
    assert [""][..0] == [];
  }

  /** The directory that holds the cue sheet, or for a cue path of one name that name, as the source has it. */
  function Home(names: seq<string>): (r: seq<string>)
    requires names != []
    ensures r != []
  {
    if |names| == 1 then names else names[..|names| - 1]
  }

  /** The system is the first name on the way to the cue sheet, and references count from the directory that holds it. */
  lemma CueLiesAt(cue: string, names: seq<string>)
    requires LeadsTo(cue, names)
    ensures System(cue) == names[0] && CueDirectory(cue) == Join(Home(names))
    ensures forall name | name in Home(names) :: Moves(name) && name != ".." && '/' !in name
  {
    NormalFormOfNames(cue, names);
    NormpathOfNames(cue, names);
    SplitJoin(names);
    var parts := names[..|names| - 1];
    if parts != [] {
      forall k | 0 <= k < |parts| ensures Named(parts[k]) { assert parts[k] in names; }
      JoinEnds(parts);
    }
    forall name | name in Home(names) ensures Moves(name) && name != ".." && '/' !in name { assert name in names; }
  }

  /** A cue path spelled by plain names: `a/b/sheet.cue` has the directory `a/b`, whatever their number. */
  lemma DirectoryOfSpelledCue(names: seq<string>, sheet: string)
    requires names != [] && Plain(sheet) && forall name | name in names :: Plain(name)
    ensures System(Join(names + [sheet])) == names[0] && CueDirectory(Join(names + [sheet])) == Join(names)
  {
    NamesLeadThere(names + [sheet]);
    CueLiesAt(Join(names + [sheet]), names + [sheet]);
    assert Home(names + [sheet]) == names;
  }

  /** Where the components of a reference are walked from: the cue sheet's directory, or the top if it is absolute. */
  function StartOf(names: seq<string>, reference: string): Place
    requires names != []
  {
    if IsAbsolute(Slashes(reference)) then [] else Home(names)
  }

  lemma WalkFromHome(root: Place, cue: string, names: seq<string>, reference: string)
    requires LeadsTo(cue, names)
    ensures Walk(root, ReferenceComponents(cue, reference)) == Walk(root + Home(names), Split(Slashes(reference)))
  {
    CueLiesAt(cue, names);
    SplitJoin(Home(names));
    WalkConcat(root, Home(names), Split(Slashes(reference)));
    WalkNames(root, Home(names));
  }

  /**
   * A relative reference is accepted exactly if the walk along it from the directory of the cue sheet ends in the cue
   * sheet's own system, wherever the systems lie.
   */
  lemma RelativeReferenceStaysInside(cue: string, names: seq<string>, reference: string)
    requires LeadsTo(cue, names) && !IsAbsolute(Slashes(reference))
    ensures Accepts(cue, reference) <==>
      forall root: Place :: Within(Walk(root + Home(names), Split(Slashes(reference))), root + [names[0]])
  {
    CueLiesAt(cue, names);
    assert System(cue) != "" by { assert Moves(Home(names)[0]); }
    AcceptedExactlyWhenInside(cue, reference);
    forall root: Place
      ensures Walk(root, ReferenceComponents(cue, reference)) == Walk(root + Home(names), Split(Slashes(reference)))
    {
      WalkFromHome(root, cue, names, reference);
    }
  }

  /** The path of an accepted reference is where the walk along it ends. */
  lemma AcceptedLeadsThere(cue: string, names: seq<string>, reference: string)
    requires LeadsTo(cue, names) && Accepts(cue, reference)
    ensures Candidate(cue, reference) == Walk(StartOf(names, reference), Split(Slashes(reference)))
  {
    if IsAbsolute(Slashes(reference)) {
      AbsoluteReferencesCountFromTheTop(cue, reference);
    } else {
      var stack := Candidate(cue, reference);
      RelativeCandidate(cue, reference);
      NormaliseKeepsMeaning(false, ReferenceComponents(cue, reference), []);
      WalkFromHome([], cue, names, reference);
      WalkNames([], stack);
      assert [] + stack == stack && [] + Home(names) == Home(names);
    }
  }

  lemma {:induction false} DependenciesAreCandidates(cue: string, references: seq<string>)
    ensures forall d | d in Dependencies(cue, references) ::
      d.reference in references && Accepts(cue, d.reference) && d.relativePath == Join(Candidate(cue, d.reference))
  {
    if references != [] {
      var n := |references| - 1;
      DependenciesAreCandidates(cue, references[..n]);
      assert references[n] in references && forall r | r in references[..n] :: r in references;
    }
  }

  /** Every dependency of a cue sheet has the path at which the walk along its reference ends. */
  lemma DependenciesLieWhereTheyLead(cue: string, names: seq<string>, references: seq<string>)
    requires LeadsTo(cue, names)
    ensures forall d | d in Dependencies(cue, references) ::
      d.reference in references && d.relativePath == Join(Walk(StartOf(names, d.reference), Split(Slashes(d.reference))))
  {
    DependenciesAreCandidates(cue, references);
    forall d | d in Dependencies(cue, references)
      ensures Candidate(cue, d.reference) == Walk(StartOf(names, d.reference), Split(Slashes(d.reference)))
    {
      AcceptedLeadsThere(cue, names, d.reference);
    }
  }

  /** A plain name is the file beside the cue sheet. */
  lemma PlainNameIsBeside(cue: string, names: seq<string>, file: string)
    requires LeadsTo(cue, names) && Plain(file)
    ensures Dependencies(cue, [file]) == [Dependency(file, Join(Home(names) + [file]))]
  {
    PlainNamesReadBack([file]);
    SplitPlain(file);
    assert Slashes(file) == file && !IsAbsolute(file);
    forall root: Place ensures Within(Walk(root + Home(names), [file]), root + [names[0]]) {
      WalkOneName(root + Home(names), file);
      WithinNames(root, Home(names) + [file], names[0]);
      assert root + Home(names) + [file] == root + (Home(names) + [file]);
    }
    RelativeReferenceStaysInside(cue, names, file);
    AcceptedLeadsThere(cue, names, file);
    WalkOneName(Home(names), file);
    assert [file][..0] == [];
    assert Dependencies(cue, []) == [];
  }

  lemma WalkOneName(start: Place, file: string)
    requires Plain(file)
    ensures Walk(start, [file]) == start + [file]
  {
    assert [file][..0] == [];
  }

  /** Cue sheets in two directories may each have a file of the same name: their dependencies do not collide. */
  lemma SameNamedFilesStayApart(cue: string, names: seq<string>, cue': string, names': seq<string>, file: string)
    requires LeadsTo(cue, names) && LeadsTo(cue', names') && Plain(file)
    ensures Dependencies(cue, [file]) == Dependencies(cue', [file]) <==> Home(names) == Home(names')
  {
    PlainNameIsBeside(cue, names, file);
    PlainNameIsBeside(cue', names', file);
    CueLiesAt(cue, names);
    CueLiesAt(cue', names');
    SameLastName(Home(names), Home(names'), file);
    if Dependencies(cue, [file]) == Dependencies(cue', [file]) {
      assert Dependencies(cue, [file])[0].relativePath == Dependencies(cue', [file])[0].relativePath;
    }
  }

  lemma SameLastName(a: seq<string>, b: seq<string>, file: string)
    requires '/' !in file && forall segment | segment in a + b :: '/' !in segment
    ensures Join(a + [file]) == Join(b + [file]) <==> a == b
  {
    if Join(a + [file]) == Join(b + [file]) {
      forall segment | segment in (a + [file]) + (b + [file]) ensures '/' !in segment {
        assert segment in a + b || segment == file;
      }
      JoinInjective(a + [file], b + [file]);
      assert (a + [file])[..|a|] == a && (b + [file])[..|b|] == b;
    }
  }

  // ---- rejections ------------------------------------------------------------------------------

  /** Every rejection says why. */
  lemma {:induction false} RejectionsSayWhy(cue: string, references: seq<string>)
    ensures forall r | r in Rejections(cue, references) ::
      && r.reference in references && !Accepts(cue, r.reference)
      && r.reason == if IsAbsolute(Slashes(cue)) then "cue path has no system component" else "path traversal outside system source root"
  {
    NoSystemExactlyWhenAbsolute(cue);
    if references != [] {
      var n := |references| - 1;
      RejectionsSayWhy(cue, references[..n]);
      assert references[n] in references && forall r | r in references[..n] :: r in references;
    }
  }
}
