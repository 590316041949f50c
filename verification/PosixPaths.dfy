/** Slash-separated path strings and their segments. */
module PosixPaths {
  import opened Ordering

  /** What `Split` does with the first character of a string, given the segments of the rest. */
  function Prepend(c: char, rest: seq<string>): seq<string>
    requires rest != []
  {
    if c == '/' then [""] + rest else [[c] + rest[0]] + rest[1..]
  }

  /** Python's `s.split("/")` */
  function Split(s: string): (segments: seq<string>)
    ensures segments != []
  {
    if s == "" then [""] else Prepend(s[0], Split(s[1..]))
  }

  /** Python's `"/".join(segments)` */
  function Join(segments: seq<string>): string {
    if segments == [] then ""
    else if |segments| == 1 then segments[0]
    else segments[0] + "/" + Join(segments[1..])
  }

  lemma {:induction false} JoinConcat(a: seq<string>, b: seq<string>)
    requires a != [] && b != []
    ensures Join(a + b) == Join(a) + "/" + Join(b)
  {
    if |a| == 1 {
      assert (a + b)[1..] == b;
    } else {
      JoinConcat(a[1..], b);
      assert (a + b)[1..] == a[1..] + b;
    }
  }

  lemma {:induction false} SplitSegmentsHaveNoSlash(s: string)
    ensures forall segment | segment in Split(s) :: '/' !in segment
  {
    if s != "" { SplitSegmentsHaveNoSlash(s[1..]); }
  }

  lemma {:induction false} JoinSplit(s: string)
    ensures Join(Split(s)) == s
  {
    if s != "" {
      var rest := Split(s[1..]);
      JoinSplit(s[1..]);
      if s[0] == '/' {
        assert ([""] + rest)[1..] == rest;
      } else if |rest| > 1 {
        assert ([[s[0]] + rest[0]] + rest[1..])[1..] == rest[1..];
      }
    }
  }

  lemma {:induction false} SplitPlain(a: string)
    requires '/' !in a
    ensures Split(a) == [a]
  {
    if a != "" {
      SplitPlain(a[1..]);
      assert a == [a[0]] + a[1..];
    }
  }

  lemma {:induction false} SplitConcat(a: string, b: string)
    ensures Split(a + "/" + b) == Split(a) + Split(b)
  {
    var s := a + "/" + b;
    if a == "" {
      assert s[1..] == b;
    } else {
      SplitConcat(a[1..], b);
      assert s[1..] == a[1..] + "/" + b && s[0] == a[0];
      PrependConcat(a[0], Split(a[1..]), Split(b));
    }
  }

  lemma PrependConcat(c: char, a: seq<string>, b: seq<string>)
    requires a != []
    ensures Prepend(c, a + b) == Prepend(c, a) + b
  {
    assert (a + b)[1..] == a[1..] + b;
  }

  lemma {:induction false} SplitJoin(segments: seq<string>)
    requires segments != [] && forall segment | segment in segments :: '/' !in segment
    ensures Split(Join(segments)) == segments
  {
    if |segments| == 1 {
      SplitPlain(segments[0]);
    } else {
      SplitJoin(segments[1..]);
      SplitConcat(segments[0], Join(segments[1..]));
      SplitPlain(segments[0]);
      assert segments == [segments[0]] + segments[1..];
    }
  }

  lemma JoinInjective(a: seq<string>, b: seq<string>)
    requires a != [] && b != [] && Join(a) == Join(b)
    requires forall segment | segment in a + b :: '/' !in segment
    ensures a == b
  {
    SplitJoin(a);
    SplitJoin(b);
  }

  lemma {:induction false} JoinCharacters(segments: seq<string>, c: char)
    requires c != '/'
    ensures c in Join(segments) <==> exists k :: 0 <= k < |segments| && c in segments[k]
  {
    if |segments| > 1 {
      JoinCharacters(segments[1..], c);
      if k :| 0 <= k < |segments[1..]| && c in segments[1..][k] { assert c in segments[k + 1]; }
      if k :| 0 <= k < |segments| && c in segments[k] {
        if k > 0 { assert c in segments[1..][k - 1]; }
      }
    }
  }

  // ---- backslashes and parts ------------------------------------------------------------------

  /** Python's `s.replace("\\", "/")` */
  function Slashes(s: string): (r: string)
    ensures |r| == |s| && forall k | 0 <= k < |s| :: r[k] == if s[k] == '\\' then '/' else s[k]
  {
    seq(|s|, k requires 0 <= k < |s| => if s[k] == '\\' then '/' else s[k])
  }

  /** A segment that names a step down or up, and not the place itself. */
  predicate Moves(segment: string) { segment != "" && segment != "." }

  /** The `parts` of a relative `PurePosixPath`. */
  function Parts(s: string): seq<string> {
    Filter(Moves, Split(s))
  }

  lemma PartsOfSlashes(s: string)
    ensures forall part | part in Parts(Slashes(s)) :: Moves(part) && '/' !in part && '\\' !in part
  {
    var t := Slashes(s);
    FilterElements(Moves, Split(t));
    SplitSegmentsHaveNoSlash(t);
    JoinSplit(t);
    JoinCharacters(Split(t), '\\');
    assert '\\' !in t;
  }

  lemma PartsOfJoin(segments: seq<string>)
    requires forall segment | segment in segments :: Moves(segment) && '/' !in segment
    ensures Parts(Join(segments)) == segments
  {
    if segments == [] {
      assert Split("") == [""];
    } else {
      SplitJoin(segments);
      FilterAll(Moves, segments);
    }
  }
}
