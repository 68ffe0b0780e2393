/** Slash-separated relative paths and their clean form: a model of Go's `path.Clean` for names
    that do not start with a slash, which is all the archive code passes to it. */
module Paths {
  import opened Strings

  /** One name between slashes that means what it says. */
  predicate IsSegment(s: string)
  {
    s != "" && s != "." && s != ".." && '/' !in s
  }

  predicate AllSegments(segs: seq<string>)
  {
    forall i :: 0 <= i < |segs| ==> IsSegment(segs[i])
  }

  /** A path made of segments only: non-empty, relative, clean, and never leaving its root. */
  predicate IsProper(name: string)
  {
    AllSegments(Split(name, '/'))
  }

  /** Left to right: empty and "." segments vanish, ".." takes back the segment before it. */
  function Collapse(done: seq<string>, segs: seq<string>): seq<string>
    decreases |segs|
  {
    if segs == [] then done
    else if segs[0] == "" || segs[0] == "." then Collapse(done, segs[1..])
    else if segs[0] == ".." && done != [] && done[|done| - 1] != ".." then
      Collapse(done[..|done| - 1], segs[1..])
    else Collapse(done + [segs[0]], segs[1..])
  }

  function Clean(name: string): string
  {
    var segs := Collapse([], Split(name, '/'));
    if segs == [] then "." else Join(segs, '/')
  }

  /** Clean segments: nothing empty, no ".", and ".." only in front. */
  predicate IsCollapsed(segs: seq<string>)
  {
    && (forall i :: 0 <= i < |segs| ==> segs[i] != "" && segs[i] != "." && '/' !in segs[i])
    && (forall i :: 0 < i < |segs| && segs[i] == ".." ==> segs[i - 1] == "..")
  }

  lemma {:induction false} CollapseIsCollapsed(done: seq<string>, segs: seq<string>)
    requires IsCollapsed(done) && forall i :: 0 <= i < |segs| ==> '/' !in segs[i]
    ensures IsCollapsed(Collapse(done, segs))
    decreases |segs|
  {
    if segs != [] {
      assert '/' !in segs[0];
      if segs[0] == "" || segs[0] == "." {
        CollapseIsCollapsed(done, segs[1..]);
      } else if segs[0] == ".." && done != [] && done[|done| - 1] != ".." {
        CollapseIsCollapsed(done[..|done| - 1], segs[1..]);
      } else {
        CollapseIsCollapsed(done + [segs[0]], segs[1..]);
      }
    }
  }

  lemma {:induction false} CollapsedStays(done: seq<string>, segs: seq<string>)
    requires IsCollapsed(done + segs)
    ensures Collapse(done, segs) == done + segs
    decreases |segs|
  {
    if segs == [] {
      assert done + [] == done;
    } else {
      assert (done + segs)[|done|] == segs[0];
      if done != [] {
        assert (done + segs)[|done| - 1] == done[|done| - 1];
      }
      assert done + segs == done + [segs[0]] + segs[1..];
      CollapsedStays(done + [segs[0]], segs[1..]);
    }
  }

  lemma CleanSegments(name: string)
    ensures IsCollapsed(Collapse([], Split(name, '/')))
    ensures Collapse([], Split(name, '/')) != [] ==> Split(Clean(name), '/') == Collapse([], Split(name, '/'))
  {
    var segs := Collapse([], Split(name, '/'));
    CollapseIsCollapsed([], Split(name, '/'));
    if segs != [] {
      JoinThenSplit(segs, '/');
    }
  }

  /** Cleaning a clean name changes nothing. */
  lemma CleanIsIdempotent(name: string)
    ensures Clean(Clean(name)) == Clean(name)
  {
    var segs := Collapse([], Split(name, '/'));
    CleanSegments(name);
    if segs == [] {
      SplitField(".", '/');
    } else {
      assert [] + segs == segs;
      CollapsedStays([], segs);
    }
  }

  /** A proper path is its own clean form. */
  lemma ProperIsClean(name: string)
    requires IsProper(name)
    ensures Clean(name) == name
  {
    var segs := Split(name, '/');
    assert [] + segs == segs;
    CollapsedStays([], segs);
    SplitThenJoin(name, '/');
  }

  lemma {:induction false} CollapseOfConcat(done: seq<string>, a: seq<string>, b: seq<string>)
    ensures Collapse(done, a + b) == Collapse(Collapse(done, a), b)
    decreases |a|
  {
    if a == [] {
      assert a + b == b;
    } else {
      assert (a + b)[0] == a[0] && (a + b)[1..] == a[1..] + b;
      if a[0] == "" || a[0] == "." {
        CollapseOfConcat(done, a[1..], b);
      } else if a[0] == ".." && done != [] && done[|done| - 1] != ".." {
        CollapseOfConcat(done[..|done| - 1], a[1..], b);
      } else {
        CollapseOfConcat(done + [a[0]], a[1..], b);
      }
    }
  }

  lemma {:induction false} SplitOfConcat(a: string, b: string, c: char)
    ensures Split(a + [c] + b, c) == Split(a, c) + Split(b, c)
  {
    var s := a + [c] + b;
    if a == "" {
      assert s == [c] + b && s[1..] == b;
    } else {
      assert s[0] == a[0] && s[1..] == a[1..] + [c] + b;
      SplitOfConcat(a[1..], b, c);
      var r := Split(a[1..], c);
      if a[0] == c {
        assert [[]] + (r + Split(b, c)) == ([[]] + r) + Split(b, c);
      } else {
        assert (r + Split(b, c))[0] == r[0] && (r + Split(b, c))[1..] == r[1..] + Split(b, c);
        assert [[a[0]] + r[0]] + (r[1..] + Split(b, c)) == ([[a[0]] + r[0]] + r[1..]) + Split(b, c);
      }
    }
  }

  /** Segments in the middle of a path that collapse to nothing may be left out. */
  lemma CleanWithout(a: string, middle: string, b: string)
    requires forall done :: Collapse(done, Split(middle, '/')) == done
    ensures Clean(a + ['/'] + (middle + ['/'] + b)) == Clean(a + ['/'] + b)
  {
    SplitOfConcat(a, middle + ['/'] + b, '/');
    SplitOfConcat(middle, b, '/');
    SplitOfConcat(a, b, '/');
    var x, m, y := Split(a, '/'), Split(middle, '/'), Split(b, '/');
    CollapseOfConcat([], x, m + y);
    CollapseOfConcat(Collapse([], x), m, y);
    CollapseOfConcat([], x, y);
    hide Collapse, Split;
  }

  /** What cleaning does, rule by rule: an empty segment and "." vanish, and ".." takes back the
      segment before it. */
  lemma CleanRules(a: string, s: string, b: string)
    requires IsSegment(s)
    ensures Clean(a + "//" + b) == Clean(a + "/" + b)
    ensures Clean(a + "/./" + b) == Clean(a + "/" + b)
    ensures Clean(a + "/" + s + "/../" + b) == Clean(a + "/" + b)
  {
    NothingCollapses("");
    NothingCollapses(".");
    SegmentCollapses(s);
    CleanWithout(a, "", b);
    CleanWithout(a, ".", b);
    CleanWithout(a, s + "/..", b);
    hide Clean;
    assert a + ['/'] + ("" + ['/'] + b) == a + "//" + b;
    assert a + ['/'] + ("." + ['/'] + b) == a + "/./" + b;
    assert a + ['/'] + (s + "/.." + ['/'] + b) == a + "/" + s + "/../" + b;
    assert a + ['/'] + b == a + "/" + b;
  }

  lemma NothingCollapses(s: string)
    requires s == "" || s == "."
    ensures forall done :: Collapse(done, Split(s, '/')) == done
  {
    SplitField(s, '/');
    forall done
      ensures Collapse(done, [s]) == done
    {
      assert [s][1..] == [];
    }
  }

  lemma SegmentCollapses(s: string)
    requires IsSegment(s)
    ensures forall done :: Collapse(done, Split(s + "/..", '/')) == done
  {
    SplitFirst(s, "..", '/');
    SplitField("..", '/');
    assert s + ['/'] + ".." == s + "/..";
    assert Split(s + "/..", '/') == [s, ".."];
    forall done
      ensures Collapse(done, [s, ".."]) == done
    {
      assert [s, ".."][1..] == [".."] && [".."][1..] == [];
      var more := done + [s];
      assert more != [] && more[|more| - 1] == s && more[..|more| - 1] == done;
      assert Collapse(more, [".."]) == Collapse(done, []);
      assert Collapse(done, [s, ".."]) == Collapse(more, [".."]);
    }
  }

  /** The checks on a cleaned name (internal/content/archive-keys.go:70-72). */
  predicate Escapes(cleaned: string)
  {
    cleaned == "." || cleaned == ".." || "../" <= cleaned || "/" <= cleaned
  }

  /** The checks let through exactly the proper paths. */
  lemma EscapesIff(name: string)
    ensures Escapes(Clean(name)) <==> !IsProper(Clean(name))
  {
    var segs := Collapse([], Split(name, '/'));
    CleanSegments(name);
    if segs == [] {
      SplitField(".", '/');
    } else if segs[0] == ".." {
      FirstSegmentEscapes(segs);
      assert !IsSegment(Split(Clean(name), '/')[0]);
    } else {
      NoneIsUp(segs);
      FirstSegmentStays(segs);
    }
  }

  lemma FirstSegmentEscapes(segs: seq<string>)
    requires segs != [] && segs[0] == ".."
    ensures Escapes(Join(segs, '/'))
  {
    if |segs| > 1 {
      assert Join(segs, '/') == "../" + Join(segs[1..], '/');
    }
  }

  lemma {:induction false} NoneIsUp(segs: seq<string>)
    requires IsCollapsed(segs) && (segs != [] ==> segs[0] != "..")
    ensures AllSegments(segs)
  {
    if segs != [] {
      var front := segs[..|segs| - 1];
      NoneIsUp(front);
      if |segs| > 1 {
        assert segs[|segs| - 2] == front[|front| - 1];
      }
      assert forall i :: 0 <= i < |front| ==> segs[i] == front[i];
    }
  }

  lemma FirstSegmentStays(segs: seq<string>)
    requires segs != [] && AllSegments(segs)
    ensures !Escapes(Join(segs, '/'))
  {
    var name := Join(segs, '/');
    JoinThenSplit(segs, '/');
    FirstFieldBefore(name, '/');
    assert Before(name, '/') == segs[0] && IsSegment(segs[0]);
    if "../" <= name {
      assert name == ".." + ['/'] + name[3..];
      BeforeSeparator("..", name[3..], '/');
    }
  }

  lemma {:induction false} FirstFieldBefore(s: string, c: char)
    ensures Split(s, c)[0] == Before(s, c)
  {
    if s != [] && s[0] != c {
      FirstFieldBefore(s[1..], c);
    }
  }
}
