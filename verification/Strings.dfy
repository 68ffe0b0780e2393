/** String facts shared by every component: the byte order in which an object store lists
    keys, the sorted listing of a finite key set, and the splitting helpers the service uses.
    A string is a sequence of code points; UTF-8 byte order and code-point order agree. */
module Strings {

  /** Strict lexicographic order. */
  predicate Less(a: string, b: string)
  {
    b != [] && (a == [] || a[0] < b[0] || (a[0] == b[0] && Less(a[1..], b[1..])))
  }

  lemma {:induction false} LessIrreflexive(a: string)
    ensures !Less(a, a)
  {
    if a != [] {
      LessIrreflexive(a[1..]);
    }
  }

  lemma {:induction false} LessTransitive(a: string, b: string, c: string)
    requires Less(a, b) && Less(b, c)
    ensures Less(a, c)
  {
    if a != [] && a[0] == b[0] && b[0] == c[0] {
      LessTransitive(a[1..], b[1..], c[1..]);
    }
  }

  lemma {:induction false} LessTotal(a: string, b: string)
    ensures Less(a, b) || a == b || Less(b, a)
  {
    if a != [] && b != [] && a[0] == b[0] {
      LessTotal(a[1..], b[1..]);
      assert a == [a[0]] + a[1..] && b == [b[0]] + b[1..];
    }
  }

  /** A key sorts before every longer key it starts. */
  lemma {:induction false} ExtensionIsLarger(a: string, t: string)
    requires t != []
    ensures Less(a, a + t)
  {
    if a == [] {
      assert a + t == t;
    } else {
      ExtensionIsLarger(a[1..], t);
      assert (a + t)[1..] == a[1..] + t;
    }
  }

  /** Strictly increasing, hence duplicate-free. */
  predicate Ordered(l: seq<string>)
  {
    forall i, j :: 0 <= i < j < |l| ==> Less(l[i], l[j])
  }

  predicate IsMinimum(s: set<string>, m: string)
  {
    m in s && forall y :: y in s && y != m ==> Less(m, y)
  }

  lemma {:induction false} MinimumExists(s: set<string>) returns (m: string)
    requires s != {}
    ensures IsMinimum(s, m)
  {
    hide Less;
    var x :| x in s;
    if s == {x} {
      m := x;
    } else {
      var n := MinimumExists(s - {x});
      LessTotal(x, n);
      m := if Less(x, n) then x else n;
      forall y | y in s && y != m
        ensures Less(m, y)
      {
        if m == x && y != n {
          LessTransitive(x, n, y);
        }
      }
    }
  }

  /** The listing of a finite set of keys in byte order. */
  ghost function Sorted(s: set<string>): (l: seq<string>)
    ensures Ordered(l)
    ensures forall k :: k in l <==> k in s
  {
    if s == {} then []
    else
      assert exists m :: IsMinimum(s, m) by {
        var m := MinimumExists(s);
      }
      var m :| IsMinimum(s, m);
      [m] + Sorted(s - {m})
  }

  /** Two ordered listings of the same keys are the same listing. */
  lemma {:induction false} OrderedIsUnique(a: seq<string>, b: seq<string>)
    requires Ordered(a) && Ordered(b)
    requires forall k :: k in a <==> k in b
    ensures a == b
  {
    if a == [] {
      assert forall i :: 0 <= i < |b| ==> b[i] in b;
    } else {
      assert a[0] in b && b != [];
      assert b[0] in a;
      var i :| 0 <= i < |b| && b[i] == a[0];
      var j :| 0 <= j < |a| && a[j] == b[0];
      if i > 0 {
        LessIrreflexive(a[0]);
        if j > 0 {
          LessTransitive(a[0], b[0], a[0]);
        }
      }
      forall k
        ensures k in a[1..] <==> k in b[1..]
      {
        LessIrreflexive(a[0]);
        assert k in a <==> k == a[0] || k in a[1..];
        assert k in b <==> k == b[0] || k in b[1..];
      }
      OrderedIsUnique(a[1..], b[1..]);
    }
  }

  // ---------------------------------------------------------------- suffixes and cuts

  predicate HasSuffix(s: string, suffix: string)
  {
    |suffix| <= |s| && s[|s| - |suffix|..] == suffix
  }

  function TrimPrefix(s: string, p: string): string
  {
    if p <= s then s[|p|..] else s
  }

  predicate NoDuplicates(s: seq<string>)
  {
    forall i, j :: 0 <= i < j < |s| ==> s[i] != s[j]
  }

  /** The part before the first occurrence of `c`, the whole string when there is none. */
  function Before(s: string, c: char): (r: string)
    ensures r <= s && c !in r
    ensures c !in s ==> r == s
    ensures c in s ==> |r| < |s| && s[|r|] == c
  {
    if s == [] || s[0] == c then []
    else
      var r := Before(s[1..], c);
      assert s == [s[0]] + s[1..];
      [s[0]] + r
  }

  lemma {:induction false} BeforeOfConcat(a: string, t: string, c: char)
    requires c !in a
    ensures Before(a + t, c) == a + Before(t, c)
  {
    if a == [] {
      assert a + t == t;
    } else {
      assert (a + t)[1..] == a[1..] + t;
      BeforeOfConcat(a[1..], t, c);
    }
  }

  lemma BeforeSeparator(a: string, t: string, c: char)
    requires c !in a
    ensures Before(a + [c] + t, c) == a
  {
    BeforeOfConcat(a, [c] + t, c);
    assert a + [c] + t == a + ([c] + t);
    assert ([c] + t)[0] == c && Before([c] + t, c) == "";
    assert a + "" == a;
  }

  /** The fields of `s` between the occurrences of `c`. */
  function Split(s: string, c: char): (r: seq<string>)
    ensures |r| >= 1
    ensures forall i :: 0 <= i < |r| ==> c !in r[i]
  {
    if s == [] then [[]]
    else if s[0] == c then [[]] + Split(s[1..], c)
    else
      var r := Split(s[1..], c);
      [[s[0]] + r[0]] + r[1..]
  }

  function Join(fields: seq<string>, c: char): string
  {
    if fields == [] then []
    else if |fields| == 1 then fields[0]
    else fields[0] + [c] + Join(fields[1..], c)
  }

  lemma {:induction false} SplitThenJoin(s: string, c: char)
    ensures Join(Split(s, c), c) == s
  {
    if s != [] {
      var r := Split(s[1..], c);
      SplitThenJoin(s[1..], c);
      if s[0] == c {
        assert ([[]] + r)[1..] == r;
        assert s == [c] + s[1..];
      } else {
        var t := [[s[0]] + r[0]] + r[1..];
        assert t[1..] == r[1..];
        if |r| > 1 {
          assert Join(t, c) == [s[0]] + (r[0] + [c] + Join(r[1..], c));
        }
        assert s == [s[0]] + s[1..];
      }
    }
  }

  lemma {:induction false} SplitField(a: string, c: char)
    requires c !in a
    ensures Split(a, c) == [a]
  {
    if a != [] {
      SplitField(a[1..], c);
      assert a == [a[0]] + a[1..];
    }
  }

  lemma {:induction false} SplitFirst(a: string, t: string, c: char)
    requires c !in a
    ensures Split(a + [c] + t, c) == [a] + Split(t, c)
  {
    var s := a + [c] + t;
    if a == [] {
      assert s == [c] + t && s[1..] == t;
    } else {
      assert s[1..] == a[1..] + [c] + t;
      SplitFirst(a[1..], t, c);
      assert a == [a[0]] + a[1..];
    }
  }

  lemma {:induction false} JoinThenSplit(fields: seq<string>, c: char)
    requires fields != [] && forall i :: 0 <= i < |fields| ==> c !in fields[i]
    ensures Split(Join(fields, c), c) == fields
  {
    if |fields| == 1 {
      SplitField(fields[0], c);
    } else {
      SplitFirst(fields[0], Join(fields[1..], c), c);
      JoinThenSplit(fields[1..], c);
    }
  }
}
