/** Precedence as section 11 of Semantic Versioning 2.0.0 writes it, on the texts of versions, and
    the proof that sorting, resolving and listing follow it. No number is computed here: digit
    strings without leading zeroes compare by length, then from the left. */
module Precedence {
  import opened Strings
  import opened Semver
  import opened Versions

  // ---------------------------------------------------------------- the standard, on texts

  predicate NumberBelow(a: string, b: string)
  {
    |a| < |b| || (|a| == |b| && Less(a, b))
  }

  /** The written major, minor or patch number, "0" where it is left out. */
  function Written(v: Version, i: nat): string
  {
    if i < |v.numbers| then v.numbers[i] else "0"
  }

  predicate SameNumbers(v: Version, w: Version)
  {
    Written(v, 0) == Written(w, 0) && Written(v, 1) == Written(w, 1) && Written(v, 2) == Written(w, 2)
  }

  /** Number i is the first that differs, and it is below. */
  predicate NumberDecides(v: Version, w: Version, i: nat)
  {
    (forall j: nat :: j < i ==> Written(v, j) == Written(w, j)) && NumberBelow(Written(v, i), Written(w, i))
  }

  /** Section 11.2: the first number that differs decides. */
  predicate NumbersBelow(v: Version, w: Version)
  {
    exists i: nat :: i < 3 && NumberDecides(v, w, i)
  }

  /** Section 11.4.1 to 11.4.3: digits numerically, others in ASCII order, digits below others. */
  predicate IdentBelow(a: string, b: string)
  {
    if AllDigits(a) then !AllDigits(b) || NumberBelow(a, b) else !AllDigits(b) && Less(a, b)
  }

  /** The first i identifiers are the same, and then p ends or goes on below q. */
  predicate IdentDecides(p: seq<string>, q: seq<string>, i: nat)
  {
    i <= |p| && i < |q| && p[..i] == q[..i] && (i == |p| || IdentBelow(p[i], q[i]))
  }

  /** Section 11.4 and 11.4.4: the first identifier that differs decides, and a proper prefix is
      below its extension. */
  predicate IdentsBelow(p: seq<string>, q: seq<string>)
  {
    exists i: nat :: i <= |p| && IdentDecides(p, q, i)
  }

  /** Section 11.3: a pre-release is below its release. */
  predicate PreBelow(p: seq<string>, q: seq<string>)
  {
    p != [] && (q == [] || IdentsBelow(p, q))
  }

  predicate Below(v: Version, w: Version)
  {
    NumbersBelow(v, w) || (SameNumbers(v, w) && PreBelow(v.pre, w.pre))
  }

  // ---------------------------------------------------------------- numbers

  function Pow10(n: nat): nat
  {
    if n == 0 then 1 else 10 * Pow10(n - 1)
  }

  lemma {:induction false} Pow10Grows(m: nat, n: nat)
    requires m <= n
    ensures 1 <= Pow10(m) <= Pow10(n)
  {
    if m < n {
      Pow10Grows(m, n - 1);
    } else if m > 0 {
      Pow10Grows(m - 1, m - 1);
    }
  }

  lemma {:induction false} ValueBelowPower(a: string)
    requires AllDigits(a)
    ensures Value(a) < Pow10(|a|)
  {
    if a != [] {
      ValueBelowPower(a[..|a| - 1]);
    }
  }

  lemma {:induction false} ValueReachesPower(a: string)
    requires a != [] && AllDigits(a) && a[0] != '0'
    ensures Value(a) >= Pow10(|a| - 1)
  {
    if |a| > 1 {
      ValueReachesPower(a[..|a| - 1]);
    } else {
      assert a[..0] == [];
    }
  }

  lemma {:induction false} LessAtEnd(a: string, x: char, b: string, y: char)
    requires |a| == |b|
    ensures Less(a + [x], b + [y]) <==> Less(a, b) || (a == b && x < y)
  {
    if a == [] {
      assert a + [x] == [x] && b + [y] == [y];
      assert [x][1..] == [] && [y][1..] == [];
    } else {
      assert (a + [x])[1..] == a[1..] + [x] && (b + [y])[1..] == b[1..] + [y];
      LessAtEnd(a[1..], x, b[1..], y);
      assert a == [a[0]] + a[1..] && b == [b[0]] + b[1..];
    }
  }

  lemma {:induction false} SameLengthOrder(a: string, b: string)
    requires AllDigits(a) && AllDigits(b) && |a| == |b|
    ensures Value(a) < Value(b) <==> Less(a, b)
    ensures Value(a) == Value(b) <==> a == b
  {
    if a != [] {
      var c, d, x, y := a[..|a| - 1], b[..|b| - 1], a[|a| - 1], b[|b| - 1];
      assert a == c + [x] && b == d + [y];
      SameLengthOrder(c, d);
      LessAtEnd(c, x, d, y);
    }
  }

  /** Numbers as written compare as the numbers they write. */
  lemma NumberOrder(a: string, b: string)
    requires IsNumber(a) && IsNumber(b)
    ensures Value(a) < Value(b) <==> NumberBelow(a, b)
    ensures Value(a) == Value(b) <==> a == b
  {
    if |a| == |b| {
      SameLengthOrder(a, b);
    } else if |a| < |b| {
      ShorterIsLess(a, b);
    } else {
      ShorterIsLess(b, a);
    }
  }

  lemma ShorterIsLess(a: string, b: string)
    requires IsNumber(a) && IsNumber(b) && |a| < |b|
    ensures Value(a) < Value(b)
  {
    ValueBelowPower(a);
    ValueReachesPower(b);
    Pow10Grows(|a|, |b| - 1);
  }

  lemma WrittenIsNumber(v: Version, i: nat)
    requires WellFormed(v) && i < 3
    ensures IsNumber(Written(v, i)) && Value(Written(v, i)) == Number(v, i)
  {
    if i >= |v.numbers| {
      assert "0"[..0] == "";
    }
  }

  // ---------------------------------------------------------------- identifiers

  lemma IdentOrder(a: string, b: string)
    requires IsPreIdent(a) && IsPreIdent(b)
    ensures IdentLess(ToIdent(a), ToIdent(b)) <==> IdentBelow(a, b)
    ensures ToIdent(a) == ToIdent(b) <==> a == b
  {
    if AllDigits(a) && AllDigits(b) {
      NumberOrder(a, b);
    }
    hide Value, Less;
  }

  function Idents(p: seq<string>): (r: seq<Ident>)
    ensures |r| == |p|
  {
    seq(|p|, i requires 0 <= i < |p| => ToIdent(p[i]))
  }

  lemma {:induction false} IdentsOrder(p: seq<string>, q: seq<string>)
    requires (forall i :: 0 <= i < |p| ==> IsPreIdent(p[i])) && (forall i :: 0 <= i < |q| ==> IsPreIdent(q[i]))
    ensures IdentsLess(Idents(p), Idents(q)) <==> IdentsBelow(p, q)
  {
    hide IdentLess, IdentBelow, IsPreIdent, ToIdent;
    if q == [] {
    } else if p == [] {
      assert IdentDecides(p, q, 0);
    } else {
      IdentOrder(p[0], q[0]);
      assert Idents(p)[1..] == Idents(p[1..]) && Idents(q)[1..] == Idents(q[1..]);
      IdentsOrder(p[1..], q[1..]);
      IdentsBelowRest(p, q);
    }
  }

  lemma IdentsBelowRest(p: seq<string>, q: seq<string>)
    requires p != [] && q != []
    ensures IdentsBelow(p, q) <==> IdentBelow(p[0], q[0]) || (p[0] == q[0] && IdentsBelow(p[1..], q[1..]))
  {
    hide IdentBelow;
    if IdentsBelow(p, q) {
      var i: nat :| i <= |p| && IdentDecides(p, q, i);
      if i > 0 {
        assert p[..i][0] == q[..i][0];
        assert p[1..][..i - 1] == p[..i][1..] && q[1..][..i - 1] == q[..i][1..];
        assert IdentDecides(p[1..], q[1..], i - 1);
      }
    }
    if IdentBelow(p[0], q[0]) {
      assert p[..0] == q[..0];
      assert IdentDecides(p, q, 0);
    }
    if p[0] == q[0] && IdentsBelow(p[1..], q[1..]) {
      var i: nat :| i <= |p[1..]| && IdentDecides(p[1..], q[1..], i);
      ConsDecides(p[0], p[1..], q[1..], i);
      assert p == [p[0]] + p[1..] && q == [q[0]] + q[1..];
    }
  }

  lemma ConsDecides(x: string, p: seq<string>, q: seq<string>, i: nat)
    requires IdentDecides(p, q, i)
    ensures IdentDecides([x] + p, [x] + q, i + 1)
  {
    assert ([x] + p)[..i + 1] == [x] + p[..i] && ([x] + q)[..i + 1] == [x] + q[..i];
  }

  // ---------------------------------------------------------------- versions

  lemma NumbersAreCompared(v: Version, w: Version)
    ensures NumbersBelow(v, w) <==>
            || NumberBelow(Written(v, 0), Written(w, 0))
            || (Written(v, 0) == Written(w, 0) && NumberBelow(Written(v, 1), Written(w, 1)))
            || (Written(v, 0) == Written(w, 0) && Written(v, 1) == Written(w, 1) && NumberBelow(Written(v, 2), Written(w, 2)))
  {
    hide Written, NumberBelow;
    assert NumberDecides(v, w, 0) <==> NumberBelow(Written(v, 0), Written(w, 0));
    assert NumberDecides(v, w, 1) <==> Written(v, 0) == Written(w, 0) && NumberBelow(Written(v, 1), Written(w, 1));
    assert NumberDecides(v, w, 2) <==> Written(v, 0) == Written(w, 0) && Written(v, 1) == Written(w, 1) && NumberBelow(Written(v, 2), Written(w, 2));
    hide NumberDecides;
  }

  lemma OneNumber(v: Version, w: Version, i: nat)
    requires WellFormed(v) && WellFormed(w) && i < 3
    ensures Number(v, i) == Number(w, i) <==> Written(v, i) == Written(w, i)
    ensures Number(v, i) < Number(w, i) <==> NumberBelow(Written(v, i), Written(w, i))
  {
    WrittenIsNumber(v, i);
    WrittenIsNumber(w, i);
    NumberOrder(Written(v, i), Written(w, i));
  }

  /** Main result. The order used for sorting is the standard's order on the texts. */
  lemma PrecedesIsSection11(v: Version, w: Version)
    requires WellFormed(v) && WellFormed(w)
    ensures Precedes(RankOf(v), RankOf(w)) <==> Below(v, w)
  {
    NumbersAreCompared(v, w);
    OneNumber(v, w, 0);
    OneNumber(v, w, 1);
    OneNumber(v, w, 2);
    IdentsOrder(v.pre, w.pre);
    assert RankOf(v).pre == Idents(v.pre) && RankOf(w).pre == Idents(w.pre);
    hide Number, Written, NumberBelow, NumbersBelow, IdentsBelow, IdentsLess, WellFormed, Idents;
  }

  // ---------------------------------------------------------------- resolving and listing

  /** The answer of a resolution, on texts: there is one as soon as a candidate matches, it is a
      matching candidate itself, and it is below no match. */
  lemma ResolvedIsNotBelow(candidates: seq<string>, requested: string, m: string)
    requires m in candidates && VersionMatches(m, requested)
    ensures var r := Resolve(candidates, requested);
            && r.Some? && r.value in candidates && VersionMatches(r.value, requested)
            && !Below(Parse(r.value).value, Parse(m).value)
  {
    hide VersionMatches, Below, Resolve, Precedes, RankOf;
    ResolveIsHighest(candidates, requested);
    ResolveDominates(candidates, requested, m);
    PrecedesIsSection11(Parse(Resolve(candidates, requested).value).value, Parse(m).value);
  }

  /** The sort order on texts: below, or at equal precedence earlier in byte order. */
  predicate SortsLower(a: string, b: string)
    requires IsValid(a) && IsValid(b)
  {
    var v, w := Parse(a).value, Parse(b).value;
    Below(v, w) || (!Below(w, v) && Less(a, b))
  }

  lemma SortsLowerIff(a: string, b: string)
    requires IsValid(a) && IsValid(b)
    ensures SortsLower(a, b) <==> SortsBefore(RankedOf(a), RankedOf(b))
  {
    var v, w := Parse(a).value, Parse(b).value;
    hide Below, Precedes, RankOf, Less;
    PrecedesIsSection11(v, w);
    PrecedesIsSection11(w, v);
    PrecedesIsTotalOrder(RankOf(v), RankOf(w), RankOf(v));
  }

  /** In the version list, no text is below a later one. */
  lemma ListedIsNotBelow(candidates: seq<string>, i: nat, j: nat)
    requires i < j < |Listed(candidates)|
    ensures var v, w := Listed(candidates)[i].text, Listed(candidates)[j].text;
            IsFullSemver(v) && IsFullSemver(w) && !Below(Parse(v).value, Parse(w).value)
  {
    hide Below, Precedes, RankOf, Parse, Listed;
    ListedIsDescending(candidates);
    var v, w := Listed(candidates)[i], Listed(candidates)[j];
    assert v in Listed(candidates) && w in Listed(candidates);
    assert AtMost(w, v);
    PrecedesIsTotalOrder(v.rank, w.rank, v.rank);
    PrecedesIsSection11(Parse(v.text).value, Parse(w.text).value);
  }

  // ---------------------------------------------------------------- reading and writing

  /** A version as text. */
  function Render(v: Version): string
  {
    Join(v.numbers, '.') + (if v.pre == [] then "" else ['-'] + Join(v.pre, '.')) + (if v.build == [] then "" else ['+'] + Join(v.build, '.'))
  }

  lemma {:induction false} JoinAvoids(fields: seq<string>, sep: char, c: char)
    requires c != sep && forall i :: 0 <= i < |fields| ==> c !in fields[i]
    ensures c !in Join(fields, sep)
  {
    if |fields| > 1 {
      JoinAvoids(fields[1..], sep, c);
    } else if fields != [] {
      assert c !in fields[0];
    }
  }

  lemma PartsAvoid(v: Version)
    requires WellFormed(v)
    ensures '+' !in Join(v.numbers, '.') && '-' !in Join(v.numbers, '.') && '+' !in Join(v.pre, '.')
    ensures forall i :: 0 <= i < |v.numbers| ==> '.' !in v.numbers[i]
    ensures forall i :: 0 <= i < |v.pre| ==> '.' !in v.pre[i]
    ensures forall i :: 0 <= i < |v.build| ==> '.' !in v.build[i]
  {
    assert forall i :: 0 <= i < |v.numbers| ==> IsNumber(v.numbers[i]);
    assert forall i :: 0 <= i < |v.pre| ==> IsIdent(v.pre[i]);
    JoinAvoids(v.numbers, '.', '+');
    JoinAvoids(v.numbers, '.', '-');
    JoinAvoids(v.pre, '.', '+');
  }

  /** The fields after the separator that ends a, none when a is the whole text. */
  function FieldsAfter(s: string, a: string): seq<string>
  {
    if a == s || |s| <= |a| then [] else Split(s[|a| + 1..], '.')
  }

  /** The same fields written back. */
  function Tail(fields: seq<string>, c: char): string
  {
    if fields == [] then "" else [c] + Join(fields, '.')
  }

  function PartsOf(s: string): Version
  {
    var front := Before(s, '+');
    var core := Before(front, '-');
    Version(Split(core, '.'), FieldsAfter(front, core), FieldsAfter(s, front))
  }

  lemma ParseIs(s: string)
    ensures Parse(s) == if WellFormed(PartsOf(s)) then Some(PartsOf(s)) else None
  {
    BeforeIsShorter(s, '+');
    BeforeIsShorter(Before(s, '+'), '-');
    hide WellFormed, Before, Split;
  }

  lemma BeforeIsShorter(s: string, c: char)
    ensures Before(s, c) == s || |Before(s, c)| < |s|
  {
  }

  lemma RenderIs(v: Version)
    ensures Render(v) == Join(v.numbers, '.') + Tail(v.pre, '-') + Tail(v.build, '+')
  {
    hide Join;
  }

  /** Writing fields behind a separator and cutting there again. */
  lemma CutTail(a: string, c: char, fields: seq<string>)
    requires c !in a && c != '.' && forall i :: 0 <= i < |fields| ==> '.' !in fields[i]
    ensures Before(a + Tail(fields, c), c) == a && FieldsAfter(a + Tail(fields, c), a) == fields
  {
    if fields == [] {
      assert a + "" == a;
    } else {
      var rest := Join(fields, '.');
      var s := a + [c] + rest;
      assert a + ([c] + rest) == s && s[|a| + 1..] == rest;
      BeforeSeparator(a, rest, c);
      JoinThenSplit(fields, '.');
    }
  }

  /** Cutting at a separator and writing the fields behind it again. */
  lemma TailOfCut(s: string, c: char)
    ensures s == Before(s, c) + Tail(FieldsAfter(s, Before(s, c)), c)
  {
    var a := Before(s, c);
    if a == s {
      assert a + "" == a;
    } else {
      assert s == a + ([c] + s[|a| + 1..]);
      SplitThenJoin(s[|a| + 1..], '.');
    }
  }

  /** Every well-formed version is read back from its text, and nothing else is read. */
  lemma ParseRoundTrip(v: Version, s: string)
    ensures WellFormed(v) ==> Parse(Render(v)) == Some(v)
    ensures Parse(s).Some? ==> WellFormed(Parse(s).value) && Render(Parse(s).value) == s
  {
    if WellFormed(v) {
      ReadsBack(v);
    }
    if Parse(s).Some? {
      WritesBack(s);
    }
    hide Parse, Render, WellFormed;
  }

  lemma ReadsBack(v: Version)
    requires WellFormed(v)
    ensures Parse(Render(v)) == Some(v)
  {
    hide WellFormed, Before, Split, Join, Parse, Render, FieldsAfter, Tail;
    PartsAvoid(v);
    RenderIs(v);
    ParseIs(Render(v));
    var core := Join(v.numbers, '.');
    var front := core + Tail(v.pre, '-');
    TailAvoids(v.pre, '-', '+');
    assert '+' !in front;
    CutTail(front, '+', v.build);
    CutTail(core, '-', v.pre);
    NumbersWritten(v);
    JoinThenSplit(v.numbers, '.');
  }

  lemma TailAvoids(fields: seq<string>, c: char, d: char)
    requires d != c && d !in Join(fields, '.')
    ensures d !in Tail(fields, c)
  {
    hide Join;
  }

  lemma NumbersWritten(v: Version)
    requires WellFormed(v)
    ensures v.numbers != []
  {
  }

  lemma WritesBack(s: string)
    requires Parse(s).Some?
    ensures Render(Parse(s).value) == s
  {
    hide Parse, WellFormed, Split, Join, Before, Render, FieldsAfter, Tail;
    ParseIs(s);
    RenderIs(PartsOf(s));
    TailOfCut(s, '+');
    TailOfCut(Before(s, '+'), '-');
    SplitThenJoin(Before(Before(s, '+'), '-'), '.');
  }

  /** The standard's own chain of examples. */
  lemma StandardExamples()
    ensures Below(Version(["1", "0", "0"], ["alpha"], []), Version(["1", "0", "0"], ["alpha", "1"], []))
    ensures Below(Version(["1", "0", "0"], ["alpha", "1"], []), Version(["1", "0", "0"], ["alpha", "beta"], []))
    ensures Below(Version(["1", "0", "0"], ["beta", "2"], []), Version(["1", "0", "0"], ["beta", "11"], []))
    ensures Below(Version(["1", "0", "0"], ["rc", "1"], []), Version(["1", "0", "0"], [], []))
    ensures Below(Version(["1", "9", "0"], [], []), Version(["1", "10", "0"], [], []))
  {
    IdentExamples();
    assert "9" != "10";
    assert NumberDecides(Version(["1", "9", "0"], [], []), Version(["1", "10", "0"], [], []), 1);
    hide IdentsBelow, NumberDecides;
  }

  lemma IdentExamples()
    ensures IdentsBelow(["alpha"], ["alpha", "1"]) && IdentsBelow(["alpha", "1"], ["alpha", "beta"]) && IdentsBelow(["beta", "2"], ["beta", "11"])
  {
    assert IdentDecides(["alpha"], ["alpha", "1"], 1);
    assert !AllDigits("beta") by { assert !IsDigit("beta"[0]); }
    assert IdentDecides(["alpha", "1"], ["alpha", "beta"], 1);
    assert IdentDecides(["beta", "2"], ["beta", "11"], 1);
  }

  /** What the grammar takes and what it does not. */
  lemma GrammarExamples()
    ensures WellFormed(Version(["10", "2", "0"], ["x-Y", "7", "z", "92"], ["001", "sha", "5114f85"]))
    ensures WellFormed(Version(["1"], [], [])) && WellFormed(Version(["1", "2"], [], []))
    ensures !WellFormed(Version(["01"], [], [])) && !WellFormed(Version(["1", "0", "0"], ["01"], []))
    ensures !WellFormed(Version(["1", "2"], ["rc"], [])) && !WellFormed(Version(["1", "0", "0"], ["a_b"], []))
    ensures !WellFormed(Version(["1", "0", "0", "0"], [], [])) && !WellFormed(Version(["1", "", "0"], [], []))
  {
    var pre, build := ["x-Y", "7", "z", "92"], ["001", "sha", "5114f85"];
    assert forall i :: 0 <= i < |pre| ==> IsPreIdent(pre[i]);
    assert forall i :: 0 <= i < |build| ==> IsIdent(build[i]);
    assert !IsNumber(["01"][0]) && !IsPreIdent(["01"][0]) && !IsNumber(["1", "", "0"][1]);
    assert !IsIdentChar("a_b"[1]) && !IsPreIdent(["a_b"][0]);
  }
}
