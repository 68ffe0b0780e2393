/** Accept-Encoding headers as clients write them (section 12.5.3 of RFC 9110): tokens in any letter
    case, blanks, weights under q or Q, other parameters, empty items, and what the parser makes
    of them, said of the list that was written. */
module Headers {
  import opened Strings
  import opened Semver
  import opened Encodings
  import opened Negotiation

  // ---------------------------------------------------------------- what is written

  /** A parameter with the blanks around it: a weight, or one that is not. */
  datatype Parameter =
    | Weight(gap: string, upper: bool, number: string, after: string)
    | Other(gap: string, text: string, after: string)

  /** One element of a header, possibly empty. The blanks at its end are its own, not its last
      parameter's. */
  datatype Item = Item(before: string, token: string, gap: string, parameters: seq<Parameter>, after: string)

  predicate IsBlank(s: string)
  {
    forall k :: 0 <= k < |s| ==> s[k] == ' ' || s[k] == '\t'
  }

  /** Neither blank nor a separator of the header. */
  predicate IsSolid(s: string)
  {
    forall c :: c in s ==> c != ',' && c != ';' && !IsSpace(c)
  }

  function ParameterText(p: Parameter): string
  {
    match p
    case Weight(_, upper, number, _) => (if upper then "Q" else "q") + "=" + number
    case Other(_, text, _) => text
  }

  function Segment(p: Parameter): string
  {
    p.gap + ParameterText(p) + p.after
  }

  predicate IsParameter(p: Parameter)
  {
    && IsBlank(p.gap) && IsBlank(p.after) && IsSolid(ParameterText(p))
    && (p.Other? ==> p.text != "" && Before(p.text, '=') != "q" && Before(p.text, '=') != "Q")
  }

  predicate IsItem(i: Item)
  {
    && IsBlank(i.before) && IsBlank(i.gap) && IsBlank(i.after)
    && IsSolid(i.token) && (i.token == "" ==> i == Item(i.before, "", "", [], ""))
    && (forall k :: 0 <= k < |i.parameters| ==> IsParameter(i.parameters[k]))
    && (i.parameters != [] ==> i.parameters[|i.parameters| - 1].after == "")
  }

  function Parameters(ps: seq<Parameter>): string
  {
    if ps == [] then "" else [';'] + Segment(ps[0]) + Parameters(ps[1..])
  }

  function Text(i: Item): string
  {
    i.before + (i.token + i.gap + Parameters(i.parameters)) + i.after
  }

  /** The header that lists the items. */
  function Header(items: seq<Item>): string
  {
    Join(seq(|items|, k requires 0 <= k < |items| => Text(items[k])), ',')
  }

  // ---------------------------------------------------------------- what it means

  /** One letter, in either case. */
  predicate SameLetter(c: char, lower: char)
  {
    (c == lower && !('A' <= c <= 'Z')) || ('A' <= c <= 'Z' && 'a' <= lower <= 'z' && c as int - 'A' as int == lower as int - 'a' as int)
  }

  /** The token is the lower-case word, in any letter case. */
  predicate Spells(token: string, word: string)
  {
    |token| == |word| && forall k :: 0 <= k < |token| ==> SameLetter(token[k], word[k])
  }

  /** A weight is a number from 0 to 1. */
  predicate IsWeight(q: Option<real>)
  {
    q.Some? && 0.0 <= q.value <= 1.0
  }

  predicate IsLastWeight(ps: seq<Parameter>, k: nat)
  {
    k < |ps| && ps[k].Weight? && forall j :: k < j < |ps| ==> ps[j].Other?
  }

  predicate AllWeights(ps: seq<Parameter>, parse: string -> Option<real>)
  {
    forall k :: 0 <= k < |ps| && ps[k].Weight? ==> IsWeight(parse(ps[k].number))
  }

  /** The item gives its token this weight: the last one written, 1 if none is written. An item
      with an invalid weight gives none. */
  predicate Gives(i: Item, parse: string -> Option<real>, q: real)
  {
    && AllWeights(i.parameters, parse)
    && (q == 1.0 || exists k :: 0 <= k < |i.parameters| && IsLastWeight(i.parameters, k))
    && (forall k :: 0 <= k < |i.parameters| && IsLastWeight(i.parameters, k) ==> parse(i.parameters[k].number) == Some(q))
  }

  predicate Offers(i: Item, parse: string -> Option<real>, word: string, q: real)
  {
    i.token != "" && Spells(i.token, word) && Gives(i, parse, q)
  }

  ghost predicate IsNamed(items: seq<Item>, parse: string -> Option<real>, word: string)
  {
    exists k, q :: 0 <= k < |items| && Offers(items[k], parse, word, q)
  }

  /** The highest weight given to a word. */
  ghost predicate IsHighest(items: seq<Item>, parse: string -> Option<real>, word: string, q: real)
  {
    && (exists k :: 0 <= k < |items| && Offers(items[k], parse, word, q))
    && (forall k, p :: 0 <= k < |items| && Offers(items[k], parse, word, p) ==> p <= q)
  }

  /** The weight of a coding: its own, or that of "*" if it is not named. */
  ghost predicate Weighs(items: seq<Item>, parse: string -> Option<real>, coding: string, q: real)
  {
    if IsNamed(items, parse, coding) then IsHighest(items, parse, coding, q) else IsHighest(items, parse, "*", q)
  }

  // ---------------------------------------------------------------- blanks and letters

  lemma {:induction false} TrimLeftBlanks(a: string, s: string)
    requires IsBlank(a) && s != "" && !IsSpace(s[0])
    ensures TrimLeft(a + s) == s
  {
    if a == "" {
      assert a + s == s;
    } else {
      assert (a + s)[0] == a[0] && (a + s)[1..] == a[1..] + s;
      TrimLeftBlanks(a[1..], s);
    }
  }

  lemma {:induction false} TrimRightBlanks(s: string, b: string)
    requires IsBlank(b) && s != "" && !IsSpace(s[|s| - 1])
    ensures TrimRight(s + b) == s
  {
    if b == "" {
      assert s + b == s;
    } else {
      var t := s + b;
      assert t[|t| - 1] == b[|b| - 1] && t[..|t| - 1] == s + b[..|b| - 1];
      TrimRightBlanks(s, b[..|b| - 1]);
    }
  }

  lemma TrimBlanks(a: string, s: string, b: string)
    requires IsBlank(a) && IsBlank(b) && s != "" && !IsSpace(s[0]) && !IsSpace(s[|s| - 1])
    ensures TrimSpace(a + s + b) == s
  {
    assert a + s + b == a + (s + b);
    TrimLeftBlanks(a, s + b);
    TrimRightBlanks(s, b);
  }

  lemma SolidEnds(s: string)
    requires IsSolid(s) && s != ""
    ensures !IsSpace(s[0]) && !IsSpace(s[|s| - 1])
  {
    assert s[0] in s && s[|s| - 1] in s;
  }

  lemma TrimSolid(a: string, s: string, b: string)
    requires IsBlank(a) && IsBlank(b) && IsSolid(s)
    ensures s != "" ==> TrimSpace(a + s + b) == s
  {
    if s != "" {
      SolidEnds(s);
      TrimBlanks(a, s, b);
    }
  }

  lemma NothingIsBlank()
    ensures IsBlank("")
  {
  }

  lemma LowerSpells(token: string, word: string)
    requires forall c :: c in word ==> !('A' <= c <= 'Z')
    ensures Lower(token) == word <==> Spells(token, word)
  {
    var l := Lower(token);
    forall k | 0 <= k < |token| && |token| == |word|
      ensures l[k] == word[k] <==> SameLetter(token[k], word[k])
    {
      assert word[k] in word;
    }
  }

  // ---------------------------------------------------------------- one item is read

  function Segments(ps: seq<Parameter>): (r: seq<string>)
    ensures |r| == |ps|
  {
    seq(|ps|, k requires 0 <= k < |ps| => Segment(ps[k]))
  }

  lemma ParameterAvoids(p: Parameter, c: char)
    requires IsParameter(p) && (c == ';' || c == ',')
    ensures c !in Segment(p)
  {
  }

  lemma {:induction false} SplitParameters(first: string, ps: seq<Parameter>)
    requires ';' !in first && forall k :: 0 <= k < |ps| ==> IsParameter(ps[k])
    ensures Split(first + Parameters(ps), ';') == [first] + Segments(ps)
    decreases |ps|
  {
    hide IsParameter, Segment, Split;
    if ps == [] {
      assert first + "" == first;
      SplitField(first, ';');
      assert [first] + Segments(ps) == [first];
    } else {
      var segment := Segment(ps[0]);
      ParameterAvoids(ps[0], ';');
      SplitParameters(segment, ps[1..]);
      assert first + Parameters(ps) == first + [';'] + (segment + Parameters(ps[1..]));
      SplitFirst(first, segment + Parameters(ps[1..]), ';');
      assert Segments(ps) == [segment] + Segments(ps[1..]);
    }
  }

  lemma WeightIsRead(p: Parameter, parse: string -> Option<real>)
    requires IsParameter(p) && p.Weight?
    ensures var t := TrimSpace(Segment(p));
            && Before(t, '=') == (if p.upper then "Q" else "q") && Before(t, '=') != t
            && TrimSpace(t[|Before(t, '=')| + 1..]) == p.number
  {
    var name := if p.upper then "Q" else "q";
    var text := ParameterText(p);
    TextOfWeight(p);
    NothingIsBlank();
    assert "" + p.number + "" == p.number;
    hide ParameterText, TrimSpace, Before, IsSolid, IsBlank;
    TrimSolid(p.gap, text, p.after);
    BeforeSeparator(name, p.number, '=');
    if p.number == "" {
      assert TrimSpace("") == "" by {
        TrimNothing();
      }
    } else {
      TrimSolid("", p.number, "");
    }
  }

  lemma TrimNothing()
    ensures TrimSpace("") == ""
  {
  }

  lemma TextOfWeight(p: Parameter)
    requires IsParameter(p) && p.Weight?
    ensures var name := if p.upper then "Q" else "q"; var text := ParameterText(p);
            && text == name + ['='] + p.number && text[2..] == p.number && '=' !in name
            && IsSolid(text) && IsSolid(p.number) && IsBlank(p.gap) && IsBlank(p.after)
  {
    NumberIsSolid(p);
    hide IsSolid, IsBlank;
    var name := if p.upper then "Q" else "q";
    assert name + "=" + p.number == name + ['='] + p.number;
  }

  lemma NumberIsSolid(p: Parameter)
    requires IsParameter(p) && p.Weight?
    ensures IsSolid(p.number)
  {
    assert forall c :: c in p.number ==> c in ParameterText(p);
  }

  lemma OtherIsRead(p: Parameter)
    requires IsParameter(p) && p.Other?
    ensures TrimSpace(Segment(p)) == p.text && Before(p.text, '=') != "q" && Before(p.text, '=') != "Q"
  {
    TrimSolid(p.gap, p.text, p.after);
  }

  /** What the parameters come to: the last weight, or the one so far; none if one is invalid. */
  function WeightOf(ps: seq<Parameter>, parse: string -> Option<real>, current: real): Option<real>
  {
    if ps == [] then Some(current)
    else if ps[0].Other? then WeightOf(ps[1..], parse, current)
    else
      var q := parse(ps[0].number);
      if IsWeight(q) then WeightOf(ps[1..], parse, q.value) else None
  }

  lemma {:induction false} ParametersAreRead(ps: seq<Parameter>, parse: string -> Option<real>, current: real)
    requires forall k :: 0 <= k < |ps| ==> IsParameter(ps[k])
    ensures QualityOf(Segments(ps), parse, current) == WeightOf(ps, parse, current)
  {
    hide IsParameter, Segment, TrimSpace, Before;
    if ps != [] {
      assert Segments(ps)[0] == Segment(ps[0]) && Segments(ps)[1..] == Segments(ps[1..]);
      if ps[0].Other? {
        OtherIsRead(ps[0]);
        ParametersAreRead(ps[1..], parse, current);
      } else {
        WeightIsRead(ps[0], parse);
        var q := parse(ps[0].number);
        if IsWeight(q) {
          ParametersAreRead(ps[1..], parse, q.value);
        }
      }
    }
  }

  lemma {:induction false} WeightOfOthers(ps: seq<Parameter>, parse: string -> Option<real>, current: real)
    requires forall k :: 0 <= k < |ps| ==> ps[k].Other?
    ensures WeightOf(ps, parse, current) == Some(current)
  {
    if ps != [] {
      WeightOfOthers(ps[1..], parse, current);
    }
  }

  lemma AllWeightsOfRest(ps: seq<Parameter>, parse: string -> Option<real>)
    requires ps != []
    ensures AllWeights(ps, parse) <==> (ps[0].Weight? ==> IsWeight(parse(ps[0].number))) && AllWeights(ps[1..], parse)
  {
    hide IsWeight;
    var rest := ps[1..];
    assert forall k :: 0 < k < |ps| ==> ps[k] == rest[k - 1];
    assert forall k :: 0 <= k < |rest| ==> rest[k] == ps[k + 1];
  }

  lemma {:induction false} WeightOfLast(ps: seq<Parameter>, parse: string -> Option<real>, current: real, k: nat)
    requires IsLastWeight(ps, k)
    ensures WeightOf(ps, parse, current) == if AllWeights(ps, parse) then parse(ps[k].number) else None
  {
    var rest := ps[1..];
    AllWeightsOfRest(ps, parse);
    hide AllWeights;
    if k == 0 {
      assert forall j :: 0 <= j < |rest| ==> rest[j] == ps[j + 1];
      assert AllWeights(rest, parse) by {
        OthersAreFine(rest, parse);
      }
      if IsWeight(parse(ps[0].number)) {
        WeightOfOthers(rest, parse, parse(ps[0].number).value);
      }
    } else {
      assert IsLastWeight(rest, k - 1);
      WeightOfLast(rest, parse, if ps[0].Weight? && IsWeight(parse(ps[0].number)) then parse(ps[0].number).value else current, k - 1);
    }
  }

  lemma OthersAreFine(ps: seq<Parameter>, parse: string -> Option<real>)
    requires forall k :: 0 <= k < |ps| ==> ps[k].Other?
    ensures AllWeights(ps, parse)
  {
  }

  lemma {:induction false} LastWeightExists(ps: seq<Parameter>, k: nat) returns (last: nat)
    requires k < |ps| && ps[k].Weight?
    ensures IsLastWeight(ps, last)
    decreases |ps| - k
  {
    if j :| k < j < |ps| && ps[j].Weight? {
      last := LastWeightExists(ps, j);
    } else {
      last := k;
    }
  }

  /** The weight an item gives is the quality its parameters are read as. */
  lemma GivesIff(i: Item, parse: string -> Option<real>, q: real)
    ensures Gives(i, parse, q) <==> WeightOf(i.parameters, parse, 1.0) == Some(q)
  {
    var ps := i.parameters;
    if k :| 0 <= k < |ps| && ps[k].Weight? {
      var last := LastWeightExists(ps, k);
      WeightOfLast(ps, parse, 1.0, last);
    } else {
      WeightOfOthers(ps, parse, 1.0);
      OthersAreFine(ps, parse);
    }
    hide WeightOf, AllWeights;
  }

  lemma SegmentEnds(p: Parameter)
    requires IsParameter(p) && p.after == ""
    ensures Segment(p) != "" && !IsSpace(Segment(p)[|Segment(p)| - 1])
  {
    var text := ParameterText(p);
    assert text != "";
    SolidEnds(text);
    assert Segment(p) == p.gap + text;
  }

  lemma {:induction false} ParametersEnd(ps: seq<Parameter>)
    requires ps != [] && ps[|ps| - 1].after == "" && forall k :: 0 <= k < |ps| ==> IsParameter(ps[k])
    ensures Parameters(ps) != "" && !IsSpace(Parameters(ps)[|Parameters(ps)| - 1])
  {
    hide IsParameter, Segment, IsSpace;
    if |ps| > 1 {
      ParametersEnd(ps[1..]);
    } else {
      SegmentEnds(ps[0]);
      assert Parameters(ps) == [';'] + Segment(ps[0]);
    }
  }

  lemma {:induction false} TrimAllBlanks(s: string)
    requires IsBlank(s)
    ensures TrimSpace(s) == ""
  {
    if s != "" {
      TrimAllBlanks(s[1..]);
    }
  }

  /** An item is read as its lower-case token with the weight it gives, or dropped. */
  lemma ItemIsRead(i: Item, parse: string -> Option<real>)
    requires IsItem(i)
    ensures var q := WeightOf(i.parameters, parse, 1.0);
            EntryOf(Text(i), parse) == if q.Some? && i.token != "" then Some(Entry(Lower(i.token), q.value)) else None
  {
    if i.token == "" {
      EmptyIsDropped(i, parse);
    } else {
      hide TrimSpace, Split, QualityOf, WeightOf, Lower, Text, EntryOf, IsParameter, IsSolid, IsBlank, Segments;
      ItemIsSplit(i);
      ParametersAreRead(i.parameters, parse, 1.0);
      TokenIsTrimmed(i);
      var first := if i.parameters == [] then i.token else i.token + i.gap;
      assert [first] + Segments(i.parameters) == if i.parameters == [] then [i.token] else [i.token + i.gap] + Segments(i.parameters);
      EntryFromSegments(Text(i), first, Segments(i.parameters), i.token, parse);
    }
  }

  lemma EmptyIsDropped(i: Item, parse: string -> Option<real>)
    requires IsItem(i) && i.token == ""
    ensures EntryOf(Text(i), parse) == None
  {
    assert Text(i) == i.before;
    TrimAllBlanks(i.before);
    TrimNothing();
    SplitField("", ';');
  }

  lemma TokenIsTrimmed(i: Item)
    requires IsItem(i) && i.token != ""
    ensures TrimSpace(i.token) == i.token && TrimSpace(i.token + i.gap) == i.token
  {
    NothingIsBlank();
    hide IsParameter, TrimSpace, IsBlank, IsSolid;
    assert "" + i.token + i.gap == i.token + i.gap && "" + i.token + "" == i.token;
    TrimSolid("", i.token, i.gap);
    TrimSolid("", i.token, "");
  }

  lemma EntryFromSegments(part: string, first: string, rest: seq<string>, token: string, parse: string -> Option<real>)
    requires Split(TrimSpace(part), ';') == [first] + rest && TrimSpace(first) == token && token != ""
    ensures var q := QualityOf(rest, parse, 1.0); EntryOf(part, parse) == if q.Some? then Some(Entry(Lower(token), q.value)) else None
  {
    assert ([first] + rest)[1..] == rest;
    assert |Lower(token)| == |token|;
    hide TrimSpace, Split, QualityOf, Lower;
  }

  lemma HasNo(s: string, c: char)
    requires (IsBlank(s) || IsSolid(s)) && (c == ';' || c == ',')
    ensures c !in s
  {
  }

  /** An item without parameters. */
  lemma BareIsSplit(before: string, token: string, after: string)
    requires IsBlank(before) && IsBlank(after) && token != "" && IsSolid(token)
    ensures Split(TrimSpace(before + token + after), ';') == [token]
  {
    HasNo(token, ';');
    hide TrimSpace, IsBlank, IsSolid, Split;
    TrimSolid(before, token, after);
    SplitField(token, ';');
  }

  lemma CoreEnds(first: string, ps: seq<Parameter>)
    requires first != "" && !IsSpace(first[0]) && ps != [] && ps[|ps| - 1].after == ""
    requires forall k :: 0 <= k < |ps| ==> IsParameter(ps[k])
    ensures var core := first + Parameters(ps); core != "" && !IsSpace(core[0]) && !IsSpace(core[|core| - 1])
  {
    hide IsParameter, IsSpace, Parameters;
    ParametersEnd(ps);
  }

  lemma ItemIsSplit(i: Item)
    requires IsItem(i) && i.token != ""
    ensures Split(TrimSpace(Text(i)), ';') == if i.parameters == [] then [i.token] else [i.token + i.gap] + Segments(i.parameters)
  {
    hide IsParameter, IsSpace, TrimSpace, Split, Segments;
    if i.parameters == [] {
      assert Text(i) == i.before + i.token + (i.gap + i.after);
      BareIsSplit(i.before, i.token, i.gap + i.after);
    } else {
      hide Parameters;
      var first := i.token + i.gap;
      SolidEnds(i.token);
      HasNo(i.token, ';');
      HasNo(i.gap, ';');
      CoreEnds(first, i.parameters);
      TrimBlanks(i.before, first + Parameters(i.parameters), i.after);
      SplitParameters(first, i.parameters);
      hide IsSolid, IsBlank;
    }
  }

  // ---------------------------------------------------------------- the header is read

  lemma {:induction false} ParametersAvoid(ps: seq<Parameter>)
    requires forall k :: 0 <= k < |ps| ==> IsParameter(ps[k])
    ensures ',' !in Parameters(ps)
  {
    if ps != [] {
      ParameterAvoids(ps[0], ',');
      ParametersAvoid(ps[1..]);
    }
  }

  lemma TextAvoids(i: Item)
    requires IsItem(i)
    ensures ',' !in Text(i)
  {
    ParametersAvoid(i.parameters);
    hide IsParameter, IsBlank, IsSolid;
    HasNo(i.before, ',');
    HasNo(i.token, ',');
    HasNo(i.gap, ',');
    HasNo(i.after, ',');
  }

  /** What the parser makes of one item. */
  function Reading(i: Item, parse: string -> Option<real>): Option<Entry>
  {
    var q := WeightOf(i.parameters, parse, 1.0);
    if q.Some? && i.token != "" then Some(Entry(Lower(i.token), q.value)) else None
  }

  function Readings(items: seq<Item>, parse: string -> Option<real>): seq<Entry>
  {
    if items == [] then []
    else
      var e := Reading(items[|items| - 1], parse);
      Readings(items[..|items| - 1], parse) + (if e.Some? then [e.value] else [])
  }

  lemma {:induction false} PartsAreRead(items: seq<Item>, parts: seq<string>, parse: string -> Option<real>)
    requires |parts| == |items| && forall k :: 0 <= k < |items| ==> IsItem(items[k]) && parts[k] == Text(items[k])
    ensures EntriesOf(parts, parse) == Readings(items, parse)
  {
    hide IsItem, Text, EntryOf, WeightOf, Lower;
    if items != [] {
      var n := |items| - 1;
      PartsAreRead(items[..n], parts[..n], parse);
      ItemIsRead(items[n], parse);
    }
  }

  /** A header is read item by item, in order; an empty item or one with an invalid weight
      drops only itself. */
  lemma HeaderIsRead(items: seq<Item>, parse: string -> Option<real>)
    requires items != [] && forall k :: 0 <= k < |items| ==> IsItem(items[k])
    ensures Entries(Header(items), parse) == Readings(items, parse)
  {
    var parts := seq(|items|, k requires 0 <= k < |items| => Text(items[k]));
    forall k | 0 <= k < |parts|
      ensures ',' !in parts[k] && parts[k] == Text(items[k])
    {
      TextAvoids(items[k]);
    }
    JoinThenSplit(parts, ',');
    hide IsItem, Text, EntriesOf, Readings;
    PartsAreRead(items, parts, parse);
  }

  // ---------------------------------------------------------------- what is negotiated

  lemma {:induction false} ReadingsMember(items: seq<Item>, parse: string -> Option<real>, e: Entry)
    ensures e in Readings(items, parse) <==> exists k :: 0 <= k < |items| && Reading(items[k], parse) == Some(e)
  {
    hide Reading;
    if items != [] {
      var front := items[..|items| - 1];
      ReadingsMember(front, parse, e);
      if e in Readings(front, parse) {
        var k :| 0 <= k < |front| && Reading(front[k], parse) == Some(e);
        assert Reading(items[k], parse) == Some(e);
      }
      if k :| 0 <= k < |items| && Reading(items[k], parse) == Some(e) {
        if k < |front| {
          assert Reading(front[k], parse) == Some(e);
        }
      }
    }
  }

  /** The entries of a word are the weights items offer it. */
  lemma EntryIsOffer(items: seq<Item>, parse: string -> Option<real>, word: string, q: real)
    requires (forall k :: 0 <= k < |items| ==> IsItem(items[k])) && forall c :: c in word ==> !('A' <= c <= 'Z')
    ensures Entry(word, q) in Readings(items, parse) <==> exists k :: 0 <= k < |items| && Offers(items[k], parse, word, q)
  {
    ReadingsMember(items, parse, Entry(word, q));
    forall k | 0 <= k < |items|
      ensures Reading(items[k], parse) == Some(Entry(word, q)) <==> Offers(items[k], parse, word, q)
    {
      GivesIff(items[k], parse, q);
      LowerSpells(items[k].token, word);
    }
    hide Reading, Offers, Readings;
  }

  lemma OwnIsHighest(items: seq<Item>, parse: string -> Option<real>, word: string)
    requires (forall k :: 0 <= k < |items| ==> IsItem(items[k])) && forall c :: c in word ==> !('A' <= c <= 'Z')
    ensures var own := Own(Readings(items, parse), word);
            && (own.Some? <==> IsNamed(items, parse, word))
            && (own.Some? ==> IsHighest(items, parse, word, own.value))
  {
    hide Own, Readings, Offers, IsItem;
    var es := Readings(items, parse);
    OwnIsBest(es, word);
    forall q
      ensures Entry(word, q) in es <==> exists k :: 0 <= k < |items| && Offers(items[k], parse, word, q)
    {
      EntryIsOffer(items, parse, word, q);
    }
    if k, q :| 0 <= k < |items| && Offers(items[k], parse, word, q) {
      assert Entry(word, q) in es;
    }
    forall k, p | 0 <= k < |items| && Offers(items[k], parse, word, p) && Own(es, word).Some?
      ensures p <= Own(es, word).value
    {
      assert Entry(word, p) in es;
    }
  }

  lemma HighestIsUnique(items: seq<Item>, parse: string -> Option<real>, word: string, p: real, q: real)
    requires IsHighest(items, parse, word, p) && IsHighest(items, parse, word, q)
    ensures p == q
  {
    hide Offers;
  }

  lemma HighestIsNamed(items: seq<Item>, parse: string -> Option<real>, word: string, q: real)
    requires IsHighest(items, parse, word, q)
    ensures IsNamed(items, parse, word)
  {
    hide Offers;
  }

  /** The effective quality is the weight of the coding. */
  lemma EffectiveIsWeight(items: seq<Item>, parse: string -> Option<real>, coding: string, q: real)
    requires (forall k :: 0 <= k < |items| ==> IsItem(items[k])) && forall c :: c in coding ==> !('A' <= c <= 'Z')
    ensures Effective(Readings(items, parse), coding) == Some(q) <==> Weighs(items, parse, coding, q)
  {
    hide Own, Readings, IsNamed, IsHighest, IsItem;
    OwnIsHighest(items, parse, coding);
    OwnIsHighest(items, parse, "*");
    var es := Readings(items, parse);
    if Weighs(items, parse, coding, q) {
      if Own(es, coding).Some? {
        HighestIsUnique(items, parse, coding, q, Own(es, coding).value);
      } else {
        HighestIsNamed(items, parse, "*", q);
        HighestIsUnique(items, parse, "*", q, Own(es, "*").value);
      }
    }
  }

  /** Main result. The outcome for a header, said of its list: an encoding is offered exactly if
      its weight is positive, each once, the heavier first and Brotli on a tie; the unencoded
      form is acceptable unless it weighs nothing. */
  lemma NegotiatedAsWritten(items: seq<Item>, parse: string -> Option<real>, r: Accepted)
    requires items != [] && forall k :: 0 <= k < |items| ==> IsItem(items[k])
    requires IsNegotiated(Entries(Header(items), parse), r)
    ensures Brotli in r.encodings <==> exists q :: Weighs(items, parse, "br", q) && q > 0.0
    ensures Gzip in r.encodings <==> exists q :: Weighs(items, parse, "gzip", q) && q > 0.0
    ensures r.identity <==> !exists q :: Weighs(items, parse, "identity", q) && q <= 0.0
    ensures forall p, q :: Weighs(items, parse, "br", p) && Weighs(items, parse, "gzip", q) && p > 0.0 && q > 0.0 ==>
              r.encodings == if q > p then [Gzip, Brotli] else [Brotli, Gzip]
    ensures |r.encodings| <= 2 && (|r.encodings| == 2 ==> r.encodings[0] != r.encodings[1])
  {
    hide Readings, Header, Entries, IsItem, Weighs, Effective, IsNegotiated;
    HeaderIsRead(items, parse);
    var es := Readings(items, parse);
    AtMostTwo(es, r);
    OutcomeFromQualities(es, r);
    PositiveWeight(items, parse, "br");
    PositiveWeight(items, parse, "gzip");
    PositiveWeight(items, parse, "identity");
    forall p, q | Weighs(items, parse, "br", p) && Weighs(items, parse, "gzip", q) && p > 0.0 && q > 0.0
      ensures r.encodings == if q > p then [Gzip, Brotli] else [Brotli, Gzip]
    {
      EffectiveIsWeight(items, parse, "br", p);
      EffectiveIsWeight(items, parse, "gzip", q);
    }
  }

  lemma PositiveWeight(items: seq<Item>, parse: string -> Option<real>, coding: string)
    requires (forall k :: 0 <= k < |items| ==> IsItem(items[k])) && coding in ["br", "gzip", "identity"]
    ensures var q := Effective(Readings(items, parse), coding);
            && ((exists p :: Weighs(items, parse, coding, p) && p > 0.0) <==> q.Some? && q.value > 0.0)
            && ((exists p :: Weighs(items, parse, coding, p) && p <= 0.0) <==> q.Some? && q.value <= 0.0)
  {
    hide Readings, IsItem, Weighs, Effective;
    assert forall c :: c in coding ==> !('A' <= c <= 'Z');
    forall p
      ensures Effective(Readings(items, parse), coding) == Some(p) <==> Weighs(items, parse, coding, p)
    {
      EffectiveIsWeight(items, parse, coding, p);
    }
    var q := Effective(Readings(items, parse), coding);
    if q.Some? {
      assert Weighs(items, parse, coding, q.value);
    }
  }

  lemma OutcomeFromQualities(es: seq<Entry>, r: Accepted)
    requires IsNegotiated(es, r)
    ensures var br, gz, id := Effective(es, "br"), Effective(es, "gzip"), Effective(es, "identity");
            && (Brotli in r.encodings <==> br.Some? && br.value > 0.0)
            && (Gzip in r.encodings <==> gz.Some? && gz.value > 0.0)
            && (r.identity <==> !(id.Some? && id.value <= 0.0))
            && (br.Some? && gz.Some? && br.value > 0.0 && gz.value > 0.0 ==>
                 r.encodings == if gz.value > br.value then [Gzip, Brotli] else [Brotli, Gzip])
  {
    hide Effective;
    AtMostTwo(es, r);
    if Brotli in r.encodings && Gzip in r.encodings {
      BothInOrder(es, r);
    }
  }

  lemma BothInOrder(es: seq<Entry>, r: Accepted)
    requires IsNegotiated(es, r) && Brotli in r.encodings && Gzip in r.encodings
    ensures r.encodings == if Negotiation.Precedes(es, Gzip, Brotli) then [Gzip, Brotli] else [Brotli, Gzip]
  {
    hide Effective, Acceptable;
    AtMostTwo(es, r);
    assert |r.encodings| == 2;
    PrecedesOnce(es, Gzip, Brotli);
    PrecedesOnce(es, Brotli, Gzip);
  }
}
