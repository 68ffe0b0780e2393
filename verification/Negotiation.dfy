/** Content-coding negotiation (api/content-negotiation.go) and the choice between 200, 404 and
    406 in `getPackage` (api/package-controller.go), against section 12.5.3 of RFC 9110.
    Header text is ASCII; the reading of a number is a parameter, `None` for an error or NaN. */
module Negotiation {
  import opened Strings
  import opened Semver
  import opened Encodings
  import opened ObjectStore
  import Service

  // ---------------------------------------------------------------- the header as entries

  datatype Entry = Entry(token: string, quality: real)

  predicate IsSpace(c: char)
  {
    c == ' ' || '\t' <= c <= '\r'
  }

  function TrimLeft(s: string): string
  {
    if s != [] && IsSpace(s[0]) then TrimLeft(s[1..]) else s
  }

  function TrimRight(s: string): string
  {
    if s != [] && IsSpace(s[|s| - 1]) then TrimRight(s[..|s| - 1]) else s
  }

  function TrimSpace(s: string): string
  {
    TrimRight(TrimLeft(s))
  }

  function Lower(s: string): string
  {
    seq(|s|, i requires 0 <= i < |s| => if 'A' <= s[i] <= 'Z' then (s[i] as int + 32) as char else s[i])
  }

  /** The last valid q parameter decides; an invalid one spoils the entry. */
  function QualityOf(parameters: seq<string>, parse: string -> Option<real>, current: real): Option<real>
  {
    if parameters == [] then Some(current)
    else
      var p := TrimSpace(parameters[0]);
      var name := Before(p, '=');
      if name != "q" && name != "Q" then QualityOf(parameters[1..], parse, current)
      else if name == p then None
      else
        var q := parse(TrimSpace(p[|name| + 1..]));
        if q.None? || q.value < 0.0 || q.value > 1.0 then None else QualityOf(parameters[1..], parse, q.value)
  }

  function EntryOf(part: string, parse: string -> Option<real>): Option<Entry>
  {
    var segments := Split(TrimSpace(part), ';');
    var token := Lower(TrimSpace(segments[0]));
    var q := QualityOf(segments[1..], parse, 1.0);
    if q.None? || token == "" then None else Some(Entry(token, q.value))
  }

  function EntriesOf(parts: seq<string>, parse: string -> Option<real>): seq<Entry>
  {
    if parts == [] then []
    else
      var e := EntryOf(parts[|parts| - 1], parse);
      EntriesOf(parts[..|parts| - 1], parse) + (if e.Some? then [e.value] else [])
  }

  function Entries(header: string, parse: string -> Option<real>): seq<Entry>
  {
    EntriesOf(Split(header, ','), parse)
  }

  // ---------------------------------------------------------------- what the header asks for

  /** The highest quality any entry gives the coding. */
  function Own(es: seq<Entry>, coding: string): Option<real>
  {
    if es == [] then None
    else
      var best, e := Own(es[..|es| - 1], coding), es[|es| - 1];
      if e.token != coding || (best.Some? && e.quality <= best.value) then best else Some(e.quality)
  }

  /** Its own quality, else that of "*". */
  function Effective(es: seq<Entry>, coding: string): Option<real>
  {
    if Own(es, coding).Some? then Own(es, coding) else Own(es, "*")
  }

  /** Section 12.5.3: a positive quality accepts; what no entry covers is refused, except that
      the unencoded form is accepted by default. */
  predicate Acceptable(es: seq<Entry>, coding: string)
  {
    var q := Effective(es, coding);
    if q.Some? then q.value > 0.0 else coding == "identity"
  }

  function Coding(e: Encoding): string
  {
    match e
    case Brotli => "br"
    case Gzip => "gzip"
  }

  /** One encoding is tried before another: higher quality, or Brotli on a tie. */
  predicate Precedes(es: seq<Entry>, a: Encoding, b: Encoding)
  {
    var p, q := Effective(es, Coding(a)), Effective(es, Coding(b));
    p.Some? && q.Some? && (p.value > q.value || (p.value == q.value && a.Brotli? && b.Gzip?))
  }

  datatype Accepted = Accepted(encodings: seq<Encoding>, identity: bool)

  /** The outcome of negotiation: the acceptable encodings, each once, in order of preference. */
  ghost predicate IsNegotiated(es: seq<Entry>, r: Accepted)
  {
    && (r.identity <==> Acceptable(es, "identity"))
    && (forall e :: e in r.encodings <==> Acceptable(es, Coding(e)))
    && (forall i, j :: 0 <= i < j < |r.encodings| ==>
          Precedes(es, r.encodings[i], r.encodings[j]))
  }

  /** The effective quality is a maximum over the entries, wherever they stand. */
  ghost predicate IsBest(es: seq<Entry>, coding: string, q: Option<real>)
  {
    && (q.Some? ==> Entry(coding, q.value) in es)
    && (forall e :: e in es && e.token == coding ==> q.Some? && e.quality <= q.value)
  }

  lemma {:induction false} OwnIsBest(es: seq<Entry>, coding: string)
    ensures IsBest(es, coding, Own(es, coding))
  {
    if es != [] {
      OwnIsBest(es[..|es| - 1], coding);
      assert es == es[..|es| - 1] + [es[|es| - 1]];
    }
  }

  lemma BestIsUnique(a: seq<Entry>, b: seq<Entry>, coding: string, p: Option<real>, q: Option<real>)
    requires multiset(a) == multiset(b) && IsBest(a, coding, p) && IsBest(b, coding, q)
    ensures p == q
  {
    assert forall e :: e in a <==> e in multiset(a);
    assert forall e :: e in b <==> e in multiset(b);
  }

  lemma OwnIgnoresOrder(a: seq<Entry>, b: seq<Entry>, coding: string)
    requires multiset(a) == multiset(b)
    ensures Own(a, coding) == Own(b, coding)
  {
    OwnIsBest(a, coding);
    OwnIsBest(b, coding);
    BestIsUnique(a, b, coding, Own(a, coding), Own(b, coding));
  }

  lemma EffectiveIgnoresOrder(a: seq<Entry>, b: seq<Entry>, coding: string)
    requires multiset(a) == multiset(b)
    ensures Effective(a, coding) == Effective(b, coding)
  {
    OwnIgnoresOrder(a, b, coding);
    OwnIgnoresOrder(a, b, "*");
  }

  lemma PrecedesOnce(es: seq<Entry>, a: Encoding, b: Encoding)
    ensures Precedes(es, a, b) ==> a != b && !Precedes(es, b, a)
  {
  }

  /** There is one outcome, whatever the order of the entries. */
  lemma NegotiationIgnoresOrder(a: seq<Entry>, b: seq<Entry>, r: Accepted, s: Accepted)
    requires multiset(a) == multiset(b) && IsNegotiated(a, r) && IsNegotiated(b, s)
    ensures r == s
  {
    EffectiveIgnoresOrder(a, b, "identity");
    EffectiveIgnoresOrder(a, b, "br");
    EffectiveIgnoresOrder(a, b, "gzip");
    hide Own, Effective;
    AtMostTwo(a, r);
    AtMostTwo(b, s);
    OrderIsSame(a, b, r, s);
  }

  lemma OrderIsSame(a: seq<Entry>, b: seq<Entry>, r: Accepted, s: Accepted)
    requires IsNegotiated(a, r) && IsNegotiated(b, s)
    requires |r.encodings| <= 2 && (|r.encodings| == 2 ==> r.encodings[0] != r.encodings[1])
    requires |s.encodings| <= 2 && (|s.encodings| == 2 ==> s.encodings[0] != s.encodings[1])
    requires forall e :: Acceptable(a, Coding(e)) == Acceptable(b, Coding(e))
    requires forall e, f :: Precedes(a, e, f) == Precedes(b, e, f)
    ensures r.encodings == s.encodings
  {
    hide Acceptable, Precedes;
    var p, q := r.encodings, s.encodings;
    SameElements(p, q);
    if |p| == 2 && p != q {
      assert Precedes(a, p[0], p[1]) && Precedes(b, q[0], q[1]);
      PrecedesOnce(a, p[0], p[1]);
    }
  }

  /** Two short lists of the same elements are equal up to a swap. */
  lemma SameElements(p: seq<Encoding>, q: seq<Encoding>)
    requires |p| <= 2 && (|p| == 2 ==> p[0] != p[1]) && |q| <= 2 && (|q| == 2 ==> q[0] != q[1])
    requires forall e :: e in p <==> e in q
    ensures |p| == |q| && (p == q || (|p| == 2 && p[0] == q[1] && p[1] == q[0]))
  {
    if |p| > 0 {
      assert p[0] in q;
    }
    if |p| > 1 {
      assert p[1] in q;
    }
    if |q| > 0 {
      assert q[0] in p;
    }
    if |q| > 1 {
      assert q[1] in p;
    }
  }

  lemma TwoEncodings(a: Encoding, b: Encoding, c: Encoding)
    ensures a == b || b == c || a == c
  {
  }

  lemma AtMostTwo(es: seq<Entry>, r: Accepted)
    requires IsNegotiated(es, r)
    ensures |r.encodings| <= 2
    ensures |r.encodings| == 2 ==> r.encodings[0] != r.encodings[1]
  {
    forall i, j | 0 <= i < j < |r.encodings|
      ensures r.encodings[i] != r.encodings[j]
    {
      PrecedesOnce(es, r.encodings[i], r.encodings[j]);
    }
    if |r.encodings| > 2 {
      TwoEncodings(r.encodings[0], r.encodings[1], r.encodings[2]);
    }
  }

  // ---------------------------------------------------------------- the parser

  /** `sort.SliceStable` by falling quality. */
  function Placed(p: (Encoding, real), sorted: seq<(Encoding, real)>): seq<(Encoding, real)>
  {
    if sorted == [] || !(sorted[0].1 > p.1) then [p] + sorted else [sorted[0]] + Placed(p, sorted[1..])
  }

  function StableSorted(ps: seq<(Encoding, real)>): seq<(Encoding, real)>
  {
    if ps == [] then [] else Placed(ps[0], StableSorted(ps[1..]))
  }

  lemma SortedOne(p: (Encoding, real))
    ensures StableSorted([p]) == [p]
  {
    assert [p][1..] == [];
    assert [p] + [] == [p];
  }

  lemma SortedPair(p: (Encoding, real), q: (Encoding, real))
    ensures StableSorted([p, q]) == if q.1 > p.1 then [q, p] else [p, q]
    ensures StableSorted([p]) == [p]
  {
    SortedOne(p);
    SortedOne(q);
    assert [p, q][1..] == [q];
    assert Placed(p, [q]) == if q.1 > p.1 then [q] + Placed(p, [q][1..]) else [p] + [q];
    assert [q][1..] == [];
  }

  /** The parameters of one entry (lines 35-46). */
  method ParseQuality(parameters: seq<string>, parse: string -> Option<real>) returns (quality: real, valid: bool)
    ensures QualityOf(parameters, parse, 1.0) == if valid then Some(quality) else None
  {
    quality, valid := 1.0, true;
    for i := 0 to |parameters|
      invariant valid
      invariant QualityOf(parameters, parse, 1.0) == QualityOf(parameters[i..], parse, quality)
    {
      assert parameters[i..][1..] == parameters[i + 1..];
      var p := TrimSpace(parameters[i]);
      var name := Before(p, '=');
      if name != "q" && name != "Q" {
        continue;
      }
      var found := |name| < |p|;
      var parsed := if found then parse(TrimSpace(p[|name| + 1..])) else None;
      if !found || parsed.None? || parsed.value < 0.0 || parsed.value > 1.0 {
        valid := false;
        break;
      }
      quality := parsed.value;
    }
  }

  /** The `qualities` map once the parts have been read (lines 29-55). */
  method ReadQualities(parts: seq<string>, parse: string -> Option<real>) returns (qualities: map<string, real>)
    ensures forall t :: Own(EntriesOf(parts, parse), t) == if t in qualities then Some(qualities[t]) else None
  {
    qualities := map[];
    for i := 0 to |parts|
      invariant forall t :: Own(EntriesOf(parts[..i], parse), t) == if t in qualities then Some(qualities[t]) else None
    {
      hide QualityOf, TrimSpace, Lower, EntriesOf, Own;
      EntriesGrow(parts, i, parse);
      ghost var es := EntriesOf(parts[..i], parse);
      assert es + [] == es;
      var segments := Split(TrimSpace(parts[i]), ';');
      var token := Lower(TrimSpace(segments[0]));
      var quality, valid := ParseQuality(segments[1..], parse);
      if !valid || token == "" {
        continue;
      }
      OwnGrows(es, Entry(token, quality));
      if token in qualities && quality <= qualities[token] {
        continue;
      }
      qualities := qualities[token := quality];
    }
    assert parts[..|parts|] == parts;
  }

  lemma EntriesGrow(parts: seq<string>, i: nat, parse: string -> Option<real>)
    requires i < |parts|
    ensures var e := EntryOf(parts[i], parse);
            EntriesOf(parts[..i + 1], parse) == EntriesOf(parts[..i], parse) + (if e.Some? then [e.value] else [])
  {
    assert parts[..i + 1][..i] == parts[..i];
    hide EntryOf;
  }

  lemma OwnGrows(es: seq<Entry>, e: Entry)
    ensures forall t :: Own(es + [e], t) ==
              var best := Own(es, t); if e.token != t || (best.Some? && e.quality <= best.value) then best else Some(e.quality)
  {
    assert (es + [e])[..|es|] == es;
  }

  function Resolve(qualities: map<string, real>, token: string): Option<real>
  {
    if token in qualities then Some(qualities[token])
    else if "*" in qualities then Some(qualities["*"])
    else None
  }

  /** `parseAcceptEncoding` (24-96). */
  method ParseAcceptEncoding(header: string, parse: string -> Option<real>) returns (r: Accepted)
    ensures IsNegotiated(Entries(header, parse), r)
  {
    if TrimSpace(header) == "" {
      BlankHasNoEntries(header, parse);
      return Accepted([], true);
    }
    var qualities := ReadQualities(Split(header, ','), parse);
    hide Split, TrimSpace, Own, EntriesOf, IsNegotiated;
    Resolves(Entries(header, parse), qualities);
    QualitiesAreFractions(header, parse);
    r := Rank(qualities, Entries(header, parse));
  }

  /** From the qualities to the outcome (57-95). */
  method Rank(qualities: map<string, real>, ghost es: seq<Entry>) returns (r: Accepted)
    requires forall t :: Resolve(qualities, t) == Effective(es, t)
    requires forall t :: Effective(es, t).Some? ==> 0.0 <= Effective(es, t).value <= 1.0
    ensures IsNegotiated(es, r)
  {
    hide Effective, IsNegotiated, Offered, Resolve, StableSorted, Firsts;
    var identity := Resolve(qualities, "identity");
    var preferences := Preferences(qualities, es);
    var encodings := FirstsOf(StableSorted(preferences));
    r := Accepted(encodings, identity.None? || identity.value > 0.0);
    OfferedIsNegotiated(es, r.identity);
  }

  lemma Resolves(es: seq<Entry>, qualities: map<string, real>)
    requires forall t :: Own(es, t) == if t in qualities then Some(qualities[t]) else None
    ensures forall t :: Resolve(qualities, t) == Effective(es, t)
  {
    hide Own;
  }

  /** The loop over the encodings on offer (77-83). */
  method Preferences(qualities: map<string, real>, ghost es: seq<Entry>) returns (preferences: seq<(Encoding, real)>)
    requires forall t :: Resolve(qualities, t) == Effective(es, t)
    requires forall t :: Effective(es, t).Some? ==> 0.0 <= Effective(es, t).value <= 1.0
    ensures preferences == Offered(es, [Brotli, Gzip])
  {
    hide Effective, Resolve;
    preferences := [];
    var offered := [Brotli, Gzip];
    for i := 0 to |offered|
      invariant preferences == Offered(es, offered[..i])
    {
      assert offered[..i + 1][..i] == offered[..i];
      var q := Resolve(qualities, Coding(offered[i]));
      if q.None? || q.value == 0.0 {
        continue;
      }
      preferences := preferences + [(offered[i], q.value)];
    }
    assert offered[..2] == [Brotli, Gzip];
  }

  method FirstsOf(sorted: seq<(Encoding, real)>) returns (encodings: seq<Encoding>)
    ensures encodings == Firsts(sorted)
  {
    encodings := [];
    for i := 0 to |sorted|
      invariant encodings == Firsts(sorted[..i])
    {
      assert sorted[..i + 1][..i] == sorted[..i];
      encodings := encodings + [sorted[i].0];
    }
    assert sorted[..|sorted|] == sorted;
  }

  function Offered(es: seq<Entry>, offered: seq<Encoding>): seq<(Encoding, real)>
  {
    if offered == [] then []
    else
      var e := offered[|offered| - 1];
      Offered(es, offered[..|offered| - 1]) + (if Acceptable(es, Coding(e)) then [(e, Effective(es, Coding(e)).value)] else [])
  }

  function Firsts(ps: seq<(Encoding, real)>): seq<Encoding>
  {
    if ps == [] then [] else Firsts(ps[..|ps| - 1]) + [ps[|ps| - 1].0]
  }

  /** The acceptable encodings, sorted stably from Brotli then gzip, are the negotiated order. */
  lemma OfferedIsNegotiated(es: seq<Entry>, identity: bool)
    requires identity <==> Acceptable(es, "identity")
    ensures IsNegotiated(es, Accepted(Firsts(StableSorted(Offered(es, [Brotli, Gzip]))), identity))
  {
    hide Effective, IsNegotiated;
    var p, q := Effective(es, "br"), Effective(es, "gzip");
    OfferedBoth(es);
    if Acceptable(es, "br") && Acceptable(es, "gzip") {
      SortedPair((Brotli, p.value), (Gzip, q.value));
      FirstsOfPair((Brotli, p.value), (Gzip, q.value));
      FirstsOfPair((Gzip, q.value), (Brotli, p.value));
      if q.value > p.value {
        NegotiatedTwo(es, Gzip, Brotli, identity);
      } else {
        NegotiatedTwo(es, Brotli, Gzip, identity);
      }
    } else if Acceptable(es, "br") {
      SortedOne((Brotli, p.value));
      FirstsOfPair((Brotli, p.value), (Brotli, p.value));
      NegotiatedOne(es, Brotli, identity);
    } else if Acceptable(es, "gzip") {
      SortedOne((Gzip, q.value));
      FirstsOfPair((Gzip, q.value), (Gzip, q.value));
      NegotiatedOne(es, Gzip, identity);
    } else {
      NegotiatedNone(es, identity);
    }
  }

  lemma OfferedBoth(es: seq<Entry>)
    ensures Offered(es, [Brotli, Gzip]) ==
            (if Acceptable(es, "br") then [(Brotli, Effective(es, "br").value)] else []) +
            (if Acceptable(es, "gzip") then [(Gzip, Effective(es, "gzip").value)] else [])
  {
    hide Effective;
    assert [Brotli, Gzip][..1] == [Brotli] && [Brotli][..0] == [];
    assert Offered(es, []) == [];
  }

  lemma NegotiatedNone(es: seq<Entry>, identity: bool)
    requires identity <==> Acceptable(es, "identity")
    requires !Acceptable(es, "br") && !Acceptable(es, "gzip")
    ensures IsNegotiated(es, Accepted([], identity))
  {
    hide Acceptable;
  }

  lemma NegotiatedOne(es: seq<Entry>, a: Encoding, identity: bool)
    requires identity <==> Acceptable(es, "identity")
    requires forall e :: Acceptable(es, Coding(e)) <==> e == a
    ensures IsNegotiated(es, Accepted([a], identity))
  {
    hide Acceptable;
  }

  lemma NegotiatedTwo(es: seq<Entry>, a: Encoding, b: Encoding, identity: bool)
    requires identity <==> Acceptable(es, "identity")
    requires a != b && Acceptable(es, Coding(a)) && Acceptable(es, Coding(b)) && Precedes(es, a, b)
    ensures IsNegotiated(es, Accepted([a, b], identity))
  {
    hide Effective;
  }

  lemma FirstsOfPair(p: (Encoding, real), q: (Encoding, real))
    ensures Firsts([p]) == [p.0] && Firsts([p, q]) == [p.0, q.0]
  {
    assert [p][..0] == [] && [p, q][..1] == [p];
  }

  lemma {:induction false} QualityOfBounded(parameters: seq<string>, parse: string -> Option<real>, current: real)
    requires 0.0 <= current <= 1.0
    ensures var q := QualityOf(parameters, parse, current); q.Some? ==> 0.0 <= q.value <= 1.0
  {
    if parameters != [] {
      var p := TrimSpace(parameters[0]);
      var name := Before(p, '=');
      if name != "q" && name != "Q" {
        QualityOfBounded(parameters[1..], parse, current);
      } else if name != p {
        var q := parse(TrimSpace(p[|name| + 1..]));
        if q.Some? && 0.0 <= q.value <= 1.0 {
          QualityOfBounded(parameters[1..], parse, q.value);
        }
      }
    }
  }

  lemma {:induction false} EntriesBounded(parts: seq<string>, parse: string -> Option<real>, e: Entry)
    requires e in EntriesOf(parts, parse)
    ensures 0.0 <= e.quality <= 1.0
  {
    if parts != [] {
      var last := EntryOf(parts[|parts| - 1], parse);
      if last.Some? && last.value == e {
        QualityOfBounded(Split(TrimSpace(parts[|parts| - 1]), ';')[1..], parse, 1.0);
      } else {
        hide EntryOf;
        EntriesBounded(parts[..|parts| - 1], parse, e);
      }
    }
  }

  /** An effective quality lies between 0 and 1, so being non-zero is being positive. */
  lemma QualitiesAreFractions(header: string, parse: string -> Option<real>)
    ensures forall t :: var q := Effective(Entries(header, parse), t); q.Some? ==> 0.0 <= q.value <= 1.0
  {
    forall t
      ensures var q := Own(Entries(header, parse), t); q.Some? ==> 0.0 <= q.value <= 1.0
    {
      var es := Entries(header, parse);
      OwnIsBest(es, t);
      hide Own, EntriesOf;
      if Own(es, t).Some? {
        EntriesBounded(Split(header, ','), parse, Entry(t, Own(es, t).value));
      }
    }
    hide Own, Entries;
  }

  lemma {:induction false} TrimLeftBlank(s: string, i: nat)
    requires TrimLeft(s) == "" && i < |s|
    ensures IsSpace(s[i])
  {
    if i > 0 {
      TrimLeftBlank(s[1..], i - 1);
    }
  }

  lemma {:induction false} TrimRightBlank(s: string, i: nat)
    requires TrimRight(s) == "" && i < |s|
    ensures IsSpace(s[i])
  {
    if i < |s| - 1 {
      TrimRightBlank(s[..|s| - 1], i);
    }
  }

  lemma {:induction false} TrimLeftHead(s: string)
    ensures TrimLeft(s) != "" ==> !IsSpace(TrimLeft(s)[0])
  {
    if s != [] && IsSpace(s[0]) {
      TrimLeftHead(s[1..]);
    }
  }

  lemma BlankHasNoEntries(header: string, parse: string -> Option<real>)
    requires TrimSpace(header) == ""
    ensures Entries(header, parse) == []
  {
    TrimLeftHead(header);
    if TrimLeft(header) != "" {
      TrimRightBlank(TrimLeft(header), 0);
      assert false;
    }
    forall i | 0 <= i < |header|
      ensures header[i] != ','
    {
      TrimLeftBlank(header, i);
    }
    SplitField(header, ',');
    SplitField("", ';');
    assert TrimSpace("") == "" && |Lower("")| == 0;
    hide QualityOf;
    assert [header][..0] == [];
    assert EntryOf(header, parse).None?;
    assert EntriesOf([header], parse) == EntriesOf([], parse) + [];
  }

  // ---------------------------------------------------------------- the answer

  datatype Status = BadRequest | Served(encoding: Option<Encoding>) | NotFound | NotAcceptable

  /** What `getPackage` answers for a path (package-controller.go:275-302). */
  function Respond(b: Bucket, table: string -> bool, path: string, file: string, r: Accepted): Status
  {
    var chosen := Service.Representation(b, table, path, file, r.encodings);
    if chosen.None? && path !in b then NotFound
    else if chosen.None? && !r.identity then NotAcceptable
    else Served(chosen)
  }

  predicate IsStored(b: Bucket, table: string -> bool, path: string, file: string, e: Encoding)
  {
    Compressible(table, file) && path + Suffix(e) in b
  }

  /** The choice is the first accepted encoding that is stored. */
  lemma {:induction false} ChosenIsFirst(b: Bucket, table: string -> bool, path: string, file: string, accepted: seq<Encoding>) returns (k: nat)
    ensures k <= |accepted|
    ensures forall i :: 0 <= i < k ==> !IsStored(b, table, path, file, accepted[i])
    ensures var c := Service.Representation(b, table, path, file, accepted);
            if k < |accepted| then c == Some(accepted[k]) && IsStored(b, table, path, file, accepted[k]) else c == None
  {
    if !Compressible(table, file) || accepted == [] {
      k := |accepted|;
    } else if path + Suffix(accepted[0]) in b {
      k := 0;
    } else {
      var m := ChosenIsFirst(b, table, path, file, accepted[1..]);
      k := m + 1;
      assert forall i :: 0 < i <= m ==> accepted[i] == accepted[1..][i - 1];
    }
  }

  /** The acceptable encodings that are stored. */
  function Offers(b: Bucket, table: string -> bool, path: string, file: string, es: seq<Entry>): set<Encoding>
  {
    set e: Encoding | IsStored(b, table, path, file, e) && Acceptable(es, Coding(e))
  }

  /** The answer is decided by what is stored and what section 12.5.3 accepts. A 200 carries a
      stored, acceptable coding that precedes any other such; the unencoded form is served or
      refused only when no acceptable encoding is stored, and 404 means that nothing fits. */
  lemma AnswersAreAcceptable(b: Bucket, table: string -> bool, path: string, file: string, es: seq<Entry>, r: Accepted)
    requires IsNegotiated(es, r)
    ensures var offers := Offers(b, table, path, file, es);
            match Respond(b, table, path, file, r)
            case Served(Some(c)) => c in offers && forall e :: e in offers && e != c ==> Precedes(es, c, e)
            case Served(None) => offers == {} && path in b && Acceptable(es, "identity")
            case NotFound => offers == {} && path !in b
            case NotAcceptable => offers == {} && path in b && !Acceptable(es, "identity")
            case BadRequest => false
  {
    var k := ChosenIsFirst(b, table, path, file, r.encodings);
    hide Acceptable, Precedes, Service.Representation;
    if k < |r.encodings| {
      assert r.encodings[k] in r.encodings;
    }
    forall e: Encoding | IsStored(b, table, path, file, e) && Acceptable(es, Coding(e))
      ensures k < |r.encodings| && (e == r.encodings[k] || Precedes(es, r.encodings[k], e))
    {
      assert e in r.encodings;
      var i :| 0 <= i < |r.encodings| && r.encodings[i] == e;
      assert i >= k;
    }
  }

  /** With the unencoded form stored, 406 is answered exactly when it is refused and no
      acceptable encoding is stored. */
  lemma NotAcceptableIff(b: Bucket, table: string -> bool, path: string, file: string, es: seq<Entry>, r: Accepted)
    requires IsNegotiated(es, r) && path in b
    ensures Respond(b, table, path, file, r) == NotAcceptable <==>
              !Acceptable(es, "identity") && Offers(b, table, path, file, es) == {}
  {
    AnswersAreAcceptable(b, table, path, file, es, r);
    hide Respond, IsNegotiated, Acceptable, IsStored, Offers;
  }

  /** `getPackage` for one file, on the service as it is (255-302). */
  method GetPackage(service: Service.ContentService, name: string, version: string, file: string,
                    header: string, parse: string -> Option<real>, setFails: bool)
      returns (s: Status, ghost path: string, ghost accepted: Accepted)
    modifies service.cache
    ensures IsNegotiated(Entries(header, parse), accepted)
    ensures path == Service.Addressed(Service.State(service.storage.objects, old(service.cache.entries)), service.cacheEnabled, name, version, file)
    ensures s == if !Service.IsRequestable(version) then BadRequest
                 else Respond(service.storage.objects, service.table, path, file, accepted)
  {
    hide Service.Addressed, Service.AfterGet, Service.IsRequestable, IsNegotiated;
    var r := ParseAcceptEncoding(header, parse);
    accepted := r;
    path := Service.Addressed(Service.State(service.storage.objects, service.cache.entries), service.cacheEnabled, name, version, file);
    var reply := service.GetFile(name, version, file, r.encodings, setFails);
    if reply.InvalidVersion? {
      return BadRequest, path, accepted;
    }
    ghost var k := ChosenIsFirst(service.storage.objects, service.table, path, file, r.encodings);
    assert path + "" == path;
    var key := reply.path + if reply.encoding.Some? then Suffix(reply.encoding.value) else "";
    if key !in service.storage.objects {
      return NotFound, path, accepted;
    }
    if reply.encoding.None? && !r.identity {
      return NotAcceptable, path, accepted;
    }
    return Served(reply.encoding), path, accepted;
  }
}
