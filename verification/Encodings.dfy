/** Encoded siblings: how a key names the Brotli or gzip form of another key, and which names
    are worth compressing. Models internal/content/compression.go. */
module Encodings {
  import opened Strings

  datatype Encoding = Brotli | Gzip

  function Suffix(e: Encoding): string
  {
    match e
    case Brotli => ".br"
    case Gzip => ".gz"
  }

  /** The key names the encoded form of a shorter key. */
  predicate HasStem(key: string)
  {
    HasSuffix(key, Suffix(Brotli)) || HasSuffix(key, Suffix(Gzip))
  }

  function Stem(key: string): string
    requires HasStem(key)
  {
    key[..|key| - 3]
  }

  lemma StemOfVariant(s: string, e: Encoding)
    ensures HasStem(s + Suffix(e)) && Stem(s + Suffix(e)) == s
  {
    var k := s + Suffix(e);
    assert k[|k| - 3..] == Suffix(e);
  }

  lemma VariantOfStem(key: string) returns (e: Encoding)
    requires HasStem(key)
    ensures key == Stem(key) + Suffix(e)
  {
    e := if HasSuffix(key, Suffix(Brotli)) then Brotli else Gzip;
    assert key == key[..|key| - 3] + key[|key| - 3..];
  }

  /** A variant sorts after the key it encodes, and is another key. */
  lemma StemIsSmaller(key: string)
    requires HasStem(key)
    ensures Less(Stem(key), key)
  {
    var e := VariantOfStem(key);
    ExtensionIsLarger(Stem(key), Suffix(e));
  }

  /** The extension of the last path element, dot included; empty when it has none. */
  function Ext(name: string): string
  {
    if name == [] || name[|name| - 1] == '/' then []
    else if name[|name| - 1] == '.' then "."
    else
      var e := Ext(name[..|name| - 1]);
      if e == [] then [] else e + [name[|name| - 1]]
  }

  /** The media-type table decides on the extension alone. */
  predicate Compressible(table: string -> bool, name: string)
  {
    table(Ext(name))
  }

  /** No media-type table calls a Brotli or gzip file, or a name without an extension,
      compressible. */
  predicate SaneTable(table: string -> bool)
  {
    !table(".br") && !table(".gz") && !table("") && !table(".")
  }

  lemma {:induction false} ExtOfDotted(s: string, t: string)
    requires forall i :: 0 <= i < |t| ==> t[i] != '.' && t[i] != '/'
    ensures Ext(s + "." + t) == "." + t
  {
    var k := s + "." + t;
    if t == [] {
      assert k[|k| - 1] == '.';
    } else {
      assert k[..|k| - 1] == s + "." + t[..|t| - 1];
      ExtOfDotted(s, t[..|t| - 1]);
      assert "." + t == "." + t[..|t| - 1] + [t[|t| - 1]];
    }
  }

  /** The directory in front of a path plays no part in its extension. */
  lemma {:induction false} ExtIgnoresDirectory(dir: string, rest: string)
    ensures Ext(dir + "/" + rest) == Ext(rest)
  {
    var k := dir + "/" + rest;
    if rest == [] {
      assert k[|k| - 1] == '/';
    } else {
      assert k[..|k| - 1] == dir + "/" + rest[..|rest| - 1];
      ExtIgnoresDirectory(dir, rest[..|rest| - 1]);
    }
  }

  lemma ExtOfVariant(s: string, e: Encoding)
    ensures Ext(s + Suffix(e)) == Suffix(e)
  {
    match e
    case Brotli =>
      ExtOfDotted(s, "br");
      assert s + "." + "br" == s + ".br" && "." + "br" == ".br";
    case Gzip =>
      ExtOfDotted(s, "gz");
      assert s + "." + "gz" == s + ".gz" && "." + "gz" == ".gz";
  }

  /** A variant of anything is never compressed again. */
  lemma VariantsAreNotCompressible(table: string -> bool, key: string)
    requires SaneTable(table) && HasStem(key)
    ensures !Compressible(table, key)
  {
    var e := VariantOfStem(key);
    ExtOfVariant(Stem(key), e);
  }

  // ---------------------------------------------------------------- hiding variants

  /** The listing's test for a variant, against the keys known so far
      (internal/content/content-service.go:481-495). */
  predicate Hidden(table: string -> bool, known: set<string>, key: string)
  {
    HasStem(key) && Stem(key) in known && Compressible(table, Stem(key))
  }

  /** The same test written as the source's loop over the two encodings. */
  method IsEncodedVariant(table: string -> bool, key: string, known: set<string>) returns (r: bool)
    ensures r == Hidden(table, known, key)
  {
    var encodings := [Brotli, Gzip];
    for i := 0 to |encodings|
      invariant forall j :: 0 <= j < i && HasSuffix(key, Suffix(encodings[j])) ==> !Hidden(table, known, key)
    {
      var suffix := Suffix(encodings[i]);
      if !HasSuffix(key, suffix) {
        continue;
      }
      var sibling := key[..|key| - |suffix|];
      assert sibling == Stem(key);
      if sibling !in known {
        continue;
      }
      if Compressible(table, sibling) {
        return true;
      }
    }
    assert encodings[0] == Brotli && encodings[1] == Gzip;
    return false;
  }
}
