/**
 * The names the server builds: the storage key multer gives an upload, the
 * name a compressed or decompressed result is staged under, and the
 * algorithm a decompress request infers from the uploaded file's name.
 */
module Naming {
  import opened Wrappers
  import opened Text
  import opened Codecs

  // ---------------------------------------------------------------------
  // Upload keys
  // ---------------------------------------------------------------------

  /** The characters `/[^a-zA-Z0-9.-]/` leaves alone. */
  predicate KeptInUploadName(c: char) {
    'a' <= c <= 'z' || 'A' <= c <= 'Z' || '0' <= c <= '9' || c == '.' || c == '-'
  }

  /** The characters a storage key may contain: `[A-Za-z0-9._-]`. */
  predicate SafeKeyChar(c: char) {
    KeptInUploadName(c) || c == '_'
  }

  /** The global replace of every disallowed character by `_`, one for one. */
  function ReplaceDisallowed(s: string): (r: string)
    ensures |r| == |s|
    ensures forall i :: 0 <= i < |s| ==> r[i] == (if KeptInUploadName(s[i]) then s[i] else '_')
  {
    if s == [] then []
    else [if KeptInUploadName(s[0]) then s[0] else '_'] + ReplaceDisallowed(s[1..])
  }

  const MaxSanitizedLength: nat := 30

  /** The sanitised upload name: disallowed characters replaced, then cut to 30. */
  function SanitizeUploadName(name: string): (r: string)
    ensures |r| == Min(MaxSanitizedLength, |name|)
    ensures forall i :: 0 <= i < |r| ==> SafeKeyChar(r[i])
    ensures forall i :: 0 <= i < |r| ==> KeptInUploadName(name[i]) ==> r[i] == name[i]
    ensures forall i :: 0 <= i < |r| ==> !KeptInUploadName(name[i]) ==> r[i] == '_'
  {
    ReplaceDisallowed(name)[..Min(MaxSanitizedLength, |name|)]
  }

  lemma {:induction false} SanitizeUploadNameIdempotent(name: string)
    ensures SanitizeUploadName(SanitizeUploadName(name)) == SanitizeUploadName(name)
  {
    var once := SanitizeUploadName(name);
    var twice := SanitizeUploadName(once);
    assert |twice| == |once|;
    forall i | 0 <= i < |once|
      ensures twice[i] == once[i]
    {
      if !KeptInUploadName(once[i]) {
        assert once[i] == '_';
      }
    }
  }

  /** The file name multer stores an upload under: `${Date.now()}_${sanitized}`. */
  function UploadKey(now: nat, originalName: string): (k: string)
    ensures forall i :: 0 <= i < |k| ==> SafeKeyChar(k[i])
    ensures '/' !in k
  {
    var k := Decimal(now) + "_" + SanitizeUploadName(originalName);
    assert forall i :: 0 <= i < |k| ==> SafeKeyChar(k[i]) by {
      forall i | 0 <= i < |k|
        ensures SafeKeyChar(k[i])
      {
        if i < |Decimal(now)| {
          assert k[i] == Decimal(now)[i];
        } else if i > |Decimal(now)| {
          assert k[i] == SanitizeUploadName(originalName)[i - |Decimal(now)| - 1];
        }
      }
    }
    k
  }

  /**
   * Two uploads collide exactly when they arrive in the same millisecond with
   * the same sanitised name.
   */
  lemma {:induction false} UploadKeyCollision(t1: nat, n1: string, t2: nat, n2: string)
    ensures UploadKey(t1, n1) == UploadKey(t2, n2) <==> t1 == t2 && SanitizeUploadName(n1) == SanitizeUploadName(n2)
  {
    var d1, d2 := Decimal(t1), Decimal(t2);
    var s1, s2 := SanitizeUploadName(n1), SanitizeUploadName(n2);
    var k := UploadKey(t1, n1);
    if k == UploadKey(t2, n2) {
      assert k == d1 + "_" + s1 && k == d2 + "_" + s2;
      assert |d1| == |d2| by {
        assert k[|d1|] == '_' && k[|d2|] == '_';
      }
      assert d1 == k[..|d1|] == d2;
      DecimalInjective(t1, t2);
      assert s1 == k[|d1| + 1..] == s2;
    }
  }

  // ---------------------------------------------------------------------
  // path.parse(...).name (POSIX)
  // ---------------------------------------------------------------------

  function TrimTrailingSlashes(p: string): (r: string)
    ensures |r| <= |p| && r == p[..|r|]
    ensures r == [] || r[|r| - 1] != '/'
    ensures forall i :: |r| <= i < |p| ==> p[i] == '/'
  {
    if p != [] && p[|p| - 1] == '/' then TrimTrailingSlashes(p[..|p| - 1]) else p
  }

  /** The text after the last `/`. */
  function LastSegment(p: string): (r: string)
    ensures |r| <= |p| && r == p[|p| - |r|..]
    ensures '/' !in r
    ensures |r| < |p| ==> p[|p| - |r| - 1] == '/'
  {
    if p == [] || p[|p| - 1] == '/' then [] else LastSegment(p[..|p| - 1]) + [p[|p| - 1]]
  }

  /** `path.parse(p).base`: the last component, trailing slashes ignored. */
  function BaseName(p: string): (r: string)
    ensures '/' !in r
  {
    LastSegment(TrimTrailingSlashes(p))
  }

  function LastDot(s: string): (r: Option<nat>)
    ensures r.Some? ==> r.value < |s| && s[r.value] == '.'
    ensures r.Some? ==> forall i :: r.value < i < |s| ==> s[i] != '.'
    ensures r.None? ==> forall i :: 0 <= i < |s| ==> s[i] != '.'
  {
    if s == [] then None
    else if s[|s| - 1] == '.' then Some(|s| - 1)
    else LastDot(s[..|s| - 1])
  }

  /**
   * `path.parse(p).name`: the base name without its last extension, where a
   * leading dot (".bashrc") and the component ".." do not start an extension.
   */
  function ParsedName(p: string): (r: string)
    ensures '/' !in r
  {
    Stem(BaseName(p))
  }

  /** A base name without its last extension. */
  function Stem(b: string): (r: string)
    ensures '/' !in b ==> '/' !in r
  {
    match LastDot(b)
    case None => b
    case Some(d) => if d == 0 || b == ".." then b else b[..d]
  }

  /**
   * The parsed name is the base name, or the base name cut just before its
   * last dot; it is cut exactly when some dot other than a leading one occurs
   * and the base name is not "..".
   */
  lemma {:induction false} ParsedNameShape(p: string)
    ensures var b, r := BaseName(p), ParsedName(p);
      && |r| <= |b| && r == b[..|r|]
      && (|r| < |b| <==> b != ".." && exists i :: 0 < i < |b| && b[i] == '.')
      && (|r| < |b| ==> b[|r|] == '.' && forall i :: |r| < i < |b| ==> b[i] != '.')
  {
    StemShape(BaseName(p));
  }

  lemma {:induction false} StemShape(b: string)
    ensures var r := Stem(b);
      && |r| <= |b| && r == b[..|r|]
      && (|r| < |b| <==> b != ".." && exists i :: 0 < i < |b| && b[i] == '.')
      && (|r| < |b| ==> b[|r|] == '.' && forall i :: |r| < i < |b| ==> b[i] != '.')
  {
    match LastDot(b)
    case None =>
      assert Stem(b) == b;
    case Some(d) =>
      if d == 0 {
        assert Stem(b) == b;
      } else if b == ".." {
        assert Stem(b) == b;
      } else {
        assert Stem(b) == b[..d];
        assert 0 < d < |b| && b[d] == '.';
      }
  }

  /** A name without a slash is its own base name. */
  lemma {:induction false} BaseNameWithoutSlash(p: string)
    requires '/' !in p
    ensures BaseName(p) == p
  {
    assert TrimTrailingSlashes(p) == p;
    LastSegmentWithoutSlash(p);
  }

  lemma {:induction false} LastSegmentWithoutSlash(p: string)
    requires '/' !in p
    ensures LastSegment(p) == p
  {
    if p != [] {
      assert p[..|p| - 1] + [p[|p| - 1]] == p;
      LastSegmentWithoutSlash(p[..|p| - 1]);
    }
  }

  // ---------------------------------------------------------------------
  // Names of staged results
  // ---------------------------------------------------------------------

  const MaxBaseLength: nat := 20

  /** `path.parse(originalname).name.substring(0, 20)`. */
  function CompressBase(originalName: string): (r: string)
    ensures |r| <= MaxBaseLength
    ensures '/' !in r
  {
    var name := ParsedName(originalName);
    name[..Min(MaxBaseLength, |name|)]
  }

  /** The base is the first twenty characters of the parsed name. */
  lemma {:induction false} CompressBaseShape(originalName: string)
    ensures var r, name := CompressBase(originalName), ParsedName(originalName);
      |r| == Min(MaxBaseLength, |name|) && r == name[..|r|]
  {
  }

  /** The marker a decompress request looks for, and the extension it strips. */
  function Marker(a: Algorithm): (m: string)
    ensures m == "." + Key(a)
  {
    match a
    case Gzip => ".gzip"
    case Deflate => ".deflate"
    case Brotli => ".brotli"
  }

  /** `_compressed.${algorithm}`: the marker of the algorithm after `_compressed`. */
  function CompressedSuffix(a: Algorithm): string {
    match a
    case Gzip => "_compressed.gzip"
    case Deflate => "_compressed.deflate"
    case Brotli => "_compressed.brotli"
  }

  /** Where the characters of the compressed suffix sit. */
  lemma {:induction false} CompressedSuffixShape(a: Algorithm)
    ensures var s := CompressedSuffix(a);
      && |s| == 12 + |Key(a)|
      && s[0] == '_' && s[11] == '.' && s[12] == Key(a)[0]
      && s[|s| - 1] == Key(a)[|Key(a)| - 1]
      && (forall j :: 0 <= j < |s| && j != 11 ==> s[j] != '.')
      && (forall j :: 0 <= j < |s| ==> s[j] != '/' && s[j] != '_' <==> j != 0)
      && s[11..] == Marker(a)
  {
    match a
    case Gzip =>
    case Deflate =>
    case Brotli =>
  }

  /** The name a compress request stages its output under. */
  function CompressOutputName(originalName: string, a: Algorithm): (r: string)
    ensures EndsWith(r, CompressedSuffix(a))
    ensures r[..|r| - |CompressedSuffix(a)|] == CompressBase(originalName)
    ensures |r| <= MaxBaseLength + |CompressedSuffix(a)|
    ensures '/' !in r
  {
    var base, suffix := CompressBase(originalName), CompressedSuffix(a);
    var r := base + suffix;
    CompressedSuffixShape(a);
    assert r[|r| - |suffix|..] == suffix;
    assert '/' !in r by {
      forall i | 0 <= i < |r|
        ensures r[i] != '/'
      {
        if i < |base| {
          assert r[i] == base[i];
        } else {
          assert r[i] == suffix[i - |base|];
        }
      }
    }
    r
  }

  /** The last character of a key tells the algorithm apart. */
  lemma {:induction false} LastCharOfKey(a: Algorithm, b: Algorithm)
    ensures Key(a)[|Key(a)| - 1] == Key(b)[|Key(b)| - 1] <==> a == b
  {
  }

  /** So does the first. */
  lemma {:induction false} FirstCharOfKey(a: Algorithm, b: Algorithm)
    ensures Key(a)[0] == Key(b)[0] <==> a == b
  {
  }

  /**
   * The compress output name depends on the original name only through its
   * truncated base, and tells the algorithm: two compress requests stage
   * under one name exactly when they agree on both.
   */
  lemma {:induction false} CompressOutputNameCollision(n1: string, a1: Algorithm, n2: string, a2: Algorithm)
    ensures CompressOutputName(n1, a1) == CompressOutputName(n2, a2)
        <==> a1 == a2 && CompressBase(n1) == CompressBase(n2)
  {
    var r1, r2 := CompressOutputName(n1, a1), CompressOutputName(n2, a2);
    var s1, s2 := CompressedSuffix(a1), CompressedSuffix(a2);
    assert r1 == CompressBase(n1) + s1 && r2 == CompressBase(n2) + s2;
    if r1 == r2 {
      CompressedSuffixShape(a1);
      CompressedSuffixShape(a2);
      assert r1[|r1| - 1] == s1[|s1| - 1];
      assert r2[|r2| - 1] == s2[|s2| - 1];
      LastCharOfKey(a1, a2);
      assert CompressBase(n1) == r1[..|r1| - |s1|] == CompressBase(n2);
    }
  }

  /** The algorithm a decompress request infers, by priority gzip, deflate, brotli. */
  function DetectAlgorithm(fileName: string): (r: Option<Algorithm>)
    ensures r == Some(Gzip) <==> Contains(fileName, ".gzip")
    ensures r == Some(Deflate) <==> !Contains(fileName, ".gzip") && Contains(fileName, ".deflate")
    ensures r == Some(Brotli) <==>
      !Contains(fileName, ".gzip") && !Contains(fileName, ".deflate") && Contains(fileName, ".brotli")
    ensures r == None <==>
      !Contains(fileName, ".gzip") && !Contains(fileName, ".deflate") && !Contains(fileName, ".brotli")
  {
    if Includes(fileName, ".gzip") then Some(Gzip)
    else if Includes(fileName, ".deflate") then Some(Deflate)
    else if Includes(fileName, ".brotli") then Some(Brotli)
    else None
  }

  /** Which known extension, if any, the name ends with (`/\.(gzip|deflate|brotli)$/`). */
  function TrailingMarker(fileName: string): (r: Option<Algorithm>)
    ensures r.Some? ==> EndsWith(fileName, Marker(r.value))
    ensures r.None? ==>
      !EndsWith(fileName, Marker(Gzip)) && !EndsWith(fileName, Marker(Deflate)) && !EndsWith(fileName, Marker(Brotli))
  {
    if EndsWith(fileName, Marker(Gzip)) then Some(Gzip)
    else if EndsWith(fileName, Marker(Deflate)) then Some(Deflate)
    else if EndsWith(fileName, Marker(Brotli)) then Some(Brotli)
    else None
  }

  /** A name ends with at most one of the three extensions. */
  lemma {:induction false} AtMostOneTrailingMarker(s: string, a: Algorithm, b: Algorithm)
    requires EndsWith(s, Marker(a)) && EndsWith(s, Marker(b))
    ensures a == b
  {
    assert s[|s| - 1] == Key(a)[|Key(a)| - 1];
    assert s[|s| - 1] == Key(b)[|Key(b)| - 1];
    LastCharOfKey(a, b);
  }

  /** The name with one trailing known extension removed, if it has one. */
  function StripKnownExtension(fileName: string): (r: string)
    ensures forall a: Algorithm :: EndsWith(fileName, Marker(a)) ==> r + Marker(a) == fileName
    ensures (forall a: Algorithm :: !EndsWith(fileName, Marker(a))) ==> r == fileName
  {
    match TrailingMarker(fileName)
    case None => fileName
    case Some(a) =>
      var r := fileName[..|fileName| - |Marker(a)|];
      assert r + Marker(a) == fileName;
      forall b: Algorithm | EndsWith(fileName, Marker(b))
        ensures r + Marker(b) == fileName
      {
        AtMostOneTrailingMarker(fileName, a, b);
      }
      r
  }

  const DecompressedSuffix: string := "_decompressed.txt"

  /** The name a decompress request stages its output under. */
  function DecompressOutputName(fileName: string): (r: string)
    ensures EndsWith(r, "_decompressed.txt")
    ensures var base := r[..|r| - |DecompressedSuffix|]; |base| <= |fileName| && base == fileName[..|base|]
    ensures forall a: Algorithm :: EndsWith(fileName, Marker(a)) ==>
      r[..|r| - |DecompressedSuffix|] + Marker(a) == fileName
    ensures (forall a: Algorithm :: !EndsWith(fileName, Marker(a))) ==>
      r[..|r| - |DecompressedSuffix|] == fileName
  {
    var base := StripKnownExtension(fileName);
    var r := base + DecompressedSuffix;
    assert r[..|r| - |DecompressedSuffix|] == base;
    assert r[|r| - |DecompressedSuffix|..] == DecompressedSuffix;
    match TrailingMarker(fileName)
    case None =>
      r
    case Some(a) =>
      assert base + Marker(a) == fileName;
      assert base == fileName[..|base|];
      r
  }

  /** A compress output name and a decompress output name never coincide. */
  lemma {:induction false} CompressAndDecompressNamesDiffer(n1: string, a: Algorithm, n2: string)
    ensures CompressOutputName(n1, a) != DecompressOutputName(n2)
  {
    var c, d := CompressOutputName(n1, a), DecompressOutputName(n2);
    LastCharOfCompressOutputName(n1, a);
    LastCharOfDecompressOutputName(n2);
    assert Key(a)[|Key(a)| - 1] != 't';
  }

  /** A compress output name ends with the last letter of its algorithm's key. */
  lemma {:induction false} LastCharOfCompressOutputName(originalName: string, a: Algorithm)
    ensures var c := CompressOutputName(originalName, a);
      |c| > 0 && c[|c| - 1] == Key(a)[|Key(a)| - 1]
  {
    var c, suffix := CompressOutputName(originalName, a), CompressedSuffix(a);
    LastCharOfSuffix(a);
    assert c[|c| - |suffix|..] == suffix;
    assert c[|c| - 1] == suffix[|suffix| - 1];
  }

  lemma {:induction false} LastCharOfSuffix(a: Algorithm)
    ensures var s := CompressedSuffix(a); |s| > 0 && s[|s| - 1] == Key(a)[|Key(a)| - 1]
  {
    match a
    case Gzip =>
    case Deflate =>
    case Brotli =>
  }

  /** A decompress output name ends with `t`. */
  lemma {:induction false} LastCharOfDecompressOutputName(fileName: string)
    ensures var d := DecompressOutputName(fileName); |d| > 0 && d[|d| - 1] == 't'
  {
    var d := DecompressOutputName(fileName);
    assert d[|d| - |DecompressedSuffix|..] == DecompressedSuffix;
    assert d[|d| - 1] == DecompressedSuffix[|DecompressedSuffix| - 1];
  }

  /**
   * Decompressing a file under the name a compress request produced keeps the
   * base and strips exactly the algorithm's extension.
   */
  lemma {:induction false} DecompressNameOfCompressName(originalName: string, a: Algorithm)
    ensures DecompressOutputName(CompressOutputName(originalName, a))
         == CompressBase(originalName) + "_compressed" + "_decompressed.txt"
  {
    var prefix := CompressBase(originalName) + "_compressed";
    CompressOutputNameSplitsAtMarker(originalName, a);
    StripOwnMarker(prefix, a);
  }

  /** The compress output name is `<base>_compressed` followed by the marker. */
  lemma {:induction false} CompressOutputNameSplitsAtMarker(originalName: string, a: Algorithm)
    ensures CompressOutputName(originalName, a) == CompressBase(originalName) + "_compressed" + Marker(a)
  {
    var base := CompressBase(originalName);
    SuffixIsCompressedThenMarker(a);
    assert CompressOutputName(originalName, a) == base + ("_compressed" + Marker(a));
  }

  lemma {:induction false} SuffixIsCompressedThenMarker(a: Algorithm)
    ensures CompressedSuffix(a) == "_compressed" + Marker(a)
  {
    match a
    case Gzip =>
    case Deflate =>
    case Brotli =>
  }

  /** Stripping removes exactly the marker a name was built with. */
  lemma {:induction false} StripOwnMarker(prefix: string, a: Algorithm)
    ensures StripKnownExtension(prefix + Marker(a)) == prefix
  {
    var s := prefix + Marker(a);
    assert EndsWith(s, Marker(a)) by {
      assert s[|s| - |Marker(a)|..] == Marker(a);
    }
    var r := StripKnownExtension(s);
    assert r + Marker(a) == s;
    assert r == s[..|r|] == prefix;
  }

  /** Detection priority: gzip before deflate before brotli. */
  function Rank(a: Algorithm): nat {
    match a
    case Gzip => 0
    case Deflate => 1
    case Brotli => 2
  }

  ghost predicate NoMarkerOutranking(s: string, a: Algorithm) {
    forall b: Algorithm :: Rank(b) < Rank(a) ==> !Contains(s, Marker(b))
  }

  /** No marker overlaps the `_` that starts the compressed suffix. */
  lemma {:induction false} OccursAtChar(s: string, t: string, i: nat, j: nat)
    requires OccursAt(s, t, i) && j < |t|
    ensures s[i + j] == t[j]
  {
    assert s[i..i + |t|][j] == t[j];
  }

  lemma {:induction false} MarkerShape(b: Algorithm)
    ensures var m := Marker(b);
      |m| >= 2 && m[0] == '.' && m[1] == Key(b)[0] && forall j :: 0 <= j < |m| ==> m[j] != '_'
  {
  }

  lemma {:induction false} MarkerOccursInCompressedPart(base: string, a: Algorithm, b: Algorithm, i: nat)
    requires OccursAt(base + CompressedSuffix(a), Marker(b), i)
    ensures OccursAt(base, Marker(b), i) || (i == |base| + 11 && a == b)
  {
    var suffix := CompressedSuffix(a);
    var s := base + suffix;
    var m := Marker(b);
    if i + |m| <= |base| {
      assert s[i..i + |m|] == base[i..i + |m|];
    } else {
      CompressedSuffixShape(a);
      MarkerShape(b);
      if i <= |base| {
        OccursAtChar(s, m, i, |base| - i);
        assert false;
      }
      OccursAtChar(s, m, i, 0);
      assert s[i] == suffix[i - |base|];
      OccursAtChar(s, m, i, 1);
      assert s[i + 1] == suffix[i + 1 - |base|];
      FirstCharOfKey(a, b);
    }
  }

  /**
   * Detection recovers the algorithm from a compress output name unless the
   * original base already carries a marker that detection tries first.
   */
  lemma {:induction false} DetectCompressOutputName(originalName: string, a: Algorithm)
    requires NoMarkerOutranking(CompressBase(originalName), a)
    ensures DetectAlgorithm(CompressOutputName(originalName, a)) == Some(a)
  {
    var s := CompressOutputName(originalName, a);
    OwnMarkerInCompressOutput(originalName, a);
    NoOutrankingMarkerInCompressOutput(originalName, a);
    DetectByRank(s, a);
  }

  /** A compress output name carries its algorithm's marker right after `_compressed`. */
  lemma {:induction false} OwnMarkerInCompressOutput(originalName: string, a: Algorithm)
    ensures Contains(CompressOutputName(originalName, a), Marker(a))
  {
    var base, suffix := CompressBase(originalName), CompressedSuffix(a);
    MarkerEndsSuffix(a);
    OccursInSuffix(base, suffix, Marker(a), 11);
    assert CompressOutputName(originalName, a) == base + suffix;
    assert OccursAt(CompressOutputName(originalName, a), Marker(a), |base| + 11);
  }

  lemma {:induction false} MarkerEndsSuffix(a: Algorithm)
    ensures OccursAt(CompressedSuffix(a), Marker(a), 11)
  {
    CompressedSuffixShape(a);
  }

  lemma {:induction false} OccursInSuffix(x: string, y: string, t: string, j: nat)
    requires OccursAt(y, t, j)
    ensures OccursAt(x + y, t, |x| + j)
  {
    assert (x + y)[|x| + j..|x| + j + |t|] == y[j..j + |t|];
  }

  /** The suffix adds no marker that outranks the algorithm's own. */
  lemma {:induction false} NoOutrankingMarkerInCompressOutput(originalName: string, a: Algorithm)
    requires NoMarkerOutranking(CompressBase(originalName), a)
    ensures NoMarkerOutranking(CompressOutputName(originalName, a), a)
  {
    var base := CompressBase(originalName);
    var s := CompressOutputName(originalName, a);
    assert s == base + CompressedSuffix(a);
    forall b: Algorithm | Rank(b) < Rank(a)
      ensures !Contains(s, Marker(b))
    {
      if Contains(s, Marker(b)) {
        var i: nat :| OccursAt(s, Marker(b), i);
        MarkerOccursInCompressedPart(base, a, b, i);
        assert Contains(base, Marker(b));
        assert false;
      }
    }
  }

  /** Detection picks the algorithm whose marker occurs and that no occurring marker outranks. */
  lemma {:induction false} DetectByRank(s: string, a: Algorithm)
    requires Contains(s, Marker(a)) && NoMarkerOutranking(s, a)
    ensures DetectAlgorithm(s) == Some(a)
  {
    match a
    case Gzip =>
      assert Contains(s, ".gzip");
    case Deflate =>
      assert !Contains(s, Marker(Gzip)) && Contains(s, ".deflate");
    case Brotli =>
      assert !Contains(s, Marker(Gzip)) && !Contains(s, Marker(Deflate)) && Contains(s, ".brotli");
  }

  /**
   * Detection works on substrings, not on the extension: when the truncated
   * base already contains ".gzip", every compress output of that file is
   * detected as gzip, whichever algorithm produced it.
   */
  lemma {:induction false} GzipInBaseWinsDetection(originalName: string, a: Algorithm)
    requires Contains(CompressBase(originalName), ".gzip")
    ensures DetectAlgorithm(CompressOutputName(originalName, a)) == Some(Gzip)
  {
    var base := CompressBase(originalName);
    var i: nat :| OccursAt(base, ".gzip", i);
    OccursInPrefix(base, CompressedSuffix(a), ".gzip", i);
    assert CompressOutputName(originalName, a) == base + CompressedSuffix(a);
  }

  lemma {:induction false} OccursInPrefix(x: string, y: string, t: string, i: nat)
    requires OccursAt(x, t, i)
    ensures OccursAt(x + y, t, i)
  {
    assert (x + y)[i..i + |t|] == x[i..i + |t|];
  }

  /** For instance, the deflate result of "f.gzip.txt" is detected as gzip. */
  lemma {:induction false} DetectionMissesAlgorithmOfCompressOutput()
    ensures DetectAlgorithm(CompressOutputName("f.gzip.txt", Deflate)) == Some(Gzip)
  {
    ParsedNameOfGzipTxt();
    assert CompressBase("f.gzip.txt") == "f.gzip";
    assert OccursAt("f.gzip", ".gzip", 1);
    GzipInBaseWinsDetection("f.gzip.txt", Deflate);
  }

  lemma {:induction false} ParsedNameOfGzipTxt()
    ensures ParsedName("f.gzip.txt") == "f.gzip"
  {
    var p := "f.gzip.txt";
    BaseNameWithoutSlash(p);
    assert p[6] == '.' && p[7] != '.' && p[8] != '.' && p[9] != '.';
    assert LastDot(p) == Some(6);
  }
}
