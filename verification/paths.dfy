/**
 * The path model: an S3 location (bucket plus key) parsed from a flat
 * `s3://bucket/key` string, with the filesystem-style `.`/`..` removal the
 * source borrows from `os.path`, and the listing entries (bucket, prefix, key).
 */
module Paths {
  import opened Common
  import opened Text

  /** A location: no bucket is the root of the namespace; a key of None is a bucket root. */
  datatype S3Path = S3Path(bucket: Option<string>, key: Option<string>) {
    /** Every key the constructor stores has been normalised. */
    predicate Valid() {
      key.Some? ==> CleanKey(key.value)
    }
  }

  const Protocol := "s3://"

  /** A path component that normalisation keeps as is. */
  predicate IsCleanSegment(s: string) {
    s != "" && s != "." && s != ".." && '/' !in s
  }

  predicate AllClean(segs: seq<string>) {
    forall i :: 0 <= i < |segs| ==> IsCleanSegment(segs[i])
  }

  predicate NoSlash(segs: seq<string>) {
    forall i :: 0 <= i < |segs| ==> '/' !in segs[i]
  }

  /** A stored key: empty, or `/`-separated clean components. */
  predicate CleanKey(k: string) {
    k == "" || AllClean(Split(k, '/'))
  }

  // ---------------------------------------------------------------------------
  // Lexical normalisation (os.path.normpath on components)

  /**
   * One component folded into the components kept so far: empty and `.` vanish,
   * `..` removes the last kept component unless there is none to remove (an
   * absolute path then stays at the root, a relative one keeps the `..`).
   */
  function Push(absolute: bool, acc: seq<string>, seg: string): seq<string> {
    if seg == "" || seg == "." then acc
    else if seg != ".." || (!absolute && acc == []) || (acc != [] && Last(acc) == "..") then acc + [seg]
    else if acc != [] then acc[..|acc| - 1]
    else acc
  }

  function NormFrom(absolute: bool, acc: seq<string>, segs: seq<string>): seq<string>
    decreases |segs|
  {
    if segs == [] then acc else Push(absolute, NormFrom(absolute, acc, segs[..|segs| - 1]), Last(segs))
  }

  function Normalise(absolute: bool, segs: seq<string>): seq<string> {
    NormFrom(absolute, [], segs)
  }

  /** What a relative normalisation leaves: `..` only in a leading run, no empty or `.` component. */
  predicate RelNormal(segs: seq<string>) {
    forall i :: 0 <= i < |segs| ==>
      && segs[i] != "" && segs[i] != "." && '/' !in segs[i]
      && (i > 0 && segs[i] == ".." ==> segs[i - 1] == "..")
  }

  lemma {:induction false} NormFromAppend(absolute: bool, acc: seq<string>, a: seq<string>, b: seq<string>)
    ensures NormFrom(absolute, acc, a + b) == NormFrom(absolute, NormFrom(absolute, acc, a), b)
    decreases |b|
  {
    if b == [] {
      assert a + b == a;
    } else {
      var b' := b[..|b| - 1];
      assert (a + b)[..|a + b| - 1] == a + b';
      assert Last(a + b) == Last(b);
      NormFromAppend(absolute, acc, a, b');
    }
  }

  /** Clean components are kept exactly. */
  lemma {:induction false} NormFromClean(absolute: bool, acc: seq<string>, segs: seq<string>)
    requires AllClean(segs)
    ensures NormFrom(absolute, acc, segs) == acc + segs
    decreases |segs|
  {
    if segs == [] {
      assert acc + segs == acc;
    } else {
      var s' := segs[..|segs| - 1];
      assert AllClean(s') by { assert forall i :: 0 <= i < |s'| ==> s'[i] == segs[i]; }
      NormFromClean(absolute, acc, s');
      assert IsCleanSegment(segs[|segs| - 1]);
      assert acc + s' + [Last(segs)] == acc + segs;
    }
  }

  /** An absolute normalisation leaves only clean components. */
  lemma {:induction false} NormFromAbsoluteClean(acc: seq<string>, segs: seq<string>)
    requires AllClean(acc) && NoSlash(segs)
    ensures AllClean(NormFrom(true, acc, segs))
    decreases |segs|
  {
    if segs != [] {
      var s' := segs[..|segs| - 1];
      assert NoSlash(s') by { assert forall i :: 0 <= i < |s'| ==> s'[i] == segs[i]; }
      NormFromAbsoluteClean(acc, s');
      var x := NormFrom(true, acc, s');
      assert '/' !in segs[|segs| - 1];
      if x != [] {
        assert IsCleanSegment(x[|x| - 1]);
      }
    }
  }

  /** A relative normalisation keeps `..` only at the front. */
  lemma {:induction false} NormFromRelative(acc: seq<string>, segs: seq<string>)
    requires RelNormal(acc) && NoSlash(segs)
    ensures RelNormal(NormFrom(false, acc, segs))
    decreases |segs|
  {
    if segs != [] {
      var s' := segs[..|segs| - 1];
      assert NoSlash(s') by { assert forall i :: 0 <= i < |s'| ==> s'[i] == segs[i]; }
      NormFromRelative(acc, s');
      var x := NormFrom(false, acc, s');
      assert '/' !in segs[|segs| - 1];
      var y := Push(false, x, Last(segs));
      if y == x + [Last(segs)] {
        assert forall i :: 0 <= i < |x| ==> y[i] == x[i];
      } else if x != [] && y == x[..|x| - 1] {
        assert forall i :: 0 <= i < |y| ==> y[i] == x[i];
      }
    }
  }

  /** Normalised components normalise to themselves. */
  lemma {:induction false} NormaliseFixed(absolute: bool, segs: seq<string>)
    requires if absolute then AllClean(segs) else RelNormal(segs)
    ensures Normalise(absolute, segs) == segs
    decreases |segs|
  {
    if absolute {
      NormFromClean(true, [], segs);
      assert [] + segs == segs;
    } else if segs != [] {
      var s' := segs[..|segs| - 1];
      assert RelNormal(s') by { assert forall i :: 0 <= i < |s'| ==> s'[i] == segs[i]; }
      NormaliseFixed(false, s');
      assert segs[|segs| - 1] == Last(segs);
      if |segs| > 1 {
        assert Last(s') == segs[|segs| - 2];
      }
      assert s' + [Last(segs)] == segs;
    }
  }

  /** The shape of a normalisation: clean when absolute, leading `..` only when relative. */
  lemma NormaliseShape(absolute: bool, segs: seq<string>)
    requires NoSlash(segs)
    ensures if absolute then AllClean(Normalise(absolute, segs)) else RelNormal(Normalise(absolute, segs))
  {
    if absolute {
      NormFromAbsoluteClean([], segs);
    } else {
      NormFromRelative([], segs);
    }
  }

  /** Normalisation is idempotent. */
  lemma NormaliseIdempotent(absolute: bool, segs: seq<string>)
    requires NoSlash(segs)
    ensures Normalise(absolute, Normalise(absolute, segs)) == Normalise(absolute, segs)
  {
    NormaliseShape(absolute, segs);
    NormaliseFixed(absolute, Normalise(absolute, segs));
  }

  /** `..` removes exactly the last clean component, and at the root of an absolute path does nothing. */
  lemma NormaliseParent(segs: seq<string>)
    requires AllClean(segs)
    ensures Normalise(true, segs + [".."]) == if segs == [] then [] else segs[..|segs| - 1]
  {
    NormFromAppend(true, [], segs, [".."]);
    NormFromClean(true, [], segs);
    assert [] + segs == segs;
    assert [".."][..0] == [];
    if segs != [] {
      assert IsCleanSegment(segs[|segs| - 1]);
    }
  }

  // ---------------------------------------------------------------------------
  // Construction and parsing

  predicate IsAbsolute(s: string) {
    |s| > 0 && s[0] == '/'
  }

  /** Removes one leading `s3://`. */
  function StripProtocol(s: string): string {
    if StartsWith(s, Protocol) then s[|Protocol|..] else s
  }

  /** The constructor: a non-empty path is resolved as an absolute filesystem path below `/`. */
  function Make(bucket: Option<string>, path: Option<string>): (r: S3Path)
    ensures r.Valid() && r.bucket == bucket
    ensures path.None? || path.value == "" ==> r.key.None?
  {
    if path.None? || path.value == "" then S3Path(bucket, None)
    else
      var segs := Normalise(true, Split("/" + path.value, '/'));
      NormaliseShape(true, Split("/" + path.value, '/'));
      JoinClean(segs);
      S3Path(bucket, Some(Join(segs, '/')))
  }

  /** Joined clean components form a clean key, non-empty when there are components. */
  lemma JoinClean(segs: seq<string>)
    requires AllClean(segs)
    ensures CleanKey(Join(segs, '/'))
    ensures segs != [] ==> Join(segs, '/') != "" && Split(Join(segs, '/'), '/') == segs
  {
    if segs != [] {
      SplitJoin(segs, '/');
      if |segs| > 1 {
        assert Join(segs, '/') == segs[0] + ['/'] + Join(segs[1..], '/');
      }
    }
  }

  /** Normalised components to a location: the first is the bucket, the rest the key. */
  function FromSegments(segs: seq<string>): S3Path {
    if segs == [] then S3Path(None, None) else Make(Some(segs[0]), Some(Join(segs[1..], '/')))
  }

  /** `S3Path.from_path`. */
  function FromPath(raw: string): (r: S3Path)
    ensures r.Valid()
    ensures r.bucket.None? ==> r.key.None?
    ensures r.bucket.Some? ==> r.bucket.value != "" && r.bucket.value != "." && '/' !in r.bucket.value
    ensures r.bucket.Some? && IsAbsolute(StripProtocol(raw)) ==> IsCleanSegment(r.bucket.value)
  {
    var p := StripProtocol(raw);
    var segs := Normalise(IsAbsolute(p), Split(p, '/'));
    NormaliseShape(IsAbsolute(p), Split(p, '/'));
    FromSegments(segs)
  }

  // ---------------------------------------------------------------------------
  // Renderings and equality

  predicate HasBucket(p: S3Path) {
    p.bucket.Some? && p.bucket.value != ""
  }

  function KeyText(p: S3Path): string {
    p.key.GetOr("")
  }

  /** `canonical`: with the protocol, used for display. */
  function Canonical(p: S3Path): string {
    if !HasBucket(p) then Protocol else Protocol + p.bucket.value + "/" + KeyText(p)
  }

  /** `path_string` (and `str`): rooted at `/`, used for cache keys and bookmarks. */
  function PathString(p: S3Path): string {
    if !HasBucket(p) then "/" else "/" + p.bucket.value + "/" + KeyText(p)
  }

  /** `__eq__`: equality of the canonical strings, which is equality of the path strings. */
  function Equal(p: S3Path, q: S3Path): (r: bool)
    ensures r <==> PathString(p) == PathString(q)
  {
    CanonicalIsPathString(p);
    CanonicalIsPathString(q);
    assert Canonical(p)[4..] == PathString(p) && Canonical(q)[4..] == PathString(q);
    Canonical(p) == Canonical(q)
  }

  /** `name`: the last key component, None for a bucket root or the namespace root. */
  function Name(p: S3Path): (r: Option<string>)
    ensures r.Some? ==> p.key.Some? && r.value != "" && '/' !in r.value && EndsWith(p.key.value, r.value)
    ensures p.key.Some? && p.key.value != "" && '/' !in p.key.value ==> r == p.key
  {
    if p.key.Some? && p.key.value != "" then
      var parts := Split(p.key.value, '/');
      JoinEndsWithLast(parts, '/');
      assert '/' !in p.key.value ==> parts == [p.key.value] by {
        if '/' !in p.key.value {
          SplitNoSep(p.key.value, '/');
        }
      }
      var n := Last(parts);
      if n == "" then None else Some(n)
    else None
  }

  /** `short_format`: the bucket with only the last key component, for prompts. */
  function ShortFormat(p: S3Path): (r: string)
    requires p.Valid()
    ensures r == "/" <==> !HasBucket(p)
    ensures HasBucket(p) ==> StartsWith(r, p.bucket.value + "/")
  {
    if !HasBucket(p) then "/"
    else if KeyText(p) != "" && '/' in KeyText(p) then p.bucket.value + "/…/" + Last(Split(KeyText(p), '/'))
    else p.bucket.value + "/" + KeyText(p)
  }

  // ---------------------------------------------------------------------------
  // Listing entries

  datatype Entry =
    | Bucket(bucket: string)
    | Prefix(prefix: string)
    | Key(key: string, updatedOn: Option<string>)

  /** `is_key`: only keys are terminal. */
  predicate IsKey(e: Entry) {
    e.Key?
  }

  /** `path_string` of an entry: a bucket is absolute, prefixes and keys are relative text. */
  function EntryPathString(e: Entry): string {
    match e
    case Bucket(b) => "/" + b + "/"
    case Prefix(p) => p
    case Key(k, _) => k
  }

  // ---------------------------------------------------------------------------
  // Locations as component sequences

  /** A location as navigation produces it: a clean bucket, a clean non-empty key or none. */
  predicate Located(p: S3Path) {
    && (p.bucket.None? ==> p.key.None?)
    && (p.bucket.Some? ==> IsCleanSegment(p.bucket.value))
    && (p.key.Some? ==> p.key.value != "" && AllClean(Split(p.key.value, '/')))
  }

  /** The components of a location: its bucket, then its key's components. */
  function Segments(p: S3Path): seq<string> {
    if !HasBucket(p) then []
    else [p.bucket.value] + (if KeyText(p) == "" then [] else Split(KeyText(p), '/'))
  }

  lemma NormaliseLeadingEmpty(absolute: bool, segs: seq<string>)
    ensures Normalise(absolute, [""] + segs) == Normalise(absolute, segs)
  {
    NormFromAppend(absolute, [], [""], segs);
    assert [""][..0] == [];
  }

  /** `"/" + key` splits into an empty component and the key's components. */
  lemma SplitRooted(segs: seq<string>)
    requires AllClean(segs) && segs != []
    ensures Split("/" + Join(segs, '/'), '/') == [""] + segs
  {
    JoinClean(segs);
    assert "/" + Join(segs, '/') == "" + ['/'] + Join(segs, '/');
    SplitConcat("", Join(segs, '/'), '/');
  }

  /** The constructor keeps an already clean key as it is. */
  lemma MakeClean(b: string, segs: seq<string>)
    requires AllClean(segs)
    ensures Make(Some(b), Some(Join(segs, '/'))) == S3Path(Some(b), if segs == [] then None else Some(Join(segs, '/')))
  {
    if segs != [] {
      JoinClean(segs);
      SplitRooted(segs);
      NormaliseLeadingEmpty(true, segs);
      NormaliseFixed(true, segs);
    }
  }

  /** Clean components name a located path whose components they are. */
  lemma FromSegmentsLocated(segs: seq<string>)
    requires AllClean(segs)
    ensures Located(FromSegments(segs)) && Segments(FromSegments(segs)) == segs
  {
    if segs != [] {
      var rest := segs[1..];
      assert AllClean(rest) by { assert forall i :: 0 <= i < |rest| ==> rest[i] == segs[i + 1]; }
      assert IsCleanSegment(segs[0]);
      MakeClean(segs[0], rest);
      JoinClean(rest);
      assert [segs[0]] + rest == segs;
    }
  }

  /** A located path is rebuilt exactly from its components. */
  lemma SegmentsLocated(p: S3Path)
    requires Located(p)
    ensures AllClean(Segments(p)) && FromSegments(Segments(p)) == p
  {
    if HasBucket(p) {
      var b := p.bucket.value;
      var rest := if KeyText(p) == "" then [] else Split(KeyText(p), '/');
      assert Segments(p) == [b] + rest;
      assert ([b] + rest)[1..] == rest;
      MakeClean(b, rest);
      if p.key.Some? {
        assert Join(rest, '/') == KeyText(p);
      }
    }
  }

  /** The text `bucket/key` of a located path splits and normalises back into its components. */
  lemma NormaliseBucketKey(absolute: bool, p: S3Path)
    requires Located(p) && HasBucket(p)
    ensures Normalise(absolute, Split(p.bucket.value + "/" + KeyText(p), '/')) == Segments(p)
  {
    NormFromBucketKey(absolute, [], p);
    assert [] + Segments(p) == Segments(p);
  }

  /** The same after components already kept: they are followed by the location's components. */
  lemma NormFromBucketKey(absolute: bool, acc: seq<string>, p: S3Path)
    requires Located(p) && HasBucket(p)
    ensures NormFrom(absolute, acc, Split(p.bucket.value + "/" + KeyText(p), '/')) == acc + Segments(p)
  {
    var b := p.bucket.value;
    var k := KeyText(p);
    assert b + "/" + k == b + ['/'] + k;
    SplitFirstPart(b, k, '/');
    if k == "" {
      assert Split(k, '/') == [""];
      NormFromAppend(absolute, acc, [b], [""]);
      NormFromClean(absolute, acc, [b]);
      assert [""][..0] == [];
      assert Segments(p) == [b] + [];
    } else {
      NormFromClean(absolute, acc, [b] + Split(k, '/'));
      assert AllClean([b] + Split(k, '/')) by {
        assert forall i :: 1 <= i < |[b] + Split(k, '/')| ==> ([b] + Split(k, '/'))[i] == Split(k, '/')[i - 1];
      }
      assert acc + ([b] + Split(k, '/')) == acc + Segments(p);
    }
  }

  lemma RootRenderingsRoundTrip()
    ensures FromPath(Canonical(S3Path(None, None))) == S3Path(None, None)
    ensures FromPath(PathString(S3Path(None, None))) == S3Path(None, None)
  {
    assert StripProtocol(Canonical(S3Path(None, None))) == "";
    assert Split("", '/') == [""];
    assert Split("/", '/') == [""] + [""] by {
      assert "/" == "" + ['/'] + "";
      SplitConcat("", "", '/');
    }
    NormaliseLeadingEmpty(true, [""]);
  }

  lemma CanonicalRoundTrip(p: S3Path)
    requires Located(p) && HasBucket(p)
    ensures FromPath(Canonical(p)) == p
  {
    var b := p.bucket.value;
    var t := b + "/" + KeyText(p);
    assert Canonical(p) == Protocol + t;
    assert StripProtocol(Canonical(p)) == t by {
      assert StartsWith(Canonical(p), Protocol);
      assert (Protocol + t)[|Protocol|..] == t;
    }
    assert !IsAbsolute(t) by {
      assert b[0] in b;
      assert t[0] == b[0];
    }
    NormaliseBucketKey(false, p);
    SegmentsLocated(p);
  }

  lemma PathStringRoundTrip(p: S3Path)
    requires Located(p) && HasBucket(p)
    ensures FromPath(PathString(p)) == p
  {
    var t := p.bucket.value + "/" + KeyText(p);
    assert PathString(p) == "/" + t;
    assert !StartsWith(PathString(p), Protocol) by { assert PathString(p)[0] == '/'; }
    assert "/" + t == "" + ['/'] + t;
    SplitConcat("", t, '/');
    assert Split("/" + t, '/') == [""] + Split(t, '/');
    NormaliseLeadingEmpty(true, Split(t, '/'));
    NormaliseBucketKey(true, p);
    SegmentsLocated(p);
  }

  /** Both renderings of a located path parse back to it. */
  lemma RenderingsRoundTrip(p: S3Path)
    requires Located(p)
    ensures FromPath(Canonical(p)) == p
    ensures FromPath(PathString(p)) == p
  {
    if !HasBucket(p) {
      assert p == S3Path(None, None);
      RootRenderingsRoundTrip();
    } else {
      CanonicalRoundTrip(p);
      PathStringRoundTrip(p);
    }
  }

  /**
   * Both renderings start with their root, and are the root alone exactly when
   * there is no bucket.
   */
  lemma RenderingRoots(p: S3Path)
    ensures StartsWith(Canonical(p), Protocol) && (Canonical(p) == Protocol <==> !HasBucket(p))
    ensures StartsWith(PathString(p), "/") && (PathString(p) == "/" <==> !HasBucket(p))
  {
  }

  /** The two renderings differ only in the protocol, so they are equal together. */
  lemma CanonicalIsPathString(p: S3Path)
    ensures Canonical(p) == "s3:/" + PathString(p)
  {
  }

  /** In `b + "/" + k` with no slash in `b`, the first slash sits right after `b`. */
  lemma FirstSlashAfter(b: string, k: string)
    requires '/' !in b
    ensures (b + "/" + k)[|b|] == '/'
    ensures forall i :: 0 <= i < |b| ==> (b + "/" + k)[i] != '/'
  {
    forall i | 0 <= i < |b|
      ensures (b + "/" + k)[i] != '/'
    {
      assert (b + "/" + k)[i] == b[i];
      assert b[i] in b;
    }
  }

  lemma SlashSplitUnique(b1: string, k1: string, b2: string, k2: string)
    requires '/' !in b1 && '/' !in b2
    requires b1 + "/" + k1 == b2 + "/" + k2
    ensures b1 == b2 && k1 == k2
  {
    var t := b1 + "/" + k1;
    FirstSlashAfter(b1, k1);
    FirstSlashAfter(b2, k2);
    assert |b1| == |b2|;
    assert b1 == t[..|b1|] == b2;
    assert k1 == t[|b1| + 1..] == k2;
  }

  /**
   * Equality by canonical string: both without a bucket, or the same bucket and
   * the same key text (so a key of None equals a key of "").
   */
  lemma EqualIff(p: S3Path, q: S3Path)
    requires p.bucket.Some? ==> '/' !in p.bucket.value
    requires q.bucket.Some? ==> '/' !in q.bucket.value
    ensures Equal(p, q) <==>
      (!HasBucket(p) && !HasBucket(q))
      || (HasBucket(p) && HasBucket(q) && p.bucket == q.bucket && KeyText(p) == KeyText(q))
  {
    if HasBucket(p) && HasBucket(q) && Equal(p, q) {
      var cp := Canonical(p);
      assert cp[|Protocol|..] == p.bucket.value + "/" + KeyText(p);
      assert Canonical(q)[|Protocol|..] == q.bucket.value + "/" + KeyText(q);
      SlashSplitUnique(p.bucket.value, KeyText(p), q.bucket.value, KeyText(q));
    }
    if HasBucket(p) != HasBucket(q) {
      assert |Canonical(p)| != |Canonical(q)|;
    }
  }

  lemma JoinStartsClean(segs: seq<string>)
    requires AllClean(segs) && segs != []
    ensures Join(segs, '/') != [] && Join(segs, '/')[0] != '/'
  {
    var j := Join(segs, '/');
    assert IsCleanSegment(segs[0]);
    if |segs| > 1 {
      assert j == segs[0] + ['/'] + Join(segs[1..], '/');
    }
    assert j[0] == segs[0][0];
    assert segs[0][0] in segs[0];
  }

  lemma ProtocolComponents(segs: seq<string>)
    requires AllClean(segs) && segs != []
    ensures FromPath(Protocol + Join(segs, '/')) == FromSegments(segs)
  {
    var j := Join(segs, '/');
    JoinStartsClean(segs);
    JoinClean(segs);
    assert (Protocol + j)[|Protocol|..] == j;
    assert StripProtocol(Protocol + j) == j;
    NormaliseFixed(false, segs);
  }

  lemma RootedComponents(segs: seq<string>)
    requires AllClean(segs) && segs != []
    ensures FromPath("/" + Join(segs, '/')) == FromSegments(segs)
  {
    var j := Join(segs, '/');
    assert !StartsWith("/" + j, Protocol) by { assert ("/" + j)[0] == '/'; }
    SplitRooted(segs);
    NormaliseLeadingEmpty(true, segs);
    NormaliseFixed(true, segs);
  }

  /** `from_path` of `s3://` or `/` before clean components: the first is the bucket, the rest the key. */
  lemma FromPathComponents(segs: seq<string>)
    requires AllClean(segs) && segs != []
    ensures FromPath(Protocol + Join(segs, '/')) == FromSegments(segs)
    ensures FromPath("/" + Join(segs, '/')) == FromSegments(segs)
    ensures FromSegments(segs) == S3Path(Some(segs[0]), if |segs| == 1 then None else Some(Join(segs[1..], '/')))
  {
    ProtocolComponents(segs);
    RootedComponents(segs);
    ComponentsShape(segs);
  }

  /** Clean components: the first is the bucket, the rest joined are the key, none when there are no more. */
  lemma ComponentsShape(segs: seq<string>)
    requires AllClean(segs) && segs != []
    ensures FromSegments(segs) == S3Path(Some(segs[0]), if |segs| == 1 then None else Some(Join(segs[1..], '/')))
  {
    var rest := segs[1..];
    assert AllClean(rest) by { assert forall i :: 0 <= i < |rest| ==> rest[i] == segs[i + 1]; }
    MakeClean(segs[0], rest);
    assert FromSegments(segs) == Make(Some(segs[0]), Some(Join(rest, '/')));
  }

  /** The empty, root and `.` inputs, with or without the protocol, are the namespace root. */
  lemma FromPathRoot()
    ensures FromPath("") == S3Path(None, None)
    ensures FromPath("/") == S3Path(None, None)
    ensures FromPath(".") == S3Path(None, None)
    ensures FromPath(Protocol) == S3Path(None, None)
  {
    assert Split("", '/') == [""];
    assert Split(".", '/') == ["."];
    assert StripProtocol(Protocol) == "";
    RenderingsRoundTrip(S3Path(None, None));
  }

  /** `short_format` of a located path: the bucket and, at depth two or more, an ellipsis and the last component. */
  lemma ShortFormatComponents(b: string, rest: seq<string>)
    requires IsCleanSegment(b) && AllClean(rest)
    ensures FromSegments([b] + rest).Valid()
    ensures ShortFormat(FromSegments([b] + rest))
         == if |rest| >= 2 then b + "/…/" + Last(rest)
            else if |rest| == 1 then b + "/" + rest[0]
            else b + "/"
  {
    var segs := [b] + rest;
    assert segs[1..] == rest;
    MakeClean(b, rest);
    JoinClean(rest);
    if |rest| >= 2 {
      assert Join(rest, '/') == rest[0] + ['/'] + Join(rest[1..], '/');
      assert '/' in Join(rest, '/') by { assert Join(rest, '/')[|rest[0]|] == '/'; }
    } else if |rest| == 1 {
      assert Join(rest, '/') == rest[0];
      assert IsCleanSegment(rest[0]);
    }
  }

  /** The namespace root renders as `/` in short form. */
  lemma ShortFormatRoot()
    ensures ShortFormat(S3Path(None, None)) == "/"
  {
  }

  /** `name` of a located path is its last key component, present exactly when there is a key. */
  lemma NameOfLocated(p: S3Path)
    requires Located(p)
    ensures Name(p).Some? <==> p.key.Some?
    ensures Name(p).Some? ==> IsCleanSegment(Name(p).value) && Name(p).value == Last(Segments(p))
  {
    if p.key.Some? {
      var parts := Split(p.key.value, '/');
      assert IsCleanSegment(parts[|parts| - 1]);
      assert HasBucket(p);
      assert Segments(p) == [p.bucket.value] + parts;
    }
  }

  /** A bucket entry's `path_string` parses back to that bucket's root. */
  lemma BucketEntryRoundTrip(b: string)
    requires IsCleanSegment(b)
    ensures FromPath(EntryPathString(Bucket(b))) == S3Path(Some(b), None)
    ensures !IsKey(Bucket(b))
  {
    var p := S3Path(Some(b), None);
    assert EntryPathString(Bucket(b)) == PathString(p);
    RenderingsRoundTrip(p);
  }
}
