/**
 * The shell's path resolution: bookmark references are expanded, the protocol
 * is stripped, `~` names the current bucket's root, and anything else is
 * joined onto the current location and normalised. Also the prompt override
 * and the list of recognised commands.
 */
module Cli {
  import opened Common
  import opened Text
  import opened Paths
  import Tokeniser
  import opened Bookmarks

  /** The prompt used until it is overridden; `\U{1}`/`\U{2}` bracket the colour codes for readline. */
  const DefaultPs1 := "s3://\U{1}\U{1B}[36m\U{2}{path_short}\U{1}\U{1B}[0m\U{2}> "

  /** The commands offered for completion, in the order they are offered. */
  const RecognisedCommands := [
    "bookmark", "cd", "clear", "exit", "file", "head", "help", "ll",
    "ls", "prompt", "pwd", "refresh"
  ]

  // ---------------------------------------------------------------------------
  // Joining onto the current location

  /** `os.path.join` of two paths: an absolute second path replaces the first. */
  function OsJoin(a: string, b: string): string {
    if IsAbsolute(b) then b
    else if a == "" || EndsWith(a, "/") then a + b
    else a + "/" + b
  }

  predicate IsTilde(p: string) {
    p == "~" || p == "~/"
  }

  /** The location a path names from `current`: the shared tail of both resolutions. */
  function JoinFrom(current: S3Path, p: string): S3Path {
    FromPath(OsJoin("/" + PathString(current), p))
  }

  /**
   * Resolution of already expanded text as written: after the protocol is
   * stripped, `s3://bucket` is relative like any text not starting with `/`.
   */
  function ResolveAsWritten(current: S3Path, rendered: string): (r: S3Path)
    ensures r.Valid()
  {
    var p := StripProtocol(rendered);
    if IsTilde(p) then Make(current.bucket, None) else JoinFrom(current, p)
  }

  /** Resolution with the protocol form `s3://bucket/key` read as absolute, as `canonical` promises. */
  function Resolve(current: S3Path, rendered: string): (r: S3Path)
    ensures r.Valid()
  {
    var p := StripProtocol(rendered);
    if IsTilde(p) then Make(current.bucket, None)
    else JoinFrom(current, if StartsWith(rendered, Protocol) then "/" + p else p)
  }

  /** A clean non-empty key does not end in `/`. */
  lemma CleanKeyLastChar(k: string)
    requires k != "" && AllClean(Split(k, '/'))
    ensures k[|k| - 1] != '/'
  {
    if k[|k| - 1] == '/' {
      EndingSepNotClean(k);
    }
  }

  lemma EndingSepNotClean(k: string)
    requires k != "" && k[|k| - 1] == '/'
    ensures !AllClean(Split(k, '/'))
  {
    SplitEndingSep(k);
    var parts := Split(k, '/');
    assert parts[|parts| - 1] == "";
  }

  lemma SplitEndingSep(k: string)
    requires k != "" && k[|k| - 1] == '/'
    ensures Split(k, '/') == Split(k[..|k| - 1], '/') + [""]
  {
    assert k == k[..|k| - 1] + ['/'];
    SplitTrailingSep(k[..|k| - 1], '/');
  }

  /** What `os.path.join` builds from the current location's `"/" + path_string` and relative text. */
  function JoinedTail(cur: S3Path, p: string): string {
    if !HasBucket(cur) then p
    else if cur.key.None? then cur.bucket.value + "/" + p
    else cur.bucket.value + "/" + cur.key.value + "/" + p
  }

  lemma JoinedText(cur: S3Path, p: string)
    requires Located(cur) && !IsAbsolute(p)
    ensures OsJoin("/" + PathString(cur), p) == "/" + ("/" + JoinedTail(cur, p))
  {
    if !HasBucket(cur) {
      assert "/" + PathString(cur) == "//";
      assert EndsWith("//", "/");
    } else if cur.key.None? {
      JoinedTextBucket(cur.bucket.value, p);
      assert PathString(cur) == "/" + cur.bucket.value + "/";
    } else {
      CleanKeyLastChar(cur.key.value);
      JoinedTextKey(cur.bucket.value, cur.key.value, p);
      assert PathString(cur) == "/" + cur.bucket.value + "/" + cur.key.value;
    }
  }

  lemma JoinedTextBucket(b: string, p: string)
    requires !IsAbsolute(p)
    ensures OsJoin("/" + ("/" + b + "/"), p) == "/" + ("/" + (b + "/" + p))
  {
    var a := "/" + ("/" + b + "/");
    assert a == "//" + b + "/";
    assert a[|a| - 1] == '/';
    assert a[|a| - 1..] == [a[|a| - 1]];
    assert a != "" && EndsWith(a, "/");
    assert a + p == "/" + ("/" + (b + "/" + p));
  }

  lemma JoinedTextKey(b: string, k: string, p: string)
    requires !IsAbsolute(p) && k != "" && k[|k| - 1] != '/'
    ensures OsJoin("/" + ("/" + b + "/" + k), p) == "/" + ("/" + (b + "/" + k + "/" + p))
  {
    var a := "/" + ("/" + b + "/" + k);
    assert a == "//" + b + "/" + k;
    assert a[|a| - 1] == k[|k| - 1];
    assert a[|a| - 1..] == [a[|a| - 1]];
    assert a != "" && !EndsWith(a, "/");
    assert a + "/" + p == "/" + ("/" + (b + "/" + k + "/" + p));
  }

  lemma JoinedTailSplit(cur: S3Path, p: string)
    requires Located(cur)
    ensures Split(JoinedTail(cur, p), '/') == Segments(cur) + Split(p, '/')
  {
    if HasBucket(cur) {
      var b := cur.bucket.value;
      if cur.key.None? {
        SplitFirstPart(b, p, '/');
        assert Segments(cur) == [b];
      } else {
        var k := cur.key.value;
        assert JoinedTail(cur, p) == b + ['/'] + (k + ['/'] + p);
        SplitFirstPart(b, k + ['/'] + p, '/');
        SplitConcat(k, p, '/');
        assert Segments(cur) == [b] + Split(k, '/');
      }
    } else {
      assert Segments(cur) == [];
    }
  }

  /** Relative text is appended to the current location's components and normalised. */
  lemma JoinFromRelative(cur: S3Path, p: string)
    requires Located(cur) && !IsAbsolute(p)
    ensures JoinFrom(cur, p) == FromSegments(Normalise(true, Segments(cur) + Split(p, '/')))
  {
    var t := JoinedTail(cur, p);
    var j := OsJoin("/" + PathString(cur), p);
    JoinedText(cur, p);
    assert j == ['/'] + (['/'] + t);
    assert !StartsWith(j, Protocol) by { assert j[0] == '/'; }
    assert IsAbsolute(j);
    SplitLeadingSep(['/'] + t, '/');
    SplitLeadingSep(t, '/');
    JoinedTailSplit(cur, p);
    var x := Segments(cur) + Split(p, '/');
    assert Split(j, '/') == [""] + ([""] + x);
    NormaliseLeadingEmpty(true, [""] + x);
    NormaliseLeadingEmpty(true, x);
  }

  /** A doubled leading `/` names the same location. */
  lemma FromPathRooted(q: string)
    requires IsAbsolute(q)
    ensures FromPath("/" + q) == FromPath(q)
  {
    assert !StartsWith("/" + q, Protocol) by { assert ("/" + q)[0] == '/'; }
    assert !StartsWith(q, Protocol) by { assert q[0] == '/'; }
    assert "/" + q == "" + ['/'] + q;
    SplitConcat("", q, '/');
    NormaliseLeadingEmpty(true, Split(q, '/'));
  }

  // ---------------------------------------------------------------------------
  // Properties of resolution

  /** `~` and `~/`, with or without the protocol, name the current bucket's root. */
  lemma ResolveTilde(cur: S3Path, r: string)
    requires IsTilde(StripProtocol(r))
    ensures Resolve(cur, r) == S3Path(cur.bucket, None)
    ensures ResolveAsWritten(cur, r) == S3Path(cur.bucket, None)
  {
  }

  /** Text starting with `/`, or carrying the protocol, does not depend on the current location. */
  lemma ResolveAbsolute(c1: S3Path, c2: S3Path, r: string)
    requires IsAbsolute(r) || StartsWith(r, Protocol)
    requires !IsTilde(StripProtocol(r))
    ensures Resolve(c1, r) == Resolve(c2, r)
    ensures Resolve(c1, r) == FromPath(if StartsWith(r, Protocol) then "/" + r[|Protocol|..] else r)
  {
  }

  /** Relative text is appended to the current components and normalised left to right. */
  lemma ResolveRelative(cur: S3Path, r: string)
    requires Located(cur)
    requires !StartsWith(r, Protocol) && !IsAbsolute(r) && !IsTilde(r)
    ensures Resolve(cur, r) == FromSegments(Normalise(true, Segments(cur) + Split(r, '/')))
    ensures ResolveAsWritten(cur, r) == Resolve(cur, r)
  {
    JoinFromRelative(cur, r);
  }

  /** `.` is the current location. */
  lemma ResolveDot(cur: S3Path)
    requires Located(cur)
    ensures Resolve(cur, ".") == cur
  {
    assert !StartsWith(".", Protocol);
    ResolveRelative(cur, ".");
    SplitNoSep(".", '/');
    SegmentsLocated(cur);
    NormFromAppend(true, [], Segments(cur), ["."]);
    NormFromClean(true, [], Segments(cur));
    assert [] + Segments(cur) == Segments(cur);
    assert ["."][..0] == [];
  }

  /** `..` is relative text: it is appended to the current components and normalised. */
  lemma ParentNormalised(cur: S3Path)
    requires Located(cur)
    ensures Resolve(cur, "..") == FromSegments(Normalise(true, Segments(cur) + [".."]))
  {
    assert !StartsWith("..", Protocol);
    ResolveRelative(cur, "..");
    SplitNoSep("..", '/');
  }

  /** `..` drops the last component; from a bucket root it reaches the namespace root. */
  lemma ResolveParent(cur: S3Path)
    requires Located(cur)
    ensures Resolve(cur, "..") == FromSegments(if Segments(cur) == [] then [] else Segments(cur)[..|Segments(cur)| - 1])
    ensures cur.key.None? ==> Resolve(cur, "..") == S3Path(None, None)
  {
    var segs := Segments(cur);
    SegmentsLocated(cur);
    ParentNormalised(cur);
    NormaliseParent(segs);
    if cur.key.None? {
      assert |segs| <= 1;
    }
  }

  /** Text after the protocol has an empty second component. */
  lemma ProtocolSplit(rest: string)
    ensures |Split(Protocol + rest, '/')| >= 2 && Split(Protocol + rest, '/')[1] == ""
  {
    assert Protocol + rest == "s3:" + ['/'] + (['/'] + rest);
    SplitFirstPart("s3:", ['/'] + rest, '/');
    SplitLeadingSep(rest, '/');
  }

  /** Clean components joined never carry the protocol. */
  lemma JoinNoProtocol(segs: seq<string>)
    requires AllClean(segs) && segs != []
    ensures !StartsWith(Join(segs, '/'), Protocol)
  {
    var j := Join(segs, '/');
    JoinClean(segs);
    if StartsWith(j, Protocol) {
      assert j == Protocol + j[|Protocol|..];
      ProtocolSplit(j[|Protocol|..]);
    }
  }

  /** Clean components other than a lone `~` never join to a tilde. */
  lemma JoinNoTilde(segs: seq<string>)
    requires AllClean(segs) && segs != [] && segs != ["~"]
    ensures !IsTilde(Join(segs, '/'))
  {
    var j := Join(segs, '/');
    JoinClean(segs);
    SplitNoSep("~", '/');
    if j == "~/" {
      assert j == "~" + ['/'];
      SplitTrailingSep("~", '/');
    }
  }

  lemma AppendClean(a: seq<string>, b: seq<string>)
    requires AllClean(a) && AllClean(b)
    ensures AllClean(a + b)
  {
    assert forall i :: |a| <= i < |a + b| ==> (a + b)[i] == b[i - |a|];
  }

  /** Clean components typed at the prompt are appended to the current location. */
  lemma ResolveChild(cur: S3Path, segs: seq<string>)
    requires Located(cur) && AllClean(segs) && segs != [] && segs != ["~"]
    ensures Resolve(cur, Join(segs, '/')) == FromSegments(Segments(cur) + segs)
  {
    var j := Join(segs, '/');
    JoinStartsClean(segs);
    JoinNoTilde(segs);
    JoinNoProtocol(segs);
    JoinClean(segs);
    ResolveRelative(cur, j);
    SegmentsLocated(cur);
    AppendClean(Segments(cur), segs);
    NormFromClean(true, [], Segments(cur) + segs);
    assert [] + (Segments(cur) + segs) == Segments(cur) + segs;
  }

  /** `path_string` is absolute and resolves to the location from anywhere. */
  lemma ResolvePathString(cur: S3Path, p: S3Path)
    requires Located(p)
    ensures Resolve(cur, PathString(p)) == p
    ensures ResolveAsWritten(cur, PathString(p)) == p
  {
    var ps := PathString(p);
    assert ps[0] == '/';
    assert StripProtocol(ps) == ps;
    assert OsJoin("/" + PathString(cur), ps) == ps;
    RenderingsRoundTrip(p);
  }

  /** `canonical` is the protocol before `path_string` without its `/`. */
  lemma CanonicalTail(p: S3Path)
    ensures StartsWith(Canonical(p), Protocol)
    ensures "/" + StripProtocol(Canonical(p)) == PathString(p)
  {
    var c := Canonical(p);
    CanonicalIsPathString(p);
    assert c[..|Protocol|] == Protocol;
    assert c[|Protocol|..] == PathString(p)[1..];
  }

  /** After the protocol, a location whose bucket is not `~` is never a tilde. */
  lemma CanonicalNoTilde(p: S3Path)
    requires Located(p) && p.bucket != Some("~")
    ensures !IsTilde(StripProtocol(Canonical(p)))
  {
    CanonicalTail(p);
    var q := StripProtocol(Canonical(p));
    if HasBucket(p) {
      var b := p.bucket.value;
      assert "/" + q == "/" + b + "/" + KeyText(p);
      assert q == b + "/" + KeyText(p);
      if |b| == 1 {
        assert b == [b[0]];
        assert q[0] == b[0];
      } else {
        assert |q| >= 3;
      }
    } else {
      assert q == "";
    }
  }

  /** Both renderings of a location resolve back to it from anywhere. */
  lemma ResolveRenderings(cur: S3Path, p: S3Path)
    requires Located(p)
    requires p.bucket != Some("~")
    ensures Resolve(cur, PathString(p)) == p
    ensures Resolve(cur, Canonical(p)) == p
  {
    ResolvePathString(cur, p);
    ResolveCanonical(cur, p);
  }

  lemma ResolveCanonical(cur: S3Path, p: S3Path)
    requires Located(p)
    requires p.bucket != Some("~")
    ensures Resolve(cur, Canonical(p)) == p
  {
    ResolvePathString(cur, p);
    CanonicalJoins(cur, p);
    PathStringJoins(cur, p);
  }

  /** `canonical` is joined as its `path_string`. */
  lemma CanonicalJoins(cur: S3Path, p: S3Path)
    requires Located(p) && p.bucket != Some("~")
    ensures Resolve(cur, Canonical(p)) == JoinFrom(cur, PathString(p))
  {
    CanonicalTail(p);
    CanonicalNoTilde(p);
  }

  /** `path_string` is neither protocol text nor a tilde, so it is joined as it is. */
  lemma PathStringJoins(cur: S3Path, p: S3Path)
    ensures Resolve(cur, PathString(p)) == JoinFrom(cur, PathString(p))
  {
    var ps := PathString(p);
    assert ps[0] == '/';
    assert StripProtocol(ps) == ps && !IsTilde(ps);
  }

  /** As written, a protocol path with a bucket is appended to the current location instead. */
  lemma CanonicalRelativeAsWritten(cur: S3Path, p: S3Path)
    requires Located(cur) && Located(p) && HasBucket(p)
    requires p.bucket != Some("~")
    ensures ResolveAsWritten(cur, Canonical(p)) == FromSegments(Segments(cur) + Segments(p))
  {
    var b := p.bucket.value;
    var q := StripProtocol(Canonical(p));
    CanonicalTail(p);
    CanonicalNoTilde(p);
    assert q == b + "/" + KeyText(p);
    assert !IsAbsolute(q) by {
      assert b[0] in b;
      assert q[0] == b[0];
    }
    JoinFromRelative(cur, q);
    NormFromAppend(true, [], Segments(cur), Split(q, '/'));
    SegmentsLocated(cur);
    NormFromClean(true, [], Segments(cur));
    assert [] + Segments(cur) == Segments(cur);
    NormFromBucketKey(true, Segments(cur), p);
  }

  /**
   * From the root of bucket `a`, typing `s3://b` as written names the key `b`
   * inside `a`; read as absolute it names bucket `b`.
   */
  lemma ProtocolBucketAsWritten(a: string, b: string)
    requires IsCleanSegment(a) && IsCleanSegment(b) && b != "~"
    ensures ResolveAsWritten(S3Path(Some(a), None), Protocol + b) == S3Path(Some(a), Some(b))
    ensures Resolve(S3Path(Some(a), None), Protocol + b) == S3Path(Some(b), None)
  {
    StripProtocolBucket(b);
    ProtocolBucketRelative(a, b);
    ProtocolBucketAbsolute(a, b);
  }

  lemma StripProtocolBucket(b: string)
    ensures StartsWith(Protocol + b, Protocol)
    ensures StripProtocol(Protocol + b) == b
  {
    assert (Protocol + b)[..|Protocol|] == Protocol;
    assert (Protocol + b)[|Protocol|..] == b;
  }

  lemma ProtocolBucketRelative(a: string, b: string)
    requires IsCleanSegment(a) && IsCleanSegment(b) && b != "~"
    requires StripProtocol(Protocol + b) == b
    ensures ResolveAsWritten(S3Path(Some(a), None), Protocol + b) == S3Path(Some(a), Some(b))
  {
    var cur := S3Path(Some(a), None);
    assert !IsTilde(b);
    assert !IsAbsolute(b) by { assert b[0] in b; }
    JoinFromRelative(cur, b);
    SplitNoSep(b, '/');
    assert Segments(cur) + Split(b, '/') == [a, b];
    NormaliseFixed(true, [a, b]);
    ComponentsShape([a, b]);
    assert [a, b][1..] == [b];
  }

  lemma ProtocolBucketAbsolute(a: string, b: string)
    requires IsCleanSegment(b) && b != "~"
    requires StartsWith(Protocol + b, Protocol) && StripProtocol(Protocol + b) == b
    ensures Resolve(S3Path(Some(a), None), Protocol + b) == S3Path(Some(b), None)
  {
    assert !IsTilde(b);
    assert Join([b], '/') == b;
    FromPathComponents([b]);
    assert OsJoin("/" + PathString(S3Path(Some(a), None)), "/" + b) == "/" + b;
  }

  /** The two resolutions differ only on relative text after the protocol. */
  lemma ResolveAgrees(cur: S3Path, r: string)
    requires !StartsWith(r, Protocol) || IsAbsolute(StripProtocol(r)) || IsTilde(StripProtocol(r))
    ensures Resolve(cur, r) == ResolveAsWritten(cur, r)
  {
    var p := StripProtocol(r);
    if StartsWith(r, Protocol) && !IsTilde(p) {
      FromPathRooted(p);
    }
  }

  // ---------------------------------------------------------------------------
  // Bookmark expansion

  /** The bookmark context: each bookmark name to its stored path, none when unavailable. */
  function Context(store: Option<Store>): (ctx: map<string, string>)
    ensures store.Some? && store.value.Available? ==>
      ctx.Keys == store.value.bookmarks.Keys && forall k :: k in ctx ==> ctx[k] == store.value.bookmarks[k].path
    ensures !(store.Some? && store.value.Available?) ==> ctx == map[]
  {
    if store.Some? && store.value.Available? then
      map k | k in store.value.bookmarks :: store.value.bookmarks[k].path
    else map[]
  }

  /** The context as written: the manager exists, so its unavailable map is read anyway. */
  function ContextAsWritten(store: Option<Store>): Result<map<string, string>, Exception> {
    match store
    case None => Ok(map[])
    case Some(Unavailable) => Err(AttributeError)
    case Some(Available(m)) => Ok(map k | k in m :: m[k].path)
  }

  /** Why a path could not be resolved. */
  datatype Failure = Tokenising(error: Tokeniser.Error) | Crashed(exception: Exception)

  /**
   * `normalise_path` as written: an unavailable store always crashes; any other
   * store fails exactly when the corrected resolution does.
   */
  function NormalisePathAsWritten(current: S3Path, store: Option<Store>, raw: string): (r: Result<S3Path, Failure>)
    ensures store == Some(Unavailable) ==> r == Err(Crashed(AttributeError))
    ensures store != Some(Unavailable) ==> (r.Ok? <==> NormalisePath(current, store, raw).Ok?)
    ensures r.Ok? ==> r.value.Valid()
  {
    assert store != Some(Unavailable) ==> ContextAsWritten(store) == Ok(Context(store));
    match ContextAsWritten(store)
    case Err(e) => Err(Crashed(e))
    case Ok(ctx) =>
      match Tokeniser.Expand(raw, ctx)
      case Err(e) => Err(Tokenising(e))
      case Ok(s) => Ok(ResolveAsWritten(current, s))
  }

  /** `normalise_path`, with an unavailable store giving no bookmarks and the protocol form absolute. */
  function NormalisePath(current: S3Path, store: Option<Store>, raw: string): (r: Result<S3Path, Tokeniser.Error>)
    ensures r.Ok? ==> r.value.Valid()
    ensures '$' !in raw ==> r.Ok?
  {
    assert '$' !in raw ==> Tokeniser.Expand(raw, Context(store)).Ok? by {
      if '$' !in raw {
        Tokeniser.DollarFreeExpand(raw, Context(store));
      }
    }
    match Tokeniser.Expand(raw, Context(store))
    case Err(e) => Err(e)
    case Ok(s) => Ok(Resolve(current, s))
  }

  /** As written, an unavailable store makes every resolution fail. */
  lemma UnavailableStoreAsWritten(cur: S3Path, raw: string)
    ensures NormalisePathAsWritten(cur, Some(Unavailable), raw) == Err(Crashed(AttributeError))
  {
  }

  /** An unavailable store resolves as if there were no bookmarks; otherwise the contexts agree. */
  lemma UnavailableStoreIgnored(cur: S3Path, raw: string, store: Option<Store>)
    ensures NormalisePath(cur, Some(Unavailable), raw) == NormalisePath(cur, None, raw)
    ensures store != Some(Unavailable) ==> ContextAsWritten(store) == Ok(Context(store))
  {
  }

  /** Text without `$` and without a lone trailing backslash is resolved as typed. */
  lemma PlainPath(cur: S3Path, store: Option<Store>, raw: string)
    requires '$' !in raw && !Tokeniser.EndsInLoneBackslash(raw)
    ensures NormalisePath(cur, store, raw) == Ok(Resolve(cur, raw))
  {
    Tokeniser.DollarFreeExpand(raw, Context(store));
  }

  /** `$name` resolves the bookmark's stored path, or fails naming an unknown bookmark. */
  lemma BookmarkReference(cur: S3Path, m: map<string, Bookmark>, name: string)
    requires name != "" && Tokeniser.IsIdent(name)
    ensures name in m ==> NormalisePath(cur, Some(Available(m)), "$" + name) == Ok(Resolve(cur, m[name].path))
    ensures name !in m ==> NormalisePath(cur, Some(Available(m)), "$" + name) == Err(Tokeniser.UnknownToken(name))
  {
    Tokeniser.BareVariable(name);
    Tokeniser.RenderToken(name, Context(Some(Available(m))));
  }

  /** `${name}` is a single reference for any name a valid bookmark can have. */
  lemma BracedReference(name: string)
    requires KeyPattern(name)
    ensures Tokeniser.Tokenise("${" + name + "}") == Ok([Tokeniser.Token(name)])
  {
    ValidKeyBraced(name);
    var ts := [Tokeniser.Token(name)];
    assert Tokeniser.Unparseable(ts);
    Tokeniser.UnparseTokenise(ts);
    assert ts[..0] == [];
    assert Tokeniser.Unparse(ts) == "" + Tokeniser.UnparsePiece(ts[0]);
    assert Tokeniser.UnparsePiece(ts[0]) == "${" + name + "}";
    assert "" + ("${" + name + "}") == "${" + name + "}";
  }

  /** A bookmark just added under a valid name, referenced as `${name}`, resolves to the bookmarked location. */
  lemma BookmarkRoundTrip(cur: S3Path, m: map<string, Bookmark>, name: string, p: S3Path, now: string)
    requires KeyPattern(name) && Located(p)
    ensures NormalisePath(cur, Some(AddBookmark(Available(m), name, p, now).store), "${" + name + "}") == Ok(p)
  {
    var store := Some(AddBookmark(Available(m), name, p, now).store);
    BracedReference(name);
    Tokeniser.RenderToken(name, Context(store));
    assert Context(store)[name] == PathString(p);
    ResolvePathString(cur, p);
  }

  // ---------------------------------------------------------------------------
  // The prompt

  /** `override_prompt`: the default without arguments, else the words joined by spaces plus one space. */
  function OverridePrompt(args: seq<string>): (r: string)
    ensures args == [] ==> r == DefaultPs1
    ensures args != [] ==> |r| > 0 && r[|r| - 1] == ' '
  {
    if args == [] then DefaultPs1 else Join(args, ' ') + " "
  }

  /** The words of a prompt command are recovered by splitting the prompt before its final space. */
  lemma PromptWords(args: seq<string>)
    requires args != [] && forall i :: 0 <= i < |args| ==> ' ' !in args[i]
    ensures var r := OverridePrompt(args); Split(r[..|r| - 1], ' ') == args
  {
    var words := Join(args, ' ');
    assert (words + " ")[..|words + " "| - 1] == words;
    SplitJoin(args, ' ');
  }
}
