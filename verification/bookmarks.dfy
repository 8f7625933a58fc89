/**
 * The bookmark store: names validated by an anchored pattern, an in-memory
 * name-to-bookmark map that may be unavailable (its file could not be read),
 * and the cleaning of the decoded bookmark document.
 */
module Bookmarks {
  import opened Common
  import opened Text
  import opened Paths

  /** A stored location (the `path_string` of an S3 path) and, optionally, when it was made. */
  datatype Bookmark = Bookmark(path: string, createdOn: Option<string>)

  /** The manager's map, or Unavailable when the bookmark file could not be loaded. */
  datatype Store = Unavailable | Available(bookmarks: map<string, Bookmark>)

  /** The Python exceptions that matter here: some are caught by the loader, some escape. */
  datatype Exception = TypeError | AttributeError

  /** The outcome of an add or remove: the new store and the returned flag. */
  datatype Update = Update(store: Store, ok: bool)

  // ---------------------------------------------------------------------------
  // Key validation

  const MaxKeyLength := 16

  predicate IsKeyHead(c: char) {
    ('a' <= c <= 'z') || ('A' <= c <= 'Z') || ('0' <= c <= '9') || c == '_'
  }

  predicate IsKeyChar(c: char) {
    IsKeyHead(c) || c == '-'
  }

  /** One head character then at most fifteen more, letters, digits, `_` or `-`. */
  predicate KeyBody(s: string) {
    && 1 <= |s| <= MaxKeyLength
    && IsKeyHead(s[0])
    && forall i :: 1 <= i < |s| ==> IsKeyChar(s[i])
  }

  /** The anchored pattern; Python's `$` also matches just before one final newline. */
  predicate KeyPattern(k: string) {
    KeyBody(k) || (|k| > 0 && k[|k| - 1] == '\n' && KeyBody(k[..|k| - 1]))
  }

  /** `validate_key`: a scan of the name against the pattern. */
  method ValidateKey(k: string) returns (ok: bool)
    ensures ok <==> KeyPattern(k)
  {
    var n := |k|;
    if n > 0 && k[n - 1] == '\n' {
      n := n - 1;
      assert !IsKeyChar(k[|k| - 1]) && !IsKeyHead(k[|k| - 1]);
    }
    assert KeyPattern(k) <==> KeyBody(k[..n]);
    if n == 0 || n > MaxKeyLength || !IsKeyHead(k[0]) {
      return false;
    }
    var i := 1;
    while i < n
      invariant 1 <= i <= n
      invariant forall j :: 1 <= j < i ==> IsKeyChar(k[j])
    {
      if !IsKeyChar(k[i]) {
        assert !KeyBody(k[..n]) by { assert k[..n][i] == k[i]; }
        return false;
      }
      i := i + 1;
    }
    assert forall j :: 1 <= j < n ==> k[..n][j] == k[j];
    return true;
  }

  /** A valid name never holds a `}` nor opens with `{`, so `${name}` always refers to it. */
  lemma ValidKeyBraced(k: string)
    requires KeyPattern(k)
    ensures '}' !in k && k[0] != '{'
  {
    var n := if KeyBody(k) then |k| else |k| - 1;
    assert KeyBody(k[..n]);
    forall i | 0 <= i < |k|
      ensures k[i] != '}'
    {
      if i < n {
        assert k[..n][i] == k[i];
      }
    }
    assert k[..n][0] == k[0];
  }

  // ---------------------------------------------------------------------------
  // Adding and removing

  /** `add_bookmark`: the name now maps to the path's `path_string`, stamped `now`. */
  function AddBookmark(store: Store, name: string, path: S3Path, now: string): (r: Update)
    ensures r.ok <==> store.Available?
    ensures !r.ok ==> r.store == store
    ensures r.ok ==> (
      && r.store.Available?
      && r.store.bookmarks.Keys == store.bookmarks.Keys + {name}
      && r.store.bookmarks[name] == Bookmark(PathString(path), Some(now))
      && forall n :: n in store.bookmarks && n != name ==> r.store.bookmarks[n] == store.bookmarks[n])
  {
    match store
    case Unavailable => Update(Unavailable, false)
    case Available(m) => Update(Available(m[name := Bookmark(PathString(path), Some(now))]), true)
  }

  /**
   * `remove_bookmark` as written: the membership test runs against the store
   * even when it is unavailable, which raises a TypeError.
   */
  function RemoveAsWritten(store: Store, name: string): (r: Result<Update, Exception>)
    ensures r.Err? <==> store.Unavailable?
    ensures r.Ok? ==> (r.value.ok <==> name in store.bookmarks)
    ensures r.Ok? && !r.value.ok ==> r.value.store == store
    ensures r.Ok? && r.value.ok ==> r.value.store == Available(store.bookmarks - {name})
  {
    match store
    case Unavailable => Err(TypeError)
    case Available(m) =>
      if name !in m then Ok(Update(store, false))
      else Ok(Update(Available(m - {name}), true))
  }

  /** `remove_bookmark`, failing like `add_bookmark` when the store is unavailable. */
  function RemoveBookmark(store: Store, name: string): (r: Update)
    ensures r.ok <==> store.Available? && name in store.bookmarks
    ensures !r.ok ==> r.store == store
    ensures r.ok ==> (
      && r.store.Available?
      && r.store.bookmarks.Keys == store.bookmarks.Keys - {name}
      && forall n :: n in r.store.bookmarks ==> r.store.bookmarks[n] == store.bookmarks[n])
  {
    match store
    case Unavailable => Update(Unavailable, false)
    case Available(m) =>
      if name !in m then Update(store, false)
      else Update(Available(m - {name}), true)
  }

  /** The as-written removal raises on an unavailable store and otherwise agrees with the corrected one. */
  lemma RemoveAsWrittenRaises(store: Store, name: string)
    ensures store.Unavailable? ==> RemoveAsWritten(store, name) == Err(TypeError)
    ensures store.Available? ==> RemoveAsWritten(store, name) == Ok(RemoveBookmark(store, name))
  {
  }

  /** Removing a name just added restores a store that did not have it. */
  lemma AddThenRemove(m: map<string, Bookmark>, name: string, path: S3Path, now: string)
    requires name !in m
    ensures RemoveBookmark(AddBookmark(Available(m), name, path, now).store, name) == Update(Available(m), true)
  {
    var m' := m[name := Bookmark(PathString(path), Some(now))];
    assert m' - {name} == m;
  }

  /** Adding under a name twice keeps only the second bookmark. */
  lemma AddTwice(store: Store, name: string, p: S3Path, q: S3Path, t1: string, t2: string)
    ensures AddBookmark(AddBookmark(store, name, p, t1).store, name, q, t2) == AddBookmark(store, name, q, t2)
  {
    if store.Available? {
      var m := store.bookmarks;
      assert m[name := Bookmark(PathString(p), Some(t1))][name := Bookmark(PathString(q), Some(t2))]
          == m[name := Bookmark(PathString(q), Some(t2))];
    }
  }

  // ---------------------------------------------------------------------------
  // The decoded bookmark document

  /** A decoded JSON value; an object keeps its members in order. */
  datatype Json =
    | Null
    | Bool(b: bool)
    | Number(n: int)
    | Str(s: string)
    | Array(items: seq<Json>)
    | Object(members: seq<(string, Json)>)

  /** Member lookup as in the dict JSON decoding builds: the last binding of a name wins. */
  function Lookup(members: seq<(string, Json)>, name: string): (r: Option<Json>)
    ensures r.Some? <==> exists i :: 0 <= i < |members| && members[i].0 == name
    ensures r.Some? ==> exists i :: 0 <= i < |members| && members[i] == (name, r.value)
    decreases |members|
  {
    if members == [] then None
    else if Last(members).0 == name then
      assert members[|members| - 1] == (name, Last(members).1);
      Some(Last(members).1)
    else
      var front := members[..|members| - 1];
      assert forall i :: 0 <= i < |front| ==> front[i] == members[i];
      Lookup(front, name)
  }

  /** Members appended after the ones asked about do not disturb a lookup. */
  lemma {:induction false} LookupAppend(a: seq<(string, Json)>, b: seq<(string, Json)>, name: string)
    requires forall i :: 0 <= i < |b| ==> b[i].0 != name
    ensures Lookup(a + b, name) == Lookup(a, name)
    decreases |b|
  {
    if b == [] {
      assert a + b == a;
    } else {
      var b' := b[..|b| - 1];
      assert (a + b)[..|a + b| - 1] == a + b';
      assert Last(a + b) == Last(b) && Last(b).0 != name;
      assert forall i :: 0 <= i < |b'| ==> b'[i] == b[i];
      LookupAppend(a, b', name);
    }
  }

  /** Why a document is not a bookmark map. */
  datatype LoadError =
    | Raised(exception: Exception)
    | NonStringPath

  /**
   * `Bookmark(**v)` on one decoded entry: it must be an object naming `path`
   * and not binding `self`; `created_on` may be absent, null or a string.
   */
  function CleanEntry(v: Json): (r: Result<Bookmark, LoadError>)
    ensures r.Ok? ==> v.Object? && Lookup(v.members, "path") == Some(Str(r.value.path))
    ensures r.Ok? ==> (r.value.createdOn.Some? <==> Lookup(v.members, "created_on").Some? && Lookup(v.members, "created_on").value.Str?)
  {
    if !v.Object? then Err(Raised(TypeError))
    else if Lookup(v.members, "self").Some? || Lookup(v.members, "path").None? then Err(Raised(TypeError))
    else if !Lookup(v.members, "path").value.Str? then Err(NonStringPath)
    else
      var path := Lookup(v.members, "path").value.s;
      var created := Lookup(v.members, "created_on");
      if created.None? || created.value.Null? then Ok(Bookmark(path, None))
      else if created.value.Str? then Ok(Bookmark(path, Some(created.value.s)))
      else Err(Raised(AttributeError))
  }

  /**
   * The names of a decoded object in the order its dict iterates them: each
   * name once, at the position of its first binding (`NamesInFirstBindingOrder`).
   */
  function Names(members: seq<(string, Json)>): (r: seq<string>)
    ensures forall k :: k in r <==> exists i :: 0 <= i < |members| && members[i].0 == k
    ensures forall a, b :: 0 <= a < b < |r| ==> r[a] != r[b]
    ensures forall j :: 0 <= j < |r| ==> Lookup(members, r[j]).Some?
    decreases |members|
  {
    if members == [] then []
    else
      var front := members[..|members| - 1];
      assert forall i :: 0 <= i < |front| ==> front[i] == members[i];
      var n := Names(front);
      assert forall j :: 0 <= j < |n| ==> n[j] in n;
      if Last(members).0 in n then n else n + [Last(members).0]
  }

  /** Of two names, the earlier one is bound before the later one is bound at all. */
  lemma {:induction false} NamesInFirstBindingOrder(members: seq<(string, Json)>, a: nat, b: nat)
    requires a < b < |Names(members)|
    ensures exists i :: (0 <= i < |members| && members[i].0 == Names(members)[a]
      && forall i' :: 0 <= i' <= i ==> members[i'].0 != Names(members)[b])
    decreases |members|
  {
    var front := members[..|members| - 1];
    var n := Names(front);
    assert forall i :: 0 <= i < |front| ==> front[i] == members[i];
    if b < |n| {
      assert Names(members)[..|n|] == n;
      NamesInFirstBindingOrder(front, a, b);
      var i :| 0 <= i < |front| && front[i].0 == n[a] && forall i' :: 0 <= i' <= i ==> front[i'].0 != n[b];
      assert members[i].0 == Names(members)[a];
    } else {
      var k := Last(members).0;
      assert k !in n && Names(members) == n + [k];
      assert n[a] in n;
      var i :| 0 <= i < |front| && front[i].0 == n[a];
      forall i' | 0 <= i' <= i
        ensures members[i'].0 != k
      {
        assert front[i'].0 in n;
      }
      assert members[i].0 == Names(members)[a];
    }
  }

  /** One name's bookmark, built from the entry of its last binding. */
  function CleanBinding(members: seq<(string, Json)>, name: string): Result<Bookmark, LoadError> {
    CleanEntry(Lookup(members, name).GetOr(Null))
  }

  /**
   * The comprehension of `clean_data` over `names` in order, building each
   * bookmark with `clean`; the first failure escapes (`CleanAllSpec`).
   */
  function CleanAll(names: seq<string>, clean: string -> Result<Bookmark, LoadError>): Result<map<string, Bookmark>, LoadError>
    decreases |names|
  {
    if names == [] then Ok(map[])
    else
      match CleanAll(names[..|names| - 1], clean)
      case Err(e) => Err(e)
      case Ok(m) =>
        match clean(Last(names))
        case Err(e) => Err(e)
        case Ok(b) => Ok(m[Last(names) := b])
  }

  lemma {:induction false} CleanAllSpec(names: seq<string>, clean: string -> Result<Bookmark, LoadError>)
    ensures var r := CleanAll(names, clean);
      r.Ok? <==> forall j :: 0 <= j < |names| ==> clean(names[j]).Ok?
    ensures var r := CleanAll(names, clean);
      r.Ok? ==> forall k :: k in r.value <==> k in names
    ensures var r := CleanAll(names, clean);
      r.Ok? ==> forall k :: k in r.value ==> clean(k) == Ok(r.value[k])
    ensures var r := CleanAll(names, clean);
      r.Err? ==> exists j :: (0 <= j < |names| && clean(names[j]) == Err(r.error)
        && forall j' :: 0 <= j' < j ==> clean(names[j']).Ok?)
    decreases |names|
  {
    if names != [] {
      var front := names[..|names| - 1];
      var k := Last(names);
      assert forall j :: 0 <= j < |front| ==> front[j] == names[j];
      CleanAllSpec(front, clean);
      var rest := CleanAll(front, clean);
      if rest.Err? {
        var j :| 0 <= j < |front| && clean(front[j]) == Err(rest.error)
          && forall j' :: 0 <= j' < j ==> clean(front[j']).Ok?;
        assert clean(names[j]) == Err(rest.error);
      } else {
        assert names[|names| - 1] == k;
        if clean(k).Ok? {
          assert forall n :: n in names <==> n in front || n == k;
        }
      }
    }
  }

  /**
   * `clean_data`'s comprehension over a decoded object: every name once, in
   * first-binding order, cleaned from its last binding.
   */
  function CleanEntries(entries: seq<(string, Json)>): (r: Result<map<string, Bookmark>, LoadError>)
    ensures r.Ok? <==> forall i :: 0 <= i < |entries| ==> CleanBinding(entries, entries[i].0).Ok?
    ensures r.Ok? ==> forall k :: k in r.value <==> exists i :: 0 <= i < |entries| && entries[i].0 == k
    ensures r.Ok? ==> forall k :: k in r.value ==> CleanBinding(entries, k) == Ok(r.value[k])
    ensures r.Err? ==> var names := Names(entries);
      exists j :: (0 <= j < |names| && CleanBinding(entries, names[j]) == Err(r.error)
        && forall j' :: 0 <= j' < j ==> CleanBinding(entries, names[j']).Ok?)
  {
    CleanAllNames(entries, k => CleanBinding(entries, k));
    CleanAll(Names(entries), k => CleanBinding(entries, k))
  }

  /** `CleanAllSpec` over the names of an object, restated over its bindings. */
  lemma CleanAllNames(entries: seq<(string, Json)>, clean: string -> Result<Bookmark, LoadError>)
    ensures var r := CleanAll(Names(entries), clean);
      r.Ok? <==> forall i :: 0 <= i < |entries| ==> clean(entries[i].0).Ok?
    ensures var r := CleanAll(Names(entries), clean);
      r.Ok? ==> forall k :: k in r.value <==> exists i :: 0 <= i < |entries| && entries[i].0 == k
    ensures var r := CleanAll(Names(entries), clean);
      r.Ok? ==> forall k :: k in r.value ==> clean(k) == Ok(r.value[k])
    ensures var r := CleanAll(Names(entries), clean); var names := Names(entries);
      r.Err? ==> exists j :: (0 <= j < |names| && clean(names[j]) == Err(r.error)
        && forall j' :: 0 <= j' < j ==> clean(names[j']).Ok?)
  {
    var names := Names(entries);
    CleanAllSpec(names, clean);
    assert forall i :: 0 <= i < |entries| ==> entries[i].0 in names;
  }

  /** `clean_data`: the entries under `bookmarks` (none when that member is missing). */
  function CleanData(doc: Json): (r: Result<map<string, Bookmark>, LoadError>)
    ensures !doc.Object? ==> r == Err(Raised(AttributeError))
    ensures doc.Object? && Lookup(doc.members, "bookmarks").None? ==> r == Ok(map[])
    ensures doc.Object? && Lookup(doc.members, "bookmarks").Some? ==>
      var entries := Lookup(doc.members, "bookmarks").value;
      && (!entries.Object? ==> r == Err(Raised(AttributeError)))
      && (entries.Object? ==> r == CleanEntries(entries.members))
  {
    if !doc.Object? then Err(Raised(AttributeError))
    else
      var entries := Lookup(doc.members, "bookmarks").GetOr(Object([]));
      if !entries.Object? then Err(Raised(AttributeError))
      else CleanEntries(entries.members)
  }

  /** What reading the bookmark file gives. */
  datatype BookmarkFile =
    | Missing
    | Unreadable
    | NotJson
    | Decoded(doc: Json)

  /**
   * `load`: a missing file is an empty store, read and decode errors and
   * AttributeErrors leave the store unavailable, a TypeError escapes.
   */
  function Load(file: BookmarkFile): (r: Result<Store, LoadError>)
    ensures file.Missing? ==> r == Ok(Available(map[]))
    ensures file.Unreadable? || file.NotJson? ==> r == Ok(Unavailable)
    ensures file.Decoded? ==> (r.Ok? && r.value.Available? <==> CleanData(file.doc).Ok?)
    ensures r.Err? ==> r.error != Raised(AttributeError)
  {
    match file
    case Missing => Ok(Available(map[]))
    case Unreadable => Ok(Unavailable)
    case NotJson => Ok(Unavailable)
    case Decoded(doc) =>
      match CleanData(doc)
      case Ok(m) => Ok(Available(m))
      case Err(Raised(AttributeError)) => Ok(Unavailable)
      case Err(e) => Err(e)
  }

  // ---------------------------------------------------------------------------
  // Saving and loading back

  /** A bookmark's attribute dict, as `save` writes it. */
  function Encode(b: Bookmark): Json {
    match b.createdOn
    case None => Object([("path", Str(b.path))])
    case Some(c) => Object([("path", Str(b.path)), ("created_on", Str(c))])
  }

  function EncodeEntries(entries: seq<(string, Bookmark)>): (r: seq<(string, Json)>)
    ensures |r| == |entries|
    ensures forall i :: 0 <= i < |r| ==> r[i].0 == entries[i].0
  {
    seq(|entries|, i requires 0 <= i < |entries| => (entries[i].0, Encode(entries[i].1)))
  }

  /** The document `save` writes for the store's items. */
  function SaveDocument(entries: seq<(string, Bookmark)>): Json {
    Object([("bookmarks", Object(EncodeEntries(entries)))])
  }

  /** The map a sequence of items builds, the last binding of a name winning. */
  function ToMap(entries: seq<(string, Bookmark)>): map<string, Bookmark>
    decreases |entries|
  {
    if entries == [] then map[] else ToMap(entries[..|entries| - 1])[Last(entries).0 := Last(entries).1]
  }

  lemma EncodeClean(b: Bookmark)
    ensures CleanEntry(Encode(b)) == Ok(b)
  {
    var ms := Encode(b).members;
    assert Lookup(ms, "self").None?;
    if b.createdOn.Some? {
      assert Lookup(ms, "path") == Lookup(ms[..1], "path");
    }
  }

  /** Looking a name up in the encoded items finds the encoding of its bookmark in the map. */
  lemma {:induction false} LookupEncoded(entries: seq<(string, Bookmark)>, k: string)
    ensures Lookup(EncodeEntries(entries), k) == if k in ToMap(entries) then Some(Encode(ToMap(entries)[k])) else None
    decreases |entries|
  {
    if entries != [] {
      var front := entries[..|entries| - 1];
      var enc := EncodeEntries(entries);
      assert enc[..|enc| - 1] == EncodeEntries(front);
      assert Last(enc) == (Last(entries).0, Encode(Last(entries).1));
      LookupEncoded(front, k);
    }
  }

  lemma CleanEncoded(entries: seq<(string, Bookmark)>)
    ensures CleanEntries(EncodeEntries(entries)) == Ok(ToMap(entries))
  {
    var enc := EncodeEntries(entries);
    var m := ToMap(entries);
    forall i | 0 <= i < |enc|
      ensures CleanBinding(enc, enc[i].0).Ok?
    {
      LookupEncoded(entries, enc[i].0);
      EncodeClean(m[enc[i].0]);
    }
    var r := CleanEntries(enc);
    forall k
      ensures k in r.value <==> k in m
    {
      LookupEncoded(entries, k);
    }
    forall k | k in m
      ensures r.value[k] == m[k]
    {
      LookupEncoded(entries, k);
      EncodeClean(m[k]);
    }
    assert r.value == m;
  }

  /** Loading what `save` wrote gives back the saved map. */
  lemma SaveLoadRoundTrip(entries: seq<(string, Bookmark)>)
    ensures Load(Decoded(SaveDocument(entries))) == Ok(Available(ToMap(entries)))
  {
    CleanEncoded(entries);
  }

  /** A document without a `bookmarks` member is an empty, available store. */
  lemma NoBookmarksMember(ms: seq<(string, Json)>)
    requires forall i :: 0 <= i < |ms| ==> ms[i].0 != "bookmarks"
    ensures Load(Decoded(Object(ms))) == Ok(Available(map[]))
  {
  }

  /** Members other than `path`, `created_on` and `self` do not change the cleaned bookmark. */
  lemma ExtraMembersIgnored(ms: seq<(string, Json)>, extra: seq<(string, Json)>)
    requires forall i :: 0 <= i < |extra| ==> extra[i].0 !in {"path", "created_on", "self"}
    ensures CleanEntry(Object(ms + extra)) == CleanEntry(Object(ms))
  {
    LookupAppend(ms, extra, "path");
    LookupAppend(ms, extra, "created_on");
    LookupAppend(ms, extra, "self");
  }

  /** Binding one more name adds it to the names, unless it is already bound. */
  lemma NamesSnoc(ms: seq<(string, Json)>, k: string, v: Json)
    ensures Names(ms + [(k, v)]) == if k in Names(ms) then Names(ms) else Names(ms) + [k]
  {
    assert (ms + [(k, v)])[..|ms|] == ms;
  }

  /** A failed cleaning reports the error of some binding's name. */
  lemma CleanEntriesError(ms: seq<(string, Json)>)
    requires CleanEntries(ms).Err?
    ensures exists i :: 0 <= i < |ms| && CleanBinding(ms, ms[i].0) == Err(CleanEntries(ms).error)
  {
    var names := Names(ms);
    var j :| 0 <= j < |names| && CleanBinding(ms, names[j]) == Err(CleanEntries(ms).error);
    assert names[j] in names;
    var i :| 0 <= i < |ms| && ms[i].0 == names[j];
    assert CleanBinding(ms, ms[i].0) == Err(CleanEntries(ms).error);
  }

  /**
   * A document whose `bookmarks` member is an object loads as an available
   * store iff every name cleans from its last binding; an error that escapes
   * is the one some name's cleaning raised.
   */
  lemma LoadEntries(ms: seq<(string, Json)>)
    ensures var r := Load(Decoded(Object([("bookmarks", Object(ms))])));
      && (r.Ok? && r.value.Available? <==> forall i :: 0 <= i < |ms| ==> CleanBinding(ms, ms[i].0).Ok?)
      && (r.Err? ==> exists i :: 0 <= i < |ms| && CleanBinding(ms, ms[i].0) == Err(r.error))
  {
    var doc := Object([("bookmarks", Object(ms))]);
    assert Lookup(doc.members, "bookmarks") == Some(Object(ms));
    assert CleanData(doc) == CleanEntries(ms);
    if CleanEntries(ms).Err? {
      CleanEntriesError(ms);
    }
  }

  /** An object binding a single name cleans to that name's bookmark alone. */
  lemma OnlyName(ms: seq<(string, Json)>)
    requires |Names(ms)| == 1 && CleanBinding(ms, Names(ms)[0]).Ok?
    ensures CleanEntries(ms) == Ok(map[Names(ms)[0] := CleanBinding(ms, Names(ms)[0]).value])
  {
    var k := Names(ms)[0];
    assert Names(ms)[..0] == [];
    assert CleanEntries(ms) == CleanAll(Names(ms), k' => CleanBinding(ms, k'));
  }

  /** Only the last binding of a name is read: an earlier one that would not clean is ignored. */
  lemma LastBindingWins(k: string, earlier: Json, last: Json)
    requires CleanEntry(last).Ok?
    ensures CleanEntries([(k, earlier), (k, last)]) == Ok(map[k := CleanEntry(last).value])
  {
    var ms := [(k, earlier), (k, last)];
    assert ms[..1] == [(k, earlier)];
    assert [(k, earlier)][..0] == [];
    assert Names([(k, earlier)]) == [k];
    assert Names(ms) == [k];
    assert Lookup(ms, k) == Some(last);
    OnlyName(ms);
  }

  /** When the first name fails to clean, its error is the one reported. */
  lemma FirstNameFails(ms: seq<(string, Json)>)
    requires |Names(ms)| > 0 && CleanBinding(ms, Names(ms)[0]).Err?
    ensures CleanEntries(ms) == Err(CleanBinding(ms, Names(ms)[0]).error)
  {
    var names := Names(ms);
    assert names[0] in names;
    var i :| 0 <= i < |ms| && ms[i].0 == names[0];
    assert !CleanBinding(ms, ms[i].0).Ok?;
  }

  /**
   * A name bound twice is cleaned at its first position, from its last
   * binding, so it fails before a name bound in between is looked at.
   */
  lemma FirstPositionFailsFirst(a: string, b: string, first: Json, between: Json, last: Json)
    requires a != b && CleanEntry(last).Err?
    ensures CleanEntries([(a, first), (b, between), (a, last)]) == Err(CleanEntry(last).error)
  {
    var ms := [(a, first), (b, between), (a, last)];
    assert ms[..2] == [(a, first), (b, between)];
    assert ms[..2][..1] == [(a, first)];
    assert [(a, first)][..0] == [];
    assert Names([(a, first)]) == [a];
    assert Names(ms[..2]) == [a, b];
    assert Names(ms) == [a, b];
    assert Lookup(ms, a) == Some(last);
    FirstNameFails(ms);
  }

  /** An entry without `path` makes the loader raise a TypeError rather than report unavailability. */
  lemma MissingPathRaises(name: string, ms: seq<(string, Json)>)
    requires forall i :: 0 <= i < |ms| ==> ms[i].0 != "path"
    ensures Load(Decoded(Object([("bookmarks", Object([(name, Object(ms))]))]))) == Err(Raised(TypeError))
  {
    var entries := [(name, Object(ms))];
    assert entries[..0] == [];
    assert Lookup(ms, "path").None?;
    assert CleanEntry(Object(ms)) == Err(Raised(TypeError));
    assert Lookup(entries, name) == Some(Object(ms));
    assert Names(entries) == [name];
    assert CleanEntries(entries) == Err(Raised(TypeError));
  }
}
