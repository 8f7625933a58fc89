/**
 * The listing client: what `ls` asks of the storage service for a location,
 * how the returned names are trimmed to be relative to the location, and the
 * memo of listings keyed by the location's `path_string` and the fragment flag.
 */
module Client {
  import opened Common
  import opened Text
  import opened Paths

  /** One object of a listing: its full key and (already formatted) modification time. */
  datatype ObjectSummary = ObjectSummary(key: string, lastModified: string)

  /** A delimited listing: the common prefixes and the objects, as the service returns them. */
  datatype Listing = Listing(commonPrefixes: seq<string>, contents: seq<ObjectSummary>)

  /** The storage service: its bucket names and a delimited listing for a bucket and prefix. */
  datatype Backend = Backend(bucketNames: seq<string>, listObjects: (string, string) -> Listing)

  /** The memo: listing entries by (path_string, fragment flag). */
  datatype Client = Client(cache: map<(string, bool), seq<Entry>>)

  /** The outcome of `ls`: the client afterwards, the entries, and whether the service was asked. */
  datatype LsResult = LsResult(client: Client, entries: seq<Entry>, fetched: bool)

  /** The memo never holds an empty listing. */
  predicate NoEmptyListings(c: Client) {
    forall k :: k in c.cache ==> c.cache[k] != []
  }

  // ---------------------------------------------------------------------------
  // Index arithmetic

  /** `s.rfind(ch)`: the last index of `ch`, or -1. */
  function RFind(s: string, ch: char): (r: int)
    ensures -1 <= r < |s|
    ensures r == -1 <==> ch !in s
    ensures r >= 0 ==> s[r] == ch && ch !in s[r + 1..]
    decreases |s|
  {
    if s == [] then -1
    else if Last(s) == ch then |s| - 1
    else
      var r := RFind(s[..|s| - 1], ch);
      assert s == s[..|s| - 1] + [Last(s)];
      if r >= 0 then
        assert s[r + 1..] == s[..|s| - 1][r + 1..] + [Last(s)];
        r
      else r
  }

  /** Python slicing `s[n:]`: empty once `n` passes the end. */
  function Drop(s: string, n: nat): (r: string)
    ensures n <= |s| ==> s == s[..n] + r
    ensures n > |s| ==> r == ""
  {
    if n <= |s| then s[n..] else ""
  }

  /** The prefix asked of the service: the key as a directory, or as typed in fragment mode. */
  function SearchPrefix(p: S3Path, fragment: bool): (r: string)
    ensures !fragment && KeyText(p) != "" ==> r == KeyText(p) + "/"
    ensures fragment || KeyText(p) == "" ==> r == KeyText(p)
  {
    if !fragment then (if KeyText(p) != "" then KeyText(p) + "/" else "") else KeyText(p)
  }

  /** How much of each returned name is dropped: the search prefix up to and including its last `/`. */
  function TrimLength(search: string): (n: nat)
    ensures n <= |search|
    ensures n == 0 <==> '/' !in search
    ensures n > 0 ==> search[n - 1] == '/' && '/' !in search[n..]
  {
    var lastSlash := RFind(search, '/');
    if lastSlash != -1 then lastSlash + 1 else 0
  }

  // ---------------------------------------------------------------------------
  // Fetching

  /** Buckets are listed at the namespace root, or when a bucket name is being completed. */
  predicate ListsBuckets(p: S3Path, fragment: bool) {
    !HasBucket(p) || (KeyText(p) == "" && fragment)
  }

  function BucketEntries(names: seq<string>): (r: seq<Entry>)
    ensures |r| == |names|
    ensures forall i :: 0 <= i < |r| ==> r[i] == Bucket(names[i])
  {
    seq(|names|, i requires 0 <= i < |names| => Bucket(names[i]))
  }

  function PrefixEntries(prefixes: seq<string>, n: nat): (r: seq<Entry>)
    ensures |r| == |prefixes|
    ensures forall i :: 0 <= i < |r| ==> r[i] == Prefix(Drop(prefixes[i], n))
  {
    seq(|prefixes|, i requires 0 <= i < |prefixes| => Prefix(Drop(prefixes[i], n)))
  }

  /** An object as a listing entry, its key trimmed by `n`. */
  function KeyEntry(o: ObjectSummary, n: nat): Entry {
    Key(Drop(o.key, n), Some(o.lastModified))
  }

  /** The objects of a listing other than the search prefix itself, in order. */
  function Kept(contents: seq<ObjectSummary>, search: string): (r: seq<ObjectSummary>)
    ensures forall i :: 0 <= i < |r| ==> r[i] in contents && r[i].key != search
    ensures forall i :: 0 <= i < |contents| && contents[i].key != search ==> contents[i] in r
  {
    Filter(contents, (o: ObjectSummary) => o.key != search)
  }

  /** Kept objects as entries, trimmed by `n`. */
  function KeyEntries(kept: seq<ObjectSummary>, n: nat): (r: seq<Entry>)
    ensures |r| == |kept|
    ensures forall i :: 0 <= i < |r| ==> r[i] == KeyEntry(kept[i], n)
  {
    seq(|kept|, i requires 0 <= i < |kept| => KeyEntry(kept[i], n))
  }

  /** What the service returns for a location with a bucket. */
  function ListingFor(backend: Backend, p: S3Path, fragment: bool): Listing
    requires HasBucket(p)
  {
    backend.listObjects(p.bucket.value, SearchPrefix(p, fragment))
  }

  /**
   * A listing as entries: the common prefixes, then the objects other than the
   * search prefix itself, every name with the search prefix's directory part dropped.
   */
  function ObjectEntries(listing: Listing, search: string): (r: seq<Entry>)
    ensures |r| == |listing.commonPrefixes| + |Kept(listing.contents, search)|
    ensures forall i :: 0 <= i < |listing.commonPrefixes| ==>
      r[i] == Prefix(Drop(listing.commonPrefixes[i], TrimLength(search)))
    ensures forall i :: 0 <= i < |Kept(listing.contents, search)| ==>
      r[|listing.commonPrefixes| + i] == KeyEntry(Kept(listing.contents, search)[i], TrimLength(search))
  {
    var n := TrimLength(search);
    PrefixEntries(listing.commonPrefixes, n) + KeyEntries(Kept(listing.contents, search), n)
  }

  /** `e` is the trimmed entry of a listed object other than the search prefix. */
  predicate ListedKey(e: Entry, contents: seq<ObjectSummary>, search: string) {
    exists o :: o in contents && o.key != search && e == KeyEntry(o, TrimLength(search))
  }

  /** Each entry after the prefixes is a listed object other than the search prefix, trimmed. */
  lemma ObjectEntriesSound(listing: Listing, search: string)
    ensures var r := ObjectEntries(listing, search);
      forall i :: |listing.commonPrefixes| <= i < |r| ==> ListedKey(r[i], listing.contents, search)
  {
    var r := ObjectEntries(listing, search);
    var cp := |listing.commonPrefixes|;
    var kept := Kept(listing.contents, search);
    forall i | cp <= i < |r|
      ensures ListedKey(r[i], listing.contents, search)
    {
      var k := i - cp;
      assert r[cp + k] == KeyEntry(kept[k], TrimLength(search));
      assert kept[k] in listing.contents && kept[k].key != search;
    }
  }

  lemma KeyEntryMember(kept: seq<ObjectSummary>, o: ObjectSummary, n: nat)
    requires o in kept
    ensures KeyEntry(o, n) in KeyEntries(kept, n)
  {
    var k :| 0 <= k < |kept| && kept[k] == o;
    assert KeyEntries(kept, n)[k] == KeyEntry(o, n);
  }

  /** Every listed object other than the search prefix has its trimmed entry after the prefixes. */
  lemma ObjectEntriesComplete(listing: Listing, search: string)
    ensures var r := ObjectEntries(listing, search);
      forall j :: 0 <= j < |listing.contents| && listing.contents[j].key != search ==>
        KeyEntry(listing.contents[j], TrimLength(search)) in r[|listing.commonPrefixes|..]
  {
    var n := TrimLength(search);
    var r := ObjectEntries(listing, search);
    var kept := Kept(listing.contents, search);
    assert r[|listing.commonPrefixes|..] == KeyEntries(kept, n);
    forall j | 0 <= j < |listing.contents| && listing.contents[j].key != search
      ensures KeyEntry(listing.contents[j], n) in KeyEntries(kept, n)
    {
      KeyEntryMember(kept, listing.contents[j], n);
    }
  }

  /** The `_fetch` of `ls`: buckets, or the trimmed prefixes followed by the trimmed keys. */
  function Fetch(backend: Backend, p: S3Path, fragment: bool): (r: seq<Entry>)
    ensures ListsBuckets(p, fragment) ==>
      && (forall i :: 0 <= i < |r| ==> r[i].Bucket? && r[i].bucket in backend.bucketNames)
      && (HasBucket(p) ==> forall i :: 0 <= i < |r| ==> StartsWith(r[i].bucket, p.bucket.value))
      && (forall i :: 0 <= i < |backend.bucketNames| && (HasBucket(p) ==> StartsWith(backend.bucketNames[i], p.bucket.value))
            ==> Bucket(backend.bucketNames[i]) in r)
    ensures !ListsBuckets(p, fragment) ==> r == ObjectEntries(ListingFor(backend, p, fragment), SearchPrefix(p, fragment))
  {
    if ListsBuckets(p, fragment) then
      var names := if HasBucket(p) then Filter(backend.bucketNames, (b: string) => StartsWith(b, p.bucket.value))
                   else backend.bucketNames;
      BucketEntries(names)
    else
      ObjectEntries(ListingFor(backend, p, fragment), SearchPrefix(p, fragment))
  }

  // ---------------------------------------------------------------------------
  // The memo

  /** The memo key of a listing: the location's `path_string` and the fragment flag. */
  function CacheKey(p: S3Path, fragment: bool): (string, bool) {
    (PathString(p), fragment)
  }

  /**
   * `ls`: a remembered listing is returned as it is, without asking the service;
   * otherwise the listing is fetched and remembered only when it is not empty.
   * Either way no other remembered listing changes.
   */
  function Ls(c: Client, backend: Backend, p: S3Path, fragment: bool): (r: LsResult)
    ensures CacheKey(p, fragment) in c.cache ==> !r.fetched && r.client == c && r.entries == c.cache[CacheKey(p, fragment)]
    ensures CacheKey(p, fragment) !in c.cache ==> r.fetched && r.entries == Fetch(backend, p, fragment)
    ensures r.fetched && r.entries == [] ==> r.client == c
    ensures r.entries != [] ==> CacheKey(p, fragment) in r.client.cache && r.client.cache[CacheKey(p, fragment)] == r.entries
    ensures forall k :: k in c.cache ==> k in r.client.cache && r.client.cache[k] == c.cache[k]
    ensures forall k :: k in r.client.cache && k !in c.cache ==> k == CacheKey(p, fragment)
  {
    var key := CacheKey(p, fragment);
    if key in c.cache then LsResult(c, c.cache[key], false)
    else
      var entries := Fetch(backend, p, fragment);
      if entries != [] then LsResult(Client(c.cache[key := entries]), entries, true)
      else LsResult(c, entries, true)
  }

  /** `clear_cache`: forgets every listing and reports how many there were. */
  function ClearCache(c: Client): (r: (Client, nat))
    ensures r.0.cache == map[]
    ensures r.1 == |c.cache|
  {
    (Client(map[]), |c.cache|)
  }

  /** `is_path`: a location exists when its (non-fragment) listing is not empty. */
  function IsPath(c: Client, backend: Backend, p: S3Path): (r: (Client, bool))
    ensures r.1 <==> Ls(c, backend, p, false).entries != []
    ensures NoEmptyListings(c) && CacheKey(p, false) in c.cache ==> r.1 && r.0 == c
  {
    var l := Ls(c, backend, p, false);
    (l.client, l.entries != [])
  }

  // ---------------------------------------------------------------------------
  // Properties of the memo

  /** `ls` keeps the memo free of empty listings. */
  lemma LsKeepsNoEmpty(c: Client, backend: Backend, p: S3Path, fragment: bool)
    requires NoEmptyListings(c)
    ensures NoEmptyListings(Ls(c, backend, p, fragment).client)
  {
  }

  /**
   * A second `ls` of a location whose listing was not empty is answered from the
   * memo: same entries, no request, whatever the service would now say.
   */
  lemma LsTwice(c: Client, b1: Backend, b2: Backend, p: S3Path, fragment: bool)
    requires Ls(c, b1, p, fragment).entries != []
    ensures var r1 := Ls(c, b1, p, fragment);
      Ls(r1.client, b2, p, fragment) == LsResult(r1.client, r1.entries, false)
  {
  }

  /** An empty listing is not remembered: the next `ls` asks the service again. */
  lemma EmptyListingRefetched(c: Client, b1: Backend, b2: Backend, p: S3Path, fragment: bool)
    requires CacheKey(p, fragment) !in c.cache
    requires Fetch(b1, p, fragment) == []
    ensures var r1 := Ls(c, b1, p, fragment);
      r1.client == c && r1.entries == [] && Ls(r1.client, b2, p, fragment).fetched
  {
  }

  /** Listing in fragment mode and in normal mode are remembered separately. */
  lemma ModesSeparate(c: Client, backend: Backend, p: S3Path, fragment: bool)
    ensures var r := Ls(c, backend, p, fragment);
      (CacheKey(p, !fragment) in r.client.cache <==> CacheKey(p, !fragment) in c.cache)
  {
  }

  /** After `clear_cache`, every `ls` goes to the service. */
  lemma ClearThenLs(c: Client, backend: Backend, p: S3Path, fragment: bool)
    ensures Ls(ClearCache(c).0, backend, p, fragment).fetched
    ensures Ls(ClearCache(c).0, backend, p, fragment).entries == Fetch(backend, p, fragment)
  {
  }

  /**
   * Two locations that are equal (same canonical string) share one memo entry
   * and one listing, so `ls` answers them identically.
   */
  lemma LsEqualLocations(c: Client, backend: Backend, p: S3Path, q: S3Path, fragment: bool)
    requires p.bucket.Some? ==> '/' !in p.bucket.value
    requires q.bucket.Some? ==> '/' !in q.bucket.value
    requires Equal(p, q)
    ensures Ls(c, backend, p, fragment) == Ls(c, backend, q, fragment)
  {
    EqualIff(p, q);
    assert PathString(p) == PathString(q);
    if HasBucket(p) {
      assert SearchPrefix(p, fragment) == SearchPrefix(q, fragment);
    }
    assert Fetch(backend, p, fragment) == Fetch(backend, q, fragment);
  }

  // ---------------------------------------------------------------------------
  // Properties of trimming

  /** Outside fragment mode the whole search prefix is dropped from each returned name. */
  lemma TrimWholePrefix(p: S3Path)
    ensures TrimLength(SearchPrefix(p, false)) == |SearchPrefix(p, false)|
  {
    var search := SearchPrefix(p, false);
    if search != "" {
      assert search[|search| - 1] == '/';
    }
  }

  /**
   * Trimming drops everything up to the last `/`, so what remains of the search
   * prefix is its last `/`-separated component: the partial name being completed.
   */
  lemma {:induction false} TrimLeavesLastComponent(search: string)
    ensures search[TrimLength(search)..] == Last(Split(search, '/'))
  {
    var n := TrimLength(search);
    if n == 0 {
      SplitNoSep(search, '/');
    } else {
      assert search == search[..n - 1] + ['/'] + search[n..];
      SplitConcat(search[..n - 1], search[n..], '/');
      SplitNoSep(search[n..], '/');
    }
  }

  /** A returned name under the search prefix, trimmed, is rebuilt by putting the dropped part back. */
  lemma TrimRestores(key: string, search: string)
    requires StartsWith(key, search)
    ensures key == search[..TrimLength(search)] + Drop(key, TrimLength(search))
  {
    var n := TrimLength(search);
    assert key[..n] == search[..n];
  }
}
