/**
 * The prompt style string: space-separated `class:style` entries read into a
 * map from class name to style, the later of two entries for a class winning.
 */
module Ps1 {
  import opened Common
  import opened Text

  /** The `ValueError` raised for an entry that is not exactly one `:`-separated pair. */
  datatype StyleError = InvalidStyle(entry: string)

  /** An entry is skipped when empty, and otherwise must split on `:` into exactly two parts. */
  predicate ValidEntry(entry: string) {
    entry == "" || |Split(entry, ':')| == 2
  }

  /** The class an entry names. */
  function ClassOf(entry: string): string {
    Split(entry, ':')[0]
  }

  /** The style an entry gives its class. */
  function StyleOf(entry: string): string
    requires entry != "" && ValidEntry(entry)
  {
    Split(entry, ':')[1]
  }

  /**
   * The loop of `read_style` over the entries, as a fold: the first invalid
   * entry is reported, and a later entry for a class overrides an earlier one.
   */
  function ReadEntries(entries: seq<string>): (r: Result<map<string, string>, StyleError>)
    ensures r.Ok? <==> forall i :: 0 <= i < |entries| ==> ValidEntry(entries[i])
    ensures r.Err? ==> exists i :: (0 <= i < |entries| && !ValidEntry(entries[i]) && r.error == InvalidStyle(entries[i])
      && forall j :: 0 <= j < i ==> ValidEntry(entries[j]))
    ensures r.Ok? ==> forall k :: k in r.value <==> exists i :: 0 <= i < |entries| && entries[i] != "" && ClassOf(entries[i]) == k
    decreases |entries|
  {
    if entries == [] then Ok(map[])
    else
      var init := entries[..|entries| - 1];
      var entry := Last(entries);
      assert forall i :: 0 <= i < |init| ==> entries[i] == init[i];
      match ReadEntries(init)
      case Err(e) => Err(e)
      case Ok(m) =>
        if entry == "" then Ok(m)
        else if |Split(entry, ':')| != 2 then Err(InvalidStyle(entry))
        else Ok(m[ClassOf(entry) := StyleOf(entry)])
  }

  /** `read_style`, up to the map handed to the style library. */
  function ReadStyle(s: string): (r: Result<map<string, string>, StyleError>)
    ensures r.Ok? <==> forall e :: e in Split(s, ' ') ==> ValidEntry(e)
    ensures r.Err? ==> !ValidEntry(r.error.entry) && r.error.entry in Split(s, ' ')
  {
    ReadEntries(Split(s, ' '))
  }

  /** The empty string gives no styles. */
  lemma EmptyStyle()
    ensures ReadStyle("") == Ok(map[])
  {
    SplitNoSep("", ' ');
  }

  /** An entry appended after the others overrides its class and leaves the other classes alone. */
  lemma LaterEntryOverrides(entries: seq<string>, entry: string)
    requires ReadEntries(entries).Ok? && entry != "" && ValidEntry(entry)
    ensures ReadEntries(entries + [entry]).Ok?
    ensures ReadEntries(entries + [entry]).value[ClassOf(entry)] == StyleOf(entry)
    ensures forall k :: k in ReadEntries(entries).value && k != ClassOf(entry) ==>
      ReadEntries(entries + [entry]).value[k] == ReadEntries(entries).value[k]
  {
    assert (entries + [entry])[..|entries|] == entries;
  }

  /** Empty entries, from doubled or surrounding spaces, change nothing. */
  lemma EmptyEntriesSkipped(entries: seq<string>)
    ensures ReadEntries(entries + [""]) == ReadEntries(entries)
  {
    assert (entries + [""])[..|entries|] == entries;
  }

  // ---------------------------------------------------------------------------
  // Writing a style string back

  /** A class or style that can be written in an entry: no space and no colon. */
  predicate Plain(s: string) {
    ' ' !in s && ':' !in s
  }

  /** One `class:style` entry. */
  function Entry(pair: (string, string)): string {
    pair.0 + ":" + pair.1
  }

  function Entries(pairs: seq<(string, string)>): (r: seq<string>)
    ensures |r| == |pairs|
    ensures forall i :: 0 <= i < |r| ==> r[i] == Entry(pairs[i])
  {
    seq(|pairs|, i requires 0 <= i < |pairs| => Entry(pairs[i]))
  }

  /** A style string from `(class, style)` pairs, one entry per pair. */
  function WriteStyle(pairs: seq<(string, string)>): string {
    Join(Entries(pairs), ' ')
  }

  /** The map the pairs describe, a later pair for a class winning. */
  function PairsMap(pairs: seq<(string, string)>): (m: map<string, string>)
    ensures forall i :: 0 <= i < |pairs| ==> pairs[i].0 in m
    decreases |pairs|
  {
    if pairs == [] then map[]
    else
      var init := pairs[..|pairs| - 1];
      assert forall i :: 0 <= i < |init| ==> pairs[i] == init[i];
      PairsMap(init)[Last(pairs).0 := Last(pairs).1]
  }

  /** An entry written from plain text reads back as its class and style. */
  lemma EntryParts(pair: (string, string))
    requires Plain(pair.0) && Plain(pair.1)
    ensures Split(Entry(pair), ':') == [pair.0, pair.1]
    ensures ' ' !in Entry(pair)
  {
    SplitFirstPart(pair.0, pair.1, ':');
    SplitNoSep(pair.1, ':');
  }

  lemma {:induction false} ReadEntriesOfPairs(pairs: seq<(string, string)>)
    requires forall i :: 0 <= i < |pairs| ==> Plain(pairs[i].0) && Plain(pairs[i].1)
    ensures ReadEntries(Entries(pairs)) == Ok(PairsMap(pairs))
    decreases |pairs|
  {
    if pairs != [] {
      var init := pairs[..|pairs| - 1];
      assert Entries(pairs)[..|pairs| - 1] == Entries(init);
      ReadEntriesOfPairs(init);
      EntryParts(Last(pairs));
    }
  }

  /** Writing plain pairs and reading them back gives the map they describe. */
  lemma WriteReadRoundTrip(pairs: seq<(string, string)>)
    requires forall i :: 0 <= i < |pairs| ==> Plain(pairs[i].0) && Plain(pairs[i].1)
    ensures ReadStyle(WriteStyle(pairs)) == Ok(PairsMap(pairs))
  {
    if pairs == [] {
      EmptyStyle();
    } else {
      forall i | 0 <= i < |pairs|
        ensures ' ' !in Entries(pairs)[i]
      {
        EntryParts(pairs[i]);
      }
      SplitJoin(Entries(pairs), ' ');
      ReadEntriesOfPairs(pairs);
    }
  }
}
