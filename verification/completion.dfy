/**
 * Tab completion: the line typed so far is split on spaces; a first word is
 * completed from the recognised commands, and the arguments of the commands
 * that take locations are completed from the listing of the location typed so far.
 */
module Completion {
  import opened Common
  import opened Text
  import opened Paths
  import Tokeniser
  import opened Bookmarks
  import Cli
  import Client

  /** Commands whose argument may be a single object. */
  const ExpectsKey: set<string> := {"cat", "file", "head", "rm"}

  /** Commands whose argument is a location: the key commands and those that only take prefixes. */
  const ExpectsS3Path: set<string> := {"cd", "ls", "ll"} + ExpectsKey

  /**
   * What completion sees of the shell: the current location, the bookmark store,
   * the listing client and the storage service behind it.
   */
  datatype Shell = Shell(current: S3Path, store: Option<Store>, client: Client.Client, backend: Client.Backend)

  /**
   * A completion request's outcome: the client afterwards (a listing may have been
   * remembered) and the candidate, None when `state` is past the last one, or the
   * reason the typed location could not be resolved.
   */
  datatype Outcome = Outcome(client: Client.Client, candidate: Result<Option<string>, Tokeniser.Error>)

  /** Local filesystem completion: the candidate numbered `state` for a partial local path. */
  type LocalCompleter = (string, nat) -> Option<string>

  /** The `state`-th element, or None past the end. */
  function Nth(xs: seq<string>, state: nat): (r: Option<string>)
    ensures r.Some? <==> state < |xs|
    ensures r.Some? ==> r.value == xs[state]
  {
    if state < |xs| then Some(xs[state]) else None
  }

  // ---------------------------------------------------------------------------
  // Commands

  function CommandMatches(cmd: string): (r: seq<string>)
    ensures forall i :: 0 <= i < |r| ==> r[i] in Cli.RecognisedCommands && StartsWith(r[i], cmd)
    ensures forall i :: (0 <= i < |Cli.RecognisedCommands| && StartsWith(Cli.RecognisedCommands[i], cmd)
      ==> Cli.RecognisedCommands[i] in r)
  {
    Filter(Cli.RecognisedCommands, (c: string) => StartsWith(c, cmd))
  }

  /** `complete_command`: the `state`-th recognised command that starts with what was typed. */
  function CompleteCommand(cmd: string, state: nat): (r: Option<string>)
    ensures r.Some? ==> r.value in Cli.RecognisedCommands && StartsWith(r.value, cmd)
    ensures r.None? <==> state >= |CommandMatches(cmd)|
  {
    Nth(CommandMatches(cmd), state)
  }

  /** With nothing typed, every recognised command is offered, in order. */
  lemma CompleteEmptyCommand(state: nat)
    ensures CompleteCommand("", state) == Nth(Cli.RecognisedCommands, state)
  {
    FilterAll(Cli.RecognisedCommands, (c: string) => StartsWith(c, ""));
  }

  /** Matching commands are offered in the order they are recognised. */
  lemma CommandsInOrder(cmd: string, s1: nat, s2: nat)
    requires s1 < s2 && CompleteCommand(cmd, s2).Some?
    ensures CompleteCommand(cmd, s1).Some?
    ensures InOrder(Cli.RecognisedCommands, CompleteCommand(cmd, s1).value, CompleteCommand(cmd, s2).value)
  {
    FilterOrder(Cli.RecognisedCommands, (c: string) => StartsWith(c, cmd), s1, s2);
  }

  /** A prefix no recognised command starts with offers nothing. */
  lemma UnknownCommandPrefix(cmd: string, state: nat)
    requires forall i :: 0 <= i < |Cli.RecognisedCommands| ==> !StartsWith(Cli.RecognisedCommands[i], cmd)
    ensures CompleteCommand(cmd, state) == None
  {
    var ms := CommandMatches(cmd);
    if ms != [] {
      assert ms[0] in Cli.RecognisedCommands;
    }
  }

  // ---------------------------------------------------------------------------
  // Locations

  /** The names offered from a listing: every entry's `str`, keys only when allowed. */
  function Candidates(entries: seq<Entry>, allowKeys: bool): (r: seq<string>)
    ensures forall i :: 0 <= i < |r| ==>
      exists e :: e in entries && (allowKeys || !IsKey(e)) && r[i] == EntryPathString(e)
    ensures forall e :: e in entries && (allowKeys || !IsKey(e)) ==> EntryPathString(e) in r
  {
    var kept := Filter(entries, (e: Entry) => allowKeys || !IsKey(e));
    var r := seq(|kept|, i requires 0 <= i < |kept| => EntryPathString(kept[i]));
    forall e | e in entries && (allowKeys || !IsKey(e))
      ensures EntryPathString(e) in r
    {
      var j :| 0 <= j < |entries| && entries[j] == e;
      var k :| 0 <= k < |kept| && kept[k] == e;
      assert r[k] == EntryPathString(e);
    }
    r
  }

  /** When keys are allowed, the candidates are the listing's names in listing order. */
  lemma CandidatesWithKeys(entries: seq<Entry>)
    ensures Candidates(entries, true) == seq(|entries|, i requires 0 <= i < |entries| => EntryPathString(entries[i]))
  {
    FilterAll(entries, (e: Entry) => true || !IsKey(e));
  }

  /**
   * `complete_s3_path`: resolve what was typed like any path, list it (in fragment
   * mode unless it ends with `/`) and offer the `state`-th name.
   */
  function CompleteS3Path(sh: Shell, partial: string, state: nat, allowKeys: bool): (r: Outcome)
    ensures Cli.NormalisePath(sh.current, sh.store, partial).Err? ==>
      r == Outcome(sh.client, Err(Cli.NormalisePath(sh.current, sh.store, partial).error))
    ensures Cli.NormalisePath(sh.current, sh.store, partial).Ok? ==>
      var l := Client.Ls(sh.client, sh.backend, Cli.NormalisePath(sh.current, sh.store, partial).value, !EndsWith(partial, "/"));
      && r.client == l.client
      && r.candidate == Ok(Nth(Candidates(l.entries, allowKeys), state))
      && (r.candidate.value.Some? ==>
            exists e :: e in l.entries && (allowKeys || !IsKey(e)) && r.candidate.value.value == EntryPathString(e))
  {
    match Cli.NormalisePath(sh.current, sh.store, partial)
    case Err(e) => Outcome(sh.client, Err(e))
    case Ok(p) =>
      var l := Client.Ls(sh.client, sh.backend, p, !EndsWith(partial, "/"));
      var names := Candidates(l.entries, allowKeys);
      var c := Nth(names, state);
      assert c.Some? ==> c.value == names[state];
      Outcome(l.client, Ok(c))
  }

  // ---------------------------------------------------------------------------
  // put and get

  predicate IsFlag(w: string) {
    StartsWith(w, "-")
  }

  predicate IsArg(w: string) {
    !IsFlag(w)
  }

  /** The arguments of a `put` or `get` line, flags left out. */
  function PutGetArgs(words: seq<string>): (r: seq<string>)
    requires |words| >= 1
    ensures forall i :: 0 <= i < |r| ==> !IsFlag(r[i]) && r[i] in words[1..]
    ensures forall i :: 1 <= i < |words| && !IsFlag(words[i]) ==> words[i] in r
    ensures |r| <= |words| - 1
  {
    Filter(words[1..], IsArg)
  }

  /**
   * The arguments, word by word: the command alone has none, and each further word
   * adds itself at the end unless it is a flag. This fixes their number and the last
   * one, which `CompletePutGet` dispatches on.
   */
  lemma {:induction false} PutGetArgsSnoc(words: seq<string>, w: string)
    requires |words| >= 1
    ensures PutGetArgs([words[0]]) == []
    ensures PutGetArgs(words + [w]) == PutGetArgs(words) + (if IsFlag(w) then [] else [w])
  {
    assert [words[0]][1..] == [];
    assert (words + [w])[1..] == words[1..] + [w];
    FilterConcat(words[1..], [w], IsArg);
    assert [w][1..] == [];
  }

  /**
   * `complete_put_get`: `get` takes the remote location first and `put` second; the
   * argument being typed is the last one and its position picks the completer.
   */
  function CompletePutGet(sh: Shell, local: LocalCompleter, words: seq<string>, state: nat, s3First: bool): (r: Outcome)
    requires |words| >= 1
    ensures var args := PutGetArgs(words);
      && ((s3First && |args| == 1) || (!s3First && |args| == 2) ==> r == CompleteS3Path(sh, Last(args), state, true))
      && ((s3First && |args| == 2) || (!s3First && |args| == 1) ==> r == Outcome(sh.client, Ok(local(Last(args), state))))
      && (|args| == 0 || |args| > 2 ==> r == Outcome(sh.client, Ok(None)))
  {
    var args := PutGetArgs(words);
    if (s3First && |args| == 1) || (!s3First && |args| == 2) then
      CompleteS3Path(sh, args[|args| - 1], state, true)
    else if (s3First && |args| == 2) || (!s3First && |args| == 1) then
      Outcome(sh.client, Ok(local(args[|args| - 1], state)))
    else
      Outcome(sh.client, Ok(None))
  }

  /** Inserting a flag word after the command leaves the arguments as they were. */
  lemma {:induction false} FlagArgsIgnored(words: seq<string>, i: nat, flag: string)
    requires 1 <= i <= |words| && IsFlag(flag)
    ensures PutGetArgs(words[..i] + [flag] + words[i..]) == PutGetArgs(words)
  {
    var a := words[1..i];
    var b := words[i..];
    assert (words[..i] + [flag] + words[i..])[1..] == (a + [flag]) + b;
    assert words[1..] == a + b;
    FilterConcat(a + [flag], b, IsArg);
    FilterConcat(a, [flag], IsArg);
    FilterConcat(a, b, IsArg);
    FilterFlag(flag);
  }

  lemma FilterFlag(flag: string)
    requires IsFlag(flag)
    ensures Filter([flag], IsArg) == []
  {
    assert [flag][1..] == [];
  }

  /** A flag word anywhere after the command changes nothing about what `put`/`get` completes. */
  lemma FlagsIgnored(sh: Shell, local: LocalCompleter, words: seq<string>, i: nat, flag: string, state: nat, s3First: bool)
    requires 1 <= i <= |words| && IsFlag(flag)
    ensures CompletePutGet(sh, local, words[..i] + [flag] + words[i..], state, s3First)
         == CompletePutGet(sh, local, words, state, s3First)
  {
    FlagArgsIgnored(words, i, flag);
  }

  // ---------------------------------------------------------------------------
  // Dispatch

  /**
   * `complete` on the words of the line buffer: one word is a command being
   * typed; otherwise the command picks the completer for the last word, and
   * other commands complete nothing.
   */
  function Dispatch(sh: Shell, local: LocalCompleter, words: seq<string>, state: nat): (r: Outcome)
    requires |words| >= 1
    ensures |words| == 1 ==> r == Outcome(sh.client, Ok(CompleteCommand(words[0], state)))
    ensures |words| > 1 && words[0] in ExpectsS3Path ==>
      r == CompleteS3Path(sh, Last(words), state, words[0] in ExpectsKey)
    ensures |words| > 1 && words[0] == "put" ==> r == CompletePutGet(sh, local, words, state, false)
    ensures |words| > 1 && words[0] == "get" ==> r == CompletePutGet(sh, local, words, state, true)
    ensures |words| > 1 && words[0] !in ExpectsS3Path + {"put", "get"} ==> r == Outcome(sh.client, Ok(None))
  {
    var cmd := words[0];
    TransfersTakeNoLocation();
    if |words| == 1 then Outcome(sh.client, Ok(CompleteCommand(cmd, state)))
    else if cmd == "put" then CompletePutGet(sh, local, words, state, false)
    else if cmd == "get" then CompletePutGet(sh, local, words, state, true)
    else if cmd in ExpectsS3Path then CompleteS3Path(sh, Last(words), state, cmd in ExpectsKey)
    else Outcome(sh.client, Ok(None))
  }

  /** The line buffer splits into more than one word exactly when it holds a space. */
  lemma SpaceSplits(buffer: string)
    ensures ' ' in buffer <==> |Split(buffer, ' ')| > 1
    ensures ' ' !in buffer ==> Split(buffer, ' ') == [buffer]
  {
    if ' ' !in buffer {
      SplitNoSep(buffer, ' ');
    }
  }

  /**
   * `complete`, on the line buffer readline holds: without a space the command
   * is being typed; after one the command picks the completer for the last word.
   */
  function Complete(sh: Shell, local: LocalCompleter, buffer: string, state: nat): (r: Outcome)
    ensures ' ' !in buffer ==> r == Outcome(sh.client, Ok(CompleteCommand(buffer, state)))
    ensures ' ' in buffer && Split(buffer, ' ')[0] in ExpectsS3Path ==>
      r == CompleteS3Path(sh, Last(Split(buffer, ' ')), state, Split(buffer, ' ')[0] in ExpectsKey)
    ensures ' ' in buffer && Split(buffer, ' ')[0] == "put" ==>
      r == CompletePutGet(sh, local, Split(buffer, ' '), state, false)
    ensures ' ' in buffer && Split(buffer, ' ')[0] == "get" ==>
      r == CompletePutGet(sh, local, Split(buffer, ' '), state, true)
    ensures ' ' in buffer && Split(buffer, ' ')[0] !in ExpectsS3Path + {"put", "get"} ==>
      r == Outcome(sh.client, Ok(None))
  {
    SpaceSplits(buffer);
    Dispatch(sh, local, Split(buffer, ' '), state)
  }

  /** `put` and `get` have their own completer. */
  lemma TransfersTakeNoLocation()
    ensures "put" !in ExpectsS3Path && "get" !in ExpectsS3Path
  {
    assert "put"[0] == 'p' && "get"[0] == 'g';
  }

  /** Completing a location keeps the memo free of empty listings. */
  lemma CompleteS3PathKeepsNoEmpty(sh: Shell, partial: string, state: nat, allowKeys: bool)
    requires Client.NoEmptyListings(sh.client)
    ensures Client.NoEmptyListings(CompleteS3Path(sh, partial, state, allowKeys).client)
  {
    match Cli.NormalisePath(sh.current, sh.store, partial)
    case Err(_) =>
    case Ok(p) =>
      Client.LsKeepsNoEmpty(sh.client, sh.backend, p, !EndsWith(partial, "/"));
  }

  /** Completion keeps the memo free of empty listings. */
  lemma CompleteKeepsNoEmpty(sh: Shell, local: LocalCompleter, buffer: string, state: nat)
    requires Client.NoEmptyListings(sh.client)
    ensures Client.NoEmptyListings(Complete(sh, local, buffer, state).client)
  {
    var words := Split(buffer, ' ');
    if |words| > 1 {
      if words[0] in {"put", "get"} {
        var args := PutGetArgs(words);
        if |args| > 0 {
          CompleteS3PathKeepsNoEmpty(sh, Last(args), state, true);
        }
      } else if words[0] in ExpectsS3Path {
        CompleteS3PathKeepsNoEmpty(sh, Last(words), state, words[0] in ExpectsKey);
      }
    }
  }

  /** `cd`, `ls` and `ll` only ever offer buckets and prefixes, never a single object. */
  lemma PrefixCommandsOfferNoKeys(sh: Shell, local: LocalCompleter, buffer: string, state: nat)
    requires ' ' in buffer && Split(buffer, ' ')[0] in {"cd", "ls", "ll"}
    ensures var r := Complete(sh, local, buffer, state);
      var partial := Last(Split(buffer, ' '));
      r.candidate.Ok? && r.candidate.value.Some? ==>
        && Cli.NormalisePath(sh.current, sh.store, partial).Ok?
        && exists e :: e in Client.Ls(sh.client, sh.backend, Cli.NormalisePath(sh.current, sh.store, partial).value, !EndsWith(partial, "/")).entries
             && !IsKey(e) && r.candidate.value.value == EntryPathString(e)
  {
    var words := Split(buffer, ' ');
    var cmd := words[0];
    assert cmd in ExpectsS3Path && cmd !in ExpectsKey;
    assert Complete(sh, local, buffer, state) == CompleteS3Path(sh, Last(words), state, false);
  }
}
