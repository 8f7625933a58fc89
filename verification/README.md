# s3-browser core, modelled in Dafny

This project models the core of `s3-browser`, an interactive shell for
browsing an S3 object store. It leaves out the shell's REPL and covers the
pure logic the shell relies on:

- **Tokeniser** (`tokeniser.dfy`). The character-by-character scanner splits
  a typed path into raw text and `$name` / `${name}` bookmark references.
  `render` then substitutes the references from a name-to-path context.
- **Paths** (`paths.dfy`). `S3Path` is a bucket plus a normalised key. It is
  parsed from `s3://bucket/key` or `/bucket/key` text, with lexical `.`/`..`
  removal. It has three renderings: `canonical`, `path_string` and
  `short_format`. Equality compares canonical strings. The bucket, prefix and
  key listing entries are modelled too.
- **Path resolution** (`cli.dfy`). `normalise_path` expands bookmarks, strips
  the protocol and handles `~`. It joins relative text onto the current
  location and normalises the result. This file also holds `override_prompt`
  and the list of recognised commands.
- **Listing client** (`client.dfy`). This is the memo of `ls` results, keyed
  by the location's `path_string` and the fragment flag. It also covers the
  search prefix and trimming arithmetic, `clear_cache` and `is_path`. The
  storage service is a parameter: its bucket names and a listing function.
- **Completion** (`completion.dfy`). This is tab completion of commands and
  of location arguments. It includes the positional choice between remote and
  local completion for `put`/`get`. The line buffer and the local-filesystem
  completer are parameters.
- **Bookmarks** (`bookmarks.dfy`). This covers key validation, and add and
  remove on a store that may be unavailable. It also covers the cleaning of
  the decoded bookmark document and what `load` makes of the bookmark file.
- **Prompt style** (`ps1.dfy`). `read_style` reads `class:style` entries into
  a map.
- **Utilities** (`utils.dfy`). These are the content-type allow-list,
  `pretty_size`, `strip_s3_metadata`, and the column layout of `print_grid`
  with the terminal width as a parameter.

`common.dfy` holds `Option` and `Result`. `text.dfy` holds Python's
`str.split`, `sep.join`, `startswith` and list filtering, with their laws.

Everything is an immutable datatype and a pure function, apart from a few
methods with loops: `Bookmarks.ValidateKey`, `Utils.IsSafeContentType`,
`Utils.GridRows`, `Utils.FillColumn`, `Utils.RenderRow` and `Utils.PrintGrid`. Stateful objects
are modelled as values, with the new state in the result. Examples are the
listing memo (`Client.Client`) and the bookmark store (`Bookmarks.Store`).

## Model

| member | source | states |
|---|---|---|
| Tokeniser.Tokenise | s3_browser/tokeniser.py:1-69 | every successful result is well formed: no raw string is empty and no two raw strings are adjacent |
| Tokeniser.RunInv | s3_browser/tokeniser.py:9-60 | the scanner's flags stay consistent on any input: braced implies inside a variable; inside a variable no escape is pending; the pieces emitted so far end in raw text only while a variable is open |
| Tokeniser.Render | s3_browser/tokeniser.py:72-90 | rendering succeeds exactly when every piece is non-empty raw text or a name in the context; otherwise the error names the first piece that is not |
| Tokeniser.RenderConcat | s3_browser/tokeniser.py:78-90 | rendering a concatenation of pieces succeeds iff both parts do, and then yields the two texts in order |
| Tokeniser.RenderToken | s3_browser/tokeniser.py:85-88 | a single reference renders as its context value, or fails with the unknown-token error naming it |
| Tokeniser.RenderRaw | s3_browser/tokeniser.py:80-88 | a raw piece renders as its own text; an empty one has no value and fails as not a token |
| Tokeniser.DollarFreeTokenise | s3_browser/tokeniser.py:9-29 | input without `$` gives at most one raw string: the input minus an unpaired final backslash (a backslash before any other character is kept) |
| Tokeniser.DollarFreeExpand | s3_browser/tokeniser.py:1-90 | expanding input without `$` gives the input back, whatever the context, when it does not end in a lone backslash |
| Tokeniser.EscapeOne | s3_browser/tokeniser.py:11-28 | `\$` adds a literal `$` to the pending text, and any other character adds itself |
| Tokeniser.BareVariable | s3_browser/tokeniser.py:46-60 | `$name` with identifier characters is one token holding the whole name |
| Tokeniser.AdjacentVariables | s3_browser/tokeniser.py:46-55 | `$a$b` is two adjacent tokens: the second `$` ends one name and opens the next |
| Tokeniser.VariableThenText | s3_browser/tokeniser.py:46-58 | a character that cannot extend a name ends the token and starts new raw text; straight after `$` it yields a token with an empty name |
| Tokeniser.RunBraced | s3_browser/tokeniser.py:31-44 | `${name}` flushes the pending raw text and emits the name verbatim, whatever characters it holds other than `}` |
| Tokeniser.TrailingDollar | s3_browser/tokeniser.py:62-69 | a trailing `$` with no name is dropped silently |
| Tokeniser.UnclosedBraceFails | s3_browser/tokeniser.py:63-64 | `${` that is never closed is an error, whatever plain text came before it |
| Tokeniser.UnparseTokenise | s3_browser/tokeniser.py:1-69 | round trip for well-formed pieces whose raw text holds no backslash and whose names hold no `}` and do not start with `{`: writing them back as input (`$` escaped, names braced) and tokenising gives the same pieces |
| Tokeniser.UnparseExpand | s3_browser/tokeniser.py:72-90 | expanding the written-back pieces renders exactly as the pieces themselves do |
| Paths.Make | s3_browser/paths.py:25-27 | the constructor keeps the bucket and stores a key with no empty, `.` or `..` component, none for a missing or empty path |
| Paths.FromPath | s3_browser/paths.py:31-42 | the parsed key is normalised, there is never a key without a bucket, and the bucket is never empty, `.` or holds `/` |
| Paths.FromPathRoot | s3_browser/paths.py:31-39 | `""`, `/`, `.` and `s3://` all parse to the path with no bucket and no key |
| Paths.FromPathComponents | s3_browser/paths.py:31-42 | after `s3://` or `/`, the first clean component is the bucket and the rest, joined, the key; the key is None when nothing follows the bucket |
| Paths.NormaliseShape | s3_browser/paths.py:35 | absolute normalisation leaves only clean components; relative normalisation keeps `..` only as a leading run |
| Paths.NormaliseIdempotent | s3_browser/paths.py:35 | normalising twice is the same as normalising once |
| Paths.NormaliseParent | s3_browser/paths.py:27 | `..` removes exactly the last clean component, and at the root it does nothing, so a key cannot climb above its bucket |
| Paths.Canonical | s3_browser/paths.py:54-60 | `canonical`: `s3://`, then the bucket, `/` and the key when there is a bucket; its root is stated by `Paths.RenderingRoots`, and its inverse by `Paths.RenderingsRoundTrip` |
| Paths.PathString | s3_browser/paths.py:65-73 | `path_string` and `str`: `/`, then the bucket, `/` and the key when there is a bucket; its root is stated by `Paths.RenderingRoots`, its inverse by `Paths.RenderingsRoundTrip`, and its tie to `canonical` by `Paths.CanonicalIsPathString` |
| Paths.RenderingRoots | s3_browser/paths.py:54-70 | `canonical` starts with `s3://` and `path_string` with `/`; each is that root alone exactly when there is no bucket |
| Paths.Equal | s3_browser/paths.py:62-63 | two paths are equal exactly when their `path_string`s are, since both renderings differ only in the root |
| Paths.RenderingsRoundTrip | s3_browser/paths.py:54-70 | both `canonical` and `path_string` of a navigable location parse back to that location |
| Paths.CanonicalIsPathString | s3_browser/paths.py:54-70 | `canonical` is `s3:/` followed by `path_string`, for every path |
| Paths.EqualIff | s3_browser/paths.py:62-63 | two paths are equal iff both lack a bucket, or they share the bucket and the key text, so a key of None equals a key of `""` |
| Paths.ShortFormat | s3_browser/paths.py:44-52 | `short_format` is `/` exactly when there is no bucket, and otherwise starts with the bucket and `/`; `Paths.ShortFormatComponents` gives the rest |
| Paths.ShortFormatComponents | s3_browser/paths.py:44-52 | `short_format` is `bucket/…/last` when the key has two or more components, else `bucket/key` or `bucket/` |
| Paths.ShortFormatRoot | s3_browser/paths.py:46-47 | without a bucket, `short_format` is `/` |
| Paths.Name | s3_browser/paths.py:28 | a present name is non-empty, holds no `/` and ends the key; a key of one component is its own name |
| Paths.NameOfLocated | s3_browser/paths.py:28 | `name` is present exactly when there is a key, and is then its last component |
| Paths.BucketEntryRoundTrip | s3_browser/paths.py:112-117 | a bucket entry renders as `/name/`, parses back to that bucket's root, and is not a key |
| Cli.ResolveAsWritten | s3_browser/cli.py:72-81 | as written: the result is always a valid path; the cases are stated by `Cli.ResolveTilde`, `Cli.ResolveRelative`, `Cli.ResolvePathString` and `Cli.CanonicalRelativeAsWritten` |
| Cli.Resolve | s3_browser/cli.py:72-81 | corrected resolution: the result is always a valid path; the cases are stated by `Cli.ResolveTilde`, `Cli.ResolveAbsolute`, `Cli.ResolveRelative` and `Cli.ResolveRenderings` |
| Cli.NormalisePathAsWritten | s3_browser/cli.py:64-81 | as written: an unavailable store always raises an AttributeError; with any other store it succeeds exactly when the corrected `normalise_path` does, with a valid path |
| Cli.NormalisePath | s3_browser/cli.py:64-81 | corrected resolution: a success is a valid path, and text without `$` never fails |
| Cli.ResolveTilde | s3_browser/cli.py:76-78 | `~` and `~/`, with or without the protocol, name the root of the current bucket, or the empty path without a bucket |
| Cli.ResolveAbsolute | s3_browser/cli.py:72-81 | corrected resolution: text starting with `/`, or carrying the protocol, resolves the same from every current location, unless what follows the protocol is `~`; as written, only the `/` half holds (`Cli.CanonicalRelativeAsWritten`) |
| Cli.ResolveRelative | s3_browser/cli.py:80-81 | relative text is appended to the current location's components and normalised left to right |
| Cli.ResolveDot | s3_browser/cli.py:80-81 | `.` resolves to the current location |
| Cli.ParentNormalised | s3_browser/cli.py:80-81 | `..` is relative text: it is appended to the current components and normalised |
| Cli.ResolveParent | s3_browser/cli.py:80-81 | `..` drops the last component, and from a bucket root it reaches the empty path |
| Cli.ResolveChild | s3_browser/cli.py:80-81 | clean components typed at the prompt name the current location extended by them |
| Cli.ResolvePathString | s3_browser/cli.py:72-81 | a location's `path_string` resolves back to that location from anywhere, both as written and corrected |
| Cli.CanonicalRelativeAsWritten | s3_browser/cli.py:72-81 | as written, `s3://bucket/key` is appended to the current location instead of naming that bucket |
| Cli.ProtocolBucketAsWritten | s3_browser/cli.py:72-81 | from the root of bucket `a`, `s3://b` names key `b` inside `a` as written, and bucket `b` once corrected |
| Cli.ResolveRenderings | s3_browser/cli.py:72-81 | corrected, both the `path_string` and the `canonical` rendering of a location resolve back to it from anywhere |
| Cli.ResolveAgrees | s3_browser/cli.py:72-81 | the corrected resolution differs from the written one only on protocol text followed by a relative remainder |
| Cli.Context | s3_browser/cli.py:66-69 | the bookmark context maps each bookmark name of an available store to its stored path, and is empty without a store; corrected, it is also empty for an unavailable store, where the written code raises (`Cli.UnavailableStoreAsWritten`) |
| Cli.UnavailableStoreAsWritten | s3_browser/cli.py:66-69 | as written, an unavailable bookmark store makes every resolution fail with an AttributeError |
| Cli.UnavailableStoreIgnored | s3_browser/cli.py:66-69 | corrected, an unavailable store resolves like no store; every other store gives the context the written code builds |
| Cli.PlainPath | s3_browser/cli.py:64-81 | corrected resolution: text without `$` or a lone trailing backslash resolves as typed, whatever the bookmark store, an unavailable one included |
| Cli.BookmarkReference | s3_browser/cli.py:64-81 | `$name` resolves the bookmark's stored path, or fails with the unknown-token error naming it |
| Cli.BracedReference | s3_browser/tokeniser.py:31-41 | `${name}` is a single reference for every name that passes bookmark validation |
| Cli.BookmarkRoundTrip | s3_browser/cli.py:64-81 | a bookmark just added under a valid name, referenced as `${name}`, resolves to the bookmarked location |
| Cli.OverridePrompt | s3_browser/cli.py:221-225 | without arguments the prompt is the default; otherwise it ends in a space |
| Cli.PromptWords | s3_browser/cli.py:221-225 | when no argument holds a space, the prompt minus its final space splits on spaces into exactly the arguments |
| Bookmarks.ValidateKey | s3_browser/bookmarks.py:55-57 | a name is accepted iff it is 1 to 16 characters, starts with a letter, digit or `_`, and continues with those or `-`, optionally followed by one newline |
| Bookmarks.ValidKeyBraced | s3_browser/bookmarks.py:11 | a valid name never holds `}` and never starts with `{` |
| Bookmarks.AddBookmark | s3_browser/bookmarks.py:27-40 | on an unavailable store nothing changes and the result is False; otherwise the name maps to the path's `path_string`, every other name is unchanged, and the result is True |
| Bookmarks.AddTwice | s3_browser/bookmarks.py:33-37 | adding under one name twice keeps only the second bookmark |
| Bookmarks.RemoveBookmark | s3_browser/bookmarks.py:42-53 | the result is True iff the store is available and has the name; then exactly that entry is gone, otherwise nothing changes |
| Bookmarks.RemoveAsWritten | s3_browser/bookmarks.py:42-53 | as written: it raises exactly when the store is unavailable; otherwise it reports True exactly when the name was present, and then only that entry is removed |
| Bookmarks.RemoveAsWrittenRaises | s3_browser/bookmarks.py:42-47 | as written, removal from an unavailable store raises a TypeError; on an available store it agrees with the corrected removal |
| Bookmarks.AddThenRemove | s3_browser/bookmarks.py:27-53 | removing a name just added restores a store that did not have it |
| Bookmarks.CleanEntry | s3_browser/bookmarks.py:106-114 | a cleaned bookmark's path is the entry's `path` string; it has a creation time exactly when `created_on` is a string |
| Bookmarks.ExtraMembersIgnored | s3_browser/bookmarks.py:106-114 | members other than `path`, `created_on` and `self` do not affect the cleaned bookmark |
| Bookmarks.CleanEntries | s3_browser/bookmarks.py:59-61 | cleaning succeeds iff every bound name cleans from its last binding; the result has exactly the bound names, each mapped to that bookmark; a failure reports the first failing name in first-binding order |
| Bookmarks.Names | s3_browser/bookmarks.py:61 | the names a decoded object's dict iterates are exactly the bound names, each once |
| Bookmarks.NamesInFirstBindingOrder | s3_browser/bookmarks.py:61 | the dict iterates names in the order of their first binding |
| Bookmarks.CleanData | s3_browser/bookmarks.py:59-61 | a document that is not an object, or whose `bookmarks` member is not an object, raises an AttributeError; a missing `bookmarks` member gives no bookmarks; otherwise the entries are cleaned |
| Bookmarks.LoadEntries | s3_browser/bookmarks.py:63-93 | a document with a `bookmarks` object loads as an available store iff every bound name cleans from its last binding; an escaping error is one a name's cleaning raised |
| Bookmarks.LastBindingWins | s3_browser/bookmarks.py:59-61 | an earlier binding of a name that would not clean is ignored: only the last binding is read |
| Bookmarks.FirstPositionFailsFirst | s3_browser/bookmarks.py:59-61 | a name bound twice fails at the position of its first binding, before a name bound in between |
| Bookmarks.NoBookmarksMember | s3_browser/bookmarks.py:59-61 | a document without a `bookmarks` member loads as an empty, available store |
| Bookmarks.Load | s3_browser/bookmarks.py:63-93 | a missing file is an empty store; read or decode errors leave the store unavailable; a decoded document gives an available store iff `clean_data` succeeds on it; an AttributeError never escapes |
| Bookmarks.MissingPathRaises | s3_browser/bookmarks.py:80-93 | an entry without `path` makes loading raise a TypeError rather than report the store unavailable |
| Bookmarks.SaveLoadRoundTrip | s3_browser/bookmarks.py:95-103 | loading the document `save` writes gives back the saved map |
| Client.SearchPrefix | s3_browser/client.py:54-57 | the prefix asked of the service is the key plus `/` (or `""`) normally, and the key itself (or `""`) in fragment mode |
| Client.TrimLength | s3_browser/client.py:59-60 | the trim length is one past the last `/` of the search prefix, and 0 when it has none |
| Client.TrimWholePrefix | s3_browser/client.py:54-60 | outside fragment mode the whole search prefix is trimmed from each returned name |
| Client.TrimLeavesLastComponent | s3_browser/client.py:59-60 | what trimming leaves of the search prefix is its last `/`-separated component |
| Client.TrimRestores | s3_browser/client.py:72-79 | a returned name under the search prefix is rebuilt by putting the trimmed part back in front |
| Client.Fetch | s3_browser/client.py:40-85 | buckets are listed without a bucket, or in fragment mode at a bucket root, filtered to those starting with the typed bucket; otherwise the result is the trimmed prefixes and then the trimmed keys |
| Client.ObjectEntries | s3_browser/client.py:72-85 | the entries are every common prefix, then every object except the search prefix itself, in order, each trimmed by the same length |
| Client.ObjectEntriesSound | s3_browser/client.py:76-80 | every key entry comes from a listed object other than the search prefix |
| Client.ObjectEntriesComplete | s3_browser/client.py:76-80 | every listed object other than the search prefix appears among the key entries |
| Client.Ls | s3_browser/client.py:24-91 | a remembered listing is returned without asking the service; otherwise the listing is fetched and remembered only when non-empty; no other memo entry changes |
| Client.LsTwice | s3_browser/client.py:31-36 | a second `ls` of a non-empty listing comes from the memo, unchanged, whatever the service now holds |
| Client.EmptyListingRefetched | s3_browser/client.py:87-91 | an empty listing is not remembered, so the next `ls` asks the service again |
| Client.LsKeepsNoEmpty | s3_browser/client.py:87-89 | `ls` keeps the memo free of empty listings |
| Client.ModesSeparate | s3_browser/client.py:31 | an `ls` in one mode never adds or removes the memo entry of the other mode |
| Client.LsEqualLocations | s3_browser/client.py:31 | equal locations share one memo entry and one listing, so `ls` answers them identically |
| Client.ClearCache | s3_browser/client.py:19-22 | the memo is empty afterwards, and the count returned is the number of entries it held |
| Client.ClearThenLs | s3_browser/client.py:19-36 | after `clear_cache` every `ls` asks the service |
| Client.IsPath | s3_browser/client.py:104-106 | a location exists iff its normal-mode listing is non-empty; a remembered location exists without a request |
| Completion.CompleteCommand | s3_browser/completion.py:19-30 | a candidate is a recognised command starting with the typed text, and there is none once `state` passes the number of matches |
| Completion.CommandsInOrder | s3_browser/completion.py:24-28 | matches are offered in the order the commands are recognised |
| Completion.CompleteEmptyCommand | s3_browser/completion.py:19-30 | with nothing typed, every recognised command is offered, in order |
| Completion.UnknownCommandPrefix | s3_browser/completion.py:19-30 | a prefix that starts no recognised command offers nothing |
| Completion.Candidates | s3_browser/completion.py:48-54 | the names offered are exactly the `str` of the listed entries, keys included only when allowed |
| Completion.CandidatesWithKeys | s3_browser/completion.py:48-54 | when keys are allowed, the candidates are the listing's names in listing order |
| Completion.CompleteS3Path | s3_browser/completion.py:32-55 | the typed text is resolved with the corrected resolution; the listing is asked in fragment mode unless it ends in `/`; the candidate is the `state`-th allowed name, or the resolution error |
| Completion.PutGetArgs | s3_browser/completion.py:87 | the arguments are words after the command that do not start with `-`, and every such word is among them; `Completion.PutGetArgsSnoc` fixes their order and number |
| Completion.PutGetArgsSnoc | s3_browser/completion.py:87-88 | the command alone has no arguments, and each further word is appended unless it is a flag; this fixes the count and the last argument that completion dispatches on |
| Completion.CompletePutGet | s3_browser/completion.py:80-96 | `get` completes its first argument remotely (keys allowed) and its second locally; `put` the reverse; any other count gives nothing |
| Completion.FlagsIgnored | s3_browser/completion.py:87-88 | inserting a flag anywhere after the command changes nothing about what `put`/`get` completes |
| Completion.Dispatch | s3_browser/completion.py:111-130 | on the split words: one word completes the command; `put` and `get` complete their arguments; a location command completes its last word, keys allowed for the key commands; any other command gives nothing |
| Completion.Complete | s3_browser/completion.py:102-130 | without a space the command is completed; with one, `put`/`get` and the location commands complete the last word (paths with the corrected resolution), and any other command gives nothing |
| Completion.SpaceSplits | s3_browser/completion.py:111-115 | the buffer splits into more than one word exactly when it holds a space |
| Completion.PrefixCommandsOfferNoKeys | s3_browser/completion.py:123-128 | `cd`, `ls` and `ll` offer only buckets and prefixes of the listing, never a key |
| Completion.CompleteKeepsNoEmpty | s3_browser/completion.py:48-52 | completing keeps the listing memo free of empty listings |
| Ps1.ReadEntries | s3_browser/ps1.py:7-16 | reading succeeds iff every entry is empty or one `:`-separated pair; the error reports the first bad entry; the classes are those of the non-empty entries |
| Ps1.ReadStyle | s3_browser/ps1.py:4-18 | a style string reads iff every space-separated entry is valid, and an error names an invalid entry of the string |
| Ps1.EmptyStyle | s3_browser/ps1.py:7-9 | the empty string gives no styles |
| Ps1.LaterEntryOverrides | s3_browser/ps1.py:16 | a later entry for a class overrides it and leaves the other classes alone |
| Ps1.EmptyEntriesSkipped | s3_browser/ps1.py:8-9 | empty entries, from doubled or surrounding spaces, change nothing |
| Ps1.WriteReadRoundTrip | s3_browser/ps1.py:4-18 | writing `class:style` pairs without spaces or colons and reading them back gives the map they describe, a later pair for a class winning |
| Utils.IsSafeContentType | s3_browser/utils.py:13-22 | a content type is safe iff it is present, non-empty and starts with one of the four allowed prefixes |
| Utils.UnitFrom | s3_browser/utils.py:91-96 | scanning from a given unit, the unit chosen is the first at which the size, divided by 1024 per unit passed, is at most 1023, and TB otherwise |
| Utils.RoundHalfEven | s3_browser/utils.py:93 | rounding gives the nearest integer, a tie going to the even one |
| Utils.Shorten | s3_browser/utils.py:83-98 | the unit is the first one at which the size is at most 1023 of it, or TB when none is; the printed count is the size divided by 1024 per unit, rounded half to even |
| Utils.PrettySize | s3_browser/utils.py:83-98 | the text splits at its one space into the decimal count of `Utils.Shorten`, which parses back, and its unit |
| Utils.SmallSizesExact | s3_browser/utils.py:91-93 | sizes up to 1023 print exactly, in bytes |
| Utils.CountInRange | s3_browser/utils.py:91-96 | below TB, a size larger than 1023 bytes prints a count from 1 to 1023 |
| Utils.JustUnderMebibyte | s3_browser/utils.py:88-98 | one byte short of a mebibyte prints as `1 MB` |
| Utils.TwoPebibytes | s3_browser/utils.py:91-96 | beyond TB the count keeps growing: two pebibytes print as `2048 TB` |
| Utils.ParseIntString | s3_browser/utils.py:106-109 | the decimal text of an integer parses back to that integer |
| Utils.StripS3Metadata | s3_browser/utils.py:101-116 | the result is defined iff the content length is empty, missing or an integer; the type, last-modified header and metadata are passed through unchanged |
| Utils.StripLength | s3_browser/utils.py:106-109 | a declared length of `n` bytes shows as the readable size followed by `(n bytes)` |
| Utils.StripMissingLength | s3_browser/utils.py:106-109 | without a content length the object shows as `0 B (0 bytes)` |
| Utils.Longest | s3_browser/utils.py:29-31 | the width is at least every item's length and equals some item's length, 0 for no items |
| Utils.LJust | s3_browser/utils.py:47 | padding keeps the text and adds spaces up to the width, never truncating |
| Utils.Heights | s3_browser/utils.py:48-53 | each column holds the items divided by the columns, plus one for each of the first remainder columns |
| Utils.HeightsTotal | s3_browser/utils.py:48-53 | the column heights add up to the number of items |
| Utils.HeightsBalanced | s3_browser/utils.py:48-53 | column heights never grow left to right and differ by at most one |
| Utils.GridRows | s3_browser/utils.py:55-60 | the layout has as many rows as the first column is high; row `j` holds the `j`-th item of each column reaching it, column-major |
| Utils.CellInRange | s3_browser/utils.py:55-60 | every cell of the layout names an existing item |
| Utils.EveryItemOnce | s3_browser/utils.py:55-60 | every item lies in exactly one column |
| Utils.PrintGrid | s3_browser/utils.py:25-63 | with at most one column every item is printed as is; otherwise row `j` holds the `j`-th item of each reaching column, padded to the longest item plus one |

## Left out

- The REPL and its commands (`prompt`, `read_loop`, `exit`, `clear`, `cd`, `ls`, the bookmark command, `print_head_data`, `main`) are not modelled. They consist of readline, `input`, `sys.exit`, `os.system`, printing and argument parsing.
- The storage service calls (`list_buckets`, `list_objects`, `head_bucket`, `head_object`) are not modelled. The service is a parameter holding bucket names and a listing function. Pagination and network errors are not modelled, and neither is `S3Client.head`.
- `CliCompleter.bind`, readline itself and `complete_local_path` are not modelled. The line buffer is a parameter and the local completer is a function parameter, because they need a terminal and the real filesystem.
- Completion.CompleteS3Path: an exception from resolving the typed text becomes an error candidate. The source lets that exception escape into readline.
- Completion.CompleteS3Path: completion resolves the typed text with the corrected `Cli.NormalisePath`, so it differs from the written code in the two cases of the first and third findings. For `s3://b` typed from the root of bucket `a`, the written code lists key prefix `b` inside `a`, and the model lists buckets starting with `b`. With an unavailable bookmark store, the written code raises an AttributeError out of `complete`, and the model completes normally. No as-written completion is modelled. `Completion.Complete` inherits both differences.
- Completion.Candidates: listing order is stated only when keys are allowed (`CandidatesWithKeys`). For `cd`/`ls`/`ll` the contract states membership in both directions, not order.
- Behaviour that only newer versions of the program have is not modelled, because the code modelled here does not do it:
  - `cat` among the recognised commands;
  - `./` and `../` completion suggestions;
  - quote repair in the completion buffer;
  - shell-quoting of local candidates;
  - prefix-chain cache invalidation.
- The concrete command-completion examples (`c` giving `cd`, `clear`) are not stated one by one. `Completion.CompleteCommand`, `Completion.CommandsInOrder` and `Completion.CompleteEmptyCommand` state the general rule instead.
- Reading and writing the bookmark file is not modelled. A file is `Missing`, `Unreadable`, `NotJson` or a decoded document. The `strftime` formatting of `created_on` is not modelled: a timestamp is kept as text.
- Bookmarks.CleanEntry: an entry whose `path` is not a string is rejected with `NonStringPath`. The source would store the non-string value. The model's bookmark path is text throughout, so such a value cannot be represented.
- Bookmarks.Lookup: a decoded JSON object keeps its members in order. As in the dict that decoding builds, the last binding of a name gives its value and the first binding gives its position (`Bookmarks.Names`).
- Symbolic links are not modelled. `os.path.realpath` in the `S3Path` constructor is modelled as lexical normalisation only.
- The ANSI-coloured `full_details` and `_annotate_bookmark`, and the `S3Key` timestamp formatting, are not modelled. An entry's modification time is kept as text.
- `print_dict`, `print_object`, the terminal-size lookup and the actual printing are not modelled. `print_grid` returns its lines, and the width is a parameter.
- prompt_toolkit's `Style.from_dict`, `s3_browser/argparse.py` and `setup.py` are not modelled. `read_style` is modelled up to the map it hands to the style library.
- Tokeniser.IsIdentChar: bare names extend over ASCII letters, digits and `_`. Python's `str.isalnum` also accepts non-ASCII letters and digits.
- Utils.Shorten: the size is divided by 1024 exactly, as rationals. Python divides floats, which are exact here only while the size is below 2^53. Rounding half to even matches Python's `round`.
- Utils.ParseInt: `int` of a header accepts an optional sign and decimal digits. The surrounding whitespace and the digit-group underscores Python also accepts are not modelled.
- Utils.StripS3Metadata: a missing `Metadata`, `ResponseMetadata` or `HTTPHeaders` member reads as empty. A head response is therefore its metadata map and its header map.

## Findings

| source | as written | input that shows it | evidently intended | confidence | as-written member | corrected member |
|---|---|---|---|---|---|---|
| s3_browser/cli.py:66-69 | `not self.bookmarks` tests the manager object, which is always truthy, and then reads its `bookmarks` map even when loading failed and the map is None | a bookmark file holding malformed JSON, then resolving any path, such as `cd foo` | an unavailable store gives an empty bookmark context, like having no bookmark file | high (not executed) | Cli.NormalisePathAsWritten (shown by Cli.UnavailableStoreAsWritten) | Cli.NormalisePath (proved by Cli.UnavailableStoreIgnored) |
| s3_browser/bookmarks.py:42-47 | `remove_bookmark` tests `k not in bookmarks` without first checking for an unavailable store, as `add_bookmark` does | an unreadable bookmark file, then removing any bookmark | return False and leave the store alone, like `add_bookmark` | high (not executed) | Bookmarks.RemoveAsWritten (shown by Bookmarks.RemoveAsWrittenRaises) | Bookmarks.RemoveBookmark |
| s3_browser/cli.py:72-81 | after `s3://` is stripped, the remaining `bucket/key` is relative and is joined onto the current location | `cd s3://b` from the root of bucket `a` names key `b` inside `a` | the protocol form names a bucket absolutely, as the `canonical` rendering at s3_browser/paths.py:54-60 claims the shell accepts | medium (not executed) | Cli.ResolveAsWritten (shown by Cli.ProtocolBucketAsWritten and Cli.CanonicalRelativeAsWritten) | Cli.Resolve (proved by Cli.ResolveRenderings) |

Path resolution in the rest of the model (`Cli.NormalisePath`, and through it completion) uses the corrected definitions. The as-written definitions stay alongside them. `Cli.ResolveAgrees` shows that the two resolutions differ only on protocol text followed by a relative remainder.
