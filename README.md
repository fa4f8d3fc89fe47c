# LogSanitizer, the line-redaction core

LogSanitizer copies a log file to `<file>.clean`, line by line. Lines that
mention an IPv4 or IPv6 address are either dropped or redacted, depending on
the replacement token. An empty token means "omit": a line in which either
address pattern finds a match is left out, and every other line is copied
unchanged. A non-empty token means "replace": every line is kept, each
`ip4` match is replaced by the token, and then each `ip6` match in the
result is replaced too. When the target is a directory, the program walks
it and handles every file that is not a directory, a `.gz` or `.zst`
archive, or an earlier `.clean` output.

This project models that core in Dafny:

- `Text`: the character classes of the two patterns and the `Option` type.
- `Ip4` and `Ip6` each hold two things:
  - the language of their pattern (`InIp4`, `InIp6`), written as
    predicates on "the text of `s` from `i` up to `j`";
  - the pattern's matcher at one start position (`MatchAt`), written as
    the backtracking search an ECMAScript engine performs. Alternatives
    are tried in order, the first that succeeds wins, and every
    quantifier is greedy and gives back one step at a time.

  The matcher succeeds exactly when some text of the language starts
  there, and what it returns is such a text (`MatchAtExact`).
- `Search`: `std::regex_search` and `std::regex_replace` as a
  left-to-right scan.
  - The scan of a line is unique (`ScanUnique`).
  - A replacement puts the token into each span of that scan and keeps the
    text between the spans as it is (`ReplaceAllSpec`).
- `Sanitizer`: the per-line policy and the loop of `handleFile`
  (`HandleLines`, `HandleFile`).
- `Walk`: the skip rule of the directory walk, the `.clean` naming, and
  the walk itself.
- `Examples`: the patterns applied to typical addresses.

Some properties of the code are easy to miss in the pattern text:

- The patterns are not anchored. `999.1.1.1` is matched from its second
  character (`99.1.1.1`), and `1.1.1.256` is matched as `1.1.1.25`.
- Where an address is followed by more characters, as in the examples
  above, replace mode keeps the unmatched characters.
- Branches are tried in order.
  - `fe80::1%eth0` is matched as `fe80::` by branch 2 before the
    link-local branch is tried.
  - `2001:db8::8a2e:370:7334` is matched as `2001:db8::`.
  - Branches 11 and 12 of `ip6` never decide a match
    (`Ip6.LastBranchesNeverDecide`).
- Any `::` starts an `ip6` match. So a token containing `::`, once it
  replaces an IPv4 address, is itself rewritten by the `ip6` pass: one of
  the spans that pass replaces covers the token's `::`
  (`Search.TokenExposure`).
- The `ip4` match at a position is the longest address text starting
  there (`Ip4.MatchAtLongest` with `Ip4.MatchAtExact`). So in
  `1.1.1.256` replace mode replaces `1.1.1.25` and keeps the `6`.

## Where the code differs from what one would expect of a redactor

- One would expect a token such as `999.1.1.1`, which is not an address,
  to be left alone. The code matches its tail `99.1.1.1`, and so does the
  model (`Examples.OutOfRangeFirstOctet`).
- The doc comment of `handleFile` (src/LogSanitizer.cpp:43) says the
  result has all IPv4 and IPv6 addresses stripped away or replaced. The
  code replaces only the spans its patterns match, which can be part of an
  address. The model proves what is replaced and that the text between
  matches is kept. It does not claim that no address is left.
- One would expect replacing twice to give the same line as replacing
  once whenever the token itself contains no address. In the code this
  does not hold: the token can join the text left after a match and form a
  new address. With the token `1`, `1.1.1.1.1.1.1` becomes `1.1.1.1`, and
  a second pass turns that into `1` (`Examples.NotIdempotent`).
- The code has no separate "replace with the empty string" mode: an empty
  replacement means "omit". The model keeps this (`Sanitizer.SanitizeLine`).

## Model

| member | source | states |
|---|---|---|
| `Ip4.MatchAt` | src/LogSanitizer.cpp:38 | the `ip4` match at a position, if any, ends after the position and within the line |
| `Ip4.MatchAtExact` | src/LogSanitizer.cpp:38 | `ip4` succeeds at `p` exactly when a text of the language (three `OCT.` then `OCT`) starts at `p`, and it returns such a text |
| `Ip4.MatchDottedComplete` | src/LogSanitizer.cpp:38 | backtracking over the octet widths finds a match whenever one exists |
| `Ip4.MatchAtLongest` | src/LogSanitizer.cpp:38 | no text of the `ip4` language at `p` ends after the match; with `MatchAtExact` the match is the longest such text, its last octet the longest of the 3-, 2- and 1-digit prefixes that is an octet |
| `Ip4.DottedLongest` | src/LogSanitizer.cpp:38 | the octet search returns the longest `(OCT\.){n}OCT` text at the position |
| `Ip4.LastOctetLongest` | src/LogSanitizer.cpp:38 | the final octet is the widest of the widths tried whose text is an octet |
| `Ip4.MatchDottedSound` | src/LogSanitizer.cpp:38 | whatever the octet search returns is `(OCT\.){n}OCT` |
| `Ip4.OctetThenDot` | src/LogSanitizer.cpp:38 | an octet followed by `.` is the only way the match can go on: the search continues right after the dot |
| `Ip4.NonDigitNoMatch` | src/LogSanitizer.cpp:38 | no `ip4` match starts at a character that is not a digit |
| `Ip4.TooShort` | src/LogSanitizer.cpp:38 | `(OCT\.){n}OCT` needs at least `2n + 1` characters, so an `ip4` match needs seven |
| `Ip4.OctetValueInRange` | src/LogSanitizer.cpp:38 | every octet the pattern accepts is decimal digits denoting at most 255 |
| `Ip4.EveryByteHasOctet` | src/LogSanitizer.cpp:38 | every value 0..255 written without leading zeros is an octet and denotes that value |
| `Ip6.MatchAt` | src/LogSanitizer.cpp:39 | the `ip6` match at a position, if any, ends after it and within the line |
| `Ip6.MatchAtExact` | src/LogSanitizer.cpp:39 | `ip6` succeeds at `p` exactly when a text of one of its twelve branches starts at `p`, and it returns such a text |
| `Ip6.MatchFirstComplete` | src/LogSanitizer.cpp:39 | if any branch's language has text at `p`, trying the branches in order succeeds |
| `Ip6.MatchFirstSound` | src/LogSanitizer.cpp:39 | the ordered alternation returns a text of the language of one of its branches |
| `Ip6.AlternativeComplete` | src/LogSanitizer.cpp:39 | each branch's matcher succeeds whenever its language has text at `p` |
| `Ip6.AlternativeSound` | src/LogSanitizer.cpp:39 | each branch's matcher returns a text of its language |
| `Ip6.MatchUnitsComplete` | src/LogSanitizer.cpp:39 | greedy `(H:){lo,hi}` with backtracking succeeds whenever some split into units and tail exists |
| `Ip6.MatchUnitsSound` | src/LogSanitizer.cpp:39 | what `(H:){lo,hi}` then the tail matches is between `lo` and `hi` units followed by the tail |
| `Ip6.MatchZoneComplete` | src/LogSanitizer.cpp:39 | the link-local groups `(:[hex]{0,4}){0,4}` and `%zone` are found whenever present |
| `Ip6.MatchZoneSound` | src/LogSanitizer.cpp:39 | what the link-local branch matches after `fe80:` is up to four groups and a zone id |
| `Ip6.MappedComplete` | src/LogSanitizer.cpp:39 | branch 11 succeeds on each of its forms `::ffff:0{1,4}:IPV4`, `::ffff:IPV4` and `::IPV4` |
| `Ip6.MappedSound` | src/LogSanitizer.cpp:39 | what branch 11 matches is one of its three forms |
| `Ip6.MatchZoneId` | src/LogSanitizer.cpp:39 | the zone id takes `%` and the whole alphanumeric run after it: it ends at the end of the line or before a character that is not alphanumeric |
| `Ip6.GroupsStopAt` | src/LogSanitizer.cpp:39 | where no `:` follows, the `(:H)` groups stop, successfully once at least one was taken |
| `Ip6.GroupGoesOn` | src/LogSanitizer.cpp:39 | a group `:` plus a maximal hex run is taken when the groups after it match |
| `Ip6.ColonIn` | src/LogSanitizer.cpp:39 | every branch's text holds a `:` with a hex digit before it or a second `:` after it |
| `Ip6.LoneColonsNoMatch` | src/LogSanitizer.cpp:39 | no `ip6` match starts where no such `:` follows |
| `Ip6.RepetitionStopsAt` | src/LogSanitizer.cpp:39 | at a `:` no further `H:` unit can start, so the tail decides |
| `Ip6.RepetitionGoesOn` | src/LogSanitizer.cpp:39 | a full hex run and `:` is taken as a unit, and given back only if what follows fails |
| `Ip6.MatchFirstAppend` | src/LogSanitizer.cpp:39 | trying two lists of branches one after the other is trying their concatenation |
| `Ip6.DoubleColonMatches` | src/LogSanitizer.cpp:39 | every `::` starts an `ip6` match |
| `Ip6.LeadingColon` | src/LogSanitizer.cpp:39 | at a `:` only branches 9 to 12 can match |
| `Ip6.MappedShadowed` | src/LogSanitizer.cpp:39 | whenever branch 11 would match, branch 9 already does |
| `Ip6.Ip4TailShadowed` | src/LogSanitizer.cpp:39 | whenever branch 12 would match, branch 2 already does |
| `Ip6.LastBranchesFail` | src/LogSanitizer.cpp:39 | branches 11 and 12 fail wherever branches 2 and 9 fail |
| `Ip6.LastBranchesNeverDecide` | src/LogSanitizer.cpp:39 | the `ip6` match is always that of its first ten branches |
| `Examples.OutOfRangeFirstOctet` | src/LogSanitizer.cpp:38 | `999.1.1.1` has no match at its first character and matches `99.1.1.1` from the second |
| `Examples.OutOfRangeLastOctet` | src/LogSanitizer.cpp:38 | `1.1.1.256` is matched as `1.1.1.25` |
| `Examples.Loopback` | src/LogSanitizer.cpp:39 | `::1` is matched in full |
| `Examples.LinkLocalAddress` | src/LogSanitizer.cpp:39 | `fe80::1%eth0` is matched as `fe80::` |
| `Examples.DocumentationAddress` | src/LogSanitizer.cpp:39 | `2001:db8::8a2e:370:7334` is matched as `2001:db8::` |
| `Examples.MappedAddress` | src/LogSanitizer.cpp:39 | `::ffff:192.168.0.1` is matched only as far as `::ffff:192`, by branch 9 |
| `Examples.Ip4ReplacedBetween` | src/LogSanitizer.cpp:66 | an address after digit-free text and before fewer than seven characters is replaced and the text around it kept |
| `Examples.ConnectedOmitted` | src/LogSanitizer.cpp:59-63 | in omit mode `Connected: ::1` is dropped |
| `Examples.PlayerJoined` | src/LogSanitizer.cpp:66-67 | in replace mode `Player joined from 192.168.1.100:25565` becomes `Player joined from <redacted>:25565` |
| `Examples.NoAddressUnchanged` | src/LogSanitizer.cpp:59-69 | `No address here` comes out unchanged in both modes |
| `Examples.NotIdempotent` | src/LogSanitizer.cpp:66-67 | replacing with `1` turns `1.1.1.1.1.1.1` into `1.1.1.1`, which a second pass turns into `1`, so replace mode is not idempotent |
| `Search.MatchAtSound` | src/LogSanitizer.cpp:38-39 | what either pattern matches is a text of its language |
| `Search.MatchAtComplete` | src/LogSanitizer.cpp:38-39 | either pattern matches wherever a text of its language starts |
| `Search.HasMatch` | src/LogSanitizer.cpp:60 | no contract of its own; `HasMatchExact` gives it as "some substring of the line is in the pattern's language" |
| `Search.ReplaceFrom` | src/LogSanitizer.cpp:66-67 | no contract of its own; `SpansAreScan` and `ReplaceIsSplice` give it as the token spliced into the leftmost, non-overlapping matches from `pos` on |
| `Search.ReplaceAll` | src/LogSanitizer.cpp:66-67 | no contract of its own; `ReplaceAllSpec` gives it as the token spliced into the unique scan of the line |
| `Search.FindFrom` | src/LogSanitizer.cpp:60 | the search returns the leftmost start where the pattern matches, with no match before it, or fails only when no position matches |
| `Search.HasMatchExact` | src/LogSanitizer.cpp:60 | `regex_search` succeeds exactly when some substring of the line is in the pattern's language |
| `Search.MatchIsFound` | src/LogSanitizer.cpp:60 | a match anywhere after the start of the search is found, at that position or before |
| `Search.DoubleColonFound` | src/LogSanitizer.cpp:60 | a line containing `::` always has an `ip6` match |
| `Search.LoneColonsNotFound` | src/LogSanitizer.cpp:60 | a line none of whose `:` has a hex digit before it or a `:` after it has no `ip6` match |
| `Search.SpansAreScan` | src/LogSanitizer.cpp:66-67 | the spans `regex_replace` replaces are ordered, non-overlapping, leftmost matches, with no match in the gaps or after the last |
| `Search.ScanUnique` | src/LogSanitizer.cpp:66-67 | any such left-to-right scan is the one `regex_replace` performs |
| `Search.ReplaceIsSplice` | src/LogSanitizer.cpp:66-67 | the replacement is the token put in place of each span of the scan, the rest kept |
| `Search.ReplaceAllSpec` | src/LogSanitizer.cpp:66-67 | for the unique scan of a line, the replacement is the splice, and every replaced span is an address of the pattern's language |
| `Search.NoMatchUnchanged` | src/LogSanitizer.cpp:66-67 | without a match the line is unchanged by the replacement |
| `Search.FirstReplaced` | src/LogSanitizer.cpp:66-67 | the text before the first match is kept and the token stands at its start |
| `Search.MatchCovered` | src/LogSanitizer.cpp:66-67 | every position where a match starts lies inside one of the spans the replacement replaces |
| `Search.TokenExposure` | src/LogSanitizer.cpp:66-67 | a token containing `::` that replaces the first IPv4 address gives the `ip6` pass a match, and one of the `ip6` spans replaced covers the token's `::` |
| `Sanitizer.Clean` | src/LogSanitizer.cpp:60 | no contract of its own; `CleanExact` gives it as "no substring is in either address language" |
| `Sanitizer.Redact` | src/LogSanitizer.cpp:66-67 | no contract of its own; `ReplaceOneToOne` makes it the output line of replace mode, and `ReplaceAllSpec` describes each of its two passes |
| `Sanitizer.SanitizeLine` | src/LogSanitizer.cpp:59-69 | in omit mode a line is kept exactly when neither pattern finds a match, and then verbatim; in replace mode every line is kept |
| `Sanitizer.HandleLines` | src/LogSanitizer.cpp:57-70 | the loop writes the sanitized form of each line, in order |
| `Sanitizer.HandleFile` | src/LogSanitizer.cpp:48-73 | an input that cannot be opened gives 1 and an empty `.clean` output (it is opened first), otherwise 0 and the sanitized lines |
| `Sanitizer.CleanExact` | src/LogSanitizer.cpp:60 | a line is clean exactly when no substring of it is in either address language |
| `Sanitizer.CleanUnchanged` | src/LogSanitizer.cpp:59-69 | a clean line comes out unchanged in both modes |
| `Sanitizer.OutputsOneToOne` | src/LogSanitizer.cpp:58-69 | when every line is written, output line k is what line k became |
| `Sanitizer.ReplaceOneToOne` | src/LogSanitizer.cpp:64-69 | in replace mode there are as many output lines as input lines, each the `ip4` then the `ip6` replacement of its line |
| `Sanitizer.OutputsFilter` | src/LogSanitizer.cpp:58-63 | when lines are dropped or copied, the output is the kept lines as an order-preserving subsequence |
| `Sanitizer.OmitKeepsCleanInOrder` | src/LogSanitizer.cpp:58-63 | in omit mode the output is exactly the clean lines, in their original order |
| `Walk.CleanPath` | src/LogSanitizer.cpp:51 | the output path is the input path followed by `.clean` |
| `Walk.Skipped` | src/LogSanitizer.cpp:188-192 | no contract of its own; `SelectedExact` gives the walk as keeping exactly the entries it does not hold for |
| `Walk.Selected` | src/LogSanitizer.cpp:186-192 | no contract of its own; `SelectedExact` gives its members as exactly the paths of the entries that are not directories and do not end in `.gz`, `.clean` or `.zst`; `WalkTree` handles them in this order |
| `Walk.SelectedExact` | src/LogSanitizer.cpp:188-192 | the walk selects exactly the entries that are not directories and do not end in `.gz`, `.clean` or `.zst` |
| `Walk.CleanOutputSkipped` | src/LogSanitizer.cpp:188-192 | an output of the tool is never itself selected |
| `Walk.WalkTree` | src/LogSanitizer.cpp:186-203 | the walk handles the selected files in order and stops with 1 at the first one that cannot be opened, otherwise gives 0 after all of them |
| `Walk.Run` | src/LogSanitizer.cpp:145-153 | a missing target gives 1; a single file is handled whatever its name; a directory is walked |

## Left out

- File and stream input/output are not modelled.
  - A file is its sequence of lines.
  - `std::getline` splitting and the `std::endl` written after each line
    are not modelled.
  - Messages printed to standard output are not modelled.
- Command-line parsing with `getopt`, `printHelp` and the build
  information are outside the redaction core.
- The `gzip` and `zstd` commands run through `system()` are external
  programs and are not modelled.
- `std::filesystem` is not modelled directly. Whether the target exists,
  whether it is a directory, the entries of the recursive walk (in
  iteration order) and which files open all become parameters of
  `Walk.Run`.
- `Search.ReplaceFrom`: the token is inserted as it is. `std::regex_replace`
  would expand the format sequences `$&`, `$1`, `$$`, `` $` `` and `$'`
  in it.
- Only the two patterns are modelled, each with a matcher of its own.
  A general regular-expression engine is not modelled.
- Characters are bytes read as `char`. The classes are the ASCII ranges
  written in the patterns.
