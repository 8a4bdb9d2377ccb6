# znc-snote: server-notice extraction, modelled in Dafny

znc-snote walks a tree of ZNC log files and looks for IRC server notices.
These are lines such as `[12:00:00] -irc.example- *** KILL: user banned`.
Each line is tried against one fixed regular expression, `snoteRe`. A matching
line is broken into four named captures: `time`, `server_name`, `snote` (the
notice type) and `text`. A filter on the notice type then decides whether the
line is kept. The filter can be a wildcard `*`, a case-insensitive type, or
the same type prefixed with `REMOTE` unless remote notices are ignored. A kept
line becomes a record: a string map holding the four captures plus the file's
`path`, its `dir` and `filename` as `filepath.Split` cuts them, and the raw
`line`.

The project models that per-line core in four modules.

- `SnotePattern` (pattern.dfy) is the fixed pattern with Go's regexp semantics:
  - the search is unanchored and the leftmost start wins;
  - `\d` is `[0-9]`;
  - `\s` is `[\t\n\f\r ]` and `\S` is its complement;
  - `.` matches anything but a newline.

  `CutsAt`/`Find` is a matcher written by hand for this one pattern. `ShapeAt`
  reads the pattern declaratively, position by position. The lemmas show that
  the two agree, that the match is unique once its start is fixed, what the
  captures can contain, and that a matched line and its captures convert into
  each other. The optional `REMOTE` in front of the `snote` group accepts
  exactly the strings `\S+` accepts, and it is captured as part of `snote`.
- `SnoteFilter` (filter.dfy) is the notice-type test of `scan` and
  `strings.EqualFold`.
- `SnoteScan` (scan.dfy) holds three things:
  - `reMatchToMap`, as a method with the source's loop over the group names;
  - `filepath.Split`;
  - the per-line loop of `scan` (`ScanFile`), as a method with the source's
    `continue` and its unused `toPrint` value. It is proved equal to the
    specification function `Emitted`. The channel send becomes an append to
    the output sequence.
- `SnoteSamples` (samples.dfy) proves what the pattern does on two concrete
  lines.

A line with two whitespace characters before `***`, such as
`[12:00:00] -irc.example-  *** KILL: user banned`, is rejected, because the
pattern at `znc-snote.go:17` allows exactly one `\s` there
(`SnoteSamples.TwoSpacesDoNotMatch`). The one-space version is accepted with
the expected captures (`SnoteSamples.KillMatches`).

## Model

| member | source | states |
|---|---|---|
| SnotePattern.CutsAtCorrect | znc-snote.go:17 | The hand-written matcher returns cut points `c` at index `i` exactly when the pattern fits there with its pieces at `c`. The pieces are `[`, three two-digit groups each with an optional colon, `]`, whitespace, `-`, a non-space server name, `-`, whitespace, `***`, whitespace, a non-space notice type, `:`, whitespace, and text up to a newline or the end. |
| SnotePattern.ShapeUnique | znc-snote.go:17 | Once the start is fixed, the end of the match and all four captures are unique. The optional colons are forced, and the `\S+` runs have only one way to end. |
| SnotePattern.FindLeftmost | znc-snote.go:17 | `Find` returns `m` if and only if the pattern fits at `m.start` with `m`'s end and captures, and it fits at no earlier index. The leftmost start wins. |
| SnotePattern.FindFromCorrect | znc-snote.go:17 | The search from index `i` returns the first index at or after `i` where the pattern fits, or nothing if it fits nowhere from `i` on. |
| SnotePattern.MatchStringIff | znc-snote.go:157 | `MatchString` holds if and only if the pattern fits at some index of the line. |
| SnotePattern.FindStringSubmatch | znc-snote.go:125 | The result is nil if and only if the pattern fits at no index of the line. Otherwise it holds five strings: a span `s[i..j]` and four captures such that the pattern, read declaratively, matches `s[i..j]` with exactly those captures for `time`, `server_name`, `snote` and `text` in the order the groups open, and fits at no index before `i`, which makes it the leftmost match. |
| SnotePattern.FieldBounds | znc-snote.go:17 | On a match, `time` is three digit pairs with optional colons, with exactly six digits, at most three colons and length six plus its colons. `server_name` and `snote` are non-empty and contain no whitespace. `text` contains no newline. |
| SnotePattern.TimeGroupsCounts | znc-snote.go:17 | `n` timestamp groups contain exactly `2n` digits and at most `n` colons, and nothing else. |
| SnotePattern.Reassemble | znc-snote.go:17 | On a newline-free line, as a line scanner yields it, a match runs to the end of the line. The line is a prefix followed by `"[" + time + "]" + w0 + "-" + server_name + "-" + w1 + "***" + w2 + snote + ":" + w3 + text`, where each `wi` is one whitespace character. |
| SnotePattern.ParseAssembled | znc-snote.go:17 | Round trip in the other direction: well-formed captures glued together with any four whitespace characters form a line that matches from its first to its last character, and the match gives back exactly those captures. |
| SnoteFilter.EqualFold | znc-snote.go:161 | `strings.EqualFold` on ASCII: the strings have equal length and fold to the same character at every position, which holds if and only if their independently defined lower-cased forms are equal. |
| SnoteFilter.Accept | znc-snote.go:161 | A notice type passes the filter if and only if the requested type is the wildcard `*`, or the notice type lower-cased equals the requested type lower-cased, or remote notices are not ignored and the notice type lower-cased equals `remote` followed by the requested type lower-cased. |
| SnoteFilter.EqualFoldEquivalence | znc-snote.go:161 | Case-insensitive equality is reflexive, symmetric and transitive. |
| SnoteFilter.EqualFoldIgnoresCase | znc-snote.go:161 | Two strings of the same length that differ only in the case of letters compare equal. |
| SnoteFilter.EqualFoldPrefix | znc-snote.go:161 | Putting the same prefix (such as `REMOTE`) in front of both strings, or removing it from both, keeps case-insensitive equality unchanged. |
| SnoteFilter.WildcardAcceptsAll | znc-snote.go:161 | The type `*` accepts every notice type, whether or not remote notices are ignored. |
| SnoteFilter.AcceptIgnoringRemote | znc-snote.go:161 | When remote notices are ignored and the type is not `*`, a notice is accepted if and only if its type equals the requested type case-insensitively. |
| SnoteFilter.AcceptsOwnType | znc-snote.go:161 | A notice whose type equals the requested type case-insensitively is always accepted. |
| SnoteFilter.RemoteVariant | znc-snote.go:161 | `REMOTE` followed by the requested type (in any case) is accepted if and only if remote notices are not ignored or the type is `*`. |
| SnoteFilter.AcceptUpToCase | znc-snote.go:161 | Two notice types that are equal up to case are accepted or rejected together. |
| SnoteFilter.IgnoreRemoteNarrows | znc-snote.go:161 | Ignoring remote notices never accepts more. Anything it drops equals `REMOTE` + type case-insensitively. |
| SnoteScan.SplitPath | znc-snote.go:170 | `dir + filename == path`, `filename` contains no `/`, and `dir` is empty or ends with `/`. |
| SnoteScan.SplitPathUnique | znc-snote.go:170 | Any cut of the path into a directory (empty or ending in `/`) and a file name without `/` is the one `SplitPath` returns. |
| SnoteScan.NamedGroups | znc-snote.go:126-131 | The loop over the group names stores every named group except the whole match. The map's keys are exactly `time`, `server_name`, `snote` and `text`, and each key holds the submatch at its group's index. |
| SnoteScan.ReMatchToMap | znc-snote.go:124-133 | On a line that matches, the map has exactly the four capture keys. Each key holds the submatch at its group's index, which is the corresponding capture of the leftmost match. |
| SnoteScan.RecordOf | znc-snote.go:169-171 | A record has exactly eight keys: the four captures, `path` equal to the file path, `dir` and `filename` as `filepath.Split` cuts the path (`dir + filename == path`, no `/` in `filename`, `dir` empty or ending in `/`, which `SplitPathUnique` shows is the only such cut), and `line` equal to the raw line. |
| SnoteScan.ScanFile | znc-snote.go:155-173 | The loop's output is exactly `Emitted(path, lines, filter)`. It depends on the filter only, never on `stripLeaders` or `includeFileName`, whose `toPrint` value is dropped. |
| SnoteScan.CollectAppend | znc-snote.go:155-172 | Scanning two runs of lines one after the other yields the records of the first run followed by those of the second. |
| SnoteScan.SkipsUnmatched | znc-snote.go:157-159 | A line the pattern does not match yields no record. The lines after it are scanned as if it were absent. |
| SnoteScan.AtMostOnePerLine | znc-snote.go:155-173 | A file yields at most one record per line. |
| SnoteScan.EmittedInOrder | znc-snote.go:155-173 | The k-th record is built from the k-th kept line. The kept positions increase strictly. A line is kept if and only if it matches and the filter accepts its `snote`. So the output is the subsequence of kept lines, in file order. |
| SnoteScan.RecordFacts | znc-snote.go:157-171 | Every record has the eight keys and `path` equal to the file's path. Its `dir`/`filename` are the unique split of `path`. Its `line` is one of the file's lines and matches the pattern. Its four captures are that line's leftmost-match captures and meet the capture bounds, and the filter accepts its `snote`. |
| SnoteScan.RecordLineReassembles | znc-snote.go:169-171 | For newline-free input lines, a record's `line` ends with the record's captures glued together by the pattern's fixed pieces and four whitespace characters. |
| SnoteScan.WildcardKeepsMatching | znc-snote.go:161 | With the type `*`, a line is kept if and only if the pattern matches it. |
| SnoteScan.IgnoreRemoteSubset | znc-snote.go:161 | The lines kept with remote notices ignored are a subset of those kept otherwise. |
| SnoteSamples.KillMatches | znc-snote.go:17 | The line `Assemble` builds from these captures and four single spaces, `[12:00:00] -irc.example- *** KILL: user banned`, matches from its first to its last character, with the captures `12:00:00`, `irc.example`, `KILL` and `user banned`. |
| SnoteSamples.TwoSpacesDoNotMatch | znc-snote.go:17 | The same line with two spaces before `***` does not match anywhere. |

## Left out

- Flag parsing, `init` and `main` (znc-snote.go:35-108) are command-line plumbing. The switches reach the model as the `Config` and `Filter` values.
- The bounded wait group, the goroutine per file and the output channel (znc-snote.go:53-74, 144-146, 172) are not modelled. Each file is scanned sequentially, and the channel send becomes an append to the output sequence. With several files in flight, records from different files can interleave, and that scheduling is not modelled.
- `writeOut` (znc-snote.go:110-122) renders each record through `text/template`, a foreign library, and is not modelled. The one thing worth noting: it writes the 0x00 or 0x0A separator only after a render that succeeded.
- File opening, `bufio.Scanner` and `filepath.Walk` are I/O. A file's lines are a parameter. `Errorlogger` messages and the directory skip are not modelled.
- The scanner yields lines with the newline, and a `\r` just before it, removed (`RecordLineReassembles` takes that as its premise). It stops silently at a line of 64 KiB (bytes) or more, which drops the rest of that file; the model takes the lines as they come out.
- The failed-open path (the return commented out at znc-snote.go:150) is not modelled. It would read from a nil file and yield no lines.
- General regular-expression semantics are out of scope. Only the one fixed pattern is modelled, over `char` sequences. Go matches runes decoded from UTF-8, which agrees for valid UTF-8. How invalid byte sequences behave is not modelled.
- SnoteFilter.EqualFold: folds ASCII letters only. Go's `strings.EqualFold` also applies Unicode simple folding; for example it equates the Kelvin sign with `k` and long s with `s`. The model does not.
- SnoteScan.SplitPath: treats `/` as the only separator, as on Unix. Windows volume names and `\` separators are not modelled.
- SnoteScan.ReMatchToMap: requires a line that matches. `scan` only calls it after `MatchString` succeeded. On a non-matching line Go would index a nil slice and panic, and that path is not modelled.
