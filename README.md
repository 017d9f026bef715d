# ls-watch short-option linter, modelled in Dafny

ls-watch inspects the arguments of an `ls` invocation and gives advice about
its short options. Its one routine, `analyze_short_args`, walks the arguments
once. It skips every token that is not a short-option cluster: a token shorter
than two characters, one without a leading `-`, or a `--` long option. In each
remaining token it looks at every character after the dash, against a fixed
catalogue of 36 flag characters:

- a character outside the catalogue is reported as `Unknown argument: c`;
- a catalogue character already collected is reported as `Duplicate argument: c`;
- any other catalogue character is appended to the ordered flag list `short_args`.

A token that appended at least one flag raises the cluster counter. At the end,
if more than one token contributed, the routine suggests the single cluster
`-` followed by every collected flag in first-seen order.

The project has two modules:

- `ShortArgs` (`short_args.dfy`) holds the diagnostics datatype, the catalogue
  and the token shape. It also gives a declarative description of a run:
  - `Scanned` is the stream of characters after the dash of each analysed token;
  - `FirstSeen` is the catalogue characters of that stream, each at its first occurrence;
  - `CharDiags` is one Unknown or Duplicate per character, judged against the characters before it;
  - `Clusters` counts the tokens holding a catalogue character not seen earlier;
  - `Analyze` is all of the diagnostics of a run.

  The module proves the properties of that description as lemmas.
- `LsWatch` (`ls_watch.dfy`) is the routine as the source writes it. It has
  the token filter, including the read of the second character that the
  source unwraps with `expect`. It also has the imperative loops that push
  onto the flag list, raise the counter and clear the `empty_cluster` flag.
  These loops are proved to compute exactly what `ShortArgs` describes. The
  inner loop over one token's characters is its own method, `ScanCluster`,
  which `AnalyzeShortArgs` calls once per analysed token.

Instead of printing through `warn!`, the model returns the diagnostics as a
sequence of `Unknown(c)`, `Duplicate(c)` and `Suggest(text)` events, in
emission order. Arguments are a `seq<string>`, and characters are Dafny `char`s.

The man-page comment at the end of src/main.rs documents `-I PATTERN`,
`-T COLS` and `-w COLS`, options that take a value. The code gives them no
special treatment: every catalogue character, `I`, `T` and `w` included, is
handled as a plain boolean flag, so a character after one of them in the same
token is judged as another flag. The only decision rule the code has is
`short_arg_clusters > 1`. The model follows the code.

## Model

| member | source | states |
|---|---|---|
| `ShortArgs.ContainsIsIn` | src/main.rs:26-27 | The linear search used for `known_args.contains` and `short_args.contains` answers true exactly for the members of the list. |
| `ShortArgs.LowerLAndAKnown` | src/main.rs:12-15 | `l` and `a` are in the 36-character catalogue. |
| `ShortArgs.UpperZUnknown` | src/main.rs:12-15 | `Z` is not in the catalogue. |
| `ShortArgs.DashUnknown` | src/main.rs:12-15 | `-` is not in the catalogue, so `-x` with a catalogue flag x is always a short-option cluster. |
| `LsWatch.SkipsToken` | src/main.rs:18-23 | A token is skipped exactly when it is not a dash followed by a non-dash character. Its body reads the second character only after the length and leading-dash tests fail, and it verifies that this read (the source's `expect`) is always given a present character. |
| `ShortArgs.SkippedTokenNoEffect` | src/main.rs:18-23 | Inserting a skipped token anywhere in the arguments changes neither the scanned characters, nor the cluster count, nor any diagnostic. |
| `ShortArgs.ScanClusterChar` | src/main.rs:25-36 | One more character of a cluster, judged against the flag list collected so far: a character outside the catalogue adds its Unknown diagnostic, a collected one adds its Duplicate diagnostic, and any other is appended to the list and makes the token count as a contributor. |
| `ShortArgs.EachCharOneOutcome` | src/main.rs:25-36 | Each scanned character has exactly one outcome. The number of diagnostics plus the number of collected flags equals the number of scanned characters. |
| `ShortArgs.CharDiagsKinds` | src/main.rs:26-35 | Every Unknown names a scanned character outside the catalogue. Every Duplicate names a scanned catalogue character. |
| `ShortArgs.FirstSeenMembers` | src/main.rs:26-31 | A character is in the flag list if and only if it is a catalogue character that was scanned. |
| `ShortArgs.FirstSeenNoDup` | src/main.rs:27-30 | The flag list never holds the same character twice. |
| `ShortArgs.FirstSeenExtends` | src/main.rs:27-31 | Scanning more characters only appends to the flag list. A later duplicate never reorders or removes an entry. |
| `ShortArgs.FirstSeenOrder` | src/main.rs:27-31 | Flags appear in the list in the order of their first occurrence in the scanned stream. |
| `ShortArgs.HasNewKnownSnoc` | src/main.rs:24-31 | A token has contributed after one more character exactly when it had contributed before, or that character is a catalogue character not seen earlier (the `empty_cluster` flag). |
| `ShortArgs.FirstSeenGrows` | src/main.rs:24-31 | The flag list grows over a token exactly when the token holds a catalogue character not seen before it. |
| `ShortArgs.Clusters` | src/main.rs:24-39 | The cluster count never exceeds the number of arguments. |
| `ShortArgs.ClusterStep` | src/main.rs:37-39 | One more argument raises the cluster count by exactly 1 if it collected a new flag, and by 0 otherwise. |
| `ShortArgs.ClustersAtMostFlags` | src/main.rs:24-39 | The cluster count never exceeds the length of the flag list. |
| `ShortArgs.RunInvariants` | src/main.rs:26-39 | At the end of any run, the flag list is duplicate-free and holds only catalogue characters. The count is at most the number of arguments and at most the number of flags. |
| `ShortArgs.Suggestion` | src/main.rs:41-46 | A suggestion is emitted if and only if more than one token contributed. It is the last diagnostic and the only suggestion. Its text is `-` followed by the flag list, at least three characters long, so it is never a bare dash. |
| `ShortArgs.DiagnosticOrder` | src/main.rs:17-47 | The diagnostics of the first k arguments come first in the output, for every k. Output follows token order, then character order. |
| `ShortArgs.CharDiagsExtends` | src/main.rs:25-36 | Scanning more characters only appends diagnostics after those already emitted. |
| `ShortArgs.SeparateFlagsAreCombined` | src/main.rs:41-46 | For distinct catalogue flags x and y, `-x -y` produces exactly one diagnostic, the suggestion `-xy`. |
| `ShortArgs.OneClusterNoSuggestion` | src/main.rs:41 | For distinct catalogue flags x and y, `-xy` alone produces no diagnostics. |
| `ShortArgs.UnknownFlagReported` | src/main.rs:33-35 | For any character z outside the catalogue, `-z` produces exactly one Unknown diagnostic for z and nothing else. |
| `ShortArgs.RepeatedFlagReported` | src/main.rs:27-28 | For any catalogue flag x, `-x -x` produces exactly one Duplicate diagnostic for x and no suggestion. |
| `ShortArgs.SampleRuns` | src/main.rs:10-47 | `-l -a` yields only the suggestion `-la`. `-la` alone yields nothing. `-Z` yields only Unknown `Z`. |
| `LsWatch.ScanCluster` | src/main.rs:24-36 | The inner character loop leaves the flag list and the diagnostics equal to the description over the token's characters after the dash. `empty_cluster` ends true exactly when the token held no new catalogue character. |
| `LsWatch.AnalyzeShortArgs` | src/main.rs:10-48 | The imperative routine returns exactly the diagnostics of `Analyze`, the flag list `FirstSeen` and the count `Clusters`. Its final flag list is duplicate-free and drawn from the catalogue. Its count is at most the number of arguments and at most the number of flags. |

## Left out

- `main` and the reading of the process arguments (src/main.rs:50-53) are process I/O. The arguments are a parameter.
- The `warn!` macro's `[LS-WATCH] ` prefix and the printing to standard error (src/main.rs:1-8) are not modelled. Each diagnostic is an event in the returned sequence, and the suggestion's event carries the combined token (`-la`) without the surrounding sentence.
- The man-page comment (src/main.rs:55-180) is reference text, not logic.
- Rust `String` length counts bytes, and the model counts characters. For a token that starts with `-` the two tests agree: the dash is one byte, so two or more bytes means two or more characters. A token that does not start with `-` is skipped either way.
- `LsWatch.AnalyzeShortArgs` returns `short_args` and the cluster counter as out-parameters. In the source they are locals, so only the diagnostics leave the routine.
