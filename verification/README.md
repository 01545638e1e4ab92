# go-log-anonymiser, modelled in Dafny

The anonymiser copies a directory tree. Every line of every file is rewritten
on the way: each match of `[aA]met` becomes `AMET_REPLACE` and each match of
`[eE]nim` becomes `ENIM_REPLACE`. The rewritten line, followed by a line break,
is appended to the file at the corresponding place under the target root.

This project models the pure part of that job and proves properties of it:

- `Patterns`: the two patterns and the replacer map (`main.go:21-33`).
  A pattern is `[lower upper]rest`, so only its first letter has a case choice.
- `Scanner`: `modify` (`main.go:124-130`), that is, Go's `Regexp.ReplaceAll`
  for one such fixed-width pattern. It scans left to right and replaces every
  leftmost, non-overlapping match with the placeholder. Neither placeholder
  holds a `$`, so Go's `$` expansion of the replacement never applies.
- `Rewriter`: the rule loop of `anon_file` as written (`main.go:114-118`).
  `modify` runs once per map entry, each pass on the output of the one before.
  Go does not specify the iteration order of a map, so the order is a
  parameter: any sequence listing each key once (`IsIterationOrder`).
- `SinglePass`: the line rewrite under one fixed rule order, the enim rule
  and then the amet rule (see Findings). It is written as one left-to-right
  pass that tries both rules at each position, as the combined pattern
  `[aA]met|[eE]nim` would, and is proved equal to the two rule passes in
  that order. So it is also exactly what the program does whenever Go
  iterates the map enim rule first. The code itself fixes no order: Go may
  run either rule first. The two orders give the same line unless it holds
  `ametnim` or `Ametnim`, where the amet placeholder's final `E` and the
  following `nim` form a fresh enim match.
- `Text`: `strings.Split` and `strings.Join` for a one-character separator,
  and the "each piece followed by a line break" layout that repeated appends
  produce.
- `Paths`: the string part of `appendToFile` (`main.go:134-139`). It computes
  the destination file and its folder from the walked path and the target root.
- `Transform`: `anon_file` over the scanned lines of one file, with the
  write at `main.go:155`. `AnonFile` takes one map iteration order per line,
  since Go may pick a different one each time the loop ranges over the map.

## Model

| member | source | states |
|---|---|---|
| Patterns.MatchIsOneOfTwoSpellings | main.go:23-32 | A match of `[aA]met` or `[eE]nim` is exactly one of the two spellings that differ in the first letter only. |
| Patterns.PatternsExclusive | main.go:23-32 | The two rules never match at the same position, because their first letters differ. |
| Patterns.ReplacersKeys | main.go:21-33 | The replacer map holds exactly the two placeholder keys, and they are distinct. |
| Scanner.ReplaceAll | main.go:124-130 | A line shorter than the pattern comes back unchanged, and a placeholder at least as wide as the pattern never shortens the line. |
| Scanner.PassThrough | main.go:124-130 | A line with no match of the pattern is returned unchanged. |
| Scanner.Leftmost | main.go:127 | Text before the leftmost match is kept, the match becomes the placeholder, and replacement resumes right after the match. |
| Scanner.ReplaceAllLength | main.go:127 | The output length is the input length plus (placeholder length minus match width) times the number of matches. |
| Scanner.MatchCountPositive | main.go:127 | A line holding a match has a positive match count. |
| Scanner.MatchIsRewritten | main.go:127 | With a placeholder longer than the pattern, a line holding a match always changes. |
| Scanner.PrefixPreserved | main.go:127 | A prefix avoiding the placeholder's first letter appears in the output only if it was a prefix of the input. |
| Scanner.NoSurvivor | main.go:124-130 | With a placeholder that cannot take part in a match, no match of the pattern is left in the output. |
| Scanner.KeepPrefix | main.go:127 | Text of which no suffix could start a match is copied as it is, and the replacement carries on behind it. |
| Scanner.CharacterNotIntroduced | main.go:124-130 | A character absent from the line and from the placeholder is absent from the output. |
| Scanner.Idempotent | main.go:124-130 | With such a placeholder, replacing twice gives the same as replacing once. |
| Rewriter.RewriteInOrder | main.go:114-118 | A line that no rule matches comes back unchanged, whatever the iteration order. |
| Rewriter.TwoPasses | main.go:114-118 | Running the loop over two keys is the second rule's `ReplaceAll` applied to the first rule's output. |
| Rewriter.IterationOrders | main.go:21-33 | Iterating over the replacer map visits the keys in exactly one of two orders. |
| Rewriter.CharacterNotIntroduced | main.go:114-118 | A character absent from the line and from every placeholder is absent from the loop's output, under any order. |
| Rewriter.AmetTokenInert | main.go:23-26 | `AMET_REPLACE` cannot take part in a match of `[aA]met`. |
| Rewriter.AmetRuleIdempotent | main.go:23-26 | The amet rule leaves no `amet`/`Amet` behind, so applying it again changes nothing. |
| Rewriter.EnimRuleNotIdempotent | main.go:29-32 | The enim rule is not idempotent: `enimnim` becomes `ENIM_REPLACEnim`, which holds a fresh `Enim` match at 11. |
| Rewriter.AmetRuleOnAmetnim | main.go:23-26 | The amet rule turns `ametnim` into `AMET_REPLACEnim`. |
| Rewriter.EnimRuleOnAmetnim | main.go:29-32 | The enim rule leaves `ametnim` unchanged. |
| Rewriter.EnimRuleAfterAmetPlaceholder | main.go:29-32 | The enim rule turns `AMET_REPLACEnim` into `AMET_REPLACENIM_REPLACE`: the placeholder's final `E` starts a match. |
| Rewriter.RuleOrderMatters | main.go:21-33 | Both iteration orders are possible, and on `ametnim` they give different lines. |
| SinglePass.FirstHit | main.go:114-118 | The chosen rule is in the order and matches at the start; no rule is chosen only when none matches there. |
| SinglePass.RewriteWith | main.go:114-118 | A one-pass rewrite under any order leaves a line that no rule matches unchanged. |
| SinglePass.Rewrite | main.go:114-118 | The fixed-order rewrite equals the enim rule's `ReplaceAll` over the line followed by the amet rule's over the result. |
| SinglePass.FirstHitIsTheMatchingRule | main.go:114-118 | Under any iteration order, the rule chosen at a position is the one rule that matches there, if any. |
| SinglePass.HitShift | main.go:114-118 | A hit in a suffix is a hit in the whole line at the shifted position. |
| SinglePass.OrderIndependent | main.go:114-118 | The one-pass rewrite gives the same line whichever order it tries the rules in. |
| SinglePass.Leftmost | main.go:114-118 | Text before the leftmost match of either rule is kept, that match becomes its rule's placeholder, and the pass resumes after it. |
| SinglePass.RewriteLength | main.go:114-118 | The rewritten line is 8 characters longer per replaced match (4 matched, 12 written). |
| SinglePass.CharacterNotIntroduced | main.go:114-118 | A character absent from the line and the placeholders is absent from the result. |
| SinglePass.AgreesWithLoneRule | main.go:114-130 | On a line only one rule matches, the one-pass rewrite equals that rule's `ReplaceAll`. |
| SinglePass.AmetWordKeptByEnim | main.go:29-32 | The enim rule copies an `amet`/`Amet` match unchanged and carries on after it. |
| SinglePass.EnimThenAmet | main.go:114-118 | The one pass in declared order equals the enim rule's `ReplaceAll` followed by the amet rule's, on every line. |
| SinglePass.AgreesWithEnimFirst | main.go:114-118 | On every line, the fixed-order rewrite equals the loop as written when Go iterates the enim rule first. |
| SinglePass.LoopLeavesNoAmet | main.go:114-118 | Under either iteration order, the loop as written leaves no `amet` or `Amet` match in the line. |
| SinglePass.AmetTokenKeptByEnim | main.go:29-32 | The enim rule keeps `AMET_REPLACE` as it is whenever the text behind it does not start with `nim`. |
| SinglePass.AmetThenEnim | main.go:114-118 | On a line where no `amet`/`Amet` is directly followed by `nim`, the one pass also equals the amet rule's `ReplaceAll` followed by the enim rule's. |
| SinglePass.AgreesWithAmetFirst | main.go:114-118 | On a line where no `amet`/`Amet` is directly followed by `nim`, the fixed-order rewrite also equals the loop as written with the amet rule first. |
| SinglePass.OrderMattersOnlyForAmetnim | main.go:114-118 | Under either iteration order of the map, the loop as written gives the fixed-order rewrite on every line that holds no `ametnim` or `Ametnim`, so only such lines can depend on Go's map order. |
| SinglePass.EnimTokenInertForAmet | main.go:23-32 | `ENIM_REPLACE` cannot take part in a match of `[aA]met`. |
| SinglePass.PrefixPreserved | main.go:114-118 | A prefix without `A` or `E` appears in the result only if it was a prefix of the line. |
| SinglePass.NoAmetSurvives | main.go:23-26 | No `amet` or `Amet` is left in the rewritten line. |
| SinglePass.EnimCanResurface | main.go:29-32 | `Enim` can still appear in the result: `enimnim` becomes `ENIM_REPLACEnim`, with an `Enim` match at 11. |
| SinglePass.RewriteNotIdempotent | main.go:114-118 | Rewriting twice differs from rewriting once: on `enimnim`, the second pass replaces the `Enim` that resurfaced. |
| SinglePass.UnchangedWithoutWords | main.go:23-32 | A line holding none of `amet`, `Amet`, `enim`, `Enim` is unchanged. |
| SinglePass.TailCaseMatters | main.go:23-32 | Whatever its first letter, a word ending in upper-case `MET` or `NIM` is left alone: only the first letter has a case choice. |
| SinglePass.WordBecomesPlaceholder | main.go:23-32 | Each of the four matching spellings becomes its rule's placeholder. |
| Text.Split | main.go:134 | Splitting yields at least one piece. |
| Text.Join | main.go:137-139 | A join of one or more pieces starts with the first piece. |
| Text.SplitPiecesAvoidSeparator | main.go:134 | No piece of a split holds the separator. |
| Text.SplitAround | main.go:134 | Splitting around a separator concatenates the splits of both sides. |
| Text.SplitNoSeparator | main.go:134 | A string without the separator splits into itself alone. |
| Text.JoinSplit | main.go:134-139 | Joining the pieces of a split gives back the string. |
| Text.SplitJoin | main.go:134-139 | Splitting a join of separator-free pieces gives back the pieces. |
| Text.JoinAppend | main.go:137-139 | Joining with one more piece appends a separator and that piece. |
| Text.JoinDropLast | main.go:137-139 | The join of all pieces but the last is a prefix of the join of all pieces. |
| Text.JoinLast | main.go:137-139 | A join of two or more pieces is the join of all but the last, a separator, and the last. |
| Text.Terminated | main.go:155 | Each line adds at least one character, and a file with lines ends in the line break. |
| Text.TerminatedAppend | main.go:155 | Appending one more line adds that line and a line break at the end of the file. |
| Text.TerminatedIsJoin | main.go:155 | Lines each followed by a break are the join of the lines plus an empty last piece. |
| Text.SplitTerminated | main.go:155 | Splitting such a file at line breaks gives back the lines, then one empty piece. |
| Paths.NewPathSplit | main.go:134-136 | The new segments are as many as the source's, the first being the target root. |
| Paths.DestinationOf | main.go:134-139 | The destination path starts with the target root, and with the folder that is created for it. |
| Paths.IndexOf | main.go:134 | The position found holds the separator, and no earlier position does. |
| Paths.SplitAtFirst | main.go:134 | The split of a path is its text before the first separator, then the split of the rest. |
| Paths.NoSeparatorMapsToTarget | main.go:134-139 | A walked path without a separator maps to the target root itself, with an empty folder. |
| Paths.PathAfterFirstSeparator | main.go:134-139 | Otherwise the destination is the target root followed by the walked path from its first separator on. |
| Paths.MirrorPathInjective | main.go:134-139 | Placing files at the target root plus their relative path sends distinct files to distinct destinations. |
| Paths.MirrorsRelativePath | main.go:134-139 | A file under a one-segment source root lands at its relative path under the target root. |
| Paths.FirstSegmentDropped | main.go:134-139 | Two walked paths that differ only in their first segment share a destination, and all paths without a separator share the target root itself. |
| Paths.FileNameKept | main.go:134-139 | The destination's file name is the source's file name. |
| Paths.TwoSegments | main.go:134 | A walked path with a separator splits into at least two segments. |
| Paths.LastOfNewPath | main.go:134-136 | The new segments end with the source's file name. |
| Paths.FolderThenName | main.go:134-139 | The destination path is its folder, a separator, and the source's file name. |
| Transform.TokensHaveNoLineBreak | main.go:21-33 | Neither placeholder key holds a line break. |
| Transform.LoopRewritten | main.go:111-119 | The loop as written gives one output line per scanned line, each under its own iteration order, and introduces no line break. |
| Transform.LoopKeepsLineBreaksOut | main.go:114-118 | The loop as written never introduces a line break, under any iteration order. |
| Transform.Rewritten | main.go:111-119 | The fixed-order rewrite gives one output line per scanned line and introduces no line break. |
| Transform.PassKeepsLineBreaksOut | main.go:114-118 | The fixed-order rewrite never introduces a line break. |
| Transform.LoopEnimFirst | main.go:111-119 | When Go iterates the enim rule first on every line, the loop's output is the fixed-order rewrite, line by line. |
| Transform.LoopWithoutAmetnim | main.go:111-118 | When no scanned line holds `ametnim` or `Ametnim`, the loop gives the fixed-order rewrite of every line whatever order Go picks per line. |
| Transform.MirrorFile | main.go:111-120 | An empty source gives an empty destination file; any other ends in a line break. |
| Transform.AnonFile | main.go:111-120 | No destination file exists exactly when no line was scanned; otherwise it is at the computed path and holds each line's loop output under its own iteration order plus a break, and splits back into those lines. |
| Transform.LoopFileSplits | main.go:155 | The loop's output written line by line splits back into exactly those lines. |
| Transform.LoopStep | main.go:155 | Scanning one more line appends its loop output and a line break to the destination. |
| Transform.MirroredFile | main.go:111-120 | Every source file gets a destination, distinct relative paths get distinct ones, and it holds exactly the rewritten lines, one per line break. |
| Transform.ExamplePath | main.go:134-139 | `src/a.txt` under target `out` goes to `out/a.txt`. |
| Transform.TerminatedPair | main.go:155 | Two lines are written as first line, break, second line, break. |
| Transform.ExampleFile | main.go:111-120 | The lines `amet`, `Enim` of `a.txt` become `AMET_REPLACE`, `ENIM_REPLACE` in `out/a.txt`. |

## Left out

- Directory walk, `os.RemoveAll`, `os.Stat`, `os.MkdirAll`, `os.OpenFile` and the file mode (`main.go:35-55`, `main.go:105`, `main.go:141-153`): file-system I/O. The model takes a file's scanned lines as input and returns the destination's path and contents. The target root is removed first, so a destination starts empty, unless several source files share it (see Findings). Then their lines all land in that one file.
- Goroutines, the `WaitGroup`, the status channel, the progress bar and the timing (`main.go:56-99`, `main.go:121`): concurrency and reporting. Each file is modelled on its own. Files that share a destination (see Findings) are appended to it by concurrent goroutines, line by line, and the model does not fix how their lines interleave.
- `logOnErr` and `panic` (`main.go:161-165`, `main.go:155-157`): error paths of I/O that is not modelled.
- `bufio.ScanLines` (`main.go:108-112`): it drops a trailing carriage return and fails on lines over 64 KiB. The model starts from the lines it yields, which hold no line break.
- Bytes versus characters (`main.go:125-127`): lines are `seq<char>`. Both patterns are ASCII, and an ASCII byte never occurs inside a multi-byte UTF-8 character, so the byte-level and character-level results agree.
- Scanner.ReplaceAll: the `$` expansion Go applies to the replacement is not modelled. Neither placeholder holds a `$`, so it never changes the result.
- Paths.DestinationOf: only `/` is modelled as `os.PathSeparator`. Only the first segment of the walked path is replaced by the target root, so a relative path is mirrored only under a one-segment source root (`Paths.MirrorsRelativePath`). With a deeper root, the root's later segments reappear under the target.
- Directories: `os.MkdirAll` (`main.go:142`) runs only inside `appendToFile`, that is, once a line is written. So no empty source directory, and no directory holding only empty files, is recreated under the target. This is I/O and is not modelled.
- Rewriter.RewriteInOrder: the rules do not commute, so no commutativity lemma exists. `Rewriter.RuleOrderMatters` proves the opposite on `ametnim`.
- SinglePass.NoAmetSurvives: "no match survives" is stated for the amet rule only (for the loop as written, `SinglePass.LoopLeavesNoAmet`). A fresh `Enim` can appear after the enim placeholder (`SinglePass.EnimCanResurface`, `Rewriter.EnimRuleNotIdempotent`), so the property does not hold for the enim rule, and the whole rewrite is not idempotent either (`SinglePass.RewriteNotIdempotent`).
- SinglePass.TailCaseMatters: a fully case-insensitive match is not modelled, because the code's patterns `[aA]met` and `[eE]nim` give only the first letter a case choice. `AMET`, `ENIM` and `eNIM` are left alone.
- Transform.AnonFile: the iteration order of each line is a parameter, because Go chooses it. The model proves what holds for every choice, and `Transform.LoopEnimFirst` shows the enim-first choice yields the fixed-order rewrite.

## Findings

| source | as written | input that shows it | evidently intended | confidence | as-written member | corrected member |
|---|---|---|---|---|---|---|
| main.go:114-118 | The rules live in a Go map and run in the map's unspecified iteration order, chosen afresh for every line. Each rule rescans the previous rule's output, placeholders included | the line `ametnim`: amet rule first gives `AMET_REPLACENIM_REPLACE`, enim rule first gives `AMET_REPLACEnim` | a fixed enim-then-amet order (the rules in a slice instead of a map), which never rewrites a placeholder and gives one result per line; the two orders differ only on lines holding `ametnim` or `Ametnim` (`SinglePass.OrderMattersOnlyForAmetnim`), and `ametnim` shows this condition cannot be dropped | high, not executed | Rewriter.RuleOrderMatters | SinglePass.Rewrite |
| main.go:111-120 | `appendToFile` is reached only once per scanned line, so it is the only place a destination file is created | an empty source file: no line is scanned and no destination file exists | every source file is mirrored, an empty one as an empty file | medium, not executed | Transform.AnonFile | Transform.MirroredFile |
| main.go:134-139 | The first segment of the walked path is replaced by the target root, whatever that segment is | source root `.`: the walk yields `a.txt` and `b.txt`, and both are appended to the single file `targetPath`; `x/c.txt` and `y/c.txt` both go to `targetPath/c.txt` | each file at the target root followed by its path relative to the source root, so distinct files get distinct destinations | high, not executed | Paths.FirstSegmentDropped | Paths.MirrorPathInjective |
