# figma-icon-bot: the icon reconciliation core in Dafny

figma-icon-bot pulls the component icons of a Figma file and writes them into an output
directory as SVG files and/or React components. It then removes the files of icons that
no longer exist and reports what changed, in a commit message and a pull-request body.
This project models the deterministic core of that pipeline and proves properties of it:

- **Naming** (`naming.dfy`, module `Naming`): `transformName` with its four styles
  (`preserve`, `kebab-case`, `camelCase`, `PascalCase`), the filesystem sanitiser, and
  `toPascalCase`. Each JavaScript regex rewrite is written out as a recursive function
  on strings: `\s` is the full JavaScript whitespace class, `.` excludes line
  terminators, and case mapping is ASCII only.
- **React conversion** (`react.dfy`, module `ReactComponent`): `svgToReactComponent`.
  - The first `<svg…>…</svg>` match uses the pattern's exact backtracking behaviour:
    the earliest `<svg`, the first `>` after it, then the first `</svg>`.
  - Attributes are rewritten into React spelling.
  - The component template is filled in.
- **Reconciliation** (`reconcile.dfy`, module `Reconcile`): the decision each save
  makes, `categorizeResult`, the per-icon `try`/`catch`, the batch fold, and the
  orphan rule of `findDeletedIcons`. All of these are functions of the directory's
  contents.
  - The directory is a `map` from file name to contents.
  - Filesystem failures are fixed in advance by a `Faults` record. It says whether
    `mkdir` or `readdir` fail, and which names cannot be read, written or unlinked.
  - The SVGO optimiser is a function parameter that may reject its input.
- **The processor object** (`icon_processor.dfy`, class `IconProcessing.IconProcessor`):
  `processIcons`, `saveSvg`, `saveReactComponent` and `findDeletedIcons` as methods
  that update the directory field in place, with their loops. Each method is proved
  against the functions of `Reconcile`.
- **Git helpers** (`git_handler.dfy`, module `GitHandler`): `parseGitHubUrl`,
  `generateCommitMessage` and `generatePRBody`.
  - The PR body is also built by loops (`GeneratePRBody`), proved equal to its
    functional definition.
- **Figma tree walk** (`figma_client.dfy`, module `FigmaClient`): `traverseNodes` and
  the filter/combine step of `getIcons`, with the downloaded SVGs given as a map.

The model reproduces these behaviours of the code as they are:

- The React file is named after `toPascalCase` of the transformed name. The orphan
  check compares base names against the transformed names. So unless `toPascalCase` of
  the transformed name is empty or is itself a name of the batch, the React file written
  by a pass is deleted by that pass's own orphan run (`ReactOrphanIff`,
  `ReactFileDeletedInSamePass`), and the next pass reports it as added again
  (`ReactFileAddedAgain`). An all-separator name such as `-` leaves a file named only
  `.jsx` or `.tsx`, whose extension `path.extname` reports as empty, so it is kept.
- The React file's extension is `.tsx` only when a React section exists and sets
  `typescript`. The props annotation defaults to present. Without a React section, a
  `.jsx` file therefore holds TypeScript (`DefaultReactFileIsTyped`).
- `deleted` holds bare file names. The other lists hold paths joined to the output
  directory.
- Under an INSTANCE, FRAME or GROUP node, the walk visits the children twice, so the
  components below appear twice per level (`NestedFramesRepeatComponent`).
- `processIcons` itself has no empty-batch guard. An empty batch reaches the orphan run
  with an empty name set, and every file with a managed extension is deleted
  (`EmptyBatchRemovesManagedFiles`). The only early return in the orchestration is at
  `src/sync.ts:22`, and it fires only when the Figma fetch returns no icons. The exclude
  filter runs after that check (`src/sync.ts:37-41`), so a batch that the filter empties
  still reaches `processIcons` and deletes every managed file.
- Running a pass a second time over the same icons leaves the files of the icon loop as
  they were (`SecondPassChangesNothing`), but it does not report everything unchanged:
  every React file that the previous pass's orphan run removed is written again and
  reported as added (`ReactFileAddedAgain`).

## Model

| member | source | states |
|---|---|---|
| Naming.ReplaceUnsafe | src/icon-processor.ts:113 | each of `< > : " / \ \| ? *` becomes `-`; every other character and the length are kept |
| Naming.SanitizeForFilesystem | src/icon-processor.ts:110-116 | the result is safe: no unsafe character, every whitespace is a plain space, no two whitespace characters are adjacent, none at either end |
| Naming.CollapsedIsSafe | src/icon-processor.ts:113-114 | collapsing whitespace runs of a text without unsafe characters leaves single plain spaces only |
| Naming.TrimKeepsSafe | src/icon-processor.ts:115 | trimming a text with single plain spaces yields a safe name |
| Naming.CollapseKeepsSingleSpaces | src/icon-processor.ts:114 | collapsing whitespace runs changes nothing in a text that has only isolated plain spaces |
| Naming.SanitizeKeepsSafeName | src/icon-processor.ts:110-116 | a safe name is a fixed point of the sanitiser |
| Naming.PlainNameIsSafe | src/icon-processor.ts:110-116 | a name without whitespace or unsafe characters is safe |
| Naming.SanitizeIdempotent | src/icon-processor.ts:110-116 | sanitising twice is sanitising once |
| Naming.HyphenateCaseBoundaries | src/icon-processor.ts:79 | no ASCII lower-case letter is followed by an upper-case one afterwards; the first character is kept |
| Naming.HyphenateKeepsNoUpper | src/icon-processor.ts:79 | a name without upper-case letters is not changed by the case-boundary rewrite |
| Naming.HyphenateCamelPair | src/icon-processor.ts:79 | a lower-case word followed by a capitalised word gets exactly one hyphen between them |
| Naming.CamelKebabStyle | src/icon-processor.ts:77-82 | the kebab style turns a camelCase pair of lower-case words into the words joined by a hyphen |
| Naming.CamelToKebab | src/icon-processor.ts:72-104 | `transformName` under kebab-case with default sanitising maps a camelCase pair to the hyphen-joined lower-case words |
| Naming.CamelToKebabExample | src/icon-processor.ts:77-82 | `arrowLeft` under kebab-case gives `arrow-left` |
| Naming.ToKebabCase | src/icon-processor.ts:77-82 | the kebab form has no upper-case ASCII letter, no whitespace and no underscore |
| Naming.SnakeToKebabRuns | src/icon-processor.ts:80 | underscore separators between lower-case words become single hyphens |
| Naming.SnakeToKebabStyle | src/icon-processor.ts:77-82 | the kebab style turns lower-case snake_case words into the same words joined by hyphens |
| Naming.SnakeToKebab | src/icon-processor.ts:72-104 | `transformName` under kebab-case with default sanitising maps snake_case words to hyphen-joined words |
| Naming.KebabExample | src/icon-processor.ts:77-82 | `arrow_left_icon` under kebab-case gives `arrow-left-icon` |
| Naming.CapitalizeWords | src/icon-processor.ts:85 | a separator run at the very end is shortened so that only the input's last character survives (`a--` gives `a-`), because the pattern backtracks to let that character be the one captured |
| Naming.TrailingRunShortened | src/icon-processor.ts:85 | `a--` under the camelCase rewrite gives `a-` |
| Naming.CapitalizeSpacedWords | src/icon-processor.ts:90-91 | alphanumeric words joined by single spaces become the words capitalised and run together |
| Naming.SpacedToPascal | src/icon-processor.ts:88-104 | `transformName` under PascalCase maps space-separated alphanumeric words to the capitalised words run together |
| Naming.PascalExample | src/icon-processor.ts:88-92 | `Arrow Left` under PascalCase gives `ArrowLeft` |
| Naming.CapitalizedConcatIsSafe | src/icon-processor.ts:110-116 | capitalised alphanumeric words hold nothing the sanitiser would change |
| Naming.KebabNameIsSafe | src/icon-processor.ts:110-116 | a name of lower-case letters, digits and hyphens is safe |
| Naming.UpperFirst | src/icon-processor.ts:91 | the first character is upper-cased unless it is a line terminator, which `.` does not match; the rest is kept |
| Naming.LowerFirst | src/icon-processor.ts:86 | the first character is lower-cased unless it is a line terminator; the rest is kept |
| Naming.CapitalizeWordsDroppingSeparators | src/icon-processor.ts:264 | no `-`, `_` or whitespace is left, trailing runs included, and the text does not grow; a leading non-separator character is kept, and a leading separator run gives way to the upper-cased character after it |
| Naming.DroppingSeparatorsKeepsWords | src/icon-processor.ts:264 | a name without separators is not changed by the separator rewrite |
| Naming.DroppingSkipsPlain | src/icon-processor.ts:264 | text without separators before the first separator passes through unchanged |
| Naming.DroppingAtRun | src/icon-processor.ts:264 | a separator run followed by a character is replaced by that character upper-cased |
| Naming.DroppingTrailingRun | src/icon-processor.ts:264 | a separator run with nothing after it is removed |
| Naming.DroppingStep | src/icon-processor.ts:264 | a word, a separator run and the rest become the word followed by the rest's rewrite with its first character upper-cased |
| Naming.DroppingEmptyIff | src/icon-processor.ts:264 | the rewrite leaves nothing exactly when the text is all separators |
| Naming.ToPascalCase | src/icon-processor.ts:262-266 | the result has no separator, does not grow and does not start with a lower-case ASCII letter; a name starting with a non-separator starts with it upper-cased; the result is empty exactly when the name is all separators |
| Naming.ToPascalCaseIdempotent | src/icon-processor.ts:262-266 | applying `toPascalCase` twice is applying it once |
| Naming.PascalOfWords | src/icon-processor.ts:262-266 | alphanumeric words joined by any separator run become the words capitalised and run together |
| Naming.SeparatorChangesPascal | src/icon-processor.ts:262-266 | a name holding a `-`, `_` or whitespace is never its own PascalCase form |
| Naming.HyphenatedPascalExample | src/icon-processor.ts:262-266 | `arrow-left` becomes `ArrowLeft` |
| Naming.ArrowLeftFacts | src/icon-processor.ts:110-116 | `arrow-left` is a safe name, holds a hyphen at index 5 and has a non-empty PascalCase form |
| Naming.TransformName | src/icon-processor.ts:71-105 | sanitising is on unless `sanitize` is explicitly false, and then the result is safe; with no naming section the result is the sanitised name; `preserve` without sanitising is the identity |
| Naming.SanitizeKeepsLastChar | src/icon-processor.ts:110-116 | a last character that is neither whitespace nor unsafe survives sanitising |
| Naming.StyledKeepsTrailingSeparator | src/icon-processor.ts:83-92 | the camelCase and PascalCase styles keep a trailing `-` or `_` |
| Naming.CamelAndPascalKeepTrailingSeparator | src/icon-processor.ts:83-104 | `transformName` under camelCase or PascalCase keeps a trailing `-` or `_`, whereas `toPascalCase` drops it |
| ReactComponent.MatchSvgAt | src/icon-processor.ts:165 | a match at a given `<svg` has `>`-free attributes and content without `</svg>`, and the element occurs there |
| ReactComponent.MatchSvgFrom | src/icon-processor.ts:165 | a match found from a position on is such an element, occurring at or after it |
| ReactComponent.MatchSvgFromLeftmost | src/icon-processor.ts:165 | the search returns the attempt at the leftmost `<svg` where the pattern matches |
| ReactComponent.MatchSvgFromFinds | src/icon-processor.ts:165 | whenever a well-formed element occurs from a position on, the search finds a match |
| ReactComponent.MatchSvgNoneIff | src/icon-processor.ts:165 | there is no match exactly when no `<svg` element in the text has `>`-free attributes and content without `</svg>` |
| ReactComponent.MatchSvg | src/icon-processor.ts:165 | a match is an `<svg` element occurring in the text, with `>`-free attributes and no `</svg>` inside its content |
| ReactComponent.MatchSvgAtComplete | src/icon-processor.ts:165 | every such element at a `<svg` is what the pattern captures there |
| ReactComponent.MatchSvgOfElement | src/icon-processor.ts:165 | an element preceded by text that cannot start `<svg` is the match, whatever follows it |
| ReactComponent.CamelizeHyphenatedWords | src/icon-processor.ts:174 | the rewrite does not grow the text and adds only upper-case letters |
| ReactComponent.CamelizeWithoutHyphen | src/icon-processor.ts:174 | a text without hyphens is unchanged |
| ReactComponent.CamelizePair | src/icon-processor.ts:174 | `word-word` followed by a non-word character becomes the first word, the second one capitalised, and the rewrite of what follows |
| ReactComponent.CamelizeSkipsPlain | src/icon-processor.ts:174 | hyphen-free text not ending in a word character is kept, and the rewrite goes on after it |
| ReactComponent.StrokeWidthValue | src/icon-processor.ts:174 | `stroke-width=` followed by a hyphen-free value becomes `strokeWidth=` and the value |
| ReactComponent.ReactAttributes | src/icon-processor.ts:173-178 | attributes without `>` are rewritten without `>`, so the tag stays closed |
| ReactComponent.ReactAttributesKeepPlain | src/icon-processor.ts:173-178 | attributes without hyphens and without `class=` are unchanged |
| ReactComponent.ClassAndStrokeWidthRenamed | src/icon-processor.ts:173-178 | ` class=v1 stroke-width=v2`, with values free of `-` and `c`, becomes ` className=v1 strokeWidth=v2` |
| ReactComponent.ReactAttributesExample | src/icon-processor.ts:173-178 | ` class="x" stroke-width="2"` becomes ` className="x" strokeWidth="2"` |
| ReactComponent.ComponentName | src/icon-processor.ts:160-162 | the component name is the prefix, when set, followed by the PascalCase form of the name |
| ReactComponent.SourceStartsWithSignature | src/icon-processor.ts:183-185 | the source starts with the React import and the export line |
| ReactComponent.SvgToReactComponent | src/icon-processor.ts:158-194 | the conversion fails with `Invalid SVG content` exactly when there is no match; otherwise the source opens with the import and the signature for the component name |
| ReactComponent.ExportDefaultIff | src/icon-processor.ts:185 | the export is `export default` if and only if the export type is `default` |
| ReactComponent.PropsTypedIff | src/icon-processor.ts:180-181 | the props annotation is present if and only if there is no React section or it sets `typescript` |
| ReactComponent.SignatureHasNoSvgOpen | src/icon-processor.ts:183-186 | nothing before the root element can start an `<svg` match |
| ReactComponent.RootIsWellFormed | src/icon-processor.ts:187-189 | the rewritten root element keeps `>`-free attributes ending in `{...props}` and content without `</svg>` |
| ReactComponent.PaddedContentWellFormed | src/icon-processor.ts:188 | trimming the content and indenting it creates no `</svg>` |
| ReactComponent.RootTagSpreadsProps | src/icon-processor.ts:183-191 | matching the generated source finds the rewritten root element, whose attributes end with `{...props}` |
| Reconcile.StatusOf | src/icon-processor.ts:136-146 | `added` if and only if the read failed; `unchanged` if and only if the contents are equal; `updated` otherwise |
| Reconcile.SaveFile | src/icon-processor.ts:132-153 | a save fails only when its write fails; afterwards the file holds the new contents and no other name changes; an unchanged file is not written |
| Reconcile.SaveFormat | src/icon-processor.ts:199-228 | only the format's own file can change; the SVG format is the plain save; a React conversion that finds no match fails before any read |
| Reconcile.DefaultReactFileIsTyped | src/icon-processor.ts:204 | without a React section, the file is `.jsx` while its source carries the TypeScript props annotation |
| Reconcile.Categorize | src/icon-processor.ts:271-286 | the path is appended to exactly the list its status names; `deleted` and `errors` are untouched |
| Reconcile.AddError | src/icon-processor.ts:50-55 | one error entry for the icon is appended and nothing else changes |
| Reconcile.NameSet | src/icon-processor.ts:59-61 | the name set holds the transformed name of every icon of the batch, failed ones included, and nothing else |
| Reconcile.NameSetOfOne | src/icon-processor.ts:59-61 | a batch of one icon has exactly that icon's name |
| Reconcile.LastDot | src/icon-processor.ts:240 | the index found holds the last `.` of the name |
| Reconcile.ExtName | src/icon-processor.ts:240 | the extension is empty or starts with `.` and is a proper suffix of the name |
| Reconcile.BaseName | src/icon-processor.ts:242 | the base name followed by the extension is the file name |
| Reconcile.SaveAgainIsUnchanged | src/icon-processor.ts:136-150 | saving the same contents a second time reports `unchanged` and writes nothing |
| Reconcile.RunFormatsEffect | src/icon-processor.ts:41-48 | the formats loop only appends to the report, adds no error, and changes no file but its formats' own files |
| Reconcile.IconStepEffect | src/icon-processor.ts:29-56 | one icon only appends to the report, adds at most one error, named after the icon, and touches only its own files |
| Reconcile.IconFailsOnce | src/icon-processor.ts:50-55 | a failing optimisation or format adds exactly one error, named after `icon.name`, the name before `transformName` |
| Reconcile.RunIconsAppend | src/icon-processor.ts:29-56 | the batch loop over two concatenated batches is the loop over the first followed by the loop over the second |
| Reconcile.LaterIconsStillRun | src/icon-processor.ts:29-56 | whatever one icon does, the icons after it still run, from the state it left |
| Reconcile.RunIconsEffect | src/icon-processor.ts:29-56 | the batch only appends to the report, adds at most one error per icon, and touches only the batch's files |
| Reconcile.IconStepErrors | src/icon-processor.ts:50-55 | one icon keeps the errors before it, and every error it adds is named after the icon |
| Reconcile.RunIconsErrorsNameIcons | src/icon-processor.ts:50-55 | every error the batch adds is named after one of its icons |
| Reconcile.ManagedFileName | src/icon-processor.ts:240-242 | a non-empty base name followed by `.svg`, `.tsx` or `.jsx` is managed, and its base name is recovered |
| Reconcile.SvgOutputKept | src/icon-processor.ts:241-244 | the SVG file of an icon of the batch is never an orphan |
| Reconcile.ReactOutputOrphaned | src/icon-processor.ts:204-244 | the React file is an orphan whenever the PascalCase form of the name is non-empty and not itself a name of the batch |
| Reconcile.ReactOrphanIff | src/icon-processor.ts:204-244 | the React file is an orphan if and only if the PascalCase form of the name is non-empty and not a name of the batch |
| Reconcile.PascalNameKeepsReactFile | src/icon-processor.ts:204-244 | a name already in PascalCase keeps its React file |
| Reconcile.OrphansRemoved | src/icon-processor.ts:239-249 | when no unlink fails, every orphan is reported and gone |
| Reconcile.RemainingFiles | src/icon-processor.ts:239-249 | when no unlink fails, the files left are exactly the non-orphans, with their contents |
| Reconcile.SaveFormatWritable | src/icon-processor.ts:199-228 | when writes do not fail, a save succeeds exactly when the format's contents exist, and it stores them under the format's file |
| Reconcile.RunFormatsFiles | src/icon-processor.ts:41-48 | when writes do not fail, the formats loop overlays its writes on the directory, later formats winning |
| Reconcile.IconStepFiles | src/icon-processor.ts:30-49 | when writes do not fail, one icon overlays its writes on the directory |
| Reconcile.RunIconsFiles | src/icon-processor.ts:29-56 | when writes do not fail, the batch overlays a fixed set of writes, whatever the directory held; on a name collision the later icon wins |
| Reconcile.SecondPassChangesNothing | src/icon-processor.ts:29-56 | when writes do not fail, a second icon loop over the same batch leaves the directory as the first one left it |
| IconProcessing.IconProcessor.constructor | src/icon-processor.ts:9-11 | the processor holds the configuration, the optimiser, the faults and the directory it is given |
| IconProcessing.IconProcessor.WriteIfChanged | src/icon-processor.ts:136-150 | the read-compare-write step changes the directory exactly as the save function decides, and reports its status or write error |
| IconProcessing.IconProcessor.SaveSvg | src/icon-processor.ts:132-153 | saves `<name>.svg` as the save function for the SVG format decides |
| IconProcessing.IconProcessor.SaveReactComponent | src/icon-processor.ts:199-228 | converts the SVG and saves the component as the save function for the React format decides, or fails with the conversion's error |
| IconProcessing.IconProcessor.ListDirectory | src/icon-processor.ts:237 | the listing holds every file name of the directory once |
| IconProcessing.IconProcessor.FindDeletedIcons | src/icon-processor.ts:233-257 | the deletion loop's outcome: reported names are distinct orphans, removed except a last one whose unlink threw; without unlink failures every orphan is reported; a failed listing deletes nothing |
| IconProcessing.IconProcessor.ProcessIcons | src/icon-processor.ts:16-66 | a failed `mkdir` is the batch's error and changes nothing; otherwise the report is the icon loop's report with the deletion run's names in `deleted`, and the directory is the deletion run's outcome over the loop's directory |
| IconProcessing.IconProcessor.ProcessIcon | src/icon-processor.ts:30-55 | one iteration of the icon loop, its `try` and its `catch`, updates report and directory as the per-icon step decides |
| IconProcessing.IconProcessor.SaveIn | src/icon-processor.ts:42-48 | the dispatch on one format changes the directory and reports as the save function for that format decides |
| IconProcessing.IconProcessor.SaveFormats | src/icon-processor.ts:41-48 | the formats loop updates report and directory as the formats function decides, and returns the error that stopped it |
| IconProcessing.ScanSkips | src/icon-processor.ts:240-244 | a listed file that is no orphan is passed over |
| IconProcessing.ScanDeletes | src/icon-processor.ts:241-249 | an orphan whose unlink succeeds is reported and removed, and the scan goes on |
| IconProcessing.ScanStops | src/icon-processor.ts:245-250 | an orphan whose unlink throws is reported, and the run ends there with the deletion outcome and the file still present |
| IconProcessing.ScanComplete | src/icon-processor.ts:239-256 | a scan that reaches the end of the listing meets the deletion outcome |
| IconProcessing.ReactFileDeletedInSamePass | src/icon-processor.ts:59-63 | a React file present after the icon loop whose PascalCase name is not a batch name is reported and removed by the same pass |
| IconProcessing.ReactFileAddedAgain | src/icon-processor.ts:211-221 | the next save of such a removed React file reports it as added |
| IconProcessing.SeparatedNameLosesReactFile | src/icon-processor.ts:59-63 | a one-icon batch whose kept name holds a separator loses the React file it wrote, in the same pass |
| IconProcessing.ArrowLeftLosesReactFile | src/icon-processor.ts:59-63 | the icon `arrow-left` without a naming section loses its React file in the same pass |
| IconProcessing.SingleOrphanDeleted | src/icon-processor.ts:239-251 | when one file is the only orphan and no unlink fails, exactly that file is reported and removed |
| IconProcessing.SafeNameKept | src/icon-processor.ts:72-102 | with no naming section, a safe icon name is the name its files get |
| IconProcessing.NewIconPass | src/icon-processor.ts:29-56 | a new icon saved as SVG only is written, reported as added, and nothing else changes |
| IconProcessing.OldSvgDeleted | src/icon-processor.ts:233-257 | after that pass over a directory holding only another icon's SVG, exactly the old SVG is reported and removed |
| IconProcessing.EmptyBatchRemovesManagedFiles | src/icon-processor.ts:58-63 | an empty batch deletes every `.svg`, `.tsx` and `.jsx` file and keeps every other file |
| GitHandler.RepoOf | src/git-handler.ts:150 | the repository part is empty or has a line terminator exactly when it cannot match; otherwise it is the rest without a trailing `.git`, which is stripped whenever the rest is longer than `.git` |
| GitHandler.MatchRemoteAt | src/git-handler.ts:150 | a match at a prefix splits the rest of the URL into an owner without `/`, a `/` and the repository with an optional `.git` |
| GitHandler.MatchRemote | src/git-handler.ts:150 | a match is the attempt at some occurrence of the prefix |
| GitHandler.MatchRemoteLeftmost | src/git-handler.ts:150 | the search returns the attempt at the leftmost occurrence of the prefix where the pattern matches |
| GitHandler.MatchRemoteFinds | src/git-handler.ts:150 | whenever the pattern matches at some occurrence from a position on, the search finds a match |
| GitHandler.MatchRemoteNoneIff | src/git-handler.ts:150 | there is no match exactly when the attempt fails at every occurrence of the prefix |
| GitHandler.ParseGitHubUrl | src/git-handler.ts:148-162 | the SSH pattern is tried first; the result is null exactly when neither pattern matches; a parsed owner has no `/` and the repository is non-empty |
| GitHandler.UnknownHostIsNull | src/git-handler.ts:161 | a URL containing neither prefix parses to null |
| GitHandler.MatchesAtStart | src/git-handler.ts:150-158 | a URL built from a prefix, an owner and a repository matches at its start and gives them back |
| GitHandler.SshRoundTrip | src/git-handler.ts:150-153 | an SSH URL with or without `.git` parses back to its owner and repository |
| GitHandler.NoAtNoSsh | src/git-handler.ts:150 | a URL without `@` does not match the SSH pattern |
| GitHandler.HttpsRoundTrip | src/git-handler.ts:155-159 | an HTTPS URL with or without `.git` parses back to its owner and repository |
| GitHandler.RemoteExamples | src/git-handler.ts:149-158 | `git@github.com:o/r.git` and `https://github.com/o/r.git` both give owner `o` and repository `r` |
| GitHandler.OrDefault | src/git-handler.ts:168 | a configured non-empty text wins; a missing or empty one falls back to the default |
| GitHandler.CommitDetails | src/git-handler.ts:170-179 | one line per non-empty list in the order Added, Updated, Deleted, each with its list's count, none when all three are empty |
| GitHandler.CommitMessage | src/git-handler.ts:167-186 | the message starts with the base message and equals it exactly when added, updated and deleted are all empty |
| GitHandler.CommitMessageCountsOnly | src/git-handler.ts:170-185 | the message depends only on the three counts, never on unchanged files or errors |
| GitHandler.CommitMessageOfAdditions | src/git-handler.ts:171-183 | with additions only, the message is the base, a blank line and `Added: <n> icon(s)`, whose digits read back as the count |
| GitHandler.BulletLines | src/git-handler.ts:198-200 | one `- entry` line per entry, in order |
| GitHandler.Overflow | src/git-handler.ts:201-203 | the overflow line is present exactly when there are more than 10 entries |
| GitHandler.OverflowCountsRest | src/git-handler.ts:202 | the overflow line states the number of entries beyond the tenth |
| GitHandler.Section | src/git-handler.ts:196-205 | a section is empty exactly when its list is; otherwise it opens with the heading and count and ends with the overflow line and a blank line |
| GitHandler.SectionListsEntry | src/git-handler.ts:198-200 | each of the first ten entries appears as its bullet line at its place in the section |
| GitHandler.ErrorLines | src/git-handler.ts:231-233 | one `- file: error` line per error, in order |
| GitHandler.ErrorsSection | src/git-handler.ts:229-235 | the errors section is empty exactly when there are no errors |
| GitHandler.ErrorsSectionListsEntry | src/git-handler.ts:231-233 | every error, without a cap, appears as its line at its place in the section |
| GitHandler.PRBody | src/git-handler.ts:191-238 | the body starts with the configured or default body followed by the changes heading |
| GitHandler.GeneratePRBody | src/git-handler.ts:191-238 | the body built by appending in loops is the body defined by the sections |
| GitHandler.AppendSection | src/git-handler.ts:196-205 | the loop appends exactly the section of the list |
| GitHandler.AppendErrors | src/git-handler.ts:229-235 | the loop appends exactly the errors section |
| GitHandler.PRBodyListsErrors | src/git-handler.ts:229-237 | every error's line occurs in the body |
| GitHandler.PRBodyWithoutChanges | src/git-handler.ts:192-237 | the body is only base and heading exactly when added, updated, deleted and errors are all empty |
| GitHandler.PRBodyIgnoresUnchanged | src/git-handler.ts:191-238 | the unchanged files never affect the body |
| FigmaClient.Traverse | src/figma-client.ts:55-85 | every node collected is a COMPONENT |
| FigmaClient.TraverseChildren | src/figma-client.ts:70-82 | the children's results hold only COMPONENT nodes |
| FigmaClient.TraverseFindsComponents | src/figma-client.ts:55-85 | a node is collected if and only if it is a COMPONENT reachable without passing through another component |
| FigmaClient.ChildrenFindComponents | src/figma-client.ts:70-82 | the children from an index on collect exactly the components reachable from one of them |
| FigmaClient.NestedFramesRepeatComponent | src/figma-client.ts:59-82 | a component two frames deep is collected four times |
| FigmaClient.NestedComponentCopies | src/figma-client.ts:59-82 | a component under a chain of `d` single-child containers is collected 2^d times |
| FigmaClient.IconOf | src/figma-client.ts:136-141 | the icon takes the node's name as both name and original name, the SVG, and the node's id |
| FigmaClient.CombineIcons | src/figma-client.ts:134-141 | every icon is built from one of the nodes that has a non-empty SVG; no more icons than nodes |
| FigmaClient.CombineKeepsExported | src/figma-client.ts:135 | every node with a non-empty SVG yields its icon |
| FigmaClient.CombineOfConcat | src/figma-client.ts:134-141 | the combine step works node by node, so icons keep the order of their nodes |
| FigmaClient.FilterByName | src/figma-client.ts:121-123 | without a filter all nodes are kept; with one, exactly the passing nodes, drawn from the input |
| FigmaClient.FilterOfConcat | src/figma-client.ts:121-123 | filtering works node by node, so the kept nodes keep their order |
| FigmaClient.NodeIds | src/figma-client.ts:130 | the ids of the filtered nodes, in order |
| FigmaClient.GetIcons | src/figma-client.ts:117-144 | an empty filtered list yields no icons; every icon has a non-empty SVG and, under a filter, a passing name |

## Left out

- Filesystem I/O is not performed. The directory is a map, and the failures of `mkdir`, `readdir`, `readFile`, `writeFile` and `unlink` are fixed by the `Faults` record. The wording of the operating system's error messages is not modelled: `WriteError` and `MkdirError` stand in for them.
- Reconcile.SaveFile: a write that fails after `fs.writeFile` has opened and truncated the file is not modelled. A name in `unwritable` keeps its old contents, whereas the real file may be left empty or partial, and the next pass would then report it `updated` rather than `unchanged`.
- `path.join` is modelled as `directory/name` for a plain file name. Normalisation of `.`, `..` and duplicate slashes is left out.
- `path.extname` and `path.basename` are modelled for flat names, which is what `readdir` returns. Names containing `/` are not considered. Directories in the listing are treated like files.
- SVGO is not modelled. The optimiser is a parameter that returns the optimised text or an error, and its plugin list is not modelled.
- Case mapping is ASCII only. JavaScript's full Unicode `toUpperCase` and `toLowerCase` are not modelled.
- Concurrency and the asynchronous interleaving of the methods are not modelled. The model runs the calls in program order. The `Promise.all` download in `exportSvgs` is not modelled either.
- Git, GitHub and Figma network calls are not modelled. The Figma export is a parameter that maps node ids to SVG texts. A node with no `children` is treated as one with an empty list.
- FigmaClient.GetIcons: the user's name filter is an opaque predicate. The stateful behaviour of `RegExp.test` on a global pattern is not modelled. Neither are lookups of `svgContents` that hit inherited object properties.
- `src/sync.ts`, `src/cli.ts` and `src/index.ts` are not part of this model. That includes the orchestration's empty-batch guard and its include/exclude filters.
- `categorizeResult` pushes into the report in place. Here it is a function returning the extended report. The methods of the processor thread the report through their loops.
- The `details` array of `generateCommitMessage` is built by pushes; here it is a function, and the commit message is built from it.
- Reconcile.SecondPassChangesNothing covers the directory contents of the icon loop when no write fails. It does not cover the report, whose React entries change (`ReactFileAddedAgain`). It also does not cover the deletion run.
- `optimize` throwing and the SVG conversion throwing are modelled as error results carrying their message. Non-`Error` values thrown are not distinguished.
