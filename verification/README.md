# PageSpeed in Dafny

A model of the parts of PageSpeed 2.0 where a wrong step is silent: the CSS
minifier and the `@import` flattener, the cache that stores originals and
variants, the metadata they carry, the rules that decide what HTML is stored and
served, and the selection of a variant.  Text and bytes are sequences, integers
are unbounded, and 32-bit and 64-bit limits are written out where they matter.
Loops and objects of the program are methods and classes proved against
functions; what the program promises is proved about those functions.

## How it is organised

- `CssChars`, `CssLexemes`, `CssGrammar`: characters, lexemes, and CSS text as a
  structure of characters, strings, url() tokens and brackets.
- `CssPhase3`, `CssPhase3Strings`, `CssPhase3Tree`, `CssPhase4`, `CssPhase4Lexemes`,
  `CssPhase4Input`: the two text phases of the minifier as scanners, and what they
  do to text, said of its lexemes and its structure.
- `CssKeywords`, `CssValues`, `CssValueGrammar`, `CssGateExact`, `CssDecls`,
  `CssDeclsRead`, `CssCollapse`, `CssShorthand`, `CssCollapseMeaning`,
  `CssCollapseCss`, `CssCollapseExample`: longhands collapsed into shorthands, against a browser that
  may accept or reject any value and treat every other declaration in any way, and
  against one that follows the grammar of CSS.
- `CssBalance`, `CssBalanceTree`, `CssHiddenUrl`, `CssEmbed`, `CssEmbedMeaning`,
  `CssSeams`: the balance scan, the `@media` wrapper, and texts side by side.
- `CssStrings`, `CssEscapes`, `CssImports`, `CssImportsRead`, `CssPrelude`,
  `CssFlatten`, `CssFlattenRun`, `CssFlattenText`, `CssFlattenBalance`,
  `CssFlattenExample`: strings and URLs, the import prelude, and flattening over
  every import graph, with looking up, resolving and rebasing arbitrary.
- `AlternateChain`, `Purge`, `PurgeCases`, `PurgeCapped`: the alternates of a cache
  key under interleaved writers, and the purge against a storage that answers
  anything, and against one that lists part of a chain.
- `Bytes`, `Chunks`, `Metadata`, `MetadataWriter`, `MetadataLayout`: the metadata
  prefix, versions 3 to 9.
- `HttpText`, `CivilDate`, `HttpDate`, `HttpDateExamples`: dates (section 5.6.7 of
  RFC 9110).
- `CacheControl`, `DeltaSeconds`, `CacheControlWriter`, `CacheControlRoundTrip`,
  `Sidecar`, `SidecarMeaning`: the Cache-Control parser and writer, and the
  response-header sidecar.
- `HtmlStore`, `HtmlAdmission`, `HtmlReasons`, `HtmlLifetime`, `HtmlExpires`,
  `HtmlServe`, `HtmlValidators`, `HtmlExample`: storing and serving HTML (RFC 9111),
  over whole runs.
- `Selector`, `UrlNormalizer`, `UrlCacheKey`, `UrlCanonical`, `UrlParts`,
  `InlineSList`, `Options`, `Ascii`: variant selection, URL normal form, the
  circular list, the option type, and character classes.

A method is proved equal to a function that takes the same steps.  What the steps
achieve is said apart from them: of the characters of the input, of a structure
whose text the input is, of CSS or HTTP as their standards define them, or of a
whole run.

## Model

| member | source | states |
|---|---|---|
| `CssPhase3.Phase3` | lib/css/css_minify.cc:93-371 | The loop over the sheet computes the run of the one-turn function, for any test of a custom-property colon; what that run makes of a text is `CssPhase3Tree.Phase3TrimsBlocks`, `CssPhase3Strings.NothingDroppedInString` and the rows beside them |
| `CssPhase3.OutputIsInputWithoutDrops` | lib/css/css_minify.cc:113-371 | From every state, the output is the input with exactly the dropped positions taken out |
| `CssPhase3.DropsOnlyTrailingSemicolons` | lib/css/css_minify.cc:113-371 | Only a semicolon that reaches a `}` past whitespace and semicolons is dropped, never one in a string, url, custom-property value, value group or parentheses |
| `CssPhase3.Phase3Idempotent` | lib/css/css_minify.cc:113-371 | A second run changes nothing, on every text |
| `CssPhase3.NothingLeftToTrim` | lib/css/css_minify.cc:113-371 | The output has no trailing semicolon left that the phase would drop |
| `CssPhase3Strings.NothingDroppedInString` | lib/css/css_minify.cc:213-218 | On every text, where the run stands in plain text at a quote, nothing is dropped from there to the end of the string: its body of escape pairs and characters other than the quote, and the closing quote |
| `CssPhase3Tree.StringRuns` | lib/css/css_minify.cc:213-218 | From every state outside strings and url() tokens a string is copied whole and leaves the state as it was |
| `CssPhase3Tree.BitsRun` | lib/css/css_minify.cc:113-371 | Text made of characters, escapes, strings, unquoted url() tokens and matched brackets is copied whole, semicolons inside its brackets and value groups included |
| `CssPhase3Tree.ValueRuns` | lib/css/css_minify.cc:140-212 | A custom-property value, defined by its text, is copied whole |
| `CssPhase3Tree.NamesIff` | lib/css/css_minify.cc:93-109 | The scanner takes the text before a colon for a property name if and only if it is name characters, escapes and whitespace, at top level with `--` first |
| `CssPhase3Tree.Phase3TrimsBlocks` | lib/css/css_minify.cc:93-371 | For every sheet of statements, custom properties and nested blocks, the output is the same sheet with the semicolons at the end of each block left out, and nothing else changed |
| `CssPhase4.Phase4` | lib/css/css_minify.cc:374-576 | The loop over the sheet computes the run of the one-turn function; what that run makes of a text is `CssPhase4Lexemes.Phase4IsByLexeme` and `CssPhase4Input.ZeroIsDroppedIff` |
| `CssPhase4.OutputIsInputWithoutDrops` | lib/css/css_minify.cc:374-576 | From every state, the output is the input with exactly the dropped positions taken out |
| `CssPhase4.DropsOnlyRedundant` | lib/css/css_minify.cc:374-576 | What is dropped is a zero before a dot or whitespace right after `url(`, outside strings, urls and custom-property values |
| `CssPhase4.Phase4Idempotent` | lib/css/css_minify.cc:374-576 | A second run changes nothing, on every text |
| `CssPhase4.NoRedundantZeroLeft` | lib/css/css_minify.cc:374-576 | The output has no redundant zero left |
| `CssPhase4Lexemes.Phase4IsByLexeme` | lib/css/css_minify.cc:374-576 | On every text the scanner is a reading in whole lexemes: escape pairs, strings, url() tokens and custom-property values are copied, and of the rest a `0` is left out exactly where a number can start and a dot follows |
| `CssPhase4Lexemes.KeepsZeroIff` | lib/css/css_minify.cc:38-70 | Looking back over what was emitted keeps a zero if and only if no number can start there: the text ends in a name, an escape, a dot, or a hyphen that continues a name |
| `CssPhase4Lexemes.StringIsCopied` | lib/css/css_minify.cc:534-553 | A string, defined by its text, is copied |
| `CssPhase4Lexemes.UrlIsCopied` | lib/css/css_minify.cc:554-567 | So is an unquoted url() |
| `CssPhase4Input.ZeroIsDroppedIff` | lib/css/css_minify.cc:480-533 | Said of the input: in plain text a `0` is dropped if and only if a dot follows and a number can start after the input before it |
| `CssPhase4Input.DroppedOnInput` | lib/css/css_minify.cc:374-576 | Said of the input, on every text: nothing else is dropped but whitespace right after a `(` |
| `CssPhase4Input.DroppedStandsAlone` | lib/css/css_minify.cc:511-527 | No digit, letter, underscore, non-ASCII byte or dot stands before a dropped zero, nor a hyphen that such a character or a hyphen precedes, so `10.5` and `.a0.5` are unchanged |
| `CssPhase4Input.SeparatedZeroIsDropped` | lib/css/css_minify.cc:511-527 | In plain text a zero before a dot is dropped at the start of the text, after a separator, and after a hyphen behind either |
| `CssValues.CollapsibleIsAtom` | lib/css/css_minify.cc:676-1177 | Every value the gate admits is one component: no top-level space, separator, quote or open bracket |
| `CssValueGrammar.GateIsGrammar` | lib/css/css_minify.cc:868-1177 | Class by class, the value gate admits a value with balanced brackets if and only if it is one of the CSS grammar: a non-negative length or percentage with a unit or a zero, a length of either sign or `auto`, a line width, a line style, a colour, an overflow keyword; a number may end in a dot |
| `CssValueGrammar.LegalWithoutDot` | lib/css/css_minify.cc:868-900 | A value in which no number ends in a dot is one of the grammar itself |
| `CssGateExact.CollapsibleIff` | lib/css/css_minify.cc:592-1177 | On every text: a value may join a shorthand if and only if it is a value of its class, numbers that end in a dot included, and does not start with `+`; the checks for hazards, nesting and ends refuse nothing else |
| `CssDecls.ValueNest.Feed` | lib/css/css_minify.cc:1215-1252 | Feeding a character updates the stack of open brackets and says whether the character is content |
| `CssDecls.ParseBlockDecls` | lib/css/css_minify.cc:1254-1319 | The reading loop splits a block as the specification does |
| `CssDecls.ScanLocal` | lib/css/css_minify.cc:1254-1319 | Where a declaration ends depends only on the text up to that point |
| `CssDecls.ParseOfJoin` | lib/css/css_minify.cc:1254-1319 | Joining closed pieces with semicolons and parsing gives the pieces back |
| `CssDecls.ParseGivesPieces` | lib/css/css_minify.cc:1254-1319 | Every block parses into pieces that can be joined and parsed again |
| `CssDeclsRead.EntryIsRead` | lib/css/css_minify.cc:1254-1319 | A name without a colon, a colon, and a value made of characters, escapes, strings, url() tokens and matched brackets are read as that name and that value |
| `CssDeclsRead.BlockIsRead` | lib/css/css_minify.cc:1254-1319 | A list of such declarations is read as exactly those names and values, in order |
| `CssShorthand.TextIsClosed` | lib/css/css_minify.cc:1321-1362 | A shorthand built from single-component values is one declaration for the parser |
| `CssShorthand.ComponentsOfSpaced` | lib/css/css_minify.cc:1321-1362 | Splitting a space-joined value at top-level whitespace returns its components |
| `CssCollapse.TryCollapseFamily` | lib/css/css_minify.cc:1364-1445 | Matching the longhands of a family consumes and appends what the specification says, or nothing |
| `CssCollapse.CollapseBlock` | lib/css/css_minify.cc:1447-1471 | The loop with its table of families computes the collapsed block; what the block then means is `CssCollapseMeaning.CollapsePreservesMeaning` and `CssCollapseCss.CollapseKeepsCss` |
| `CssCollapseMeaning.ShorthandIsRead` | lib/css/css_minify.cc:1321-1362 | A shorthand is read back as one declaration of its family, with the values it was made from |
| `CssCollapseMeaning.ShorthandMeans` | lib/css/css_minify.cc:1321-1362 | To every browser a shorthand gives each longhand its value if the browser accepts all of them, and nothing otherwise |
| `CssCollapseMeaning.CollapsesExactlyWhen` | lib/css/css_minify.cc:1364-1445 | A family collapses if and only if the front declarations are its longhands, each once, in any order, with admitted values |
| `CssCollapseMeaning.CollapsePreservesMeaning` | lib/css/css_minify.cc:1254-1471 | For every block and every browser, the collapsed block gives every property the same values in the same order if and only if the browser accepts or rejects together the values that are collapsed together |
| `CssCollapseMeaning.LegalIsUniform` | lib/css/css_minify.cc:676-1177 | A browser that accepts whatever the value gate recognises as legal meets that condition on every block |
| `CssCollapseCss.ShorthandSets` | lib/css/css_minify.cc:1321-1362 | Each shorthand, by its property name, spreads its components over the longhands as CSS says, sides and omitted sides included |
| `CssCollapseCss.GrammarIsUniform` | lib/css/css_minify.cc:676-1177 | A browser that accepts exactly the values of the grammar is uniform on every block in which no collapsed number ends in a dot |
| `CssCollapseCss.CollapseKeepsCss` | lib/css/css_minify.cc:1254-1471 | So for such a browser the collapsed block gives every property the same values in the same order |
| `CssCollapseMeaning.CollapseIsIdempotent` | lib/css/css_minify.cc:1447-1471 | Collapsing a collapsed block changes nothing |
| `CssCollapseMeaning.CollapseNeverGrows` | lib/css/css_minify.cc:1447-1471 | The result is never longer than the block |
| `CssCollapseExample.GateNumberIff` | lib/css/css_minify.cc:874-900 | The number the gate reads is a number of CSS if and only if it does not end in a dot |
| `CssCollapseExample.TrailingDotLosesTheFamily` | lib/css/css_minify.cc:874-924 | A block with `1.px` among legal longhands gives three sides their padding, and none once it is collapsed: the case `CollapsePreservesMeaning` excludes |
| `CssBalance.IsStructurallyBalanced` | lib/css/css_import_flattener.cc:565-639 | The scan accepts exactly the sheets whose tokens end and whose braces balance |
| `CssBalanceTree.TreeIsBalanced` | lib/css/css_import_flattener.cc:507-639 | Every text made of plain characters, escapes, comments, strings, url() tokens and matched braces is balanced |
| `CssBalanceTree.ExtraBrace` | lib/css/css_import_flattener.cc:565-639 | With one closing brace too many, whatever follows, it is not |
| `CssBalanceTree.MissingBrace` | lib/css/css_import_flattener.cc:565-639 | Nor with a brace left open |
| `CssBalanceTree.OpenString` | lib/css/css_import_flattener.cc:565-639 | Nor with a string that no quote ends or that a bare newline breaks |
| `CssBalanceTree.OpenComment` | lib/css/css_import_flattener.cc:507-564 | Nor with a comment left open |
| `CssBalanceTree.EscapedIsPlain` | lib/css/css_import_flattener.cc:507-639 | An escaped brace or quote has no structural meaning |
| `CssHiddenUrl.HiddenUrlIsRefused` | lib/css/css_import_flattener.cc:504-639 | A url function with any of its letters spelled by an escape, behind a backslash or by its code with up to four zeros and one blank, is refused, at the start of a text and inside a block, whatever follows |
| `CssEmbed.IsSafeMediaValue` | lib/css/css_import_flattener.cc:376-394 | The loop accepts exactly the values with no unsafe character, no comment opener and balanced parentheses |
| `CssEmbedMeaning.SafeIff` | lib/css/css_import_flattener.cc:376-394 | A media value is safe if and only if it holds none of the characters that could end or escape it, no comment opener, and nested parentheses |
| `CssEmbedMeaning.ScopeIs` | lib/css/css_import_flattener.cc:396-430 | Without the blanks around it, an empty value, `all` and `screen` in any case mean no condition; any other safe value is kept, and an unsafe one refused |
| `CssEmbedMeaning.WrapperIs` | lib/css/css_import_flattener.cc:396-430 | The wrapper is `@media`, the condition, a brace, the sheet and the closing brace on a line of its own |
| `CssEmbedMeaning.NonMediaIff` | lib/css/css_import_flattener.cc:432-454 | A condition is taken for a cascade layer or a feature query if and only if it starts with that word, in any case, followed by what may follow it |
| `CssEmbed.AppendMediaScopedCss` | lib/css/css_import_flattener.cc:396-430 | Appends the sheet as written, or wrapped, or refuses and changes nothing |
| `CssEmbed.SafeEmbedding` | lib/css/css_import_flattener.cc:376-639 | Wrapping a balanced sheet keeps the text balanced, and inside the wrapper the depth is at least one, so only its own last brace closes it |
| `CssSeams.JoinIsBalanced` | lib/css/css_import_flattener.cc:565-639 | Balanced texts side by side are balanced, with the scan standing between them, if the first ends in a token nothing can continue or the second begins with a character that continues nothing |
| `CssStrings.AppendCssQuotedString` | lib/css/css_import_flattener.cc:241-263 | The writer appends the quoted and escaped value |
| `CssStrings.ExtractQuotedString` | lib/css/css_import_flattener.cc:193-297 | The reader returns the decoded value and the position after the closing quote, or nothing if the string does not end |
| `CssStrings.QuotedRoundTrip` | lib/css/css_import_flattener.cc:193-297 | For every value, either quote and any text around it, reading what was written returns the value and stops right after the quote |
| `CssStrings.RewrittenTwice` | lib/css/css_import_flattener.cc:193-297 | Reading and writing again any number of times never adds escapes |
| `CssEscapes.EscapeDenotes` | lib/css/css_import_flattener.cc:193-229 | A hexadecimal escape ended by a space denotes its code point, U+FFFD for zero, surrogates and values beyond Unicode, and takes the space with it |
| `CssEscapes.Utf8Is` | lib/css/css_import_flattener.cc:168-191 | The bytes are the shortest UTF-8 form of the code point (section 3 of RFC 3629) |
| `CssEscapes.ContinuationIs` | lib/css/css_import_flattener.cc:193-229 | A byte continues a UTF-8 sequence if and only if its two highest bits are 10 |
| `CssImports.ExtractImports` | lib/css/css_import_flattener.cc:826-929 | The prelude scan returns the specified imports with their positions; which they are is `CssImportsRead.ImportsAreListed` |
| `CssImports.ImportsOrdered` | lib/css/css_import_flattener.cc:826-929 | The imports follow one another inside the sheet, none overlapping |
| `CssImportsRead.ReadOfUrl` | lib/css/css_import_flattener.cc:301-338 | Every URL, written in url() with its special characters escaped, is read back, up to the closing parenthesis |
| `CssImportsRead.ImportsAreListed` | lib/css/css_import_flattener.cc:826-929 | For every list of `@import` statements, each a URL in quotes, in url(), or quoted in url(), with an optional condition, and of `@layer` statements, followed by a sheet that starts with anything else, the scan returns exactly those URLs and conditions, in order, with their places |
| `CssImportsRead.ListedAfterCharset` | lib/css/css_import_flattener.cc:826-880 | A leading `@charset` statement changes nothing of it |
| `CssImports.RemainderStartsWithImport` | lib/css/css_import_flattener.cc:470-502 | The loop decides whether a live import follows in the statement prelude |
| `CssImports.UnharvestedIsLive` | lib/css/css_import_flattener.cc:456-502 | Whenever the harvest stops at an import it cannot read, the rest of the sheet is recognised as holding a live import |
| `CssImportsRead.LiveIff` | lib/css/css_import_flattener.cc:470-502 | Over a prelude of at-statements of any names, an import is live if and only if one of the names is `import`, in any case |
| `CssPrelude.PlainStands` | lib/css/css_import_flattener.cc:826-929 | In a balanced sheet with nothing but blanks and imports before its rules, the scan stands between tokens and outside every brace where an import begins and ends |
| `CssFlatten.Flattener.FlattenRecursive` | lib/css/css_import_flattener.cc:653-822 | The recursive method with its shared visited set computes the specified outcome and makes the specified lookups |
| `CssFlatten.FlattenImports` | lib/css/css_import_flattener.cc:1048-1054 | A run starts with the root marked as inlined under no condition and a size cap of 1048576 characters in force |
| `CssFlattenRun.FlattenIsAllOrNothing` | lib/css/css_import_flattener.cc:653-822 | A skipped sheet is its input with one of the two flags, otherwise nothing is unresolved |
| `CssFlattenRun.LooksUpOnce` | lib/css/css_import_flattener.cc:653-822 | No pair of URL and media conditions is looked up twice in a run, the root never, and a run that is not skipped inlined exactly what it looked up |
| `CssFlattenRun.SuccessIsComplete` | lib/css/css_import_flattener.cc:653-822 | A run that is not skipped inlined exactly the sheets reachable from the root, cycles included, and all of them are cached, balanced and free of unusable imports |
| `CssFlattenText.FlattenRenders` | lib/css/css_import_flattener.cc:690-822 | The text is the sheet with each import replaced by its flattened sheet at the first occurrence in document order, and every import statement is counted once |
| `CssFlattenText.TextIsCanonical` | lib/css/css_import_flattener.cc:653-822 | Runs that are not skipped agree on text and lookups, whatever their depth limit and size cap |
| `CssFlattenText.CapOnlySkips` | lib/css/css_import_flattener.cc:785-804 | The size cap changes nothing but whether the sheet is served unchanged |
| `CssFlattenText.CapSkipsIff` | lib/css/css_import_flattener.cc:785-804 | A sheet that can be flattened is skipped for its size if and only if, at some import of some inlined sheet, the text of that sheet so far passes the cap |
| `CssFlattenText.SkipHasCause` | lib/css/css_import_flattener.cc:653-822 | Every skipped run has a cause: a path from the root to a sheet with a defect, of the kind its flag says, an import chain of the full depth, or a text that passes the cap |
| `CssFlattenText.BlockIsContained` | lib/css/css_import_flattener.cc:785-796 | A balanced text written under a condition stays inside its @media block: from the opening brace to the last closing one the depth is at least one, and the text stays balanced |
| `CssFlattenBalance.FlattenIsBalanced` | lib/css/css_import_flattener.cc:653-822 | Over every import graph, if rebasing keeps sheets balanced, the root is balanced, imports stand between tokens and no texts put side by side join, the flattened text is balanced and every condition, at any depth, covers exactly the sheet inlined under it |
| `CssFlattenBalance.PlainFlattenIsBalanced` | lib/css/css_import_flattener.cc:653-822 | For sheets with nothing but blanks and imports before their rules it is enough that each sheet inlined without a condition is followed by something that does not continue it |
| `CssFlattenExample.BlockMayStayOpen` | lib/css/css_import_flattener.cc:751-796 | Three balanced sheets whose flattened text ends inside a comment inside its @media block: the case `FlattenIsBalanced` excludes |
| `CssFlattenText.MediaKeyInjective` | lib/css/css_import_flattener.cc:717-727 | Joining safe media values with semicolons never makes two different nestings look alike |
| `AlternateChain.SentinelSlot.CountChainNodes` | lib/cache/cache.cc:907-934 | The loop counts the nodes of the id; a key without alternates has none, and any other listing error leaves the number unknown |
| `AlternateChain.SentinelSlot.RemoveAlternate` | lib/cache/cache.cc:884-905 | The search unlinks the first node with the id when the storage does |
| `AlternateChain.SentinelSlot.WriteSentinel` | lib/cache/cache.cc:540-605 | A store counts what it finds, unlinks, counts a failed unlink, and is the protocol's unlink step; while chains can be listed, every store that brings back a superseded entry is counted |
| `AlternateChain.SentinelSlot.Close` | lib/cache/cache.cc:540-605 | Closing the handle links the new entry in front |
| `AlternateChain.NodesAreBounded` | lib/cache/cache.cc:540-605 | Over every interleaving, linked nodes plus writers under way stay within the larger of the initial nodes and the peak of writers, plus the unlinks that failed and left their node |
| `AlternateChain.OneWriterReplaces` | lib/cache/cache.cc:570-581 | From at most one node, with one writer at a time and no unlink that left its node, there is at most one node and a read sees the last committed entry or a miss |
| `AlternateChain.ReadsTheNewest` | lib/cache/cache.h:689-690 | Under every interleaving a read is answered with the newest entry still linked |
| `AlternateChain.AlwaysLastIff` | lib/cache/cache.h:689-693 | At every point of a run a read is answered with the entry committed last or a miss, if and only if no unlink of the run takes a node from a chain that holds more than one |
| `AlternateChain.OthersUntouched` | lib/cache/cache.h:705-711 | What is stored under other ids is as if the sentinel's writers had not run |
| `AlternateChain.BoundIsTight` | lib/cache/cache.h:694-704 | For every k a run without failures in which k concurrent writers leave k nodes |
| `AlternateChain.DepthRatchets` | lib/cache/cache.h:694-704 | On every run of writers one at a time, none failing or giving up, nodes plus the writer under way stay as many as they were |
| `AlternateChain.SerialWriters` | lib/cache/cache.h:694-704 | Such a run exists for any writers in any number |
| `AlternateChain.ConcurrentWritersResurrect` | lib/cache/cache.h:694-704 | With two writers at once a later unlink brings back a superseded entry: the case `AlwaysLastIff` excludes |
| `Purge.RunPasses` | lib/cache/cache.cc:1354-1408 | The pass loop reaches the specified state, count and verdict |
| `Purge.FindSurvivor` | lib/cache/cache.cc:1410-1429 | The confirming loop reads up to three listings for an entry that is not preserved |
| `Purge.RemoveAlternatesWhere` | lib/cache/cache.cc:1290-1453 | The whole purge, against any storage, ends in the specified state and result |
| `Purge.RemoveAlternatesExcept` | lib/cache/cache.cc:1159-1187 | A call that would preserve the original is refused and changes nothing |
| `Purge.RemoveDerivedAlternates` | lib/cache/cache.cc:1190-1228 | The identity entry counts as an input only if it was read and is not worker-processed |
| `Purge.PurgeIsBounded` | lib/cache/cache.cc:1290-1453 | Against every storage, at most four pass listings and three confirming ones, no preserved id removed on its own, and the count is the successful removals plus the drop |
| `Purge.DropNeedsEvidence` | lib/cache/cache.cc:1308-1453 | The whole key is dropped only after a corrupted chain or an unchanged listing following a pass without failed removal, right after a listing that shows a survivor |
| `Purge.PurgeKeepsThePreserved` | lib/cache/cache.cc:1290-1453 | With complete listings and successful removals exactly the preserved nodes remain, in order, and nothing is dropped |
| `Purge.DerivedArePurged` | lib/cache/cache.cc:1190-1228 | After such a purge an entry is left if and only if it is one of the family's inputs |
| `PurgeCases.FirstListingFails` | lib/cache/cache.cc:1354-1372 | A first listing that finds no key ends the purge with nothing removed; any other error is its result |
| `PurgeCases.StuckIsDroppedIff` | lib/cache/cache.cc:1354-1453 | An entry that stays, whatever a removal answers, is dropped with its key if and only if the removals succeed, find nothing, or report a corrupted chain |
| `PurgeCases.FourPasses` | lib/cache/cache.cc:1354-1408 | A key that fills up again after every pass is left after four, with the count of four removals |
| `PurgeCases.ThreeAttempts` | lib/cache/cache.cc:1410-1429 | Three unreadable confirming listings end the search without a survivor |
| `PurgeCapped.CappedPurgeIff` | lib/cache/cache.cc:1290-1453 | With successful removals and listings of the first nodes only, the key is dropped if and only if, within three listings, one led by a preserved node and the full one after it both show something to remove; otherwise every preserved entry stays |
| `PurgeCapped.PreservedIsLost` | lib/cache/cache.cc:1345-1453 | A chain of three, listed two at a time, that is dropped with its preserved node: the case `CappedPurgeIff` describes |
| `MetadataWriter.SerializeCursor.WriteBytes` | lib/classify/alternate_metadata.cc:144-169 | Writing at the running offset appends the bytes to what was written |
| `MetadataWriter.Serialize` | lib/classify/alternate_metadata.cc:173-238 | The pre-sized buffer ends up holding the fields in wire order |
| `Metadata.RoundTrip` | lib/classify/alternate_metadata.cc:173-412 | Reading a written record, whatever follows it, returns its normal form |
| `Metadata.NormalizedTwice` | lib/classify/alternate_metadata.cc:16-31 | The normal form (sanitised, cut, clamped) is its own normal form |
| `Metadata.ConsumedIsWireSize` | lib/classify/alternate_metadata.h:491-510 | For every accepted blob of any version the two independent sizes agree and lie within it |
| `Metadata.ParseMetadataPrefix` | lib/cache/cache.cc:75-94 | The cross-check of the cache's reader never rejects what the parser accepted |
| `Metadata.RelabelKeepsFields` | lib/classify/alternate_metadata.cc:277-412 | A blob relabelled to any older version that is not retired keeps every field that version knows |
| `MetadataLayout.FrontLayout` | lib/classify/alternate_metadata.cc:173-238 | Byte by byte, in the little-endian order of the format: version 9, mask, type, flags and content type |
| `MetadataLayout.MiddleLayout` | lib/classify/alternate_metadata.cc:173-238 | Then freshness, quality, validators and content length, each at its offset |
| `MetadataLayout.BackLayout` | lib/classify/alternate_metadata.cc:173-238 | Then the two hashes, the 64-bit epoch and the Cache-Control value, and nothing after it |
| `MetadataLayout.StripMeans` | lib/classify/alternate_metadata.cc:16-31 | Sanitising removes the bytes 0, 10 and 13, wherever they stand, and nothing else |
| `MetadataLayout.NormalizedMeans` | lib/classify/alternate_metadata.cc:16-143 | What is read back: strings cut at 256 and 65535, an oversized Cache-Control value left out, an unknown class clamped, every other field as it was |
| `MetadataLayout.ScoreMeans` | lib/classify/alternate_metadata.cc:44-60 | A score over 10000 is read as unknown unless the mask says gzip or brotli |
| `MetadataLayout.RetiredMeans` | lib/classify/alternate_metadata.cc:277-320 | Under an older label a record is refused if and only if it is HTML, or Markdown that the worker wrote |
| `MetadataLayout.UnknownFieldsAreAbsent` | lib/classify/alternate_metadata.cc:322-412 | Every field a version does not know is read as absent |
| `MetadataLayout.AcceptedIsBounded` | lib/classify/alternate_metadata.cc:322-412 | What is accepted is of version 3 to 9, long enough, and of one of the five content types |
| `MetadataWriter.EncodedLengthIsClose` | lib/classify/alternate_metadata.cc:246-275 | Without 64-bit overflow the size read back errs by at most half a unit of each rounding, so it is exact for origins below 50000 bytes |
| `MetadataWriter.EncodedLengthIsKept` | lib/classify/alternate_metadata.cc:246-275 | The size of a gzip or brotli variant is read back if and only if the code is representable and the result fits in 32 bits; any other variant stores none and has the size of the origin |
| `MetadataWriter.CloseIffNoOverflow` | lib/classify/alternate_metadata.cc:246-275 | A size that is read back is within the bound of the two roundings if and only if the product did not overflow 64 bits |
| `MetadataWriter.OverflowMisleads` | lib/classify/alternate_metadata.cc:265-275 | A size whose product wraps is read back as an unrelated number |
| `CivilDate.YearRoundTrip` | lib/cache/html_cache_policy.cc:168-529 | The year is recovered from the day count of every valid date of any year |
| `CivilDate.DaysGrowByOne` | lib/cache/html_cache_policy.cc:168-183 | Each calendar day is one more than the day before it |
| `CivilDate.DaysIsTheCount` | lib/cache/html_cache_policy.cc:168-183 | The day count is the only function that is zero at the epoch and grows by one with every calendar day |
| `CivilDate.TwoDigitYearIsUnique` | lib/cache/html_cache_policy.cc:535-545 | The resolved year is the one with those digits after now minus 50 and up to now plus 50 |
| `HttpDate.IndexIn` | lib/cache/html_cache_policy.cc:512-517 | The loop finds the first position of a name, or that it is not there |
| `HttpDate.PrintThenParse` | lib/cache/html_cache_policy.cc:549-630 | Every moment printed in any of the three formats, with optional whitespace around it, is parsed back |
| `HttpDate.ParseThenPrint` | lib/cache/html_cache_policy.cc:549-630 | Only printed moments are accepted, those with a two-digit year only in the window |
| `HttpDateExamples.RfcExamples` | lib/cache/html_cache_policy.cc:549-630 | The three dates of section 5.6.7 of RFC 9110 are the moment 784111777 |
| `HttpDateExamples.NamesAreWritten` | lib/cache/html_cache_policy.cc:500-517 | Every printed date names its month and its day of the week in English, in full or by three letters |
| `CacheControl.ParseCacheControlSeconds` | lib/cache/origin_cache_control.cc:42-57 | The digit loop saturates at 32 bits and gives zero for anything else |
| `DeltaSeconds.NumberIsRead` | lib/cache/origin_cache_control.cc:42-57 | Digits with blanks around them are read as their value, and one over 32 bits as the largest |
| `DeltaSeconds.QuotedNumberIsRead` | lib/cache/origin_cache_control.cc:42-57 | So is a number in quotes, with blanks inside and outside them |
| `DeltaSeconds.OtherIsZero` | lib/cache/origin_cache_control.cc:42-57 | A value with anything but digits, and an empty one, is read as zero |
| `CacheControl.AccumulateOriginCacheControl` | lib/cache/origin_cache_control.cc:59-158 | The loop over a header line adds what each directive says |
| `CacheControlWriter.BuildCacheControlHeader` | lib/cache/cache_control_header.cc:13-216 | The buffer holds the comma-joined directives that apply and fit, fewer characters than its capacity, with the lifetime they state |
| `CacheControlRoundTrip.KeptAreChosen` | lib/cache/cache_control_header.cc:13-216 | For every capacity of at least one, whole directives that apply, in order, shorter than the capacity |
| `CacheControlRoundTrip.LeftOutIff` | lib/cache/cache_control_header.cc:13-216 | A directive that applies is left out if and only if the room kept for it, its separator and a NUL do not fit behind those already written |
| `CacheControlRoundTrip.AllFitIn256` | lib/cache/cache_control_header.cc:13-216 | With 256 characters every directive that applies is written |
| `CacheControlRoundTrip.ReadsBack` | lib/cache/origin_cache_control.cc:59-158 | At any capacity the line parses to exactly the directives that were written |
| `CacheControlRoundTrip.ReadsBackAt256` | lib/cache/cache_control_header.cc:13-216 | With 256 characters the parser reads back the flags, the s-maxage and the final max-age that the rules for the input give |
| `CacheControlRoundTrip.NoStalePermission` | lib/cache/cache_control_header.cc:173-210 | At any capacity the written line nowhere contains a directive that permits serving stale when revalidation is required, restrictions are forwarded, or in safe mode |
| `CacheControlRoundTrip.StalePermissionIff` | lib/cache/cache_control_header.cc:173-210 | With 256 characters the line contains such a permission if and only if none of those three holds |
| `CacheControlRoundTrip.StaleEnding` | lib/cache/cache_control_header.cc:173-210 | Where it is given the line ends in it: the lifetime up to a day for revalidation when asked for, and a day for errors |
| `Sidecar.CspCarriesNonce` | lib/cache/headers_sidecar.cc:203-213 | The loop finds a nonce if and only if one occurs anywhere, in any case |
| `Sidecar.LinkCarriesNonce` | lib/cache/headers_sidecar.cc:215-241 | The mode-tracking loop finds a nonce outside targets, or an unclosed target |
| `Sidecar.ClassifyVaryForStore` | lib/cache/vary_storability.cc:29-86 | The verdict is positive if and only if every member of the list is covered by the cache key, and says whether Accept is one of them |
| `Sidecar.ClassifyForHeadersSidecar` | lib/cache/headers_sidecar.cc:255-378 | The gate's loop computes the specified verdict, reasons and payload |
| `Sidecar.ParseHeadersSidecar` | lib/cache/headers_sidecar.cc:380-405 | The reading loop returns the fields of a payload that is exactly one block |
| `Sidecar.EveryLineIsAccountedFor` | lib/cache/headers_sidecar.cc:255-332 | In a swap-eligible response every line's name is in exactly one of the three sets, is well formed and carries no nonce |
| `Sidecar.PayloadIsFaithful` | lib/cache/headers_sidecar.cc:255-405 | Parsing the stored block returns exactly the allowlisted lines, in order, byte for byte, and the block is within its limit |
| `Sidecar.SwapEligibleIff` | lib/cache/headers_sidecar.cc:255-355 | A response is swap-eligible if and only if no line is refused, its Vary is storable and its block is small enough |
| `Sidecar.NeverOptimizedIff` | lib/cache/headers_sidecar.cc:268-350 | A response is never optimized if and only if a policy or a preload line carries a nonce |
| `SidecarMeaning.RefusedIff` | lib/cache/headers_sidecar.cc:268-350 | A line is refused if and only if it carries a nonce, its name is no token, its value is not one line, its name is in none of the three lists, or it is to be carried and too long |
| `SidecarMeaning.LinkNonceIff` | lib/cache/headers_sidecar.cc:215-241 | A Link value made of targets, strings and other characters has a nonce if and only if the word starts outside the targets |
| `SidecarMeaning.EligibleIff` | lib/cache/headers_sidecar.cc:255-355 | A response is eligible if and only if each line passes, every Vary member is covered, and the lines to carry take at most 8192 bytes |
| `SidecarMeaning.NeverIff` | lib/cache/headers_sidecar.cc:268-350 | A response is never optimized if and only if a policy or a Link line carries a nonce, spelled out in characters |
| `SidecarMeaning.BlockLayout` | lib/cache/headers_sidecar.cc:358-378 | The payload is the byte 1, the number of lines in two bytes, then the lines |
| `SidecarMeaning.LineLayout` | lib/cache/headers_sidecar.cc:358-378 | A line is the length of its name in one byte, that of its value in two, the name and the value |
| `Sidecar.ParsedIsEncoded` | lib/cache/headers_sidecar.cc:358-405 | Every payload that parses re-encodes to itself |
| `Sidecar.OnlyTheWhole` | lib/cache/headers_sidecar.cc:380-405 | Of a payload and any extension of it at most one parses |
| `HtmlStore.CountHeader` | lib/cache/html_cache_policy.cc:98-105 | The loop counts the lines with a name |
| `HtmlStore.CountDirective` | lib/cache/html_cache_policy.cc:122-134 | The loop counts the occurrences of a directive in a line |
| `HtmlStore.HasValidSMaxage` | lib/cache/html_cache_policy.cc:139-155 | The loop finds an s-maxage with a number if and only if the line has one |
| `HtmlStore.ReadCacheControl` | lib/cache/html_cache_policy.cc:738-753 | The loop over the headers adds up all Cache-Control lines |
| `HtmlStore.StoresIffAdmissible` | lib/cache/html_cache_policy.cc:679-901 | Exactly the responses that meet every rule are stored, whatever order the rules are applied in |
| `HtmlAdmission.StoredIff` | lib/cache/html_cache_policy.cc:679-901 | A response is stored if and only if, in its own terms, it is a complete 200 answer to a plain GET without credentials, its headers allow it, it can be validated or has an explicit lifetime, and its body is small and shows no sign of a person; every name and number is spelled out |
| `HtmlReasons.ReasonHolds` | lib/cache/html_cache_policy.cc:679-901 | The reason a refusal gives is true of the request and the response, spelled out for each of them, and nothing that may be stored is given a reason to refuse it |
| `HtmlLifetime.LifetimeIsStated` | lib/cache/html_cache_policy.cc:806-850 | The parser that keeps the last value and the counters of repeats together compute the lifetime the directives state: one value counts, several conflict; what an Expires date states is `HtmlExpires.ExpiresMeans` |
| `HtmlLifetime.FlagsAreStated` | lib/cache/html_cache_policy.cc:738-753 | The Cache-Control lines set a flag if and only if its directive, by its name, occurs in one of them |
| `HtmlLifetime.FormsAreStated` | lib/cache/origin_cache_control.cc:59-158 | A `private` or `no-cache` with an argument, even an empty one, sets the flag of the qualified form, and one without it that of the bare form |
| `HtmlExpires.ExpiresMeans` | lib/cache/html_cache_policy.cc:805-832 | Without max-age and s-maxage, one Expires line that prints a moment in any of the three formats gives the time from the moment the single Date line prints, or from receipt, to that moment: never negative, cut at 32 bits |
| `HtmlExpires.BadExpiresIsStale` | lib/cache/html_cache_policy.cc:805-850 | Repeated or unreadable Expires lines give zero, and the response must be validated |
| `HtmlServe.FreshIsTrulyFresh` | lib/cache/html_cache_policy.cc:927-968 | Saturating the age never makes an entry look fresher than it is |
| `HtmlServe.ServesHtmlIff` | lib/cache/html_cache_policy.cc:905-1003 | HTML is served if and only if the request may use the entry and it is truly fresh or was confirmed in this request |
| `HtmlServe.ServesMarkdownIff` | lib/cache/html_cache_policy.cc:905-1003 | A Markdown copy is served if and only if, besides, its binding is live and the age is below its own bound |
| `HtmlServe.ValidateIff` | lib/cache/html_cache_policy.cc:905-980 | A front end is told to validate if and only if the request may use the entry and it is neither truly fresh nor confirmed in this request |
| `HtmlServe.ServedIsSafe` | lib/cache/html_cache_policy.cc:679-1003 | Over every run with a non-decreasing clock, what is served is the exchange stored last and neither dropped nor replaced since; it was admissible and is younger than the lifetime the origin stated or was confirmed in this request, and cookie requests get shareable entries only |
| `HtmlExpires.ServedBeforeItExpires` | lib/cache/html_cache_policy.cc:679-1003 | In every run, what is served unconfirmed on an Expires date alone is younger than the time from its generation to that date |
| `HtmlServe.NeedsValidationHasValidator` | lib/cache/html_cache_policy.cc:834-980 | In every run the entry has a validator if it must be validated before use, whatever is asked for |
| `HtmlValidators.ValidatorIffMustValidate` | lib/cache/html_cache_policy.cc:834-850 | In every run the entry is sure to have a validator, being admissible, if and only if it must be validated before use |
| `HtmlValidators.UnsureEntryMayLackValidator` | lib/cache/html_cache_policy.cc:834-980 | Any other entry would, without its ETag and Last-Modified lines, have been stored all the same and have led to the same answer |
| `HtmlValidators.StaleIsValidated` | lib/cache/html_cache_policy.cc:969-980 | A usable entry past its lifetime and not confirmed in the request is to be validated |
| `HtmlExample.StaleMayLackValidator` | lib/cache/html_cache_policy.cc:969-980 | A response stored for its max-age alone is, once stale, to be validated without a validator: the case `ValidatorIffMustValidate` excludes |
| `Selector.ScoreAlternate` | lib/classify/pagespeed_selector.cc:66-178 | The accumulated score is the sum of the points per dimension, zero for what the client may not get |
| `Selector.Select` | lib/classify/pagespeed_selector.cc:180-283 | The loop finds the one alternate that beats every other, or there is no candidate |
| `Selector.SelectsRegardlessOfOrder` | lib/classify/pagespeed_selector.cc:180-283 | Two listings of the same alternates in any order lead to the same id or both to none |
| `Selector.SelectedIsAdmissible` | lib/classify/pagespeed_selector.cc:180-283 | A selected variant is in an admitted format and encoding, the original is never selected, and Markdown exactly for agents |
| `Selector.SelectedFitsViewport` | lib/classify/pagespeed_selector.cc:112-127 | Wherever an admissible variant of the client's size exists, one of that size or an SVG is selected |
| `Selector.ReducedNeverWins` | lib/classify/pagespeed_selector.cc:134-162 | A raster Save-Data variant is never selected over a normal admissible one of the client's size for a client without Save-Data |
| `Selector.MeritDecides` | lib/classify/pagespeed_selector.cc:66-178 | Points compare as merits do, without points: SVG, then the client's size, reduced ones last, then its format before the original, then how many of encoding, density and Save-Data match, in that order |
| `Selector.SelectedByMerit` | lib/classify/pagespeed_selector.cc:180-283 | The variant selected has the greatest merit of all, and of equal ones the greatest id |
| `Selector.MaskFields` | lib/classify/pagespeed_selector.cc:16-62 | The fields of a mask are its bits from the lowest up: format, size class, density, Save-Data, encoding |
| `UrlNormalizer.NormalizePercentEncoding` | lib/classify/url_normalizer.cc:29-43 | The loop computes the percent normal form |
| `UrlNormalizer.PercentIsNormal` | lib/classify/url_normalizer.cc:29-43 | The result is in normal form and stands for the same bytes |
| `UrlParts.EncodingBecomes` | lib/classify/url_normalizer.cc:18-43 | An encoded letter, digit, `-`, `.`, `_` or `~` is written out, and any other byte stays encoded with digits in upper case |
| `UrlNormalizer.ParseQueryParams` | lib/classify/url_normalizer.cc:52-74 | The loop splits a query into parameters |
| `UrlNormalizer.JoinedParses` | lib/classify/url_normalizer.cc:52-74 | Joining parameters and parsing returns them |
| `UrlCacheKey.NormalizeCacheUrl` | lib/classify/url_normalizer.cc:157-223 | The result is one some sort of the remaining parameters leads to |
| `UrlParts.AuthorityIsDropped` | lib/classify/url_normalizer.cc:81-93 | Scheme, `://` and host are dropped from in front of a path, and a URL without a path is `/` |
| `UrlParts.KeyOfParts` | lib/classify/url_normalizer.cc:81-223 | The key of a URL of scheme, host, path, query and fragment is that of its path and query, defined from these |
| `UrlParts.FullUrlNormalizes` | lib/classify/url_normalizer.cc:81-223 | So a URL with scheme and host has the normal forms of its path |
| `UrlParts.ExtensionIs` | lib/classify/url_normalizer.cc:119-138 | The extension is what follows the last dot of the last segment, in lower case |
| `UrlParts.StripsWhen` | lib/classify/url_normalizer.cc:157-182 | The query is dropped if and only if the extension, dot included, is configured |
| `UrlParts.NoExtension` | lib/classify/url_normalizer.cc:119-138 | A last segment without a dot, or that ends in its last one, has no extension, and its query stays |
| `UrlParts.LessIff` | lib/classify/url_normalizer.cc:191-205 | The order of parameters is by the first character that differs, a prefix first |
| `UrlCanonical.AuthorityDoesNotMatter` | lib/classify/url_normalizer.cc:81-93 | A URL with scheme and host has the normal forms of its path |
| `UrlCanonical.NormalizeIsIdempotent` | lib/classify/url_normalizer.cc:157-223 | For every URL with or without scheme and host whose path and query are well encoded, and every configuration, normalizing again changes nothing, whatever sort is used |
| `UrlCanonical.OrderDoesNotMatter` | lib/classify/url_normalizer.cc:157-223 | Queries with the same parameters, in any order and with any repeats, have the same normal form, unless a key occurs as `k` and as `k=` |
| `UrlCanonical.UniqueIffNoClash` | lib/classify/url_normalizer.cc:191-205 | A URL has one normal form if and only if no remaining key occurs both as `k` and as `k=` |
| `InlineSList.List.IsEmpty` | lib/base/inline_slist.h:179 | A list without tail is the one without elements |
| `InlineSList.List.Append` | lib/base/inline_slist.h:239-249 | The node becomes the last element, with tail and circular links valid |
| `InlineSList.List.Erase` | lib/base/inline_slist.h:251-272 | The element the iterator stands at is removed, the iterator stands at the next one, and the list stays valid |
| `InlineSList.Iterator.Advance` | lib/base/inline_slist.h:80-88 | The iterator moves to the next element, or past the end from the last one |
| `InlineSList.EraseIf` | lib/base/inline_slist.h:104-118 | The documented erase-while-iterating loop ends and leaves exactly the elements not selected, in their order |

## Where the code and its comments differ

- The case-insensitive comparison of CSS values folds any byte by subtracting 32,
  so a control character can stand for a bracket; the nesting check that follows
  refuses such a value.  The model compares as the code does.
- The value gate of the shorthand collapse is meant to admit only what a browser
  accepts.  It admits numbers that end in a dot, which CSS does not
  (`CssCollapseExample.GateNumberIff`, `CssGateExact.CollapsibleIff`), and then a whole family is lost
  (`CssCollapseExample.TrailingDotLosesTheFamily`).
  `CssCollapseMeaning.CollapsePreservesMeaning` is the exact condition.
- A sheet is checked for balance before it is inlined, so that it cannot change how
  the importing sheet is read.  It is checked as it was looked up, before its own
  imports are inlined, and nothing is written between a sheet inlined without a
  condition and what follows it, so the two may join into one token
  (`CssFlattenExample.BlockMayStayOpen`: `/` before `*`).
  `CssFlattenBalance.FlattenIsBalanced` says when nothing joins.
- A purge drops the key for a chain that cannot be walked, told by a listing that
  did not change.  A listing that shows part of a chain may not change although the
  chain did (`PurgeCapped.PreservedIsLost`); `PurgeCapped.CappedPurgeIff` says when.
- The comment on sentinels says a read always serves the newest entry.  That holds
  of the entries still linked; `AlternateChain.ConcurrentWritersResurrect` gives a
  run in which it is not the entry committed last, and
  `AlternateChain.AlwaysLastIff` says exactly which runs have no such read.
- Asking a front end to validate a stale entry does not imply a validator
  (`HtmlExample.StaleMayLackValidator`); `HtmlValidators.ValidatorIffMustValidate`
  says exactly when there is one.
- The encoded size of a variant is meant to be read back within rounding.  The
  64-bit product behind it can overflow (`MetadataWriter.OverflowMisleads`);
  `MetadataWriter.CloseIffNoOverflow` says that the bound fails in no other case.

## Left out

- Phases 1, 2 and 5 of the minifier, comment restoration and the pipeline that
  calls them; the phases modelled are proved on their own.
- `CssPhase3.Phase3` and `CssPhase4.Phase4`: the test for a custom-property colon
  is an arbitrary predicate on the text so far.
- `CssPhase3Tree.Phase3TrimsBlocks`: sheets whose brackets do not match are covered
  by the rows of `CssPhase3` and `CssPhase3Strings` only.
- `CssValueGrammar.GateIsGrammar`: the names of colours are the ones of CSS, taken
  from the same table as the gate's.
- `CssFlatten.FlattenImports`: resolving a URL and rebasing the URLs of an inlined
  sheet are arbitrary functions, and a lookup may depend on the URL and its media
  conditions but on nothing else.
- `CssFlattenText.BlockIsContained`: is about one block around a balanced text;
  `CssFlattenBalance.FlattenIsBalanced` is about the texts flattening writes.
- `CssFlattenBalance.FlattenIsBalanced`: the converse is not stated.  Texts that join
  may be balanced all the same, depending on everything that follows them (`/`
  before `**/`), so no condition on the seams alone is exact.
- `CssImports.ExtractImports`: the scanners of whitespace, comments, at-statements
  and URLs inside it are functions on the remaining text, not loops over positions.
- `AlternateChain.SentinelSlot.WriteSentinel`: the storage tells the truth about a
  node that is not there, a failed unlink may or may not have removed the node, and
  the traversal ceiling of a chain is not modelled.
- `Metadata.RoundTrip`: content types are the five of the enumeration.
- `SidecarMeaning.RefusedIff`: the three lists of header names are the source's own.
- `Sidecar.ClassifyForHeadersSidecar`: the reasons are a set; their spelling and
  sorting are not modelled.
- `HtmlStore.StoresIffAdmissible`: the personalisation scan is an arbitrary
  predicate, and the detail strings of a verdict are not modelled.
- `HtmlServe.ServedIsSafe`: one cache key; the flags a front end reads from
  metadata and sidecar are arbitrary at each request.
- `Selector.Select`: only the id of an alternate is modelled, since nothing else is
  read.
- `PurgeCapped.CappedPurgeIff`: no two nodes of a chain share a disk offset.
- `UrlCacheKey.NormalizeCacheUrl`: the sort is an insertion sort; the theorems are
  about every sort.
- `InlineSList.List.Erase`: the erased node leaves the list; releasing its memory
  and the destructor are not modelled.
- Files, volumes and resets of the cache, the storage engine, hostnames, freshness
  defaults, capability sniffing, message handlers and front ends.
