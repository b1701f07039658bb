# Verified models of the repository's gate scripts

The repository keeps itself honest with scripts: gates that compare ledgers, descriptors, headers and books
with each other and refuse a commit when they disagree. This project models the decision procedures inside the
largest of them and proves that they decide what their comments say they decide, for every input and every
run. `dafny verify dfyconfig.toml` checks it.

- `preprocessor.dfy`, `guard_order.dfy`, `guard_gaps.dfy`, `conditionals.dfy`, `included_headers.dfy`,
  `guarded_files.dfy`: a static line-order rule for `#if KNOB < 1` guards against the C preprocessor's own answers
  (section 6.10.1 of ISO/IEC 9899:2011), for all `-D` maps.
- `arch_profiles.dfy`, `arch_guarantees.dfy`, `platform_file.dfy`, `platform_documents.dfy`,
  `platform_print.dfy`: the arch-profile resolver, its five rules and two debt lists, and the line reader that feeds it.
- `parity_ledger.dfy`, `lexicographic.dfy`, `name_index.dfy`, `quoted_calls.dfy`, `envelope_ratchet.dfy`: the
  API-parity ledger.
- `posix_paths.dfy`, `book_links.dfy`, `redirects.dfy`, `redirect_guarantees.dfy`, `redirect_heirs.dfy`,
  `book_summary.dfy`, `summary_guarantees.dfy`, `summary_rows.dfy`, `book_sections.dfy`: the two books' links,
  redirects, contents and sections.
- `bracket_scanner.dfy`, `allocator_calls.dfy`, `c_types.dfy`, `signatures.dfy`: depth-counting scanners, C types,
  and the upstream signature snapshot and check.
- `image_walk.dfy`, `knob_reading.dfy`, `build_types.dfy`: the pruned build-tree walk, the knob read from what it
  finds, and the build-type baseline.
- `text.dfy`, `text_lines.dfy`: string operations shared by all.

A script's loop is a method; what it computes is a function or predicate of its inputs, and the lemmas are about
that. Files, `git`, compilers and clocks are inputs: a tree is a datatype, a checkout a map from paths to text.

## What the proofs turned up

These hold of the code as it stands, and each has a lemma below.

- The order rule is silent on a guard inside its own `#ifndef`, and on an unconditional `#define`, though neither
  guard can ever fire at `-DK=0`; only the second probe sees it, and not even that when another guard whose knob's
  name contains this one's fires instead. A knob excused because some header defines it still fires at defaults,
  unless a header that the file includes above the guard leaves it at 1 or more.
- `debt_is_live` looks a name up in the whole output, so a stale entry passes when another root has an unexcused
  fault of that name. With `check` accepting as well, both together are exact.
- Two files of one root may define a block differently; the later one silently wins.
- A `]` inside an item of a multi-line array ends the array with that row; any items below are lost.
- `->` in a quoted argument closes a bracket nothing opened. Unless something makes up for it, the comma behind
  that argument is passed over and a call with more arguments is counted short; in the last argument it does no harm.
- A link to a page whose URL is also a directory above the reader (`a.html` beside `a.html/`) has no `.html`
  name, and the cross-book check looks nowhere. The comment of `cross_book_sources` does not mention it.
- A former URL quoted anywhere in `book.toml`, not only as a row's source, keeps its redirect from being written.
- A redirect written from the site's root (`"/a.html" = "/b.html"`) is never re-aimed when its page moves, and keeps
  a row for `b.html` from being written, although the docstring of `add_redirects` promises both.
- A row that names a page whose URL begins with two dots (`..notes.html`) is never re-aimed.
- A redirect to a page that is not on disk, and that the map sends on to one that is, is rewritten by the next run.
- A signature whose only parameter is the empty text reads back from the snapshot with no parameters.
- A heading spelled like another's numbered id (`a-1`) takes its section.

## Model

| member | source | states |
|---|---|---|
| Preprocessor.DepthIsStackHeight | scripts/check-c-array-guard-probe.py:282-315 | how many conditionals are open at a line is a fact of the text, whatever `-D` options a compile is given |
| Conditionals.ConditionalResolves | scripts/check-c-array-guard-probe.py:282-315 | where the compiler is processing lines, an `#if`/`#elif`/`#else` chain, with any nested chains in its groups, does to macros, nesting and messages what the lines of its first group do whose condition holds there, and nothing if none does |
| Conditionals.ConditionalSkipped | scripts/check-c-array-guard-probe.py:282-315 | inside a skipped group a chain does nothing at all |
| Conditionals.ProbesReadChosenGroup | scripts/check-c-array-guard-probe.py:376-409 | both probes answer for a file as they do with any one of its chains replaced by the lines of the group chosen there |
| Conditionals.PrintedIffDiagnosed | scripts/check-c-array-guard-probe.py:376-409 | the messages printed are those of the error lines that are processed |
| Conditionals.ValueForName | scripts/check-c-array-guard-probe.py:282-315 | a condition has the value it has with a name's value written for the name: its body's, read without the name itself, or 0 |
| Conditionals.LastLineDecides | scripts/check-c-array-guard-probe.py:282-315 | of the processed lines the last `#define` or `#undef` of a name decides its macro |
| GuardOrder.GuardsAndDefs | scripts/check-c-knob-guard-order.py:41-51 | the two tables hold, for each knob, the first guard line and the first `#ifndef`/`#define` line, and nothing else |
| GuardOrder.CheckFile | scripts/check-c-knob-guard-order.py:82-94 | the findings are exactly the knobs whose guard has no earlier definition in the file and no header's definition but its own, in line order |
| GuardOrder.OrderedIff | scripts/check-c-knob-guard-order.py:36-51 | a knob is in order if and only if an `#ifndef` or `#define` of it, in column 0, stands above its first guard |
| GuardOrder.OtherHeadersExcuse | scripts/check-c-knob-guard-order.py:82-94 | a header's own definition excuses no guard in it, and a definition in any other header does |
| GuardOrder.KnobInvariant | scripts/check-c-knob-guard-order.py:41-94 | in every state of every compile a disciplined knob is its `-D` value, or else the first default above that line, or else undefined |
| GuardOrder.FiresIff | scripts/check-c-array-guard-probe.py:376-409 | a guard outside any conditional fires if and only if the knob reads below 1 in the macros the compiler has there, wherever they come from |
| GuardOrder.EarlyGuardAlwaysFires | scripts/check-c-knob-guard-order.py:82-94 | a guard above its knob's default fires in every compile that does not set the knob |
| GuardOrder.OrderedGuardIsExact | scripts/check-c-knob-guard-order.py:82-94 | a guard below its default fires exactly when the knob's effective value is below 1 |
| GuardOrder.RuleDecidesExactness | scripts/check-c-knob-guard-order.py:82-94 | over all `-D` maps a knob's guards are exact if and only if the order rule is silent about it, or at each guard above the default the default reads below 1 in every compile that does not set the knob |
| GuardOrder.RuleDecidesForNumbers | scripts/check-c-knob-guard-order.py:82-94 | for a default that is a number, or none, that condition is that it is below 1 |
| GuardOrder.DisciplinedFiresAtZero | scripts/check-c-array-guard-probe.py:394-409 | at conditional depth 0 every guard fires at `-DK=0`, whatever the order: that probe cannot see the order fault |
| GuardOrder.ProbeAgreesWithRule | scripts/check-c-array-guard-probe.py:376-409 | both probes of a disciplined file pass if and only if the order rule reports nothing and no default is below 1 at its guards |
| GuardGaps.HeaderExcuseLeavesTheGuardFiring | scripts/check-c-knob-guard-order.py:82-94 | in a file without includes, or with its includes stripped, a knob let off because some header defines it still fires in the first probe |
| IncludedHeaders.ExcusedGuardFiresIff | scripts/check-c-knob-guard-order.py:54-94 | with the headers it includes read too, each behind its include guard and nested to any depth, an excused guard fires at defaults if and only if no header included above it defines the knob or the knob as the headers leave it reads below 1, whichever header excused it |
| IncludedHeaders.TrackIsRun | scripts/check-c-array-guard-probe.py:282-315 | in every live text the compiler's macro for a knob is its tracked standing: an unconditional definition replaces it, a default fills it, a guarded header counts the first time only |
| IncludedHeaders.TidyGuardFires | scripts/check-c-array-guard-probe.py:376-409 | a guard at the top of a file with includes fires if and only if the knob so tracked reads below 1 |
| IncludedHeaders.GuardedHeaderSilences | scripts/check-c-knob-guard-order.py:54-94 | a file whose include-guarded header is the reason its guard is silent |
| GuardedFiles.FileFires | scripts/check-c-array-guard-probe.py:376-409 | a guard in a header behind its own include guard fires as it does in the header's text with the include guard's name set |
| GuardedFiles.ExcusedGuardInHeaderFiresIff | scripts/check-c-knob-guard-order.py:54-94 | the same exact condition for an excused guard in such a header |
| GuardedFiles.RuleDecidesExactnessInHeader | scripts/check-c-knob-guard-order.py:82-94 | for such a header, over all `-D` maps that leave its include guard alone, guards are exact if and only if the rule is silent or every early guard's default reads below 1 |
| GuardedFiles.ProbeAgreesWithRuleInHeader | scripts/check-c-array-guard-probe.py:376-409 | for such a header both probes pass if and only if the order rule reports nothing and no default is below 1 at its guards |
| GuardGaps.OrderlyFires | scripts/check-c-array-guard-probe.py:376-409 | where every definition is unconditional or in its own `#ifndef` block, each guard fires if and only if the knob reads below 1 there, its last unconditional definition first, then its `-D` value, then its first default |
| GuardGaps.FiresAtZeroIff | scripts/check-c-array-guard-probe.py:394-409 | where every message naming the knob is in the knob's own `#ifndef` or behind a guard outside any conditional, the second probe passes if and only if some such guard reads its own knob below 1 at `-DK=0` |
| GuardGaps.PlainDefinesDecideProbe | scripts/check-c-array-guard-probe.py:394-409 | for a knob named alone it passes if and only if the last unconditional definition above some guard is absent or reads below 1 |
| GuardGaps.GuardInsideOwnIfndefIsUnreachable | scripts/check-c-array-guard-probe.py:394-409 | where every message naming a knob is written inside that knob's own `#ifndef`, none is printed at `-DK=0` |
| GuardGaps.GuardInsideOwnIfndefExample | scripts/check-c-array-guard-probe.py:394-409 | a file on which the order rule is silent and the second probe fails |
| GuardGaps.PlainDefineWins | scripts/check-c-array-guard-probe.py:394-409 | an unconditional `#define` overrides `-D` for every guard below it |
| GuardGaps.PlainDefineDefeatsProbe | scripts/check-c-knob-guard-order.py:82-94 | so an unconditional positive `#define` passes the order rule while its guard is dead at `-DK=0` |
| ArchProfiles.ReadCflagsAbi | scripts/check-arch-profile-resolution.py:277-289 | the float ABI is the last one a flag states, `softfp` counting as soft |
| ArchProfiles.FloatFlagDecides | scripts/check-arch-profile-resolution.py:277-289 | with `-mfloat-abi=hard` the last float flag the ABI is hard, with `soft` or `softfp` soft, whatever stands before and behind; without one there is none |
| ArchProfiles.TripleSpellsAbi | scripts/check-arch-profile-resolution.py:265-274 | an ARM triple that ends in `eabihf` is hard and one that ends in `eabi`, or goes on behind it, soft, also as the name of a `.json` target description |
| ArchProfiles.AdmittedTriples | scripts/check-arch-profile-resolution.py:250-262 | a profile admits exactly the triples that hold its `target_match` anywhere and its `target_exclude` nowhere |
| ArchProfiles.FlagsContradictIff | scripts/check-arch-profile-resolution.py:426-446 | flags contradict a triple if and only if the triple spells the other ABI than the last float flag |
| ArchProfiles.LastFileWrites | scripts/check-arch-profile-resolution.py:381-386 | of several files with one block the last one's is in force |
| ArchProfiles.FirstFileOwns | scripts/check-arch-profile-resolution.py:381-386 | and the first one is reported as its owner |
| ArchProfiles.ResolveIsFirstHit | scripts/check-arch-profile-resolution.py:411-427 | resolution walks the platform's list and stops at the first defined profile that admits the triple |
| ArchProfiles.CheckPlatform | scripts/check-arch-profile-resolution.py:390-446 | R1, R3 and R4 for one platform: exactly the undefined names, the triples admitted twice and the answers with the wrong float ABI |
| ArchProfiles.CheckBlocks | scripts/check-arch-profile-resolution.py:451-481 | R2 and R5: exactly the blocks no platform lists and the blocks no triple reaches, less what the two debt lists excuse |
| ArchProfiles.Check | scripts/check-arch-profile-resolution.py:373-488 | the problems over all roots are exactly those of the five rules, and the exit code says whether there are any |
| ArchGuarantees.ResolutionIgnoresOrder | scripts/check-arch-profile-resolution.py:411-425 | when the check is clean no permutation of `arch_profiles` changes the answer for any platform and triple |
| ArchGuarantees.AnswersAreWiredRight | scripts/check-arch-profile-resolution.py:401-446 | when it is clean every listed name is defined and no answer's flags contradict its triple's float ABI |
| ArchGuarantees.EveryProfileAnswers | scripts/check-arch-profile-resolution.py:448-481 | when it is clean with empty debt lists every defined profile is the actual answer for some platform and triple |
| ArchGuarantees.WrittenBlocksInForce | scripts/check-arch-profile-resolution.py:377-386 | every block as written is the one in force if and only if no two files of a root define one name differently |
| ArchGuarantees.DebtIsLive | scripts/check-arch-profile-resolution.py:317-370 | the stale entries are exactly those whose removal brings no problem of their own rule under their name |
| ArchGuarantees.DebtListsAreFaultSets | scripts/check-arch-profile-resolution.py:317-370 | the check and the liveness check both accept if and only if each list is exactly the fault set of its own rule |
| ArchGuarantees.FaultlessEntryPassesIff | scripts/check-arch-profile-resolution.py:351-358 | the liveness check alone is not exact: an entry that excuses nothing passes if and only if another owner's block of that name has an unexcused fault of its rule |
| ArchGuarantees.StaleEntryMaskedByName | scripts/check-arch-profile-resolution.py:351-358 | a tree in which a stale entry passes that way |
| PlatformFileReader.ParsePlatformFile | scripts/check-arch-profile-resolution.py:175-247 | the loop over the lines ends in the state of the line-by-line reader |
| PlatformFileReader.CommentIsIgnored | scripts/check-arch-profile-resolution.py:191-194 | a comment behind a line, or a line that is one, changes nothing in any state of the reader |
| PlatformFilePrinter.ReadUndoesPrint | scripts/check-arch-profile-resolution.py:175-247 | reading a printed descriptor, in any mix of one-line and multi-line arrays, gives back its blocks, its list in order and its `inherits` flag, if and only if in every multi-line array no row holding a `]` has an item below it |
| PlatformFilePrinter.ReadPrinted | scripts/check-arch-profile-resolution.py:175-247 | what the reader makes of any printed descriptor: of a multi-line array, the rows down to the first that holds a `]` |
| PlatformFilePrinter.ReadTextUndoesPrint | scripts/check-arch-profile-resolution.py:191-192 | the same of the file's text, when no string holds a line break |
| PlatformFilePrinter.BracketInRowEndsArray | scripts/check-arch-profile-resolution.py:203-212 | an open array is closed by a row that holds `]`, and the row below it is dropped |
| PlatformFilePrinter.OnlyTopLevelDeclares | scripts/check-arch-profile-resolution.py:219-236 | below a table header no list and no `inherits` counts, whatever lines follow, until a header such as `[]` |
| Lexicographic.PrefixInterval | scripts/api-parity.py:1930-1933 | the strings that begin with a prefix form one interval of the order, starting at the prefix |
| Lexicographic.Sorted | scripts/api-parity.py:1925-1928 | sorting gives the names in strictly ascending order, none lost and none added |
| NameIndexing.BisectLeft | scripts/api-parity.py:1930-1933 | the returned position separates the strings below the stem from the rest |
| NameIndexing.Begins | scripts/api-parity.py:1930-1933 | one bisection decides whether any of the sorted names begins with the stem |
| NameIndexing.EndsWithIsPrefixReversed | scripts/api-parity.py:1925-1956 | ending with a stem is beginning with its reverse in the reversed name |
| NameIndexing.NameIndex.constructor | scripts/api-parity.py:1925-1928 | the index holds the known names, forwards and reversed, both sorted |
| NameIndexing.NameIndex.Resolves | scripts/api-parity.py:1935-1957 | the index answers exactly what a scan over every known name answers |
| NameIndexing.BareNameResolvesIff | scripts/api-parity.py:1935-1957 | a bare name resolves if and only if it is known as written or behind one of the six dropped prefixes |
| NameIndexing.TildeIsDropped | scripts/api-parity.py:1936 | a destructor resolves if and only if its class's name does |
| NameIndexing.FamilyResolvesIff | scripts/api-parity.py:1935-1957 | a name followed by `*` or `{` resolves if and only if some known name begins with one of those spellings |
| NameIndexing.EndingResolvesIff | scripts/api-parity.py:1935-1957 | a name that begins with an underscore resolves if and only if some known name ends with it |
| NameIndexing.PathResolvesIff | scripts/api-parity.py:1935-1957 | a qualified name resolves if and only if each of its segments is known as written |
| NameIndexing.ResolvesIsMonotone | scripts/api-parity.py:1935-1957 | learning more names never makes a resolved name unresolved |
| ParityLedger.GlobPrefix | scripts/api-parity.py:829-837 | a pattern ending in its only `*` covers exactly the names with that prefix |
| ParityLedger.GlobLiteral | scripts/api-parity.py:829-837 | literal text in front of a pattern has to stand in front of the name |
| ParityLedger.GlobAnyText | scripts/api-parity.py:829-837 | a `*` stands for any text, none included |
| ParityLedger.Lookup | scripts/api-parity.py:793-842 | the row found and whether it is inherited: own row, else the owner's in the same bucket, else a glob |
| ParityLedger.OwnerIff | scripts/api-parity.py:812-814 | a key's owner is the text in front of its last `::` |
| ParityLedger.OwnedIff | scripts/api-parity.py:812-814 | it has one if and only if it holds a `::` |
| ParityLedger.MemberInherits | scripts/api-parity.py:793-818 | a member without a row of its own is answered by its type's row where the type sits in the same bucket |
| ParityLedger.MemberArguesItself | scripts/api-parity.py:793-842 | and by a glob or nothing where the type sits in another |
| ParityLedger.BestGlobIsLongest | scripts/api-parity.py:829-840 | the glob chosen is a longest among those that declare the bucket and match, and there is one whenever any matches |
| ParityLedger.VerdictStaysInBucket | scripts/api-parity.py:793-842 | an own row always wins; any other verdict comes from the same bucket, or from a longest glob declaring it |
| ParityLedger.AnsweredIff | scripts/api-parity.py:793-842 | a name is answered if and only if some row of the ledger applies to it |
| ParityLedger.AnsweredIsMonotone | scripts/api-parity.py:793-842 | adding rows anywhere never leaves an answered name unanswered |
| ParityLedger.FindUnledgered | scripts/api-parity.py:2181-2222 | the gate's loop over all rows of one surface |
| ParityLedger.LastRowDecides | scripts/api-parity.py:2181-2222 | a key's bucket is that of its last row on the surface |
| ParityLedger.AskedIff | scripts/api-parity.py:2181-2222 | on either surface the rows that must be answered are the divergent ones, systematic ones aside, and `same` ones with another return type |
| ParityLedger.GateRowsMembers | scripts/api-parity.py:2181-2222 | the gate reports exactly the rows that must be answered and that nothing answers |
| ParityLedger.OneRowPerReportClearsGate | scripts/api-parity.py:2181-2222 | one new row per reported key, of any content, clears the gate in one pass |
| ParityLedger.SameShapedDivergences | scripts/api-parity.py:1048-1114 | the reported keys are those of the rows that answer a `same` name with an undisposed divergence |
| ParityLedger.DisposingClearsExactly | scripts/api-parity.py:1048-1114 | writing dispositions on a set of keys removes from the report exactly those keys |
| ParityLedger.MisdeclaredRefusals | scripts/api-parity.py:1117-1149 | the reported members are those answered `refuse-loud` that our side does not declare |
| ParityLedger.AbsentRowsClearRefusals | scripts/api-parity.py:1132-1149 | giving every reported member its own `absent` row clears the report in one pass |
| EnvelopeRatchet.EnvelopeFindings | scripts/api-parity.py:1583-1625 | each key is found once, with the first of the three reasons that applies to it |
| EnvelopeRatchet.WitnessHoldsIff | scripts/api-parity.py:1266-1290 | a witness holds if and only if its file is there and is the cited text with something in front of it and behind it |
| EnvelopeRatchet.CleanIffBaselineExact | scripts/api-parity.py:1583-1625 | nothing is found if and only if the baseline is the set of `adopt-bounded` rows without an envelope and every well-formed envelope's text is in its file |
| EnvelopeRatchet.WitnessedStaysWitnessed | scripts/api-parity.py:1583-1601 | over any run of clean commits whose baseline only loses lines, a row once witnessed is never again an unwitnessed claim |
| QuotedCalls.SignatureArities | scripts/api-parity.py:1692-1720 | a name's spans are exactly those of the declarations it names by a `::` suffix, `self` counted both ways |
| QuotedCalls.DefaultsMayBeOmitted | scripts/api-parity.py:1703-1711 | a declaration takes any number of arguments from its required parameters to all of them, and with a `self` one fewer as well |
| QuotedCalls.NamedByTails | scripts/api-parity.py:1712-1714 | a path of segments goes by each of its tails and by nothing else |
| QuotedCalls.QuotedArgCount | scripts/api-parity.py:1679-1689 | the count is the number of pieces between commas at depth 0 |
| QuotedCalls.MisquotedCalls | scripts/api-parity.py:1749-1763 | exactly the judged quotes whose count lies in no span are reported |
| QuotedCalls.QuoteIsReportedIff | scripts/api-parity.py:1749-1763 | a quote of any arguments is reported if and only if it is judged and no declaration takes their number, with the inner commas the scanner takes for separators and without the separators it passes over |
| QuotedCalls.TrueQuoteIsAccepted | scripts/api-parity.py:1679-1763 | a true quote, of whatever declaration and under any `::` suffix of its name, is never reported if and only if it leaves arguments out or those two numbers are equal |
| QuotedCalls.SeparableCountsRight | scripts/api-parity.py:1679-1689 | they are equal, both 0, for arguments the scanner can tell apart, balanced ones among them |
| QuotedCalls.SelfMayBeOmitted | scripts/api-parity.py:1703-1711 | nor is a quote of a method without its `self`, under the same condition |
| QuotedCalls.ArrowIsMiscounted | scripts/api-parity.py:1679-1689 | an argument `a->b` of plain text followed by one more plain argument counts as one with it |
| BracketScanner.PiecesOfJoin | scripts/check-allocator-never-waits.py:68-84 | for each of the three scanners' bracket sets, splitting undoes comma-joining if and only if no argument has a comma at depth 0 and each but the last leaves the depth as it was |
| BracketScanner.JoinCount | scripts/api-parity.py:1679-1689 | the number of pieces of any comma-join, from the inner commas taken for separators and the separators passed over |
| BracketScanner.SeparableIff | scripts/api-parity.py:1679-1689 | both numbers are 0 exactly for the arguments that splitting gives back |
| AllocatorCalls.SplitArgs | scripts/check-allocator-never-waits.py:68-84 | None exactly when the depth never returns to zero; otherwise the stripped pieces up to the one closing parenthesis |
| AllocatorCalls.OneClose | scripts/check-allocator-never-waits.py:68-84 | at most one position closes the call |
| AllocatorCalls.ScanUndoesJoin | scripts/check-allocator-never-waits.py:68-84 | in any surrounding text the parenthesised join of balanced arguments is read back as those arguments |
| PosixPaths.NormalizePath | scripts/check-book-links.py:112 | the component loop of `posixpath.normpath` |
| PosixPaths.WalkFromAnywhere | scripts/check-book-links.py:112 | a relative walk that does not climb above its start arrives at the same place below any directory |
| PosixPaths.RelpathInSite | scripts/book-move.py:655-661 | the working directory drops out of `relpath` between two site paths |
| PosixPaths.NormalisedJoinUndoesRelpath | scripts/check-book-links.py:112 | normalising the join of a directory with a relative path to a target gives the target |
| BookLinks.ComputeDeployUrl | scripts/check-book-links.py:97-102 | the first source directory that fits decides the URL; a file of neither book is an error |
| BookLinks.CrossBookSources | scripts/check-book-links.py:105-117 | the candidates are one per deploy root whose prefix fits, in table order, and none unless the link ends in `.html` |
| BookLinks.DeployOfPage | scripts/check-book-links.py:97-102 | a page's deploy URL is its book's prefix, its directories and its name with `.html` |
| BookLinks.LinkFindsItsPage | scripts/check-book-links.py:105-117 | for all pages a generated link read back finds its target among the candidates, unless and only unless the target's URL is a directory above the reader |
| BookLinks.UrlsCollideIff | scripts/check-book-audience.py:158-160 | two pages share a URL exactly when they are one page or a user page under `internals/` and the Internals page of that path |
| BookLinks.UrlIsInjective | scripts/check-book-audience.py:158-160 | with no user page under `book/src/internals/` a URL names one page of both books |
| Redirects.RepointLines | scripts/book-move.py:651-662 | each row whose page has left its URL is re-aimed in place, its anchor kept, and every other line is untouched |
| Redirects.AddRedirects | scripts/book-move.py:644-681 | the edited file: repointed rows, then one new row per former URL not yet mentioned, right below the table header |
| RedirectHeirs.MovedToIff | scripts/book-move.py:623-641 | a user page's URL leads on if and only if no file serves it and the first row of the map that lists the page as a former one has a served heir: itself, or the first row that owns the page it was merged into; it then leads to the heir's URL |
| RedirectHeirs.RowFollowsItsPage | scripts/book-move.py:644-662 | after a run a row that names such a URL names the heir's, with its source and its anchor |
| RedirectHeirs.OtherRowsStay | scripts/book-move.py:644-662 | and any other row that names a user page is as it was |
| RedirectHeirs.FormerUrlLeads | scripts/book-move.py:664-671 | a former URL the file does not quote, and that one page only had, gets a row that names that page's URL |
| RedirectHeirs.QuotedUrlGetsNoRow | scripts/book-move.py:664-671 | a former URL quoted in a line that is no row, a comment say, gets none |
| RedirectHeirs.RowsBelowHeader | scripts/book-move.py:672-681 | the added rows stand together right below the first table header |
| RedirectGuarantees.FormerUrlsRedirect | scripts/book-move.py:664-671 | a page's former URL is the source of a row afterwards if and only if it was one before or the file did not quote it elsewhere |
| RedirectGuarantees.SourcesStayDistinct | scripts/book-move.py:664-681 | no URL gets a second row |
| RedirectGuarantees.NoRowPointsBack | scripts/book-move.py:623-662 | after a run no row names a URL its page has left, if and only if every URL the run aims a row at is settled and no row written from the site's root named such a URL before |
| RedirectGuarantees.ReaimedIff | scripts/book-move.py:623-661 | a row is re-aimed if and only if the page has left the URL it names and its destination is not written from the site's root |
| RedirectGuarantees.RootedRowIsLeft | scripts/book-move.py:644-671 | a file and a map for which a run changes nothing although its one row, `"/a.html" = "/b.html"`, names a URL that `c.html` has left |
| RedirectGuarantees.RepairIsIdempotent | scripts/book-move.py:644-681 | a second run changes nothing if and only if every URL the first run aims a row at is settled: its page is there, or the map sends it nowhere else |
| RedirectGuarantees.LandedRepairIsIdempotent | scripts/book-move.py:644-681 | in particular when every page of the map and every moved page is at its target or has no other |
| RedirectGuarantees.AddingAloneIsIdempotent | scripts/book-move.py:644-681 | without a map, a second run never changes anything |
| RedirectGuarantees.SecondRunDiffers | scripts/book-move.py:623-671 | two pages for which the second run differs: a row added towards `b.html`, which is not on disk and whose page is now `c.html` |
| BookSummary.RenderSummary | scripts/book-move.py:270-347 | the three loops over parts, pages and sorted rows produce the rendered lines |
| SummaryGuarantees.SortIsStable | scripts/book-move.py:311-318 | the sort orders rows by rank, keeps every row, and keeps map order within equal ranks |
| SummaryGuarantees.EachPageListedOnce | scripts/book-move.py:276-346 | each file is listed exactly once if some eligible page is in it and no generated region lists it, and never otherwise |
| SummaryRows.ListedIffListable | scripts/book-move.py:276-291 | the files listed are exactly the current files of this book's pages, in its parts, that are not to be merged and lie in its sources, less those the generated region lists |
| SummaryGuarantees.EmitsEachRow | scripts/book-move.py:319-342 | the emission loop lists the sorted rows in order, leaving out only what the generated region lists |
| SummaryGuarantees.EachPageUnderItsHeading | scripts/book-move.py:319-342 | every page line hangs under its own status or group heading, every status heading under the status-grouped group |
| SummaryRows.HeadingOfRow | scripts/book-move.py:297-309 | that heading is the page's group, or its status in the status-grouped group, once the page is at its target, and none before |
| SummaryRows.RowIsListed | scripts/book-move.py:319-342 | each listed page has the lines of the pages waiting to be merged into it right below its own |
| SummaryRows.EachWaitingPageHasALine | scripts/book-move.py:338-342 | one line for each such page, in map order |
| SummaryGuarantees.EachHeadingOnce | scripts/book-move.py:318-333 | rows in rank order give each group heading and each status heading at most once |
| SummaryGuarantees.LoosePagesComeFirst | scripts/book-move.py:288-318 | a part's ungrouped pages precede all its headings |
| SummaryRows.GroupsInOrder | scripts/book-move.py:311-318 | ungrouped pages come first, then the groups in their order |
| SummaryRows.StatusesInOrder | scripts/book-move.py:311-318 | in a group the pages with a status come first, the statuses in their order |
| SummaryGuarantees.EachPageListedUnderItsHeading | scripts/book-move.py:270-347 | in the whole document every page line of a part lists one of its collected and sorted rows, under the row's status or group heading or else the part's |
| SummaryGuarantees.EachSectionInOrder | scripts/book-move.py:276-346 | each part's section of the document lists the rows collected for it by rank, map order among equals, with no group or status heading twice |
| SummaryGuarantees.DocumentIsSections | scripts/book-move.py:276-347 | the document is the parts' sections, one after the other |
| SummaryRows.RegionEndsReference | scripts/book-move.py:343-344 | the reference part's section ends with the lines of the generated region, and no other section has one |
| BookSections.FindHeads | scripts/check-book-board-run-sections.py:92-109 | the loop that toggles at fences collects the page's headings |
| BookSections.HeadsAreThese | scripts/check-book-board-run-sections.py:92-109 | those are exactly the headings outside fences and outside tab structure, in page order |
| BookSections.InFenceIffOdd | scripts/check-book-board-run-sections.py:101-103 | a line is inside a fence if and only if an odd number of fence lines stand above it |
| BookSections.BlockHidesItsHeadings | scripts/check-book-board-run-sections.py:92-109 | the headings of a page with a fenced block are those above the block and those below it: the block hides its own and no others |
| BookSections.UnfencedHeads | scripts/check-book-board-run-sections.py:92-109 | on a page without fence lines every heading outside tab structure counts |
| BookSections.Sections | scripts/check-book-board-run-sections.py:87-123 | every such heading's id has a section; where headings share an id the last one's is kept |
| BookSections.EndFromEnds | scripts/check-book-board-run-sections.py:112-117 | a section ends at the first later heading that is no deeper, or with the page |
| BookSections.StartsInside | scripts/check-book-board-run-sections.py:112-117 | a later heading starts inside a section exactly when every heading between, itself included, is deeper |
| BookSections.Laminar | scripts/check-book-board-run-sections.py:112-122 | any two sections are nested or apart, and nest exactly when the later heading is deeper and starts before the earlier section ends |
| BookSections.FenceCountsForEnclosing | scripts/check-book-board-run-sections.py:126-127 | a fence in a subsection counts for every section that encloses it |
| BookSections.LastHeadCovers | scripts/check-book-board-run-sections.py:112-122 | a line's innermost section is that of the last heading at or before it |
| BookSections.OwnSectionIffNoClash | scripts/check-book-board-run-sections.py:118-122 | every heading keeps its own section if and only if no heading's plain id is another's numbered one |
| BookSections.ClashExample | scripts/check-book-board-run-sections.py:118-122 | headings `a`, `a` and `a-1` clash |
| CTypes.TokensOfJoin | scripts/check-c-api-upstream-signatures.py:98 | reading tokens undoes joining them with spaces |
| CTypes.NormTypeIdempotent | scripts/check-c-api-upstream-signatures.py:96-103 | normalising a normalised type changes nothing |
| CTypes.SameTypeIff | scripts/check-c-api-upstream-signatures.py:96-103 | two spellings normalise alike exactly when they have the same tokens after aliasing and the `const` swap |
| CTypes.ConstOnEitherSide | scripts/check-c-api-upstream-signatures.py:96-103 | `T const` and `const T`, whatever follows, normalise to the second |
| CTypes.NoiseIsDropped | scripts/check-c-api-upstream-signatures.py:96-103 | an export macro, `extern`, `struct` or `enum` makes no difference, wherever it stands |
| CTypes.AliasReadsAsName | scripts/check-c-api-upstream-signatures.py:96-103 | a typedef with an alias normalises like the name it stands for |
| CTypes.ArrayIsPointer | scripts/check-c-api-upstream-signatures.py:97 | an array type normalises like a pointer |
| CTypes.ReadParams | scripts/check-c-api-upstream-signatures.py:106-125 | the depth-counting loop splits at the commas outside parentheses and reads each part's type |
| CTypes.NameIsDropped | scripts/check-c-api-upstream-signatures.py:121-124 | a parameter's name is dropped and its type, with any array suffix, kept |
| CTypes.UnnamedParameter | scripts/check-c-api-upstream-signatures.py:121-124 | a parameter that is a single word keeps it as its type |
| CTypes.NoParameters | scripts/check-c-api-upstream-signatures.py:107-109 | an empty list and `void` declare no parameters |
| CTypes.ParametersAreRead | scripts/check-c-api-upstream-signatures.py:106-125 | reading any comma-separated list of declared parameters gives exactly their types, in order |
| Signatures.EnumValues | scripts/check-c-api-upstream-signatures.py:128-143 | each named item gets its own number, or one more than the item before it, from 0 |
| Signatures.NumberCountsFromExplicit | scripts/check-c-api-upstream-signatures.py:128-143 | an item's number is that of the last explicit value before it plus the distance |
| Signatures.EnumConformsIff | scripts/check-c-api-upstream-signatures.py:170-172 | an enum conforms exactly when every upstream value has the same name and number, in the same place, in ours |
| Signatures.AppendingConforms | scripts/check-c-api-upstream-signatures.py:128-172 | appending values to an enum keeps it conforming |
| Signatures.ConstOfParameter | scripts/check-c-api-upstream-signatures.py:162-181 | a pointer parameter may gain `const` in a function only and lose it nowhere; a value parameter may do both |
| Signatures.OneParameterDecides | scripts/check-c-api-upstream-signatures.py:166-181 | with one parameter changed a signature conforms if and only if that parameter does |
| Signatures.CallbackConformityIsEquivalence | scripts/check-c-api-upstream-signatures.py:166-181 | callback types conform like equal ones: reflexive, symmetric and transitive |
| Signatures.FunctionConformityIsOneWay | scripts/check-c-api-upstream-signatures.py:166-181 | two functions conform both ways exactly when they would as callbacks: a parameter may gain `const` and not lose it |
| Signatures.WriteSnapshot | scripts/check-c-api-upstream-signatures.py:200-207 | the written text: three comment lines, then one tab-separated line per signature |
| Signatures.ReadSnapshot | scripts/check-c-api-upstream-signatures.py:213-220 | reading keeps the last row of each key, passes over comments and blank lines, and fails on a line of any other shape |
| Signatures.SnapshotRoundTrip | scripts/check-c-api-upstream-signatures.py:188-220 | reading undoes writing if and only if no signature's parameters are one empty text |
| Signatures.HarvestedIsWritable | scripts/check-c-api-upstream-signatures.py:146-163 | every function and callback the harvest reads has fields free of tabs, semicolons and line breaks, so it can be written |
| Signatures.HarvestedEnumIsWritable | scripts/check-c-api-upstream-signatures.py:146-154 | and so can every enum row whose values are all numbered |
| Signatures.Check | scripts/check-c-api-upstream-signatures.py:238-255 | the errors are exactly the unlisted deviating names and the listed names that do not deviate, each once |
| Signatures.CleanIffBaselineExact | scripts/check-c-api-upstream-signatures.py:238-255 | there is no error if and only if the baseline names exactly the deviating signatures |
| Signatures.DeviationNeverReturns | scripts/check-c-api-upstream-signatures.py:238-255 | over any run of clean commits whose baseline only loses lines, a deviation once gone never returns |
| ImageWalk.MetIsSelection | scripts/check-action-client-arena-budget.py:418-448 | for every tree the pruned walk is the full enumeration, filtered to the wanted `out` directories, in the same order |
| ImageWalk.MetMembers | scripts/check-action-client-arena-budget.py:435-444 | a directory is met exactly when it is a `build/*/out` holding a config with no pruned name and no earlier such directory on its way |
| ImageWalk.WalkRoot | scripts/check-action-client-arena-budget.py:435-447 | walking one root with a worklist adds exactly what the walk meets to the lists by profile |
| ImageWalk.FindImageRoots | scripts/check-action-client-arena-budget.py:418-448 | the result groups what all roots meet by profile, each list non-empty and in walk order |
| ImageWalk.FoundExactly | scripts/check-action-client-arena-budget.py:418-448 | a config is listed under a profile if and only if some root holds it at `<profile>/build/<package>/out` with nothing pruned before it |
| ImageWalk.OrdinaryImageIsReachable | scripts/check-action-client-arena-budget.py:184-194 | no `out` directory is pruned away whose path holds neither a hidden name nor one of the five names of intermediates and vendored code |
| ImageWalk.MetOnce | scripts/check-action-client-arena-budget.py:435-447 | where sibling names are distinct, one root's walk meets no directory twice |
| KnobReading.KnobOf | scripts/check-action-client-arena-budget.py:532-570 | the shared knob with all arena sizes, or that no config declares it, or all the values that disagree |
| KnobReading.OnlyDeclaringConfigsMatter | scripts/check-action-client-arena-budget.py:541-562 | order, repetition and configs lacking the knob change no answer, but for the count of ignored ones when none declares it |
| KnobReading.OrderIsImmaterial | scripts/check-action-client-arena-budget.py:541-570 | reordering the configs changes nothing at all |
| BuildTypes.Violations | scripts/check-build-type-spelling.py:277-300 | exactly the rules the package breaks, each at most once, with the text it declared |
| BuildTypes.FamiliesBreak | scripts/check-build-type-spelling.py:288-299 | an owned package breaks its rule by any text behind `ament_`, an interface package by any behind `nros_`, and no other package either |
| BuildTypes.KeyIsRecoverable | scripts/check-build-type-spelling.py:672-673 | splitting a key at its last `@` gives back the path and the rule, whatever the path holds |
| BuildTypes.WriteBaseline | scripts/check-build-type-spelling.py:383-392 | the written baseline: one line per violation of the scan |
| BuildTypes.ApplyBaseline | scripts/check-build-type-spelling.py:394-415 | errors and exemptions violation by violation, and the lines that no longer apply |
| BuildTypes.CleanIffWritten | scripts/check-build-type-spelling.py:383-415 | a scan leaves no error and no improved line if and only if the baseline is the one written from it; each violation then has one exemption of its own |
| BuildTypes.ImprovedNamesAFixedBreach | scripts/check-build-type-spelling.py:672-684 | an improved line splits into a package and a rule broken when the baseline was written and not broken now |
| BuildTypes.NoNewViolation | scripts/check-build-type-spelling.py:394-415 | over any run without errors whose baseline only loses lines, every violation was granted, with the same declaration, at each earlier commit |

## Left out

- Regular expressions: lines arrive recognised (directive, guard, heading, fence, redirect row, page-map row), and
  of the patterns on characters only those spelled out in the modules above are modelled.
- Function-like macros, and arithmetic in `#if` beyond the operators of `Preprocessor.Expr`. A macro body stands for its
  value: one that, unparenthesised, binds less tightly than the condition around it (`#define K 0 && 0`) is not modelled.
- Of a printed guard message, only the knob it names is searched for a macro's name, not the file path in front of it.
- GuardOrder.ProbeAgreesWithRule: for files whose guards stand at conditional depth 0 and whose defaults are
  `#ifndef`/`#define` blocks; `GuardGaps` says what happens with unconditional definitions, headers and nested guards.
- IncludedHeaders.ExcusedGuardFiresIff: for definitions in the file that the order rule reads (an indented `#define` it
  does not see would define the knob as well), and for headers that define the knob under no other condition than
  include guards and its own `#ifndef`; under any condition, `FiresIff` decides by the macros at the guard.
- Message text and the order problems are printed in: problems are values, and debt markers are matched on them.
- `fnmatch` characters other than `*`, which no ledger pattern test looks for.
- PlatformFilePrinter.ReadUndoesPrint: items hold no quote or `#`, since the reader has no escapes.
- QuotedCalls.MisquotedCalls: takes the quotes already cut out of the prose; the finding for a `retired_quotes` entry
  that the prose no longer holds is not modelled.
- RedirectHeirs.MovedToIff: for URLs that a page can have; every Internals page's is that of a user page too.
- RedirectGuarantees.RepairIsIdempotent: for files whose rows' sources stay inside the site.
- Redirects.AddRedirects: lines are recognised whole. The script looks for `[output.html.redirect]` as a substring and
  splits behind it and a line feed, so a header with a comment behind it, or on an unterminated last line, gets a
  second header appended.
- A redirect destination that spells the checkout's own absolute path.
- Signatures.HarvestedEnumIsWritable: an initialiser that is not an integer is kept as it is written, over several
  lines if so; such a row breaks the snapshot.
- SummaryGuarantees.EachHeadingOnce: for groups and statuses that the part's order knows; the script fails with a
  key error on any other.
- Titles, blank lines and the text of the generated region in the table of contents.
- BookSections.FindHeads: which lines are a tab group's structure is an input; `book_tabs` is not part of this model.
- The text-to-id normalisation of headings (`mdbook_id`): a heading carries its id.
- Signatures.EnumValues: integer initialisers only (section 6.7.2.2 of ISO/IEC 9899:2011); after any other the
  script's counter deliberately stays where it is.
- Signatures.Check: takes the shared and the listed names as already sorted lists.
- EnvelopeRatchet.EnvelopeFindings: takes the keys and the baseline as already sorted lists.
- CTypes.ParametersAreRead: types that hold no `[` and end in a space or a `*`; a parameter that names no type is read
  as its whole text by the same function.
- ImageWalk.MetOnce: says nothing of two roots that overlap, which would list a config twice.
- KnobReading.KnobOf: arena sizes and disagreeing values are sets; their printed form is not modelled.
- BuildTypes.WriteBaseline: the map, not its JSON text.
- BuildTypes.ApplyBaseline: the improved lines are a set; the script sorts them.
- Symbolic links, unreadable directories and path encodings.
- Unicode beyond ASCII in letter, digit and whitespace tests.
- `orphan_rows`, `contradictory_verdicts`, `closed_gap_findings`, `dead_rename_targets`, `compare_tables`, `classify` of
  both scripts, `attributable`, `unfenced`, the wait-token search of `violations` in the allocator gate: membership
  tests and branches that say nothing beyond one body.
- The harvesting of declarations by clang, rustdoc and prototype patterns.
- The Rust and C runtime, and the gates that are a single search.
