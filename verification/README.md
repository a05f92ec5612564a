# Kagami's native core, modelled and proved

A Dafny model of the self-contained algorithms in Kagami's native side, with the agreements its code
claims proved for all inputs. `dafny verify dfyconfig.toml` checks everything.

| part | modules |
|---|---|
| printing binary64 numbers with 17 digits | Powers, Reals, Digits, BinaryLog, DecimalScales, DecimalRounding, DecimalCached, DecimalText, DecimalEmit, DecimalExact, DecimalPrinter, DecimalRoundTrip, DecimalFormat |
| merging module layers and mounting the result | LayerMerge, MagicMount, MountVisible |
| path rules, their index, the compiled kernel plan and its evidence | Ordering, KasumiRules, KasumiPlan, KasumiInstall, KasumiMeaning |
| JSON parsed in place into flat arrays, printed and searched | JsonGrammar, JsonCursor, JsonLexical, JsonTree, JsonDocument, JsonNumber, Escaping, JsonPrint, JsonRoundTrip, JsonWrite, JsonRewrite, JsonPrefix, JsonEscapes |
| the daemon's request and reply protocol | WireOutput, WireInput, WireRequest, WireNumbers, WireResponse, WireRoundTrip, WireExchange |
| files that must survive a death at any step, and the indexes over what they record | ModuleSnapshot, LogRotation, RuntimeIndexes, RuntimeRecords |
| settings files: merging a patch, updating the rule table | SettingsInput, SettingsMerge, SettingsWriter, SettingsFeatures, SettingsRules, SettingsTable, SettingsStore |

Text, Options hold the bounded output cursor, decimal digit strings and `Option`.

How things are represented:

- A byte is a `char`, compared by its code; a buffer is an `array<char>`. Strings of arbitrary bytes are covered because no statement depends on codes above 255.
- A binary64 value is its 64 bits; exact values are reals `s * 2^e` and `c * 10^q`.
- Objects the code updates (writers, cursors, documents, indexes, batches, journals) are classes whose methods are proved against functions; the functions' own properties are lemmas.
- A file system is a finite tree of files, links and directories; a mount replaces a subtree. Failing installs, short sends, split reads and failing saves are inputs, so every pattern of them is covered.
- The two crash protocols are state machines: one step is one atomic effect on the files, and a death or a reboot may come between any two. A save may take effect and still report failure.
- Reading text as a number is a parameter. The round trips ask that it rounds correctly, returns only zero or normal values, and accepts what is exactly zero or nearest to a normal value (`JsonNumber.IsReader`); the acceptance results hold for any such parameter whatsoever.
- `std::sort` is a sorting function on keys and positions; positions differ, so its result is unique.

Where the code and its comments part:

- Replacement hides stock only one level deep. The walk looks up every directory's real path whether or not a parent is replaced, so below a replaced directory a plain subdirectory that stock also has keeps its stock entries; so does one below a directory laid over a link to a directory. `MagicMount.UnionExact` says exactly when the mounted tree is the union, `MagicMount.OpaqueLeaks` and `MagicMount.LinkLeaks` show small trees where it is not.
- For a relative path and more than eight rules the indexed nested-rule lookup finds nothing, whatever the scan would find, since the index leaves relative rules out (`KasumiRules.RuleIndex.HasNestedRule`). The compiler asks with absolute paths only (src/mount/kasumi.cpp:535-553), so this concerns users of the index class itself.
- An operation that could not lock, or could not write its pending marker, can lose an update without a trace if it dies before marking the record invalid, and an inventory that is just being stored removes such a mark. `ModuleSnapshot.DefiniteIsComplete` is about the operations that published their marker, `ModuleSnapshot.MissedExactly` says in exactly which runs something is missed.
- A merge does not always leave the effective switches as they were, overridden by the patch. `SettingsFeatures.SwitchesExactly` has the exact condition. It fails in two ways, both only when the merged document has no split switches and no split version: a patch cannot turn off a switch that the legacy flag forces on, and a switch the patch does not name follows the legacy flag when the patch changes the flag or lowers the version of a document that was split by its version alone.
- Adding a rule replaces the first of its path while the last is in force, so in a file that has a path twice the new rule need not come into force (`SettingsRules.AddedInForce`).

## Model

| member | source | states |
|---|---|---|
| BinaryLog.FloorLog10Pow2Exact | src/core/decimal_scales.hpp:11-16 | on the whole range of binary64 exponents the multiply-and-divide formula is floor(log10(2^e)), proved with a lower and an upper rational certificate of log10 2 |
| DecimalScales.MultiplyTen | src/core/decimal_scales.hpp:22-29 | the word loop multiplies the little-endian number by ten modulo its width |
| DecimalScales.DivideTen | src/core/decimal_scales.hpp:31-38 | the word loop is floor division by ten |
| DecimalScales.WordAtMeaning | src/core/decimal_scales.hpp:40-52 | 32 bits at any signed bit offset are the corresponding bits of the shifted number, zeros outside it |
| DecimalScales.ExtractMeaning | src/core/decimal_scales.hpp:54-58 | four words put together are the number shifted, modulo 2^128 |
| DecimalScales.ScaledPowerRange | src/core/decimal_scales.hpp:65-66 | with q = 16 - floor(log10(2^E)) the scaled power lies in [10^16, 10^17) |
| DecimalScales.EntryFromPower | src/core/decimal_scales.hpp:67-76 | extracting bits of an exact power of ten gives floor(2^(E+60) * 10^q) |
| DecimalScales.EntryFromQuotient | src/core/decimal_scales.hpp:77-92 | repeated division of 2^1083 by ten and a final shift give floor(2^(E+60) / 10^-q): floor of floor is floor |
| DecimalScales.MakeScales | src/core/decimal_scales.hpp:60-94 | every one of the 2098 entries is floor(2^(E+60) * 10^q) |
| DecimalCached.Multiply | src/core/decimal.hpp:24-36 | the 32-bit-limb product is the exact 128-bit product of two words |
| DecimalCached.ScaledInterval | src/core/decimal.hpp:38-60 | the exact scaled value lies in [P, P + s) around the cached product |
| DecimalCached.IntervalDecides | src/core/decimal.hpp:55-75 | an error interval that meets no rounding boundary and no tie selects one rounding for every value in it |
| DecimalCached.UnitDecided | src/core/decimal.hpp:41-80 | a decision is always the half-even rounding at the unit in use, seventeen or one more integer digits |
| DecimalCached.Scaled | src/core/decimal.hpp:41-80 | succeeds exactly when the interval is not ambiguous, and then the coefficient and exponent are the value correctly rounded to 17 digits |
| DecimalEmit.CountDigits | src/core/decimal.hpp:82-87 | the loop over the table of powers counts decimal digits |
| DecimalExact.Integer.Multiply | src/core/decimal.hpp:106-121 | multiplies the exact number by a factor below 10^9 and uses at most one more limb; fails only when all 96 are in use |
| DecimalExact.Integer.DecimalDigits | src/core/decimal.hpp:122-124 | the digit count of the exact number |
| DecimalExact.Integer.Digit | src/core/decimal.hpp:125-127 | the decimal digit at an offset |
| DecimalExact.Integer.NonzeroBelow | src/core/decimal.hpp:128-134 | whether anything is left below a digit position |
| DecimalText.ReadRender | src/core/decimal.hpp:142-193 | the text of a coefficient and exponent, after trailing zeros are dropped, reads as exactly that number with its sign |
| DecimalEmit.Emit | src/core/decimal.hpp:142-193 | appends exactly that text, or nothing when its precomputed length does not fit |
| DecimalPrinter.IntegerRounded | src/core/decimal.hpp:195-206 | the integer path rounds half to even at the seventeenth digit |
| DecimalPrinter.WriteInteger | src/core/decimal.hpp:195-206 | an exact integer is printed correctly rounded, whole or not at all |
| DecimalPrinter.FractionAsDecimal | src/core/decimal.hpp:210-230 | a negative power of two is a power of five with the point moved |
| DecimalPrinter.WorkspaceSuffices | src/core/decimal.hpp:89-92 | no finite binary64 value needs more than the 96 limbs |
| DecimalPrinter.RoundedDigits | src/core/decimal.hpp:239-250 | leading digits, the rounding digit and what lies below it give half-even rounding |
| DecimalPrinter.WriteExact | src/core/decimal.hpp:210-252 | the exact path never runs out of limbs and prints the correctly rounded value |
| DecimalText.RenderUnique | src/core/decimal.hpp:142-193 | renderings of equal numbers are the same text, however many digits each started from |
| DecimalPrinter.TextUnique | src/core/decimal.hpp:255-287 | the bits fix the text: the three paths print the same bytes |
| DecimalFormat.FormatOf | src/core/decimal.hpp:142-193 | for every nonzero value the text has an exponent if and only if the value is below 0.0001 or at least 10^17; then it is one digit, perhaps a point and digits, a sign and at least two exponent digits, and otherwise the positional numeral; no more than 17 digits count and no fraction ends in zero |
| DecimalFormat.BitsMean | src/core/decimal.hpp:259-275 | sign, exponent and fraction fields give the value, the leading one implied except at exponent zero |
| DecimalFormat.HalfEvenExactly | src/core/decimal.hpp:195-206 | the rounding in use is to the nearest integer, and to the even one between two |
| DecimalPrinter.AsInteger | src/core/decimal.hpp:276-281 | when the shift tests succeed they give exactly the value, an integer of at most 64 bits |
| DecimalPrinter.AsIntegerExactly | src/core/decimal.hpp:276-281 | they find every value that is an integer of at most 64 bits |
| DecimalPrinter.Write | src/core/decimal.hpp:259-287 | every finite value, on whichever of the three paths, is printed as its correct rounding to 17 digits, all or nothing; infinities and NaN print nothing |
| DecimalRounding.RoundedUnique | src/core/decimal.hpp:255-258 | correct rounding has one result, so the three paths agree |
| DecimalRoundTrip.ErrorBelowHalfGap | src/core/decimal.hpp:255-258 | seventeen digits keep the error below half the distance to the next value |
| DecimalRoundTrip.RoundTrip | src/core/decimal.hpp:255-287 | printing any finite value, zeros and subnormals included, and reading with any correctly rounding reader gives the same bits |
| LayerMerge.CollectInto | src/mount/magic_mount.cpp:154-215 | reading a layer in any entry order gives the same merged nodes |
| LayerMerge.SelectLayers | src/mount/overlayfs.cpp:185-224 | walking each layer down a path gives the directories to stack and whether stock stays |
| LayerMerge.SelectionAgrees | src/mount/overlayfs.cpp:185-224 | for every path the layer selection lists exactly the layers merged into the node there, and keeps stock exactly when no node on the way replaces |
| LayerMerge.FirstLayerWins | src/mount/magic_mount.cpp:154-215 | the merged entry at a path is that of the first layer that has one, cut off by whiteouts, files and replaced directories above |
| MagicMount.DoMount | src/mount/magic_mount.cpp:546-608 | succeeds exactly when every part can be mounted, and then what is visible is the built view of the node over stock |
| MagicMount.ChildNeeds | src/mount/magic_mount.cpp:399-462 | whether a direct child requires a skeleton: a link, a file without a stock file, a whiteout of something, a directory without a stock directory |
| MagicMount.NeedsExactly | src/mount/magic_mount.cpp:412-431 | a child requires a skeleton if and only if it cannot be put in place: a file onto a file, a directory onto a directory, an absence where nothing is, a link nowhere |
| MagicMount.FittingIsNoSkeleton | src/mount/magic_mount.cpp:409-453 | a directory becomes a skeleton if and only if it is opaque or some child does not fit in place, whatever is behind it |
| MagicMount.FittingMounts | src/mount/magic_mount.cpp:399-545 | what fits in place all the way down is mounted without any skeleton |
| MagicMount.RootMountsExactly | src/mount/magic_mount.cpp:442-453 | a root without a directory behind it is mounted if and only if each of its own entries fits in place; nothing below is refused |
| MagicMount.DoDirectory | src/mount/magic_mount.cpp:399-545 | a directory shows its built view; outside a skeleton it becomes one if and only if it is opaque or a direct child requires it |
| MagicMount.SkeletonsExact | src/mount/magic_mount.cpp:399-462 | over a whole walk skeletons are moved over exactly the directories that are opaque or have a direct child requiring one and that lie below no other |
| MagicMount.PlaceChildren | src/mount/magic_mount.cpp:463-545 | binding or mirroring children in any order builds the overlaid entries |
| MagicMount.UnionExact | src/mount/magic_mount.cpp:320-374 | the mounted tree is the union view if and only if, below every replaced directory and every directory laid over a non-directory, no plain subdirectory has stock entries at its real path that it does not cover itself |
| MagicMount.MountRoot | src/mount/magic_mount.cpp:546-608 | the same for the whole tree mounted at the root |
| MagicMount.PlainShowsUnion | src/mount/magic_mount.cpp:399-608 | without replacement marks and without directories over links the mounted tree always is the union view |
| MagicMount.OpaqueLeaks | src/mount/magic_mount.cpp:399-462 | a concrete tree: below a replaced directory a plain subdirectory still shows the stock entries of the same path |
| MagicMount.LinkLeaks | src/mount/magic_mount.cpp:399-462 | a concrete tree: below a directory laid over a link a subdirectory shows what stock has through the link |
| MagicMount.MergedWalkable | src/mount/magic_mount.cpp:154-215 | every tree the merge produces is one the mounting walk accepts |
| MountVisible.UnionShown | src/mount/magic_mount.cpp:154-215 | the union view of the merged layers shows at every path the first layer's entry, or stock where no layer has one and none cuts it off |
| MountVisible.StockShown | src/mount/magic_mount.cpp:320-374 | untouched stock is shown as it is: contents, link targets and the entries of directories |
| MountVisible.LayersMountExactly | src/mount/magic_mount.cpp:399-453 | the layers can be mounted if and only if each name they bring to the root fits: files over files, directories over directories, whiteouts of nothing, no links |
| MountVisible.ShownDecides | src/mount/magic_mount.cpp:154-215 | showing that at every path leaves only one tree |
| MountVisible.MountLayers | src/mount/magic_mount.cpp:399-608 | mounting the merged layers succeeds exactly when their root entries fit in place, and then shows at every path the first layer's entry or else stock, if and only if nothing leaks |
| KasumiRules.EffectiveLinear | src/mount/kasumi_rule_index.hpp:46-58 | the scan finds the longest matching rule, the latest among equals |
| KasumiRules.MatchesExactly | src/mount/kasumi_rule_index.hpp:11-17 | a path matches a prefix when it is the prefix or starts with it and a slash |
| KasumiRules.HasNestedLinear | src/mount/kasumi_rule_index.hpp:87-92 | the scan finds whether a rule lies strictly below the path |
| KasumiRules.UniqueProperties | src/mount/kasumi_rule_index.hpp:33-42 | sorting by path with later rules first and keeping the first of each run leaves the latest rule of every path, strictly ordered |
| KasumiRules.RuleIndex.Exact | src/mount/kasumi_rule_index.hpp:115-121 | binary search finds the latest rule with exactly this path |
| KasumiRules.RuleIndex.EffectiveRule | src/mount/kasumi_rule_index.hpp:46-75 | for every rule list and path, repeated and trailing slashes included, the indexed lookup is the linear one |
| KasumiRules.BelowBoundMeaning | src/mount/kasumi_rule_index.hpp:95-104 | the comparator compares with the path and a slash without building it |
| KasumiRules.RuleIndex.HasNestedRule | src/mount/kasumi_rule_index.hpp:87-107 | the indexed lookup finds a rule strictly below the path exactly when the scan does and the path is absolute or the list short; it differs only for relative paths of long lists that have one |
| KasumiRules.RelativePathsDiffer | src/mount/kasumi_rule_index.hpp:23-33 | a relative rule that the scan finds below a path and the indexed lookup does not |
| KasumiPlan.PrunedSubtree | src/mount/kasumi.cpp:227-276 | with no rule below a directory everything below it has the directory's rule |
| KasumiPlan.Batch.CompileEntry | src/mount/kasumi.cpp:197-317 | one entry: hide, skip, merge, add or refuse, with the code's branches |
| KasumiPlan.Batch.CompileItems | src/mount/kasumi.cpp:197-317 | a directory's entries in order; mappings appended, hides and their flags accumulated |
| KasumiPlan.TreePlanGives | src/mount/kasumi.cpp:197-276 | for any tree and any view of stock the pruned plan gives each ordinary entry (no special node, no link stock already has) the treatment looked for entry by entry, a hidden directory hiding all below it, and nothing else reaches it |
| KasumiPlan.OwnRuleExactly | src/mount/kasumi.cpp:220-226 | an ordinary entry gets the treatment, source and flag its own rule asks for if and only if no directory above it in the tree is hidden, or its own rule asks for what the first hidden one gives |
| KasumiMeaning.RulesDecide | src/mount/kasumi.cpp:217-310 | every file, link and whiteout of the tree, below no hidden directory, gets what the longest, latest matching rule asks: hidden, untouched or placed from its own source with the flag of rule or module; without a rule it is placed |
| KasumiMeaning.HiddenAbove | src/mount/kasumi.cpp:220-226 | below a hidden directory it is hidden with the flag of the first such directory |
| KasumiMeaning.MergeSupportedExactly | src/mount/kasumi.cpp:172-195 | a directory is merged as a whole if and only if nothing in it marks a replacement |
| KasumiMeaning.TreeRefusedExactly | src/mount/kasumi.cpp:197-317 | a tree is refused if and only if its root replaces or, in directories that are looked into, an entry to be placed is a marker, an unmergeable directory or a link over a stock directory |
| KasumiPlan.HideAllMeans | src/mount/kasumi.cpp:524-533 | a path is hidden when any rule hides it, with the bypass flag if any of them carries it |
| KasumiInstall.AddRuleHides | src/mount/kasumi.cpp:524-533 | every absolute hide rule of every module is added, whether or not its tree has the path |
| KasumiInstall.RuleHidesExactly | src/mount/kasumi.cpp:524-533 | a path is hidden by a rule of its own exactly when some module has an absolute hide rule for it, with the flag when such a rule or its module has it |
| KasumiInstall.CompileModules | src/mount/kasumi.cpp:535-553 | every partition of every module is compiled, the last module first, or the whole refused; later mappings never belong to a later module |
| KasumiInstall.Install | src/mount/kasumi.cpp:555-605 | whatever installs fail, each ADD left in force is in the evidence with its source and flags, every MERGE is, and nothing else is |
| KasumiInstall.LastAcceptedWins | src/mount/kasumi.cpp:535-537 | what is in force at a target is the last mapping accepted for it |
| KasumiInstall.SmallestIdWins | src/mount/kasumi.cpp:535-605 | of the modules whose mapping for a target was accepted the smallest id holds it, whatever fails |
| KasumiInstall.Apply | src/mount/kasumi.cpp:524-605 | from the modules to the table in force: with every install accepted the targets are those some module claims, each with a rule of the first such module; otherwise the smallest id among the accepted |
| KasumiMeaning.UnruledIsMapped | src/mount/kasumi.cpp:217-310 | a regular file no rule concerns is mapped to the module's own file, by a mapping of its own where stock has none of its directories |
| KasumiMeaning.UnruledIsClaimed | src/mount/kasumi.cpp:535-605 | once everything compiles its module claims it |
| JsonGrammar.PutSorted | src/core/json_value.cpp:129-162 | assigning a member keeps keys sorted and unique |
| JsonGrammar.PutLookup | src/core/json_value.cpp:129-162 | the last value of a repeated key is the one kept |
| JsonGrammar.SortedUnique | src/core/json_value.cpp:129-162 | sorted members are determined by what they look up |
| JsonCursor.Cursor.Peek | src/core/json_cursor.hpp:18-23 | skips exactly the blanks and shows the next character |
| JsonCursor.Cursor.ReadNumber | src/core/json_cursor.hpp:41-66 | takes the longest run a number may have and accepts it exactly when the conversion takes all of it |
| JsonCursor.Cursor.ReadString | src/core/json_cursor.hpp:67-146 | in-place decoding gives the reference decoding, terminated; nothing before the quote and nothing unread changes, and the validating form changes nothing |
| JsonCursor.Cursor.DecodeUnit | src/core/json_cursor.hpp:80-143 | one character or escape: what is written never passes what is read |
| JsonEscapes.UnitReads | src/core/json_cursor.hpp:134-139 | the bytes of a code unit read back as it by their lead byte and continuation bytes, in one, two or three bytes up to 0x7f, up to 0x7ff and above |
| JsonEscapes.UnicodeEscape | src/core/json_cursor.hpp:118-141 | a backslash, u and four hexadecimal digits of either case give the bytes of their number |
| JsonEscapes.ShortEscapeReads | src/core/json_cursor.hpp:97-117 | the eight short escapes and the codes they stand for |
| JsonEscapes.OtherEscapesRefused | src/core/json_cursor.hpp:96-144 | nothing else may follow a backslash |
| JsonEscapes.NestingLimit | src/core/flat_json.cpp:57-62 | 128 nested arrays are accepted and 129 are not |
| JsonCursor.Cursor.Skip | src/core/json_cursor.hpp:147-184 | skipping accepts exactly the values the reference parser accepts within the nesting limit, and stops where it stops |
| JsonLexical.CountTokens | src/core/flat_json.cpp:15-42 | the lexical loop counts brackets, strings and words |
| JsonLexical.StringEnds | src/core/flat_json.cpp:21-29 | the count leaves a string exactly where decoding does |
| JsonLexical.CountScalar | src/core/flat_json.cpp:30-41 | a scalar is one counted token up to a delimiter |
| JsonLexical.TokensAreFew | src/core/flat_json.cpp:43-47 | no accepted text has more tokens than half its bytes and one, so the node limit refuses none |
| JsonDocument.PrepareDocument | src/core/flat_json.cpp:8-55 | storage for any acceptable text of at most 1 MiB; only size refuses one |
| JsonTree.SortedIsPutAll | src/core/flat_json.cpp:107-118 | sorting edges by key and position and keeping the last of each run is assigning the members in order |
| JsonTree.ObjectHolds | src/core/flat_json.cpp:102-120 | a node linked to those edges denotes the object |
| JsonTree.ArrayHolds | src/core/flat_json.cpp:102-106 | a node linked to its children in order denotes the array |
| JsonDocument.Document.Deduplicate | src/core/flat_json.cpp:107-119 | edges of an object are left sorted, the last node of each key first |
| JsonDocument.Document.Link | src/core/flat_json.cpp:102-106 | following the sibling chain appends one edge for each child |
| JsonDocument.Document.ParseValueAt | src/core/flat_json.cpp:57-128 | a value into the next free nodes: accepted exactly when the reference parser accepts it within the limit; earlier nodes, edges and strings are untouched, and room for all unread tokens remains |
| JsonDocument.Document.Parse | src/core/flat_json.cpp:130-142 | the flat parser accepts exactly what the reference parser accepts below 128 levels, denotes the same value, and never fails for capacity |
| Escaping.WriteEscaped | src/core/bounded.hpp:118-168 | appends the escaped text in runs, in full exactly when it fits |
| JsonEscapes.EscapesExactly | src/core/bounded.hpp:118-168 | which characters are written with a short escape, which with four lower-case digits, and which as they are |
| Escaping.EscapeRoundTrip | src/core/bounded.hpp:118-168 | decoding an escaped string gives back any bytes, with or without all controls escaped |
| JsonNumber.PrintedParses | src/core/flat_json.cpp:161-163 | a printed number in a text is taken as one lexeme and gives the same bits |
| JsonNumber.TextExists | src/core/decimal.hpp:259-287 | every readable value has a printed text |
| JsonPrint.PrintParses | src/core/flat_json.cpp:182-206 | a print of any value at any indentation, up to a delimiter, parses to that value |
| JsonPrint.PrintsUnique | src/core/flat_json.cpp:182-206 | a value has one print at an indentation and depth |
| JsonRoundTrip.ParsedIsPrintable | src/core/flat_json.cpp:182-206 | what the parser returns has readable numbers, sorted members and no more levels than its text |
| JsonRoundTrip.PrintThenParse | src/core/flat_json.cpp:182-206 | any print of a parsed value parses to exactly that value, within the limit if the source was |
| JsonWrite.WriteValue | src/core/flat_json.cpp:182-206 | complete exactly when the value is within depth and indentation limits and the text fits; then the text is a print of the value the nodes denote |
| JsonWrite.WriteWhitespace | src/core/flat_json.cpp:148-158 | a line break and spaces in chunks of 32 |
| JsonWrite.AcceptedIsShallow | src/core/flat_json.cpp:231-233 | every accepted document is within the writer's depth limit, from depth 1 and with its members from depth 2 |
| JsonWrite.Find | src/core/flat_json.hpp:64-77 | binary search over the sorted edges finds what a search of all members would |
| JsonRewrite.Rewrite | src/core/flat_json.cpp:182-206 | any accepted document is written in full exactly when its one text fits, and that text is accepted and gives the same value |
| JsonRewrite.RewriteMember | src/core/flat_json.cpp:231-233 | the same for a member of an object written from depth 2 |
| JsonPrefix.NumberInside | src/core/json_cursor.hpp:41-66 | a number that something follows is not lengthened by what comes later |
| JsonPrefix.ValueLonger | src/core/json_value.cpp:91-189 | a value that something follows is read the same when more text comes |
| WireOutput.SocketOutput.Flush | src/core/socket_output.hpp:22-34 | partial and interrupted sends: everything buffered goes out in order, or a prefix of it |
| WireOutput.SocketOutput.Append | src/core/socket_output.hpp:35-50 | buffered bytes and sent bytes together are what was written |
| WireOutput.SocketOutput.AppendEscaped | src/core/socket_output.hpp:94-98 | escaping straight into the transport buffer writes the escaped text |
| WireOutput.SendArguments | src/core/daemon.cpp:95-112 | the request on the wire is the array of quoted arguments and a newline |
| WireOutput.Measure | src/core/socket_output.hpp:73-81 | adds up the escaped size, stopping above the limit |
| WireOutput.SendResponse | src/core/socket_output.hpp:59-99 | what is sent is the reply, or the notice when the reply would pass the limit, also on the path that does not count; never more than the limit, and only a prefix when the peer fails |
| WireInput.ReadMessage | src/core/socket_input.hpp:16-39 | a message within the limit that ends in its only newline arrives whole however it is cut; the buffer is never passed and longer input is refused |
| WireRequest.ReadRequest | src/core/wire_json.hpp:22-38 | decodes a request in place into terminated arguments; storage of a third of the bytes and one is never exceeded |
| WireRequest.RequestRoundTrip | src/core/wire_json.hpp:22-38 | any argument list is decoded to the same byte strings in order |
| WireRequest.RequestIsStringArray | src/core/wire_json.hpp:22-38 | a text is a request if and only if the reference parser sees an array of strings, and the same strings |
| WireNumbers.IntReads | src/core/wire_json.hpp:59-72 | every int that is printed comes back through the double conversion and the cast |
| WireNumbers.CodeExactly | src/core/wire_json.hpp:66-72 | the exit code is the whole part of the number towards zero, and only numbers in the range of int have one |
| WireResponse.ReadResponse | src/core/wire_json.hpp:39-80 | decodes a reply in place: accepted exactly when all three members are there in the end with the right types |
| WireRoundTrip.ResponseIsObject | src/core/wire_json.hpp:39-80 | an accepted reply is an object of the reference parser whose three members are what is returned |
| WireRoundTrip.ResponseRoundTrip | src/core/socket_output.hpp:59-99 | the client gets the code and both texts that were sent |
| WireRoundTrip.RequestArrives | src/core/daemon.cpp:95-112 | a request within the limit is one line and decodes to its arguments |
| WireRoundTrip.ReplyArrives | src/core/socket_output.hpp:59-99 | every reply is one line of at most 1 MiB with its only raw newline last, and decodes to the code and texts or to the notice |
| WireRoundTrip.NoticeIs | src/core/socket_output.hpp:83-92 | the notice byte for byte |
| WireExchange.CutRequest | src/core/wire_json.hpp:22-38 | a request cut off at any byte is refused or still decodes to all of its arguments |
| WireExchange.CutResponse | src/core/wire_json.hpp:39-80 | a reply cut off at any byte is refused or still decodes to all that was sent |
| WireExchange.SendRequest | src/core/daemon.cpp:95-112 | client to daemon, whatever sends and reads do: a decoded request has exactly the arguments sent; with working sockets it is decoded if and only if it keeps the limit |
| WireExchange.SendReply | src/core/socket_output.hpp:59-99 | daemon to client, whatever sends and reads do: a decoded reply has the code and both texts as given, or is the notice; with working sockets it is decoded |
| ModuleSnapshot.StepHolds | src/mount/module_runtime.cpp:722-830 | every step of an operation, and a death or reboot at any point, keeps a loss visible in the markers |
| ModuleSnapshot.DefiniteIsComplete | src/mount/module_runtime.cpp:1005-1032 | in every run a definite snapshot holds every update asked for since the last full inventory, and no published operation is unfinished or lost one |
| ModuleSnapshot.LossStays | src/mount/module_runtime.cpp:789-830 | a loss stays visible until a full inventory |
| ModuleSnapshot.MissedExactly | src/mount/module_runtime.cpp:722-830 | in every run something is missed if and only if some step loses it (an operation without the lock, or one whose marker was not written) and no later inventory or boot clears it |
| ModuleSnapshot.DefiniteMissesExactly | src/mount/module_runtime.cpp:1005-1032 | a definite snapshot holds every update taken on, and has missed something exactly in that case |
| ModuleSnapshot.StrayIsUnseen | src/mount/module_runtime.cpp:374-379 | an operation without the lock that dies before its mark leaves a definite snapshot definite |
| ModuleSnapshot.StrayMarkIsUnseen | src/mount/module_runtime.cpp:374-379 | a run in which an operation without the lock loses an update and an inventory in progress removes its mark |
| ModuleSnapshot.UnpublishedIsUnseen | src/mount/module_runtime.cpp:738-741 | a run in which an operation whose marker was not written loses an update unseen |
| ModuleSnapshot.RecordingIsDefinite | src/mount/module_runtime.cpp:722-830 | from files without markers an undisturbed operation with one update leaves a definite snapshot with that update last and the next generation |
| ModuleSnapshot.InventoryIsDefinite | src/mount/module_runtime.cpp:722-830 | whatever was left behind, an undisturbed full inventory leaves a definite snapshot of it with nothing missed |
| LogRotation.StepHolds | src/core/log.cpp:78-145 | every step of a writer, and a death or reboot at any point, keeps the rotation invariant, saves that take effect and still fail included |
| LogRotation.RotationIsSafe | src/core/log.cpp:95-145 | in every run each boot renames at most once, moves the very file recorded when its pending record was saved, and moves or overwrites no line of that boot |
| LogRotation.UndisturbedWrites | src/core/log.cpp:95-145 | from any state a run leaves behind, an undisturbed writer ends with its line last in the log and the log this boot found at the old name |
| RuntimeIndexes.MountIndex.Find | src/mount/module_runtime.cpp:62-70 | binary search returns the first mount with the id |
| RuntimeIndexes.ChainRepeats | src/mount/module_runtime.cpp:72-85 | whatever is on a parent chain is among its first members, cycles included |
| RuntimeIndexes.MountIndex.HasAncestor | src/mount/module_runtime.cpp:72-85 | terminates on any parent graph and is true exactly when the id is on the chain |
| RuntimeRecords.RuleIndex.Contains | src/mount/module_runtime.cpp:97-130 | true exactly when a live rule shows the recorded one, for flags 0 and 1, hiding with more flags included |
| RuntimeRecords.Database.Distribute | src/mount/module_runtime.cpp:143-175 | each record of the backend gets exactly the observations naming it, in order and once each; other records stay |
| RuntimeRecords.NamingExactly | src/mount/module_runtime.cpp:161-174 | a module's observations are those naming it, in order, also across a split of the list |
| SettingsMerge.MergedSorted | src/core/flat_json.hpp:156-201 | keys come out strictly increasing |
| SettingsMerge.MergedLookup | src/core/flat_json.hpp:156-201 | at every key edit over patch over original, a removed edit absent |
| SettingsInput.LoadObject | src/core/config.cpp:272-284 | a text is taken exactly when it is an object of at most 1 MiB within the nesting limit, and the nodes denote its members |
| SettingsWriter.ObjectWriter.Replace | src/core/flat_json.cpp:208-221 | the journal stays sorted with one edit per key; only a seventeenth key is refused |
| SettingsWriter.ObjectWriter.WriteEach | src/core/flat_json.hpp:156-201 | the one-pass merge writes a print of the merged object: complete exactly when the object is within the limits and the text fits |
| SettingsFeatures.ApplyConfig | src/core/config.cpp:222-252 | the six switches from the six keys by name, with their defaults; without a split key or version from the old flag |
| SettingsFeatures.SplitKeysExactly | src/core/config.cpp:226-229 | which documents count as split: one of the four keys, or a version from two up to the largest signed integer |
| SettingsFeatures.U32Exactly | src/core/flat_json.hpp:41-47 | the conversion takes the whole part of a number that is not negative and not above the 32-bit limit |
| SettingsFeatures.MergeConfigJson | src/core/config.cpp:460-526 | which patches are refused; otherwise the saved text, when it fits, is accepted again and its members are edit over patch over original for the migration's edits; the journal never fills |
| SettingsFeatures.MergeMeans | src/core/config.cpp:484-520 | the merge key by key, by name: the removed mode gone, reported values as stored, the patch over the document, and the six switches, version and old flag where the document gets its first split key |
| SettingsFeatures.SavedTextUnique | src/core/config.cpp:460-526 | the two documents fix the merge and its text, so whether it fits depends on nothing else |
| SettingsFeatures.MergeIsShallow | src/core/config.cpp:460-526 | the merge of two accepted documents is within the nesting limits of writer and parser |
| SettingsFeatures.SwitchesKept | src/core/config.cpp:484-505 | a patch with split switches or their version leaves every switch as it was in effect, overridden by the patch |
| SettingsFeatures.SwitchesKeptWhileSplit | src/core/config.cpp:484-505 | the same for any other patch while the merged document stays split |
| SettingsFeatures.SwitchesExactly | src/core/config.cpp:226-252 | for every document and every patch that sets switches to booleans: a switch is as it was in effect, overridden by the patch, if and only if the merge is split or the legacy flag does not get in the way |
| SettingsFeatures.SavedSwitches | src/core/config.cpp:460-527 | the same between the texts: current file, patch, and the saved file read again |
| SettingsFeatures.LoweredVersionTurnsOn | src/core/config.cpp:226-252 | a concrete document and patch: lowering the version turns on switches the patch does not name |
| SettingsFeatures.LegacyForcesOn | src/core/config.cpp:241-252 | a concrete document and patch: a switch the legacy flag forces on is not turned off |
| SettingsTable.TableRoundTrip | src/mount/module_settings.cpp:98-200 | the text written for any table is accepted and read back as that table, whatever bytes ids, paths and modes have |
| SettingsTable.EntriesAreTable | src/mount/module_settings.cpp:98-139 | whatever is read has its modules in strict key order, each with a rule |
| SettingsTable.RuleExactly | src/mount/module_settings.cpp:22-24 | a value is a rule exactly when it is an object with a path and a mode that are strings; its flag is on only for the truth value |
| SettingsStore.PrepareRules | src/mount/module_settings.cpp:98-139 | modules whose value is a list with valid rules, those rules in order, everything else skipped |
| SettingsStore.FindRules | src/mount/module_settings.cpp:141-150 | binary search gives the module's rules |
| SettingsStore.WriteRules | src/mount/module_settings.cpp:168-185 | one module's list as text: the first of the path replaced, or the rule appended, or the path removed; complete exactly when it fits |
| SettingsRules.EmittedIsPut | src/mount/module_settings.cpp:187-198 | one pass in key order replaces, inserts or drops the module's entry and keeps the others |
| SettingsStore.WriteUpdate | src/mount/module_settings.cpp:152-200 | writes the text of the whole table with one module updated, complete exactly when it fits |
| SettingsStore.UpdateModuleRule | src/mount/backend.cpp:329-340 | reads the file, updates and writes it: rewritten exactly when it is readable, there is something to do and the text fits |
| SettingsStore.StoredRules | src/mount/backend.cpp:329-340 | after any sequence of updates of any modules, each reading back the file, a module's rules are what its own updates make of those it had |
| SettingsStore.StoredRuleInForce | src/mount/backend.cpp:329-340 | in the file a rule just written is in force at its path if and only if the path was there at most once or ended in that rule; always when the file began with unique paths |
| SettingsRules.RewrittenTable | src/mount/module_settings.cpp:152-200 | the rewritten table holds the new rules and every other module's as before |
| SettingsRules.AddedInForce | src/mount/module_settings.cpp:172-185 | for every list: a rule added is in force at its path if and only if the path was there at most once or ended in that rule |
| SettingsRules.RepeatedPathFails | src/mount/module_settings.cpp:172-183 | a path that is there twice: what is added does not come into force |
| SettingsRules.AllUnique | src/mount/module_settings.cpp:152-186 | any sequence of updates keeps paths unique |
| SettingsRules.LastAddedInForce | src/mount/module_settings.cpp:152-186 | the same after any sequence of updates of any list; from unique paths the rule added last is always in force |
| SettingsRules.InForceElsewhere | src/mount/module_settings.cpp:152-186 | an update of any list changes nothing at paths its rule does not match |

## Left out

- DecimalScales.MakeScales: the table is made at run time here; that the original makes it during compilation is not modelled.
- JsonDocument.Document.Parse: error codes are reduced to invalid, too deep and no space; reuse of a document for a second text is not modelled.
- JsonDocument.Document.Deduplicate: the sort itself is a function; slots behind the kept edges hold other leftovers than in the original.
- SettingsFeatures.MergeConfigJson: the file lock, the atomic replacement of the file and the debug switch of the log are not modelled; a missing file is the default text given as the current one.
- SettingsStore.UpdateModuleRule: a failing replacement of the file leaves it as it was and is not modelled.
- SettingsFeatures.ApplyConfig: the other settings are read member by member like the switches. Writing the policy and the automatic loading switch use the same writer.
- The table of module modes, which is read and written like the rule table.
- KasumiPlan.Batch.CompileItems: paths are their own resolution, so symlink aliases are not followed; what is in the batch after a refusal is not used and not described.
- KasumiPlan.TreePlanGives: special nodes and links that stock already has are left apart, as the compiler leaves them; what the kernel does with a merged directory is assumed: it shows the directory's entries and hides where one is a whiteout.
- KasumiInstall.Install: evidence is a set, so its order is not modelled; the canonical path of each target is an input.
- WireOutput.SocketOutput.Send: a connection's peer is a list of outcomes; timeouts are failures.
- WireRequest.ReadRequest: the legacy request separated by tabs is encoded (WireOutput.SendArguments) but this version has no decoder for it.
- LayerMerge.CollectInto: read failures, and the `from` list of a node is bookkeeping of the model, the original keeps the first owner.
- MagicMount.DoMount: device nodes, sockets, nested stock mounts, labels, the rollback of a failed mount and the list of committed mount points.
- Moving partition directories of a module to the root of the tree before mounting.
- LogRotation.RotationIsSafe: a marker that is not readable, power loss (only the death of processes and orderly reboots), and partly written lines.
- ModuleSnapshot.DefiniteIsComplete: the content of the record beyond the list of updates, namespace checks, and failing removals of the lock; the invalid marker itself is assumed to be writable.
- RuntimeIndexes.MountIndex.HasAncestor: the mount asked about is one of the index, as at its only call.
- Reading mount tables, comparing live mounts with records, boot inventory and JSON reports.
- Memory allocation failures, move construction and ownership.
- Device and system calls, labels, extended attributes, processes and namespaces.
- The command line, human-readable output, the web interface, scripts and build files.
