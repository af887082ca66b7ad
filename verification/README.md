# Proofs about the editor back-ends

The back-ends in this repository answer an editor's questions about source files. Most of
their own code talks to the bus; what is modelled here are the algorithms they ship, each in
a directory of its own.

- `css/` turns a CSS stylesheet into a nested Sass one by a chain of passes over the tree:
  expand commas, nest selectors, use parent references, flatten, fold commas. A tree means a
  bag of facts "this declaration applies to this selector under these directives", and every
  pass is measured by what it does to that bag. A rule whose comma list names one selector
  twice makes two rules that share their declaration objects; when they meet again, `uniq!`
  takes one out. So the set of facts is kept for every stylesheet; for the bag the exact
  condition is on the lists of selectors in the CSS (BagKept.BagKeptOnCss). Document order
  is not part of the meaning: a directive between two rules that are merged stays where the
  first of them was. MergedForm and FoldGroups say, from the results alone, how far each pass
  goes: what is taken apart, which rules are merged, which are folded into which.
- `staleness/` decides whether a CSS file is older than what it was made from, by a
  search over the import graph, with a set of the uris being checked and two kinds of
  caches. Memoised is that search as a function of what is remembered, which the class in
  Checker computes. No stale file is ever missed. The caches are keyed by uri and importer,
  the active set by uri alone, so a chain of imports that meets one uri through two
  importers can be taken for a cycle, in this query or in a later one for an earlier css
  time; it is said exactly for which file systems this happens to first answers and to runs
  with rising css times. Search is the recursion without any memory, for comparison.
- `json/` is simplejson's decoder and encoder. JsonParse is a plain grammar of the
  language; JsonDecoder is the program's loops with their unrolled whitespace steps, and is
  shown to do the same on every text. JsonLayout says what all the ways of writing a value
  are (section 2 of RFC 8259) and that each of them is read as that value, JsonConverse
  that nothing else is accepted. JsonNumber is the grammar of numbers (section 6). JsonErrors
  says of every text that is refused what its error is worth: what the message asks for could
  stand at the reported place, and does not. JsonTables tells the tables of the codec by their
  characters, JsonForm how the encoder lays its text out. A character that a string holds as
  two surrogates comes back from the ASCII form as one; every other string comes back as it
  was. JsonGraph and JsonEncoder are about objects that may be shared or contain themselves.
- `acorn/` is acorn's expression parser by precedence climbing (sections 12.5 to 12.12 of
  ECMA-262, 6th edition, with the `**` of section 12.6 of the 7th) and the label stack of
  its statement parser (sections 13.8.1, 13.9.1 and 13.13). Grammar has the productions as
  they stand there, without precedences, and what is parsed is measured by them. Labels in
  front of one another are entries of one stack, and parsing the inner one changes the outer
  ones; Labels.StackAsFound says exactly when a statement leaves the stack alone.
- `sassutil/` holds Sass's longest common subsequence, the escaping of interpolated
  strings, and base64 VLQ ("Proposed Format" of the Source Map Revision 3 Proposal). The
  documentation has it that of several longest subsequences the one returned starts first
  in x. That is so for plain equality, and exactly for the blocks that match no two
  different elements with the same one (Lcs.StartsFirstIff); for the others the element it
  starts with can be exchanged for the earliest.
- `sassindent/` reads the indented syntax: lines to depths, depths to a forest. A comment
  takes deeper lines for its own (CommentTexts says which and what becomes of them); until
  some other line is indented, the lines of all comments must start with the indentation of
  the first comment's (DocumentLines.CommentsShare).
- `ordereddict/` is simplejson's OrderedDict: a ring of cells on the heap, an index into it
  and a dict, which refine a list of items.
- `registry/` is the D-Bus server's registry of apps and documents over whole runs. What is
  open, under which client path and with which data path, is a function of what the calls
  opened and closed (DocumentRegistry.ViewAfter). It normalises a path when a document is
  parsed and when it is disposed of, but an empty path only in the second case, so a
  document under the empty path cannot be disposed of by its client.
- `make/` finds the make targets that depend on a source file.

Where the program works by loops that update variables, the model has methods with the same
loops, each tied to a function or a condition by its `ensures`; the properties are then
proved about these. Objects whose fields the program updates are classes.

## Model

| member | source | states |
|---|---|---|
| `CssToSass.BuiltKeepsMeaning` | backends/css/gems/sass-3.4.9/lib/sass/css.rb:76-87 | For every plain CSS tree the chain of passes gives a tree that says of the same selectors, under the same directives, the same declarations, and says nothing more often than the CSS did |
| `BagKept.BagKeptOnCss` | backends/css/gems/sass-3.4.9/lib/sass/css.rb:76-87 | The chain keeps the bag of facts of a stylesheet if and only if no rule that says something lists a selector twice with nothing in the way between: up to the selector's last combinator that is what differs from it, behind it what differs from it in a simple selector |
| `BagKept.BagKeptIff` | backends/css/gems/sass-3.4.9/lib/sass/css.rb:76-87 | For any spelling: the bag is kept if and only if no rule lists a selector twice with nothing but its beginnings and continuations between, and no two places of one declaration come together in the list that parent_ref_rules is given; otherwise it loses one fact for each node that `uniq!` takes out |
| `ListedTwice.NestedSafeIff` | backends/css/gems/sass-3.4.9/lib/sass/css.rb:153-183 | nest_seqs drops nothing of a stylesheet exactly when no rule lists a selector like that, as `.a, .a .b, .a` does and `.a, .c, .a` does not |
| `ListedTwice.ListClash` | backends/css/gems/sass-3.4.9/lib/sass/css.rb:117-183 | Two places of one declaration come together in the expanded list of a rule, by one pass or by both, exactly when it lists a selector like that |
| `ListedTwice.ApartIff` | backends/css/gems/sass-3.4.9/lib/sass/css.rb:117-183 | The same for whole stylesheets, whose rules are expanded into one list |
| `DropCondition.DroppedNoneIff` | backends/css/gems/sass-3.4.9/lib/sass/css.rb:153-227 | Either pass drops nothing of a list exactly when nowhere in it two places of one declaration are reached by the same starts of selectors and all rules between begin with these starts or are a beginning of them |
| `DropCondition.StepAlike` | backends/css/gems/sass-3.4.9/lib/sass/css.rb:156-175 | Taking a rule to the current one brings no two places of a declaration together that would not have met, and keeps none apart, in whatever list this one lies |
| `DropCondition.LevelClash` | backends/css/gems/sass-3.4.9/lib/sass/css.rb:177-181 | After the loop a declaration meets itself only where it stands or inside one rule, which is what `uniq!` and the descent see |
| `NestedPlaces.MergedAlike` | backends/css/gems/sass-3.4.9/lib/sass/css.rb:153-183 | Where nest_seqs drops nothing, places come together in its tree, for both passes, as they did in the list it was given, although it moves rules over declarations and directives |
| `RefPlaces.SeenAlike` | backends/css/gems/sass-3.4.9/lib/sass/css.rb:200-227 | Simple selector by simple selector, the places in that tree come together as the items of parent_ref_rules, which passes over rules that start with a combinator |
| `BothPasses.ClashCases` | backends/css/gems/sass-3.4.9/lib/sass/css.rb:153-227 | Both passes bring two places together exactly when the second one does in the tree of the first, or within a rule that it passes over |
| `BothPasses.RefsSafeIff` | backends/css/gems/sass-3.4.9/lib/sass/css.rb:200-227 | parent_ref_rules drops nothing of such a tree, at any depth, exactly when its places are apart for both passes |
| `DottedExample.DottedLosesFact` | backends/css/gems/sass-3.4.9/lib/sass/css.rb:200-227 | `.a, .a.b, .a {p}` lists no selector twice in the way that nest_seqs minds and still loses a fact, among the parent references |
| `DottedExample.Combinators` | backends/css/gems/sass-3.4.9/lib/sass/css.rb:153-227 | `.a > .c` is not in the way of `.a .c`, and `.a.b` is in the way of `.a > .c` |
| `DropCount.MergedCount` | backends/css/gems/sass-3.4.9/lib/sass/css.rb:153-227 | Conservation in one pass: facts before = facts after + nodes that `uniq!` took out in it, at every depth |
| `CssToSass.BuiltKeepsBag` | backends/css/gems/sass-3.4.9/lib/sass/css.rb:76-87 | The bag of facts is kept whenever no declaration object stands twice under one selector |
| `CssToSass.DifferentSelectorsNoRepeats` | backends/css/gems/sass-3.4.9/lib/sass/css.rb:117-132 | That is so for every tree whose rules each list different selectors, which can be seen from the CSS |
| `CssToSass.RepeatedSelectorLosesFact` | backends/css/gems/sass-3.4.9/lib/sass/css.rb:177-181 | `.a, .a {p}`: the declaration applies twice before and once after, so the bag is not kept on all inputs |
| `CssPasses.BuildTree` | backends/css/gems/sass-3.4.9/lib/sass/css.rb:76-87 | The passes run one after the other as loops. The result has the meaning of the CSS, and its bag exactly when nothing is dropped. Its rules are those of the flattened tree, each taken into the rule before it exactly when they print alike, with all selectors in order; at no depth two rules in a row are left of which the second has nothing but declarations and prints like the first, and an only child that is a rule has several selectors |
| `FoldGroups.BuiltSettled` | backends/css/gems/sass-3.4.9/lib/sass/css.rb:76-87 | What BuildTree says of the form of its result, on trees |
| `CssPasses.ExpandCommas` | backends/css/gems/sass-3.4.9/lib/sass/css.rb:117-132 | The loop computes the expansion whose facts OtherPasses.ExpandedFacts relates to the tree |
| `OtherPasses.ExpandedFacts` | backends/css/gems/sass-3.4.9/lib/sass/css.rb:117-132 | expand_commas keeps the bag of facts of every tree |
| `CssPasses.NestSeqs` | backends/css/gems/sass-3.4.9/lib/sass/css.rb:153-183 | The loop over `current_rule` with `uniq!` and the descent computes MergePass.Merged for heads of sequences; at every depth of the result each rule has one selector of one member, and no two rules in a row, whatever stands between them, have members that Sass takes for equal |
| `CssPasses.ParentRefRules` | backends/css/gems/sass-3.4.9/lib/sass/css.rb:200-227 | The same for first simple selectors and `&`, skipping rules that start with a combinator: what is left has one simple selector, behind an `&` or not, and no two in a row are the same |
| `MergedForm.MergedFully` | backends/css/gems/sass-3.4.9/lib/sass/css.rb:153-227 | Both passes go on until, at every depth, there is no selector left to take apart and no two rules in a row to merge |
| `MergePass.MergedFacts` | backends/css/gems/sass-3.4.9/lib/sass/css.rb:153-227 | Both merging passes keep the set of facts and thin the bag at most |
| `MergePass.MergedExact` | backends/css/gems/sass-3.4.9/lib/sass/css.rb:153-227 | Without repeated declarations both keep the bag |
| `MergePass.NestedReadyForRefs` | backends/css/gems/sass-3.4.9/lib/sass/css.rb:153-227 | What nest_seqs returns is what parent_ref_rules expects: rules of a single member each |
| `OtherPasses.MergedRefsResolve` | backends/css/gems/sass-3.4.9/lib/sass/css.rb:200-289 | What parent_ref_rules returns has an `&` only where the rule above ends in a compound that it can continue |
| `CssPasses.FlattenRules` | backends/css/gems/sass-3.4.9/lib/sass/css.rb:260-269 | The loop computes the tree of OtherPasses.FlattenedFacts |
| `CssPasses.FlattenRule` | backends/css/gems/sass-3.4.9/lib/sass/css.rb:275-289 | The while loop that takes in only children computes the same rule as taking them in one at a time from the top |
| `OtherPasses.FlattenedFacts` | backends/css/gems/sass-3.4.9/lib/sass/css.rb:260-289 | flatten_rules keeps the bag of facts |
| `FoldGroups.FlattenedNoOnlyRules` | backends/css/gems/sass-3.4.9/lib/sass/css.rb:260-289 | flatten_rules leaves no rule, at any depth, whose only child is a rule |
| `CssPasses.FoldCommas` | backends/css/gems/sass-3.4.9/lib/sass/css.rb:319-337 | The loop over `prev_rule` groups the rules of a list: a rule is taken in exactly when its children print like those of the rule before it in the result, the selectors under each rule are those of the rules taken in, all of them in their order, and everything else stays in its place |
| `FoldGroups.FoldedGroups` | backends/css/gems/sass-3.4.9/lib/sass/css.rb:319-337 | The same of the function, told from the list and the result alone |
| `FoldGroups.FoldedSettled` | backends/css/gems/sass-3.4.9/lib/sass/css.rb:319-337 | Folding leaves, at every depth, no two rules in a row of which the second has only declarations and prints like the first |
| `FoldGroups.FoldedOnlyRules` | backends/css/gems/sass-3.4.9/lib/sass/css.rb:319-337 | Where no rule had a rule for its only child, one that has it after folding has it with several selectors |
| `OtherPasses.FoldedFacts` | backends/css/gems/sass-3.4.9/lib/sass/css.rb:319-337 | fold_commas keeps the bag of facts, declarations being told apart by what they print |
| `Selectors.ResolveJoin` | backends/css/gems/sass-3.4.9/lib/sass/selector/sequence.rb:52-75 | Resolving a joined selector is resolving the child inside the rule, for `&` and for descendants |
| `Selectors.ResolveSplit` | backends/css/gems/sass-3.4.9/lib/sass/selector/sequence.rb:52-75 | Splitting a selector after its head and nesting the rest selects the same |
| `Selectors.SameIff` | backends/css/gems/sass-3.4.9/lib/sass/selector/simple_sequence.rb:334-342 | Compounds that Sass takes for equal have the same simple selectors in any order and number, the same leading element, and the same pseudo-elements in the same order; and all such compounds are |
| `Selectors.ResolveSameHead` | backends/css/gems/sass-3.4.9/lib/sass/selector/simple_sequence.rb:334-342 | Heads that Sass takes for equal select the same inside every parent |
| `Selectors.ResolveInjective` | backends/css/gems/sass-3.4.9/lib/sass/selector/sequence.rb:52-75 | Different selectors without `&` stay different inside one parent |
| `ImportGraph.StaleUnfold` | backends/css/gems/sass-3.4.9/lib/sass/plugin/staleness_checker.rb:116-170 | "Reaches a missing, newer or unparsable file, or a cycle" is what one step of the recursion says: bad itself, or importing something stale |
| `ImportGraph.StaleMonotone` | backends/css/gems/sass-3.4.9/lib/sass/plugin/staleness_checker.rb:118-124 | What is stale against a time is stale against every earlier time, which is why an answer for one time serves another |
| `Memoised.AskRight` | backends/css/gems/sass-3.4.9/lib/sass/plugin/staleness_checker.rb:116-170 | A query, whatever is remembered, misses nothing stale, and has an excuse for every needless yes: a chain from the file asked for meets one uri twice, or one from a file asked for before for a later css time does; what it leaves remembered is as right as what it found |
| `Memoised.TwinIsMet` | backends/css/gems/sass-3.4.9/lib/sass/plugin/staleness_checker.rb:158-170 | A file from which a chain leads to another file of its own uri is active all the while, so a first answer is yes |
| `Memoised.FirstAnswersExact` | backends/css/gems/sass-3.4.9/lib/sass/plugin/staleness_checker.rb:116-170 | For a css time, first answers are right for every file if and only if no file that is not stale leads to another file of its own uri |
| `Memoised.FirstAnswerRight` | backends/css/gems/sass-3.4.9/lib/sass/plugin/staleness_checker.rb:116-170 | A first answer misses nothing, and a needless yes means that one uri is met twice |
| `Memoised.AskAllRight` | backends/css/gems/sass-3.4.9/lib/sass/plugin/staleness_checker.rb:116-170 | The same for any queries one after the other |
| `Memoised.RisingRunsExact` | backends/css/gems/sass-3.4.9/lib/sass/plugin/staleness_checker.rb:116-170 | All runs of queries with rising css times are answered rightly if and only if a file leads to another file of its uri only when it is stale for all css times |
| `TwinExamples.MemoryHelps` | backends/css/gems/sass-3.4.9/lib/sass/plugin/staleness_checker.rb:116-125 | The answers remembered within one query matter: a search that remembers nothing takes two files of one uri for a cycle where the checker answers rightly |
| `TwinExamples.EarlierQueryMisleads` | backends/css/gems/sass-3.4.9/lib/sass/plugin/staleness_checker.rb:117-124 | Asked for one file, the checker remembers a needless yes, and gives it for another file and an earlier css time, where a new checker says no |
| `Checker.TwoImportersMislead` | backends/css/gems/sass-3.4.9/lib/sass/plugin/staleness_checker.rb:158-170 | A new checker says yes of a file that is not stale: the active set holds uris, the caches uri and importer |
| `Checker.EarlierQueryMisled` | backends/css/gems/sass-3.4.9/lib/sass/plugin/staleness_checker.rb:116-170 | The run of two queries on one checker, the second of which is answered wrongly |
| `Checker.FirstAsked` | backends/css/gems/sass-3.4.9/lib/sass/plugin/staleness_checker.rb:43-53 | A new checker gives the first answer of Memoised.FirstAnswersExact |
| `ImportGraph.ActiveAgainIsCycle` | backends/css/gems/sass-3.4.9/lib/sass/plugin/staleness_checker.rb:158-170 | Where uris tell files apart, meeting an active one again is an import cycle |
| `Checker.RememberedIsCurrent` | backends/css/gems/sass-3.4.9/lib/sass/plugin/staleness_checker.rb:144-156 | Over edits that only raise mtimes, an entry of the long-lived cache that is not older than the file holds the file's imports |
| `Checker.StalenessChecker.Mtime` | backends/css/gems/sass-3.4.9/lib/sass/plugin/staleness_checker.rb:131-142 | The memoised mtime is the file's; a missing file leaves the long-lived cache, which is otherwise untouched |
| `Checker.StalenessChecker.Dependencies` | backends/css/gems/sass-3.4.9/lib/sass/plugin/staleness_checker.rb:144-156 | The answer comes from the cache exactly when its time is not older, and it is the file's current list of imports |
| `Checker.StalenessChecker.DependencyUpdated` | backends/css/gems/sass-3.4.9/lib/sass/plugin/staleness_checker.rb:158-170 | Answer and memory are those of Memoised.Ask for any memory; no stale file is missed, every needless yes has its excuse, and the active set is left as it was |
| `Checker.StalenessChecker.DependenciesStale` | backends/css/gems/sass-3.4.9/lib/sass/plugin/staleness_checker.rb:116-129 | The same for the imports of a file, cached answers included |
| `Checker.StalenessChecker.CachedAnswer` | backends/css/gems/sass-3.4.9/lib/sass/plugin/staleness_checker.rb:117-124 | The first timestamp that decides; a no taken from it is right for this time, and a yes unless a file asked for with a later css time met one uri twice |
| `Checker.StalenessChecker.StoreAnswer` | backends/css/gems/sass-3.4.9/lib/sass/plugin/staleness_checker.rb:125 | The new answer joins the earlier ones under its time, where an old time keeps its place |
| `Checker.StalenessChecker.StylesheetModifiedSince` | backends/css/gems/sass-3.4.9/lib/sass/plugin/staleness_checker.rb:79-82 | Any query after any others: answer and memory decided, no stale file missed, every needless yes excused, and a first answer surely yes of a file that leads to another one of its uri |
| `Checker.StalenessChecker.StylesheetNeedsUpdate` | backends/css/gems/sass-3.4.9/lib/sass/plugin/staleness_checker.rb:62-70 | The same for a CSS file; one that does not exist needs an update |
| `Checker.RunSessions` | backends/css/gems/sass-3.4.9/lib/sass/plugin/staleness_checker.rb:43-60 | Any number of checkers one after the other, each asked any queries, over file systems whose mtimes only rise: every answer is that of the search with its memory, misses nothing, and is exact where no uri is met twice from the files asked for |
| `JsonDecoder.PyScanString` | backends/json/deps/simplejson/decoder.py:49-133 | On every text and start the chunk loop gives what reading character by character gives, error positions included |
| `JsonDecoder.PyEscape` | backends/json/deps/simplejson/decoder.py:84-127 | One escape: short, `\u`, or a pair of surrogates that are joined, as in JsonParse.Escape |
| `JsonDecoder.JSONArray` | backends/json/deps/simplejson/decoder.py:236-270 | The unrolled whitespace steps agree with skipping all whitespace, for every text |
| `JsonDecoder.JSONElements` | backends/json/deps/simplejson/decoder.py:247-270 | The loop over elements does, too |
| `JsonDecoder.JSONObject` | backends/json/deps/simplejson/decoder.py:142-234 | The same for objects, with every error and its position |
| `JsonDecoder.JSONMembers` | backends/json/deps/simplejson/decoder.py:190-227 | The loop over members does, too |
| `JsonDecoder.ScanOnce` | backends/json/deps/simplejson/scanner.py:79-115 | The dispatch on the first character gives the value that the grammar gives there |
| `JsonDecoder.RawDecode` | backends/json/deps/simplejson/decoder.py:376-389 | Skips whitespace and reads one value |
| `JsonDecoder.DecodeText` | backends/json/deps/simplejson/decoder.py:363-374 | The whole decoder is the simple form on every text: same value, same error, same position. It gives a value exactly when the text is one written down, and otherwise its error is true |
| `JsonErrors.DecodeErrorTrue` | backends/json/deps/simplejson/decoder.py:49-374 | Every error is true: what the message asks for does not stand at its position, and with any of it standing there the text up to the position can be completed to a document; an error outside of a string is not at whitespace, and the index for a control character is the one behind it |
| `JsonErrors.DecodeCompletes` | backends/json/deps/simplejson/decoder.py:49-374 | The completion: for each thing that the message asks for, a text that goes on behind it to the end of a document |
| `JsonLayout.LayoutParses` | backends/json/deps/simplejson/decoder.py:142-270 | Any way of writing a value, with any whitespace between its tokens and any spelling of its strings, is read as that value up to its end |
| `JsonLayout.DocumentDecodes` | backends/json/deps/simplejson/decoder.py:363-389 | Such a text with any whitespace around it decodes to the value and is consumed to the end |
| `JsonConverse.DecodedWritten` | backends/json/deps/simplejson/decoder.py:363-389 | The decoder accepts nothing else: every text that it decodes is such a way of writing the value it gives, with whitespace around it |
| `JsonConverse.DecodesIff` | backends/json/deps/simplejson/decoder.py:363-389 | A text decodes, strict or not, exactly when it is a value written in one of these ways with whitespace around it, and then to this value, which is the same for all ways to take the text apart |
| `JsonConverse.ValueWritten` | backends/json/deps/simplejson/scanner.py:79-115 | What is read at any place, up to where it ends, is the value written in one of these ways |
| `JsonLayout.ScanUnits` | backends/json/deps/simplejson/decoder.py:49-133 | Any spelling of characters, literal or escaped, is read back as the characters |
| `JsonLayout.NumberThere` | backends/json/deps/simplejson/scanner.py:14-16 | A number is read as far as it goes and no further |
| `JsonNumber.NumberIs` | backends/json/deps/simplejson/scanner.py:14-16 | What is read at a place is the longest piece there that is a sign, digits, a fraction and an exponent, each as section 6 of RFC 8259 has it; nothing is read exactly when there is no such piece; it is an integer exactly when there is no fraction and no exponent, with its decimal value |
| `JsonNumber.NumberOkIff` | backends/json/deps/simplejson/scanner.py:14-16 | The texts that are numbers are exactly those of that grammar |
| `JsonEncode.CharUnitOk` | backends/json/deps/simplejson/encoder.py:41-82 | Each character, surrogates included, is written as a spelling that means it, in all encoders |
| `JsonEncode.ShortestSpelling` | backends/json/deps/simplejson/encoder.py:15-82 | No spelling of a character in the allowed characters is shorter than the one written, and none other is as short but for capitals as hexadecimal digits |
| `JsonEncode.StringRoundTrip` | backends/json/deps/simplejson/encoder.py:41-82 | py_scanstring gives back every string from what the encoders write, but for characters that the string holds as two surrogates, which come back joined from the ASCII form; so it is the same string exactly when there are none or the form is not ASCII |
| `JsonEncode.EncodedStringChars` | backends/json/deps/simplejson/encoder.py:345-369 | The ASCII form has characters from 0x20 to 0x7e only, the other one no control characters and no U+2028 or U+2029, the HTML form no `&`, `<` or `>` |
| `JsonText.Hex4RoundTrip` | backends/json/deps/simplejson/encoder.py:72-79 | Four hexadecimal digits are read back as the number |
| `JsonText.DictOfDistinct` | backends/json/deps/simplejson/decoder.py:228-234 | Pairs with distinct keys make the dict that lists them in order |
| `JsonTables.DictOfPairs` | backends/json/deps/simplejson/decoder.py:228-234 | The dict made of any pairs has each key once, keys in the order in which they came first, values as they came last |
| `JsonTables.UnescapedIff` | backends/json/deps/simplejson/decoder.py:42-45 | The short escapes are those of quotation mark, backslash, slash, `b`, `f`, `n`, `r` and `t`, each for its character |
| `JsonTables.Hex4ValueIff` | backends/json/deps/simplejson/decoder.py:101-111 | Four characters are a number exactly when they are its four hexadecimal digits, capital or not |
| `JsonTables.JoinInOrder` | backends/json/deps/simplejson/decoder.py:113-127 | Pairs of surrogates in their order are the code points outside the first plane in theirs |
| `JsonTables.JoinOnto` | backends/json/deps/simplejson/decoder.py:113-127 | And every code point outside the first plane is such a pair |
| `JsonTables.Words` | backends/json/deps/simplejson/scanner.py:87-113 | The words, signs, digits and whitespace of the language are these characters |
| `JsonRoundTrip.EncodeDecode` | backends/json/deps/simplejson/encoder.py:395-628 | Decoding what was encoded gives the value back, at any whitespace indentation or none |
| `JsonForm.EncodedForm` | backends/json/deps/simplejson/encoder.py:395-628 | The text of a value is laid out: every part on a line of its own one level deeper, closing brackets as deep as the line they close, separators as given, strings as brief as can be |
| `JsonForm.IndentationGrows` | backends/json/deps/simplejson/encoder.py:405-409 | A line is indented by one indent more for each level, and there are no lines without an indent |
| `JsonForm.IntSpelling` | backends/json/deps/simplejson/encoder.py:577-596 | A whole number has one spelling but for `-0`, which is not written |
| `JsonGraph.NoTreeIffCycle` | backends/json/deps/simplejson/encoder.py:397-402 | An object graph has no tree exactly when a cycle can be reached, never for sharing alone |
| `JsonEncoder.Encoder.Iterencode` | backends/json/deps/simplejson/encoder.py:577-628 | From any set of markers: the text of the object's tree, or the circular reference, and the markers as before on success |
| `JsonEncoder.Encoder.IterencodeList` | backends/json/deps/simplejson/encoder.py:395-462 | The same for a list, with its marker put in and taken out |
| `JsonEncoder.Encoder.IterencodeDict` | backends/json/deps/simplejson/encoder.py:487-575 | The same for a dict |
| `JsonEncoder.EncodeObject` | backends/json/deps/simplejson/encoder.py:395-628 | On every finite object graph encoding ends: with a circular reference exactly when a cycle can be reached, otherwise with a text that decodes to the graph's tree and is laid out as JsonForm.EncodedForm says |
| `ExprSyntax.OpsSound` | backends/js/deps/acorn.js:149-187 | What is parsed yields the tokens in order, is grouped as precedence asks, and nothing behind it could have been taken in |
| `Grammar.WellFormedIff` | backends/js/deps/acorn.js:3254-3317 | Grouped as the precedences of the token types ask means: a tree that the productions of ECMA-262 give, from primary up to logical or, with `in` or without |
| `Grammar.ParsedByGrammar` | backends/js/deps/acorn.js:149-187 | What is parsed is a logical-or expression of that grammar which yields the tokens in front of what is left, and what is left does not go on with it |
| `ExprSyntax.OpSound` | backends/js/deps/acorn.js:163-187 | The same for the climb from a left operand |
| `Climbing.Climb` | backends/js/deps/acorn.js:163-187 | Climbing through the tokens of a tree arrives at that tree as the left operand |
| `Climbing.ParseYield` | backends/js/deps/acorn.js:149-219 | The tokens of every logical-or expression of the grammar parse to it, whatever ends it |
| `Climbing.OneTree` | backends/js/deps/acorn.js:3254-3317 | A token list is the yield of one logical-or expression of the grammar at most |
| `Climbing.FailsRightly` | backends/js/deps/acorn.js:149-219 | The parser fails only where no prefix is a logical-or expression of the grammar followed by something that ends it |
| `Climbing.ParenthesizeWellFormed` | backends/js/deps/acorn.js:343-409 | A tree with the parentheses its grouping needs is one the grammar gives |
| `Climbing.PrintParse` | backends/js/deps/acorn.js:149-409 | Printing a tree and parsing it gives the tree |
| `Climbing.FewestParens` | backends/js/deps/acorn.js:343-409 | No well-formed way to write the tree has fewer parentheses |
| `ExprParser.Parser.ParseExprOps` | backends/js/deps/acorn.js:149-157 | The parser that advances its position does what the functions on token lists do, and its tree is one of the grammar |
| `ExprParser.Parser.ParseExprOp` | backends/js/deps/acorn.js:163-187 | The same for the climb, with or without preserveParens |
| `ExprParser.Parser.ParseMaybeUnary` | backends/js/deps/acorn.js:190-219 | The same for prefix operators and `**` |
| `ExprParser.Parser.ParseExprAtom` | backends/js/deps/acorn.js:268-285 | The same for names and parentheses |
| `ExprParser.Parser.ParseParenAndDistinguishExpression` | backends/js/deps/acorn.js:350-409 | Inside parentheses `in` is allowed again; preserveParens keeps the node |
| `Labels.ParseProgram` | backends/js/deps/acorn.js:1645-1662 | A program is accepted for its breaks, continues and labels exactly when they are legal |
| `Labels.LabelChecker.ParseStatement` | backends/js/deps/acorn.js:1786-1895 | One statement, inside any frames and behind any labels: accepted exactly when legal, and the stack is then that of the frames |
| `Labels.LabelChecker.ParseStatements` | backends/js/deps/acorn.js:1985-2002 | A list of statements leaves the stack as it was |
| `Labels.LabelChecker.ParseLabeledStatement` | backends/js/deps/acorn.js:1957-1973 | A label is refused exactly when it is used around it; chained labels all get the statement behind the last |
| `Labels.LabelChecker.MoveStarts` | backends/js/deps/acorn.js:1961-1967 | The second loop moves the labels in front of this statement, and no others |
| `Labels.LabelChecker.IsDeclared` | backends/js/deps/acorn.js:1958-1960 | The first loop finds the name exactly when it is on the stack |
| `Labels.LabelChecker.ParseBreakContinueStatement` | backends/js/deps/acorn.js:1759-1777 | The loop over the stack finds a destination exactly when there is one |
| `Labels.LabelChecker.ParseFunctionBodies` | backends/js/deps/acorn.js:596-611 | Function bodies neither see nor leave labels |
| `Labels.JumpLegal` | backends/js/deps/acorn.js:1767-1775 | The stack has a destination exactly when the language allows the jump |
| `Labels.StackAsFound` | backends/js/deps/acorn.js:1957-1973 | A statement leaves the stack as it found it exactly when it is not a label behind other labels |
| `Lcs.LongestCommon` | backends/css/gems/sass-3.4.9/lib/sass/util.rb:283-288 | The values of an alignment of x and y that no alignment exceeds, for any block; no other as long starts in front of every element that could start this one, and when no two elements match the same one it starts first in x |
| `Lcs.LcsTable` | backends/css/gems/sass-3.4.9/lib/sass/util.rb:1337-1354 | The table holds the lengths of the longest alignments of all prefixes |
| `Lcs.LcsBacktrace` | backends/css/gems/sass-3.4.9/lib/sass/util.rb:1359-1368 | The way back through the table collects the values of a longest alignment |
| `Lcs.TraceLongest` | backends/css/gems/sass-3.4.9/lib/sass/util.rb:1359-1368 | The way back is a longest alignment for any block |
| `Lcs.TraceStartsFirst` | backends/css/gems/sass-3.4.9/lib/sass/util.rb:272-288 | Up to the start of any longest alignment there is an element of x that could start this one |
| `Lcs.StartsFirstIff` | backends/css/gems/sass-3.4.9/lib/sass/util.rb:272-288 | The result starts with the element that comes first in x of all longest ones, whatever x and y are, if and only if the block matches no two different elements with the same one |
| `Lcs.OtherBlockStartsLater` | backends/css/gems/sass-3.4.9/lib/sass/util.rb:272-288 | A block with which it does not: a longest alignment starts earlier in x than the one returned |
| `Lcs.LcsPlain` | backends/css/gems/sass-3.4.9/lib/sass/util.rb:283-288 | With plain equality the result is a longest common subsequence of the elements that are not nil or false, begins with the element that comes first in x, and subsequence? finds it in both |
| `Lcs.LongestAlignmentSubsequence` | backends/css/gems/sass-3.4.9/lib/sass/util.rb:283-288 | A longest alignment is a longest common subsequence |
| `Lcs.Subsequence` | backends/css/gems/sass-3.4.9/lib/sass/util.rb:394-402 | The greedy search says yes exactly when an embedding exists |
| `Vlq.EncodeVlq` | backends/css/gems/sass-3.4.9/lib/sass/util.rb:1149-1184 | The loop writes the number, with its sign as the lowest bit, in base 32, the lowest digit first and no zero in the end, each digit as a character of the base64 alphabet, from its upper half where more follow |
| `Vlq.ReadAllOf` | backends/css/gems/sass-3.4.9/lib/sass/util.rb:1167-1184 | Encodings put together without separators are read as the numbers written, for all integers |
| `Vlq.ReadDigitsOf` | backends/css/gems/sass-3.4.9/lib/sass/util.rb:1167-1184 | An encoding says where it ends |
| `Vlq.OnlyEncoding` | backends/css/gems/sass-3.4.9/lib/sass/util.rb:1167-1184 | A text that reads as one number is its encoding exactly when its last digit is not an idle zero |
| `ExtractInject.ExtractValues` | backends/css/gems/sass-3.4.9/lib/sass/util.rb:1052-1060 | The loop writes the escape sequences and collects the values |
| `ExtractInject.InjectValues` | backends/css/gems/sass-3.4.9/lib/sass/util.rb:1068-1076 | The result is tidy and says what the matches of the scan say, for any string |
| `ExtractInject.MergeAdjacentStrings` | backends/css/gems/sass-3.4.9/lib/sass/util.rb:149-164 | No two strings are neighbours, and the array says the same |
| `ExtractInject.ScanCode` | backends/css/gems/sass-3.4.9/lib/sass/util.rb:1068-1076 | Scanning the escape sequences of any characters and values finds these characters and values |
| `ExtractInject.ExtractAndInject` | backends/css/gems/sass-3.4.9/lib/sass/util.rb:1052-1076 | Injecting undoes extracting: the tidy array that says the same, for any strings; only an array without values comes back as one string, even an empty one |
| `ExtractInject.TidyUnique` | backends/css/gems/sass-3.4.9/lib/sass/util.rb:1068-1076 | There is only one tidy array that says the same |
| `DocumentLines.Tabulate` | backends/css/gems/sass-3.4.9/lib/sass/engine.rb:426-500 | Accepts exactly the documents whose comments hang together and whose other lines are indented by multiples of the first indentation, with depth and text of each line; otherwise the error is at the first line at fault. Without comments the lines are those that are not blank |
| `DocumentLines.ReadNoComments` | backends/css/gems/sass-3.4.9/lib/sass/engine.rb:426-479 | A document without comments is read as its lines that are not blank |
| `DocumentLines.CommentsShare` | backends/css/gems/sass-3.4.9/lib/sass/engine.rb:437-458 | A document in which only lines of comments are indented is accepted exactly when every indented line starts with the indentation of the first one, whichever comment it is of |
| `DocumentLines.FirstCommentStays` | backends/css/gems/sass-3.4.9/lib/sass/engine.rb:437-458 | Two comments of two lines each, which are fine alone: together they are accepted exactly when the second one's line starts with the indentation of the first one's |
| `DocumentLines.TwoComments` | backends/css/gems/sass-3.4.9/lib/sass/engine.rb:437-458 | Two comments, each of them fine alone, that are refused one after the other |
| `CommentTexts.GoodParts` | backends/css/gems/sass-3.4.9/lib/sass/engine.rb:426-500 | In an accepted document every line that is not blank stands for itself, with its own text, or is in the comment of the last line that does, exactly when it is indented deeper than this comment; the text of a comment is its line and all lines below it as they are, blank ones empty, each behind a line break |
| `IndentedLines.WellIndentedPrefix` | backends/css/gems/sass-3.4.9/lib/sass/engine.rb:426-479 | What is well indented is so as far as it goes, so the first fault is well defined |
| `LineTree.Tree` | backends/css/gems/sass-3.4.9/lib/sass/engine.rb:502-520 | From any line: the forest of what stands below it, or the first line that is more than one level deeper than the one before it |
| `LineTree.WholeTree` | backends/css/gems/sass-3.4.9/lib/sass/engine.rb:502-520 | A list becomes a forest exactly when no line goes down more than one level, the forest's preorder is the list, and no other forest has it |
| `LineTree.FlatInjective` | backends/css/gems/sass-3.4.9/lib/sass/engine.rb:502-520 | A list with depths outlines one forest only |
| `LineTree.FlatSteps` | backends/css/gems/sass-3.4.9/lib/sass/engine.rb:502-520 | Only lists that go down one level at a time outline a forest |
| `LineTree.PrintAndRead` | backends/css/gems/sass-3.4.9/lib/sass/engine.rb:426-520 | Printing an outline with a unit of spaces or of tabs and reading it gives the outline |
| `OrderedDict.OrderedDict.SetItem` | backends/json/deps/simplejson/ordered_dict.py:36-41 | The ring, the index and the dict together go on as a list of items in which a new key comes last and an old one keeps its place |
| `OrderedDict.OrderedDict.DelItem` | backends/json/deps/simplejson/ordered_dict.py:43-47 | The item goes and the others keep their order; a missing key is an error and changes nothing |
| `OrderedDict.OrderedDict.Link` | backends/json/deps/simplejson/ordered_dict.py:38-40 | The four assignments put the cell between the last one and the end of the ring |
| `OrderedDict.OrderedDict.Unlink` | backends/json/deps/simplejson/ordered_dict.py:45-47 | The neighbours of the removed cell become neighbours, and the rest of the ring is as it was |
| `OrderedDict.OrderedDict.Clear` | backends/json/deps/simplejson/ordered_dict.py:30-33 | A new ring of the end alone |
| `OrderedDict.OrderedDict.Iter` | backends/json/deps/simplejson/ordered_dict.py:49-54 | Walking forward meets the keys in order |
| `OrderedDict.OrderedDict.Reversed` | backends/json/deps/simplejson/ordered_dict.py:56-61 | Walking back meets them in exactly the reverse order |
| `OrderedDict.OrderedDict.PopItem` | backends/json/deps/simplejson/ordered_dict.py:63-73 | The last item or the first, which is then gone; an empty dict is an error |
| `OrderedDict.OrderedDict.Eq` | backends/json/deps/simplejson/ordered_dict.py:112-116 | Two ordered dicts are equal exactly when they have the same items in the same order |
| `OrderedDict.OrderedDict.EqDict` | backends/json/deps/simplejson/ordered_dict.py:112-116 | And equal to a plain dict exactly when the items are those of the dict, in whatever order |
| `OrderedDict.RunOperations` | backends/json/deps/simplejson/ordered_dict.py:30-73 | Any run of operations on a new dict does what it does to the list of items |
| `OrderedItems.RunInOrder` | backends/json/deps/simplejson/ordered_dict.py:30-73 | After any run the keys stand in the order in which they came in, each with its last value; a new value moves nothing |
| `DocumentRegistry.Server.Parse` | backends/pycommon/gnome/codeassistance/transport_dbus.py:251-257 | The client's document has its object, the old one or a new one that was never used, and its data path is the one given, or the path where that is empty; it keeps the client path it was made with, and all else is as before |
| `DocumentRegistry.Server.ParseAll` | backends/pycommon/gnome/codeassistance/transport_dbus.py:276-285 | The same for a project's document and all open ones, one after the other |
| `DocumentRegistry.OpeningsView` | backends/pycommon/gnome/codeassistance/transport_dbus.py:276-285 | After that each open document that is not named again has the data path of its entry, a document that was there keeps its client path, and documents that are not named are as before |
| `DocumentRegistry.Server.EnsureDocument` | backends/pycommon/gnome/codeassistance/transport_dbus.py:209-220 | One document, looked up or made, with the data path given or the path |
| `DocumentRegistry.Server.MakeDocument` | backends/pycommon/gnome/codeassistance/transport_dbus.py:194-207 | A new id, a new object on the bus, and the tables in step |
| `DocumentRegistry.Server.Dispose` | backends/pycommon/gnome/codeassistance/transport_dbus.py:222-232 | Exactly the document under the normalised path goes, after one call of dispose, and its app with it if it was the last |
| `DocumentRegistry.Server.DisposeApp` | backends/pycommon/gnome/codeassistance/transport_dbus.py:234-245 | All documents of the app are disposed of, and the app is forgotten |
| `DocumentRegistry.Server.OnNameLost` | backends/pycommon/gnome/codeassistance/transport_dbus.py:165-174 | A client that has gone leaves no documents, and the others keep theirs |
| `DocumentRegistry.Run` | backends/pycommon/gnome/codeassistance/transport_dbus.py:165-285 | In every state of any run the objects on the bus are those of the documents and the dummy, every app has a document, and each document that is gone was disposed of exactly once; the documents and their paths at the end are what the calls opened and closed |
| `DocumentRegistry.ViewAfter` | backends/pycommon/gnome/codeassistance/transport_dbus.py:165-285 | After any run a document is there exactly when it was opened and neither closed nor left by its client since; its data path is that of the last opening, its client path that of the first one since then |
| `DocumentRegistry.NeverReused` | backends/pycommon/gnome/codeassistance/transport_dbus.py:176-207 | An object that stands for a document at two moments of a run stands for the same document at both and all the time between |
| `DocumentRegistry.ParseAndDispose` | backends/pycommon/gnome/codeassistance/transport_dbus.py:209-270 | Disposing under the path that was parsed removes the document exactly when that path is not empty |
| `MakeTargets.FindTargets` | backends/c/makefileintegration.py:276-300 | The worklist ends with exactly the targets that depend on the source through chains of targets that are not skipped, each once, found in the order of their distances and at one distance in the order of make's output |
| `MakeTargets.OneFinding` | backends/c/makefileintegration.py:276-300 | There is only one list like that, so distances and the order of make's output decide the result |
| `MakeTargets.Pass` | backends/c/makefileintegration.py:285-300 | One pass adds exactly the targets not yet found that depend on a name looked for, in the order of the first rules that match them |
| `MakeTargets.ClosedTakesChain` | backends/c/makefileintegration.py:276-300 | What is closed under the rules takes in every chain |
| `MakeTargets.SortedInOrder` | backends/c/makefileintegration.py:241-246 | The ranked list has the same targets, own objects first, other objects next, each rank in the order of its finding |
| `MakeTargets.OneOrder` | backends/c/makefileintegration.py:312 | No other list does, so it is what any stable sort gives |
| `MakeTargets.TargetsFromMake` | backends/c/makefileintegration.py:248-313 | The result is all the targets that depend on the source, each once: objects of the source first, then other objects, then the rest, those of one kind in the order in which the worklist finds them |

## Left out

- CssToSass.BuiltKeepsBag: its condition is enough but not necessary, because `.a, .b, .a` repeats a selector without meeting itself again; the exact condition is in BagKept.BagKeptOnCss.
- BagKept.BagKeptOnCss: is for stylesheets whose declarations are different objects, as parsed ones are, and that do not write one compound in two ways such as `.a.b` and `.b.a`; for the others the second half of the condition in BagKept.BagKeptIff is about the tree between the two passes.
- CssPasses.BuildTree: has no bubble_subject, and selectors without subject markers; it starts from parsed selectors and ends before they are printed.
- CssPasses.NestSeqs: returns a new list of nodes where the program rewrites the list in place; node objects are values with the ids of their declarations.
- OtherPasses.FoldedFacts: children that print alike are children that are equal up to the ids of their declarations; rules that print nothing because they are empty are not told apart further.
- Selectors.ResolveJoin: compounds are taken apart into their base, pseudo-elements and the set of the rest, as Sass compares them; selectors inside pseudo-classes and suffixes of `&` are not modelled.
- Memoised.AskAllRight: where css times fall from one query to the next, the excuse for a needless yes is necessary and not sufficient; whether it happens depends on the order in which imports are listed.
- Checker.RunSessions: each session has one file system, which does not change while a checker lives, and mtimes only rise from one to the next. The lock around the long-lived cache, the cache of parse trees and the resolution of imports to files are not modelled.
- JsonDecoder.DecodeText: numbers with a fraction or exponent keep their text, since the rounding of floats is not modelled; NaN and the infinities are constants. A digit is one of 0 to 9, and four digits of an escape are hexadecimal digits only, where Python's `\d` and `int(..., 16)` admit more. The line and column that are counted from an error's position are not modelled.
- JsonDecoder.ScanOnce: no object hooks, no parse_float or parse_int, no memo of keys, no limit on recursion.
- JsonRoundTrip.EncodeDecode: is about strings that come back by themselves, as JsonEncode.StringRoundTrip tells; a float is the text that Python gives it, and that a float is read back from its text is not modelled. An indent and the separators are any that put only whitespace around `,` and `:`.
- JsonEncoder.EncodeObject: no default hook, no for_json, named tuples or other Python classes, no sort_keys, skipkeys or bigint_as_string, no keys that are not strings, and circular references are checked.
- Climbing.FewestParens: is for expressions in which `in` is allowed; in the head of a for statement one pair of parentheses around the whole expression can stand for several around each `in`.
- ExprParser.Parser.ParseExprAtom: operands are names. Calls, members, arrows, sequences, assignment, conditionals, `++` and `--` are not modelled, nor are source positions.
- Labels.ParseProgram: starts from statements and the places where they begin, not from tokens, and gives only the verdict on labels and jumps; everything else a statement can be refused for is not modelled.
- Lcs.LongestCommon: a block is a function of the two elements; one with side effects is not modelled. The documented start in x is replaced by the one that holds for every block, with Lcs.StartsFirstIff for the rest.
- ExtractInject.InjectValues: what is injected are values, not the nodes of a script; with_extracted_values is not modelled.
- DocumentLines.Tabulate: starts from the lines of a document. White space is Ruby's `\s`, without the null character that `strip` also removes, and the indentation that a comment's line object keeps besides its text is not modelled.
- LineTree.PrintAndRead: is for outlines without comments.
- LineTree.Tree: children are part of the returned value, where the program assigns them to a line that is already in the list.
- OrderedDict.OrderedDict.Iter: gives all keys at once; a dict that changes while it is iterated over is not modelled, nor are copies and pickling.
- DocumentRegistry.Server.ParseAll: gives the objects of all documents, of which the service answers for some; what services find in a document, cursors, and the end of the process when no app is left are not modelled.
- DocumentRegistry.Server.MakeDocument: apps and documents are values in the tables, and an object path is a pair of ids instead of a string.
- MakeTargets.FindTargets: a rule is a target and the set of names that the regular expressions would find behind its colon; running make and matching its output are not modelled.
- The Go server, the JavaScript and Ruby copies of the registry, the other language back-ends, file monitors and the bus itself are not modelled.
