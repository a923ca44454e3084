# FreeHAL 2012: grammar, fact files, fact index, scoring and caches

FreeHAL 2012 parses sentences with a grammar of its own, turns the parses into XML facts,
stores facts in files indexed by word prefixes, scores facts against a question, and keeps two
caches in its C part. This project models these cores and proves what they keep. The sources
appear three times in the repository; the `trunk/grammar2012` copy is the one modelled, and
`trunk/hal2012/hal2012-disk.c` for the caches.

| file | what it models |
|---|---|
| `Text.dfy` | the string operations the sources take from boost and the C library |
| `Entity.dfy` | grammar symbols: parsing "name/order/marker", keys, printing, markers |
| `Cfg.dfy` | the expansion of `r-` symbols as a transformation of a context-free grammar |
| `CfgUndefined.dfy`, `CfgCycles.dfy` | what it makes of undefined symbols, and where it never ends |
| `Expansion.dfy` | the same expansion on entities with markers, and that it is the one of `Cfg` |
| `MarkedExpansion.dfy` | which markers the symbols of the expanded rules have |
| `Matching.dfy` | the search for a rule body as a string in a string |
| `Reduction.dfy`, `ReduceBound.dfy` | the rewriting of token lists: one replacement, one round, all rounds |
| `ReduceMap.dfy`, `ReduceStep.dfy` | the reduce map, and the bookkeeping of one round |
| `ReduceTarget.dfy` | which rules one round applies together |
| `ParseTree.dfy` | how the trees of a run are put together and marked |
| `Grammar.dfy` | the class `grammar`, whose methods are proved against the files above |
| `InputWords.dfy` | which words the input string has |
| `XmlCodec.dfy` | the XML printer, the tokenizer and the two readers |
| `TextSurvival.dfy` | which texts survive the file format |
| `EntityXml.dfy` | a parse tree written out as an XML fact |
| `FactText.dfy` | which words of a parse stand in which part of its fact |
| `Sentence.dfy` | a sentence parsed, written as XML and read back, and its derivation in the grammar as written |
| `Words.dfy`, `Scoring.dfy`, `Filters.dfy` | words of a tree, the operators `&&`, `&` and `%`, and the filters |
| `FilterWords.dfy` | the filters and the test for synonyms, said in words |
| `Synonyms.dfy`, `DiskIndex.dfy` | shared synonym sets, and the four-letter index with its files |
| `QueryCache.dfy`, `QueryCacheTable.dfy` | the nine-slot query cache, on values and as it runs |
| `WordTable.dfy` | the table of interned words |

Code that updates things step by step is a method, with loops and fields as in the source,
proved against a function or relation on values; what is promised of it is proved of that
function or relation. Expressions and recursion are functions.

The grammar results assume what the grammar files are written to satisfy: every element of a rule
body has a `d-`, `s-` or `r-` name, every used `r-` symbol has a rule, an `r-` symbol with an order
number has markers, and no key contains a blank. `Expand` assumes in addition that the `r-` symbols
are acyclic; rules and input are otherwise arbitrary.

## What the proofs found

Most of what the code is for holds on all inputs. These are the places where it does not, each with
the exact condition under which it does, for all inputs, and in most cases an input that shows it:

- `expand` stops as soon as no body had a second ambiguous symbol to put off, and `r-` symbols may
  then be left (`Cfg.ExpansionMayStopEarly`). With n rounds before the first complete one, none is
  left exactly when after those n rounds no used `r-` symbol has an alternative with another one;
  this is so whenever it was so at the start (`Expansion.ExpandedRules`, `Grammars.Grammar.Expand`).
- An `r-` symbol without a rule is read as an empty one: an `r-`-free result of the rounds derives
  exactly what the rules derive with an empty rule for each undefined symbol, so the languages are
  kept exactly when those rules add nothing (`CfgUndefined.ExpansionReadsUndefinedAsEmpty`;
  `Cfg.UndefinedSymbolChangesLanguage` shows a string that is added).
- The markers of an `r-` symbol leave the key of a symbol that replaces it as it was exactly when
  the `r-` symbol has no order number, or has markers of its own, or has the same order number
  (`Entities.InheritKeepsKeyIff`). "r-a/2" changes "d-x"; "r-a/2/v-x" does not
  (`Entities.OrderedReplacementChangesKey`).
- On acyclic `r-` symbols `expand` always returns. Where `r-` symbols with two rules each lead to each
  other again, and one of them stands before a symbol with two rules in any body, it never does
  (`CfgCycles.CyclicNeverCompletes`); a cycle alone need not keep it from returning
  (`CfgCycles.CyclicMayComplete`).
- The string search says of every rule body whether it is a sublist of the keys exactly when no key
  has a blank (`Matching.SearchTrustedIffClean`). `replace_in_vector` alone would rewrite a match cut
  off by the end of the list (`Reduction.TailMatchIsReplaced`); behind the search it rewrites exactly
  the leftmost complete occurrence, if there is one (`Reduction.MatchIsLeftmostOccurrence`).
- A text, with or without angle brackets, comes back from its XML element exactly when it is in
  normal form (`TextSurvival.SurvivesIffNormal`).
- A word of the sentence may be missing in its fact: conjunctions between linked parts, linking
  words and commas are not written. No other word with a text is lost, if rules and input mark only
  linking words and commas as such (`FactTexts.WordsAreKept`; the condition is one on the grammar as
  it is written, `Sentences.ExpandAndParse`).
- `&` averages synonyms on either side, `&&` on the left side only: on the right it sums them up
  (`Scoring.SynonymsAreAveraged`).
- A `synonyms` list without a match scores 0/0, and only then (`Filters.SynonymsUndefinedIff`). The
  final score is nevertheless defined for all trees, also for those with empty lists
  (`Filters.ScoreProper`).
- Connected words may be missing from a synonym set. All are there exactly when subject and object
  of every inserted pair have the same set (`Synonyms.CompleteIffPairsAgree`); starting from sets
  properly shared, an insertion breaks this exactly when it takes the branch that merges two
  different sets (`Synonyms.SynonymTable.Insert`).
- The query cache never compares its third hash (`QueryCache.ThirdHashIgnored`) and records only as
  many rows as a search has room for. No run over a set of searches shows this exactly when, wherever
  the two compared hashes of two of them agree, the rows that the one records are the right answer
  to the other (`QueryCache.TransparentIffServed`); with equal room this means that their answers
  are the same (`QueryCache.ServesIffSameAnswer`).

## Model

| member | source | states |
|---|---|---|
| Cfg.StepPreservesLanguage | trunk/grammar2012/hal2012-grammar2012.cpp:692-803 | one parallel round of partial substitution keeps, for every rule key, exactly the set of `r-`-free key strings it derives, if every used `r-` symbol is defined |
| Cfg.StepKeepsDefined | trunk/grammar2012/hal2012-grammar2012.cpp:762-786 | a round leaves no used `r-` symbol without a rule |
| Cfg.UndefinedSymbolChangesLanguage | trunk/grammar2012/hal2012-grammar2012.cpp:702-752 | a grammar with an undefined `r-` symbol that derives a new string after one round |
| CfgUndefined.ExpansionReadsUndefinedAsEmpty | trunk/grammar2012/hal2012-grammar2012.cpp:702-803 | whatever is undefined, `r-`-free rules reached by the rounds derive exactly what the original rules derive when each undefined symbol has one empty rule; no string is lost |
| Cfg.CompleteStepReplFree | trunk/grammar2012/hal2012-grammar2012.cpp:742-803 | when a round reports completion, the grammar is free of `r-` symbols exactly when no used one had an alternative with another one |
| Cfg.StepKeepsShallow | trunk/grammar2012/hal2012-grammar2012.cpp:702-786 | where no used `r-` symbol has an alternative with another one, no round changes this |
| Cfg.ExpansionMayStopEarly | trunk/grammar2012/hal2012-grammar2012.cpp:788-803 | a grammar whose first round is its last although an `r-` symbol remains |
| Cfg.VariantWeight | trunk/grammar2012/hal2012-grammar2012.cpp:702-752 | the round strictly lowers the weight of every body with an `r-` symbol |
| Cfg.StepKeepsWeights | trunk/grammar2012/hal2012-grammar2012.cpp:762-786 | "a body weighs less than its key" survives the parallel rewrite |
| Cfg.AcyclicWeighted | trunk/grammar2012/hal2012-grammar2012.cpp:692-803 | every acyclic grammar has such weights |
| Cfg.RoundLowersTop | trunk/grammar2012/hal2012-grammar2012.cpp:788-803 | so each incomplete round lowers the heaviest body: `expand` terminates on acyclic grammars |
| CfgCycles.CyclicNeverCompletes | trunk/grammar2012/hal2012-grammar2012.cpp:742-803 | where symbols with two rules lead to each other again, and one stands before an ambiguous symbol in any body, no number of rounds is complete |
| CfgCycles.CyclicMayComplete | trunk/grammar2012/hal2012-grammar2012.cpp:742-803 | a cyclic grammar whose first round is complete |
| Expansion.RoundAgrees | trunk/grammar2012/hal2012-grammar2012.cpp:762-786 | on entities with inherited markers a round is the round of `Cfg` and keeps bodies well formed |
| Expansion.CompleteAgrees | trunk/grammar2012/hal2012-grammar2012.cpp:762-786 | completion is reported for the same grammars |
| Expansion.ExpandedRules | trunk/grammar2012/hal2012-grammar2012.cpp:788-803 | after n rounds and the first complete one no `r-` symbol is left exactly when the n rounds had brought the nesting down to one; it is one if it was at the start |
| MarkedExpansion.InheritedIsMarked | trunk/grammar2012/hal2012-grammar2012.cpp:606-622 | a symbol that replaces an `r-` symbol keeps its markers, in front, and gets those of the `r-` symbol behind them; nothing else changes |
| MarkedExpansion.RoundKeepsMarked | trunk/grammar2012/hal2012-grammar2012.cpp:692-786 | one round keeps, for every key, exactly the marked bodies without `r-` symbols that its rules stand for, markers of replaced symbols behind the own ones, innermost first |
| MarkedExpansion.RoundsComeFrom | trunk/grammar2012/hal2012-grammar2012.cpp:762-803 | after any number of rounds every body comes from a rule as written for its key, with these markers, also where `r-` symbols are left |
| MarkedExpansion.ExpandedExactly | trunk/grammar2012/hal2012-grammar2012.cpp:788-803 | once no `r-` symbol is left, the rules are exactly the marked bodies that the rules as written stand for |
| Entities.AddWellFormed | trunk/grammar2012/hal2012-grammar2012.cpp:45-78 | `add` keeps an entity well formed and leaves text and children alone |
| Entities.ToStrRoundTrip | trunk/grammar2012/hal2012-grammar2012.cpp:49-416 | a childless entity parsed back from its own `to_str` has the same name, order and markers |
| Entities.AnyRunRoundTrips | trunk/grammar2012/hal2012-grammar2012.cpp:45-416 | and this holds of whatever any run of `add` calls builds |
| Entities.KeyInjective | trunk/grammar2012/hal2012-grammar2012.cpp:402-416 | equal keys mean equal primary names and order numbers |
| Entities.MarkKeepsKey | trunk/grammar2012/hal2012-grammar2012.cpp:460-576 | adding the markers of a matching rule element never changes a key, text or child |
| Entities.InheritKeepsKeyIff | trunk/grammar2012/hal2012-grammar2012.cpp:460-622 | the markers of a replaced `r-` symbol keep a key exactly when it has no order number, or has markers of its own, or has the same order number |
| Entities.InheritKeepsKey | trunk/grammar2012/hal2012-grammar2012.cpp:606-622 | so an `r-` symbol that hands on no order number keeps key, type and children |
| Entities.OrderedReplacementChangesKey | trunk/grammar2012/hal2012-grammar2012.cpp:460-622 | an order number that changes a key, and the same one with a marker, which does not |
| Entities.DescriptionRead | trunk/grammar2012/hal2012-grammar2012.cpp:49-78 | a name with a number and markers is read as it looks, wherever the number stands; a number that does not fit becomes the largest int |
| Entities.EntityObject.Init | trunk/grammar2012/hal2012-grammar2012.cpp:49-78 | the loop over the pieces updates the fields to the value the specification gives |
| Matching.SearchIffSublist | trunk/grammar2012/hal2012-grammar2012.cpp:624-634 | the blank-delimited string search succeeds exactly when the body is a contiguous sublist of the keys |
| Matching.SearchTrustedIffClean | trunk/grammar2012/hal2012-grammar2012.cpp:624-634 | the string search is right for every body without blanks exactly when no key has a blank |
| Matching.SpacedKeyMisleadsSearch | trunk/grammar2012/hal2012-grammar2012.cpp:624-634 | one key with a blank in which a body of two keys is found |
| Reduction.FirstIsLeftmostFull | trunk/grammar2012/hal2012-grammar2012.cpp:857-907 | if a complete occurrence exists, the scan's first hit is the leftmost complete one |
| Reduction.TailMatchIsReplaced | trunk/grammar2012/hal2012-grammar2012.cpp:857-907 | without one the scan rewrites a match cut off by the end |
| Reduction.MatchIsLeftmostOccurrence | trunk/grammar2012/hal2012-grammar2012.cpp:857-945 | `reduce_step` rewrites a list exactly when the body occurs in it, and then its leftmost occurrence |
| Reduction.RewriteKeeps | trunk/grammar2012/hal2012-grammar2012.cpp:857-907 | a rewrite keeps the leaves and all derivations, and adds an instance of the rule |
| Reduction.EmptyIffNoMatch | trunk/grammar2012/hal2012-grammar2012.cpp:909-1031 | a round returns nothing exactly when no rule of any order matches |
| Reduction.RunsKeep | trunk/grammar2012/hal2012-grammar2012.cpp:1033-1085 | every list reached in any run has the input's leaves in order, and only genuine derivations |
| Reduction.ResultIsParseTree | trunk/grammar2012/hal2012-grammar2012.cpp:1033-1085 | a finished list is one `s-all` tree, derived by rules of the reduce map, over exactly the input |
| Reduction.FinishedIsParse | trunk/grammar2012/hal2012-grammar2012.cpp:1033-1085 | the same for everything `reduce` collects in its rounds |
| Reduction.FinishedUnmarked | trunk/grammar2012/hal2012-grammar2012.cpp:1033-1085 | and where targets have no markers, its root has none |
| ParseTrees.MatchedIsMarked | trunk/grammar2012/hal2012-grammar2012.cpp:876-884 | a matched symbol gets the markers of the rule element behind its own, or the name of an unmarked element, and changes in nothing else |
| ParseTrees.RunsAreBuilt | trunk/grammar2012/hal2012-grammar2012.cpp:1033-1085 | every tree in any run is a word, or a rule target over trees that are marked by the elements of the body |
| ReduceTargets.SameKeyIff | trunk/grammar2012/hal2012-grammar2012.cpp:945-958 | targets are taken for the same exactly when they are printed alike, or alike from their first "$" on |
| ReduceTargets.ResultApplies | trunk/grammar2012/hal2012-grammar2012.cpp:909-1031 | a round returns exactly the rewrites by the longest matching bodies of the lowest order with a match whose targets are the same as that of a rule with a longest key string, and the unchanged list where the compared part of this target has a "*" |
| ReduceTargets.BothAreApplied | trunk/grammar2012/hal2012-grammar2012.cpp:945-1003 | two rules with the same end from "$" on and equally long bodies both contribute |
| ReduceTargets.NeverBothApplied | trunk/grammar2012/hal2012-grammar2012.cpp:945-963 | no two rules whose targets differ there ever do |
| ReduceBound.BodyOutweighsTarget | trunk/grammar2012/hal2012-grammar2012.cpp:1044-1082 | with key weights between U + 1 and 2U a body weighs more than its target |
| ReduceBound.RunsAreShort | trunk/grammar2012/hal2012-grammar2012.cpp:1044-1082 | without `*` targets and circles of one-element rules every run has fewer than 2 * U * length rounds |
| ReduceBound.PossibilitiesRunOut | trunk/grammar2012/hal2012-grammar2012.cpp:1044-1082 | so no possibility is left in the rounds after that |
| ReduceMaps.EntriesOk | trunk/grammar2012/hal2012-grammar2012.cpp:655-690 | the reduce map built from clean rules holds only entries the engine can use |
| ReduceMaps.EntriesAreRules | trunk/grammar2012/hal2012-grammar2012.cpp:655-690 | and each of them has the key and the body of a grammar rule |
| ReduceMaps.RulesAreEntries | trunk/grammar2012/hal2012-grammar2012.cpp:655-690 | and every rule with a body and a registered key that is no `r-` symbol is one of them |
| ReduceMaps.NumbersDecide | trunk/grammar2012/hal2012-grammar2012.cpp:470-472 | a target without an order number gives way to matching ones of number 0 only, and goes before those of number 2 and more |
| ReduceMaps.EntriesPlain | trunk/grammar2012/hal2012-grammar2012.cpp:655-690 | rules stored under keys without blanks have targets without markers |
| ReduceMaps.SortByLength | trunk/grammar2012/hal2012-grammar2012.cpp:648-690 | the key strings of an order, each once, longest first |
| Grammars.Grammar.ModifySymbol | trunk/grammar2012/hal2012-grammar2012.cpp:564-576 | returns the marked copy and registers it |
| Grammars.Grammar.ExpandEntry | trunk/grammar2012/hal2012-grammar2012.cpp:692-760 | builds exactly the new bodies of one body, symbol by symbol, each of which comes from it by replacing `r-` symbols that hand their markers on |
| Grammars.Grammar.ExpandStep | trunk/grammar2012/hal2012-grammar2012.cpp:762-786 | replaces the rules by those of one round, with the same marked bodies behind every key, and reports completion |
| Grammars.Grammar.Expand | trunk/grammar2012/hal2012-grammar2012.cpp:788-803 | terminates on acyclic grammars with the rules after the first complete round, keeps all languages and the marked bodies behind every key, and leaves no `r-` symbol exactly under the condition above, in particular if `r-` symbols are nested one deep from the start; then the rules are exactly those marked bodies |
| Grammars.Grammar.BuildReducemap | trunk/grammar2012/hal2012-grammar2012.cpp:655-690 | fills the reduce map with exactly the entries of the rules, and sorts the keys |
| Grammars.Grammar.ReplaceInVector | trunk/grammar2012/hal2012-grammar2012.cpp:857-907 | the scan computes the replacement at the first compatible place |
| Grammars.Grammar.ReduceStep | trunk/grammar2012/hal2012-grammar2012.cpp:909-1031 | returns, one for each printed form, the rewrites by the longest matching bodies for one target of the lowest matching order, and the unchanged list for a `*` target, said of targets as they are printed |
| Grammars.Grammar.Reduce | trunk/grammar2012/hal2012-grammar2012.cpp:1033-1085 | runs the rounds up to the cap or to the first empty one, and collects exactly the finished lists |
| Grammars.Grammar.ParseInput | trunk/grammar2012/hal2012-grammar2012.cpp:805-855 | builds the tagged words between the two end markers |
| Grammars.Grammar.Parse | trunk/grammar2012/hal2012-grammar2012.cpp:805-1085 | every result is a derivation of `s-all` whose leaves are the end markers and the accepted words in order, and in which each symbol has the markers of the rule element it was matched with |
| Grammars.InputIsUnparsed | trunk/grammar2012/hal2012-grammar2012.cpp:805-855 | the list built from the input has exactly the accepted words as leaves |
| InputWords.InputParted | trunk/grammar2012/hal2012-grammar2012.cpp:816-820 | "#" and ">" part the words of any input |
| InputWords.OneWord | trunk/grammar2012/hal2012-grammar2012.cpp:821-843 | a piece with one bar ("<" is one, too) is a word: its tag before it and its text after it, without white space around them |
| InputWords.NoWord | trunk/grammar2012/hal2012-grammar2012.cpp:821-833 | a piece without a bar or with two is left out |
| XmlCodec.OrderTags | trunk/grammar2012/hal2012-xml2012.cpp:529-565 | the character loop computes the tokenizer's function |
| XmlCodec.ReadTreeLoop | trunk/grammar2012/hal2012-xml2012.cpp:567-610 | the line loop computes the reader's function |
| XmlCodec.ReadFactsLoop | trunk/grammar2012/hal2012-xml2012.hpp:3-41 | the loop over the lines computes the list of facts |
| XmlCodec.RenderTokens | trunk/grammar2012/hal2012-xml2012.cpp:529-565 | any well-nested layout tokenizes to one mark, name or squeezed text per line |
| XmlCodec.LayoutIsRead | trunk/grammar2012/hal2012-xml2012.cpp:567-610 | the reader consumes exactly the lines of any well-nested layout |
| XmlCodec.FactsRoundTrip | trunk/grammar2012/hal2012-xml2012.cpp:141-172 | facts in normal form, printed, concatenated, tokenized and read, come back as the same trees in the same order |
| XmlCodec.FactByLine | trunk/grammar2012/hal2012-xml2012.cpp:141-172 | a fact without clauses is printed with one indented line for each of its parts |
| XmlCodec.WhiteSpaceAlike | trunk/grammar2012/hal2012-xml2012.cpp:529-545 | in any text one of the four white space characters can stand for another, and one for two |
| XmlCodec.ReadValues | trunk/grammar2012/hal2012-xml2012.cpp:590-597 | what is read for a text: nothing for defaults, 0 and 1 for truth values, otherwise the text |
| TextSurvival.SurvivesIffNormal | trunk/grammar2012/hal2012-xml2012.cpp:529-610 | every text, printed in its element, tokenized, split and read in any other element, is there again, alone, exactly when it is in normal form |
| TextSurvival.ValueIsRead | trunk/grammar2012/hal2012-xml2012.cpp:590-597 | and what is there of a text that is no more than single-spaced: nothing, 0, 1 or the text |
| TextSurvival.LinesShape | trunk/grammar2012/hal2012-xml2012.cpp:529-565 | the lines the tokenizer leaves of any input are marks, bracket-free, or of three other shapes |
| EntityXml.ToXmlLoop | trunk/grammar2012/hal2012-grammar2012.cpp:172-263 | the nested loops over the children compute the text |
| EntityXml.KidsInGroups | trunk/grammar2012/hal2012-grammar2012.cpp:204-241 | each child falls into exactly one group in order; runs of `v-link` children are maximal and make one element each |
| EntityXml.ToXmlIsLayout | trunk/grammar2012/hal2012-grammar2012.cpp:172-263 | the text of any tree without angle brackets in its texts is well nested |
| EntityXml.FactTreeIsRead | trunk/grammar2012/hal2012-xml2012.cpp:567-616 | the text of a fact tree is read as exactly one fact, to its very end |
| EntityXml.ParseIsRead | trunk/grammar2012/hal2012-grammar2012.cpp:172-263 | this holds of every parse with an unmarked root over bracket-free words |
| EntityXml.TagLines | trunk/grammar2012/hal2012-grammar2012.cpp:243-259 | where lines are broken at each level, and in clauses |
| FactTexts.FactHasWords | trunk/grammar2012/hal2012-grammar2012.cpp:172-263 | under the subjects of the fact stand, in order, the words below nodes whose first marker is `v-subject`, as the reader reads them; likewise object, verb, adverbs, questionword, extra, clause and linked, and all words together |
| FactTexts.WordsAreKept | trunk/grammar2012/hal2012-grammar2012.cpp:192-241 | the written words are those of the leaves, in order; only empty ones, conjunctions, linking words and commas can be missing, if no other symbol is marked first as a linking word or comma |
| FactTexts.WordIsInFact | trunk/grammar2012/hal2012-parser2012.cpp:122-140 | so every other accepted word occurs in the fact |
| FactTexts.LastConjunctionDecides | trunk/grammar2012/hal2012-grammar2012.cpp:208-231 | a run of linked children is `link_&` or the other link tag by its last conjunction, and `link_?` without one |
| Sentences.InputTextsOk | trunk/grammar2012/hal2012-grammar2012.cpp:805-855 | the words of any input are bracket-free |
| Sentences.ResultIsFact | trunk/grammar2012/hal2012-parser2012.cpp:122-140 | the text of a parse of any input is read as exactly one fact |
| Sentences.GenuineAsWritten | trunk/grammar2012/hal2012-grammar2012.cpp:788-1085 | each inner node's child keys are derived from its key by the grammar as it was written, whatever `r-` symbols expansion left |
| Sentences.ParseSentence | trunk/grammar2012/hal2012-parser2012.cpp:122-140 | no parse, no fact; otherwise the fact of the first parse, which says under each part the words marked for it, and has all words but those that may be missing, with nothing assumed of the trees |
| Sentences.ExpandAndParse | trunk/grammar2012/graph.cpp:33-51 | a grammar expanded and used on any input gives only `s-all` trees over its words, derived in the grammar as written and marked by it, and the fact of the first, with the words of the input in the parts they are marked for |
| Scoring.CompareLoop | trunk/grammar2012/hal2012-filterfacts2012.cpp:107-205 | the recursive loops with their sums and counts compute the operators |
| Scoring.PositiveIffHolds | trunk/grammar2012/hal2012-filterfacts2012.cpp:107-205 | both operators are positive exactly when the trees match, a `link_&` wanting all of its children |
| Scoring.HoldsIffSharedWord | trunk/grammar2012/hal2012-filterfacts2012.cpp:107-205 | without `link_&` trees match exactly when text leaves of both share a word, ignoring case |
| Scoring.CompareBounded | trunk/grammar2012/hal2012-filterfacts2012.cpp:107-205 | a defined score is at most (words of the left) * (text leaves of the right) |
| Scoring.ListsAddUp | trunk/grammar2012/hal2012-filterfacts2012.cpp:107-205 | other lists sum up the positive scores of their children |
| Scoring.LinkAndIsAllOrNothing | trunk/grammar2012/hal2012-filterfacts2012.cpp:131-132 | `link_&` scores like any other list if all of its children match, and 0 otherwise |
| Scoring.SynonymsAreAveraged | trunk/grammar2012/hal2012-filterfacts2012.cpp:132-199 | synonyms with matches score between the least and the greatest of them, on the right side with `&` only, where `&&` sums them up |
| Scoring.FirstMatchCounts | trunk/grammar2012/hal2012-filterfacts2012.cpp:66-105 | what the first word equal to a word makes it count, by tag and number of words |
| Filters.SynonymsUndefinedIff | trunk/grammar2012/hal2012-filterfacts2012.cpp:168-183 | a `synonyms` list scores 0/0 exactly when nothing in it matches |
| Filters.CountPositiveIff | trunk/grammar2012/hal2012-filterfacts2012.cpp:228-252 | the count of words is undefined exactly where a list of alternatives that counts is empty, and else positive exactly where some text that counts has a word |
| Filters.FiltersKeepSign | trunk/grammar2012/hal2012-filterfacts2012.cpp:423-528 | the filters keep a score defined and non-negative, and say when it is positive |
| Filters.ScoreProper | trunk/grammar2012/hal2012-filterfacts2012.cpp:296-344 | the score `%` of any two trees is defined and non-negative |
| Filters.AlternativesCountOnce | trunk/grammar2012/hal2012-filterfacts2012.cpp:248-250 | alternatives of equally many words count as one of them, other lists as their sum |
| Filters.ScorePositiveIff | trunk/grammar2012/hal2012-filterfacts2012.cpp:296-528 | the score is positive exactly when a verb matches a verb, and a subject, object or adverbs match one of these, or the extra has words and matches one |
| Filters.RawIsPairs | trunk/grammar2012/hal2012-filterfacts2012.cpp:309-333 | before the filters the score is the sum over all pairs of a subject, object or adverbs of one fact with one of the other |
| FilterWords.MatchCounts | trunk/grammar2012/hal2012-filterfacts2012.cpp:107-155 | on trees without linked lists `&&` with a text counts the words that the text has |
| FilterWords.SynonymIff | trunk/grammar2012/hal2012-filterfacts2012.cpp:43-53 | which facts without linked lists are synonyms, in words |
| FilterWords.FiltersInWords | trunk/grammar2012/hal2012-filterfacts2012.cpp:423-528 | what the filters leave of the score of such facts, in words |
| Filters.FilterList.Apply | trunk/grammar2012/hal2012-filterfacts2012.cpp:367-421 | the rules, run one after the other on the field `m`, compute the filtered score |
| Filters.FilterList.Score | trunk/grammar2012/hal2012-filterfacts2012.cpp:296-344 | the operator `%` computes its specification |
| Synonyms.InsertedKeepsSound | trunk/grammar2012/hal2012-diskdb2012.cpp:75-144 | an insertion keeps: each key in its own set, each inserted object in its subject's set, members connected to the key by inserted pairs |
| Synonyms.CompleteIffPairsAgree | trunk/grammar2012/hal2012-diskdb2012.cpp:75-144 | all connected words are found exactly when each inserted pair has equal sets |
| Synonyms.JoinedSetsStayApart | trunk/grammar2012/hal2012-diskdb2012.cpp:94-101 | three insertions after which a connected word is missing |
| Synonyms.RebindingDecides | trunk/grammar2012/hal2012-diskdb2012.cpp:94-101 | from shared sets, sharing and completeness end exactly in the branch that does not rebind |
| Synonyms.SynonymTable.Insert | trunk/grammar2012/hal2012-diskdb2012.cpp:75-144 | the update of the aliased sets, with its whole new state and the two properties above |
| Synonyms.TextOfParts | trunk/grammar2012/hal2012-xml2012.cpp:235-266 | the text of a list is that of its parts, between blanks or between the words "and" and "or" |
| DiskIndex.MakeKey | trunk/grammar2012/hal2012-diskdb2012.cpp:335-348 | the padding loop computes the key |
| DiskIndex.KeyOfKey | trunk/grammar2012/hal2012-diskdb2012.cpp:329-356 | a key is its own key, and case does not matter |
| DiskIndex.KeysAgree | trunk/grammar2012/hal2012-diskdb2012.cpp:335-348 | two words have the same key exactly when they agree in four letters, case aside and missing ones taken for "_" |
| Words.WordOfText | trunk/grammar2012/hal2012-xml2012.cpp:268-286 | a text of word characters is one word, "1" is none |
| Words.WordsParted | trunk/grammar2012/hal2012-xml2012.cpp:275-286 | every other character parts the words before it from those after it |
| Words.TreeWordsAreLeafWords | trunk/grammar2012/hal2012-xml2012.cpp:287-294 | the words of a tree are those of its texts, outside of truths |
| DiskIndex.PrintInjective | trunk/grammar2012/hal2012-xml2012.cpp:141-172 | different normal facts are printed differently |
| DiskIndex.ListingIsRead | trunk/grammar2012/hal2012-diskdb2012.cpp:222-241 | an index file listing facts in any order is read back as those facts |
| DiskIndex.WrittenReflects | trunk/grammar2012/hal2012-diskdb2012.cpp:250-283 | storing under a new name keeps every index file equal to a scan of the facts of its name |
| DiskIndex.FileIsScan | trunk/grammar2012/hal2012-diskdb2012.cpp:203-248 | reading an index file finds what that scan finds |
| DiskIndex.IndexRefinesScan | trunk/grammar2012/hal2012-diskdb2012.cpp:186-248 | reading all files of a key finds exactly the stored facts, synonyms excepted, with an eligible word of that key |
| DiskIndex.DiskDb.InsertFact | trunk/grammar2012/hal2012-diskdb2012.cpp:33-73 | enters a fact under exactly the keys of its eligible words, or as a synonym |
| DiskIndex.DiskDb.ToDisk | trunk/grammar2012/hal2012-diskdb2012.cpp:250-283 | replaces or extends the index files of its name and no others |
| DiskIndex.DiskDb.GetFacts | trunk/grammar2012/hal2012-diskdb2012.cpp:186-248 | collects the facts of all files of the word's key |
| DiskIndex.Prepare | trunk/grammar2012/hal2012-database2012.hpp:74-93 | reading one source and storing it keeps disk and stored facts in step |
| DiskIndex.FindByWord | trunk/grammar2012/hal2012-database2012.hpp:191-202 | a lookup returns exactly the stored facts, synonyms excepted, with a word that counts and has the same first four letters |
| DiskIndex.OneWordTextIsWanted | trunk/grammar2012/hal2012-diskdb2012.cpp:33-73 | a stored fact with a text that is one ordinary word is found by every word with the same first four letters |
| QueryCache.TransparentIffServed | trunk/hal2012/hal2012-disk.c:1341-1513 | no run over a set of searches, through hits, misses and flushes, shows the cache, exactly when what one search records is the right answer to every other with the same compared hashes |
| QueryCache.CacheTransparent | trunk/hal2012/hal2012-disk.c:1341-1513 | over any run with equal room and hashes that separate different answers every search appends what executing its query would |
| QueryCache.ServesIffSameAnswer | trunk/hal2012/hal2012-disk.c:1349-1356 | with equal room one search serves another exactly when their answers are the same |
| QueryCache.HitExactIff | trunk/hal2012/hal2012-disk.c:1398-1416 | a hit is exact exactly when the recording search had room for what this one takes |
| QueryCache.PairExactIff | trunk/hal2012/hal2012-disk.c:1341-1382 | after a query with the same compared hashes a search is exact exactly when both have the same results |
| QueryCache.ThirdHashIgnored | trunk/hal2012/hal2012-disk.c:1349-1356 | two queries that only the third hash tells apart match |
| QueryCache.WordsMatchIff | trunk/hal2012/hal2012-disk.c:1024-1036 | single words match exactly when first letter and length are equal, also within any query, whose order makes no difference |
| QueryCache.RowCounts | trunk/hal2012/hal2012-disk.c:1393-1396 | a row counts exactly when it has a verb and one of the next four columns |
| QueryCache.FactColumns | trunk/hal2012/hal2012-disk.c:1418-1428 | a fact has the texts of the columns in their order |
| QueryCache.NineQueries | trunk/hal2012/hal2012-disk.c:1341-1382 | the cache grows to nine entries, and the next new query starts it afresh |
| QueryCacheTable.Request.OnRow | trunk/hal2012/hal2012-disk.c:1384-1440 | the callback: stops at the limit, skips unusable rows, records and appends |
| QueryCacheTable.Request.Execute | trunk/hal2012/hal2012-disk.c:1498-1503 | executing a query appends and records the usable rows that fit |
| QueryCacheTable.Cache.FindEntry | trunk/hal2012/hal2012-disk.c:1341-1382 | the last match, a flush of a full table, or a new entry |
| QueryCacheTable.Cache.ClearCache | trunk/hal2012/hal2012-disk.c:1321-1339 | empties every slot |
| QueryCacheTable.Cache.SearchFacts | trunk/hal2012/hal2012-disk.c:1454-1513 | a search computes its specification on cache, buffer and return code |
| WordTable.Table.constructor | trunk/hal2012/hal2012-disk.c:31-61 | every bucket gets its own empty list |
| WordTable.BucketsShared | trunk/hal2012/hal2012-disk.c:235-250 | names share a bucket exactly when they agree in their first two places, where all but small letters is the same |
| WordTable.Table.GetWord | trunk/hal2012/hal2012-disk.c:235-266 | returns the record of the name, or null if there is none |
| WordTable.Table.SetWord | trunk/hal2012/hal2012-disk.c:1253-1295 | adds one fresh record for a new name and keeps all others |
| WordTable.Table.SetWords | trunk/hal2012/hal2012-disk.c:1253-1295 | over any run two names get the same record exactly when they are equal |
| WordTable.WordList.Append | trunk/hal2012/hal2012-disk.c:1277-1294 | writes within the allocated places, growing them by ten when they are full |

Where a comment or name in the code promises more than the code does, the model follows the code.

## Left out

- Files, archives, SQL text, directories and their scanning: the disk is a map from kind, key and file name to a list of strings, and the answer of the database to a query is a parameter.
- `read_grammar` and the regular expressions of the parser: the grammar's rules and the tagged input string are where the model starts.
- Taggers, verb tables, phrasing, predefined replies, BOINC, CGI, shell, IPC and Perl code, Graphviz and Perl printing, verbose output, progress timing and the counter `expanded`.
- Iteration order of hash maps: the grammar's rules are a sequence with a fixed order, and sets are gone through in any order.
- Pointers to entities and facts: they are values, so that a text set after an entity was registered, and two facts with the same tree, are not told apart.
- Caches of words and tags in a tree: the words are a function of the tree, and words carry no tags while facts are indexed.
- The multimap `index_word`, which nothing reads, and the writing of synonym sets to files.
- Two sources with the same base name, and index files left over from an older version of a source.
- FilterWords.FiltersInWords: facts with linked or alternative lists are outside the statement; for them the filters are given by the scores they compare.
- FilterWords.SynonymIff: likewise.
- Tags of single words: a tree's words that are spelled alike have the same tag or none.
- CfgCycles.CyclicNeverCompletes: the condition is sufficient, not necessary; in other cyclic grammars it depends on how the steps taken, which double from round to round, fall on the cycle.
- Trimming and tagging of the fact of a sentence after it has been read.
- Rounding of doubles: scores are real numbers with an undefined value for 0/0.
- Machine integers: hashes and counts are unbounded; an order number that does not fit becomes the largest int, as stream input makes it.
- XmlCodec.ReadTreeLoop: running past the last line, which the original does not guard, ends the reading with a mark of its own.
- QueryCacheTable.Cache.SearchFacts: the recorded rows are a sequence with a capacity instead of a C array, and a null `rawfacts` after an allocation of no places is not modelled.
- QueryCacheTable.Request.OnRow: the request points to the entry it records in, where the original holds its index.
- WordTable.WordList.Append: the allocated places are a sequence, so that `realloc` keeps what was in them by definition.
- Grammars.Grammar.Reduce: of lists with the same printed form one stays, which need not be the one the original keeps, since that depends on the order of a hash map.
- DiskIndex.FindByWord: facts not in normal form are outside the statement, since they need not come back from a file as they were.
