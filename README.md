# Grammar-Mutator core, modelled in Dafny

The Grammar-Mutator is a custom mutator for AFL++ that works on parse trees
rather than on raw bytes. It has two halves, and this project models the core
of each.

**The grammar compiler** is written in Python. It reads a grammar: an ordered
dictionary from keys such as `<start>` to lists of rules, where each rule is a
list of tokens. From it the compiler produces C code for a tree generator, and
an ANTLR grammar for the parser. The modelled steps are these:

- the minimum-cost analysis (`LimitFuzzer.compute_cost`) and the sorted cost
  table it returns;
- the "cheap grammar" of minimum-cost rules;
- the pools of pre-built minimum-size trees;
- the reordering of rules by cost;
- the serialisation of pool trees (`TreeNode.to_bytes` / `from_bytes`) and their
  C string literals;
- the emitted code that counts the rules fitting a length budget, splits the
  budget between subnodes and reports the consumed length;
- the ANTLR translation: entry-key detection, key sanitising, token escaping and
  the text layout.

It also covers the older string-based generator in `examples/f1_c_gen.py`:

- its depth-cost analysis and string pools;
- its recursion detection;
- its escaping of literal characters.

**The C runtime** is the mutator itself:

- parse trees of nodes with a type, a value and subnodes (clone, equality, size,
  replacement, dumping the leaves into a buffer);
- recursive trimming;
- the doubly linked list;
- the chunk store of seen subtrees;
- the reverse substring search and the random number generator;
- the AFL++ entry points in `src/grammar_mutator.c`: the queue hooks, the
  trimming state machine and the fuzz step.

## How it is modelled

- **Grammars** are a `Grammar` value in `grammars.dfy`: the keys in dictionary
  order plus a map from each key to its rules. Derivation trees and their yield
  give the meaning of "the minimum number of characters a key can derive".
- **Python code made of loops over mutable dictionaries** becomes classes:
  - `CostAnalysis.LimitFuzzer`, `DepthCost.DepthCostFuzzer`,
    `Pool.PooledFuzzer` and `Recursion.RecursionTables`;
  - each has methods whose `while`/`for` loops are proved against
    specification functions (`PassKeys`, `SortEntries`, `CheapGrammar`,
    `IsKeyRecursive`, ...).
- **Pure helpers** become functions with lemmas: serialisation, sampling,
  escaping and the ANTLR text.
- **C node graphs** become classes with a ghost `Model` tree and a `Repr`
  footprint (`CTree.Node`, `DList.List`).
- **Value-level meaning** lives in datatypes: `CTree.T` is a parse tree as a
  value, and `ChunkStore.Chunks` is the store's contents.
- **The mutator state** is the class `GrammarMutator.Mutator`:
  - its fixed `PATH_MAX` file-name buffers are `array<char>`;
  - the tree files on disk are a map from file names to trees.
- **Randomness** is a parameter:
  - `random.sample` and `random.choice` become index draws;
  - `map_rand` becomes a `RandomBelow` function;
  - `random() % 3` becomes a `draw`.

  This keeps every function deterministic in its inputs.
- **C integers**:
  - `int` is modelled explicitly as 32-bit two's complement where the source
    converts (`Emitter.ToI32`, `GrammarMutator.Int32`);
  - `uint64_t` is `CUtils.U64` with `% 2^64` written out.

The code is followed where the accompanying prose differs from it. For
example, the recursion check as written detects only direct recursion, and the
`/queue/` rewrite copies no terminator. Each such case is under Findings, with
a corrected definition beside it.

## Model

| member | source | states |
|---|---|---|
| CostAnalysis.SymbolCost | grammars/f1_common.py:40-45 | a terminal costs its length; a key costs its recorded `key_cost`, and is infinite exactly when it has none yet |
| CostAnalysis.RuleCostInfIff | grammars/f1_common.py:47-53 | a rule's cost is infinite exactly when one of its tokens is |
| CostAnalysis.RuleCostInfPrefix | grammars/f1_common.py:50-52 | once a prefix is infinite the whole rule is, which justifies the early return |
| CostAnalysis.LimitFuzzer.ExpansionCost | grammars/f1_common.py:47-53 | the loop's result is the rule's cost under the current `key_cost` |
| CostAnalysis.Entries | grammars/f1_common.py:66-75 | `_cost[k]` holds exactly the finite rules, each paired with its cost |
| CostAnalysis.LimitFuzzer.CostKeyRules | grammars/f1_common.py:65-75 | one key's inner loop lowers `key_cost[k]` and records `_cost[k]` as `PassRules` |
| CostAnalysis.PassRulesFacts | grammars/f1_common.py:66-75 | one key's pass only lowers costs, touches only that key, keeps its cost at most every recorded entry, and records an entry whenever it gives a new cost |
| CostAnalysis.PassRulesUnchanged | grammars/f1_common.py:66-75 | a key pass that changes nothing shows every rule costs at least the key's cost, and records exactly the finite rules |
| CostAnalysis.LimitFuzzer.CostPass | grammars/f1_common.py:62-75 | one pass of the `while changed` loop computes `PassKeys` over the grammar keys |
| CostAnalysis.PassKeysLowers | grammars/f1_common.py:62-75 | a pass only lowers costs, gives costs only to keys it walks, and records a list for every key it walks |
| CostAnalysis.PassKeysAbsorbs | grammars/f1_common.py:62-75 | after a pass each key's cost is at most every entry recorded for it |
| CostAnalysis.PassKeysRealized | grammars/f1_common.py:62-75 | every cost a pass records is the size of some derivation |
| CostAnalysis.PassKeysStable | grammars/f1_common.py:62-78 | a pass whose table is already absorbed by the costs leaves the costs unchanged |
| CostAnalysis.PassKeysUnchanged | grammars/f1_common.py:62-78 | a pass that leaves the costs unchanged certifies a fixed point and records exactly each key's finite rules |
| CostAnalysis.MeasureDecreases | grammars/f1_common.py:61-78 | every change to `key_cost` gives a new key a cost or lowers a cost, so the `while changed` loop terminates |
| CostAnalysis.PassProgress | grammars/f1_common.py:61-78 | one pass keeps costs achievable and absorbing, and either strictly decreases the termination measure or changes nothing |
| CostAnalysis.LowerBound | grammars/f1_common.py:55-58 | at a fixed point no derivation of a symbol is shorter than its cost |
| CostAnalysis.FixpointMinimal | grammars/f1_common.py:55-58 | the costs of the fixed point are exactly the minimum number of characters each key derives |
| CostAnalysis.RuleCostMono | grammars/f1_common.py:47-53 | lowering key costs can only lower a rule's cost |
| CostAnalysis.BuildKids | grammars/f1_common.py:47-53 | a finite rule cost under achievable key costs is matched by derivations of its tokens of at most that size |
| CostAnalysis.StepRuleRealized | grammars/f1_common.py:70-73 | lowering `key_cost[k]` to one of its rule's costs keeps every cost achievable |
| CostAnalysis.SortEntriesCorrect | grammars/f1_common.py:80-82 | `sorted` yields an ascending permutation of the entries |
| CostAnalysis.SortedUnique | grammars/f1_common.py:80-82 | two ascending arrangements of the same entries are equal, so the sorted list is determined |
| CostAnalysis.TieBrokenByRule | grammars/f1_common.py:82 | entries of equal cost are ordered by comparing the rules themselves |
| CostAnalysis.LimitFuzzer.SortCostTable | grammars/f1_common.py:80-83 | every key's list is replaced by its sorted entries |
| CostAnalysis.CostHeadIsKeyCost | grammars/f1_common.py:80-83 | for a productive key the first sorted entry carries exactly `key_cost[k]` |
| CostAnalysis.CostTableShape | grammars/f1_common.py:55-83 | every returned list is sorted; a productive key's list starts at its minimum cost; a key without a finite rule has an empty list |
| CostAnalysis.LimitFuzzer.ComputeCost | grammars/f1_common.py:55-83 | the loop ends at a fixed point whose costs are the minimum derivable lengths, returning the sorted table of finite rules |
| CostAnalysis.LimitFuzzer.constructor | grammars/f1_common.py:34-38 | a fresh analyser holds minimum costs and a sorted table whose lists start at those costs |
| Pool.RulesAt | grammars/f1_c_gen.py:175 | the rules of the entries at a given cost, drawn from the list |
| Pool.RulesOf | grammars/f1_c_gen.py:165 | the rules of a cost list, position by position |
| Pool.CheapRules | grammars/f1_c_gen.py:173-176 | a non-empty list's cheap rules start with its first rule |
| Pool.CheapGrammarSpec | grammars/f1_c_gen.py:170-177 | `cheap_grammar` succeeds exactly when every key has an entry, and then covers exactly the keys |
| Pool.CheapIsPrefix | grammars/f1_c_gen.py:163-177 | the cheap rules are a prefix of the reordered rules, and every later rule costs more |
| Pool.RulesAtPrefix | grammars/f1_c_gen.py:175 | in a sorted list the rules of the lowest cost form a prefix |
| Pool.CheapGrammarCorrect | grammars/f1_c_gen.py:170-177 | on the finished table `cheap_grammar` fails exactly when some key is unproductive; otherwise each cheap rule costs its key's minimum |
| Pool.CheapGrammarErrors | grammars/f1_c_gen.py:176 | the failing assertion names a key with an empty cost list, which happens exactly when some key derives nothing |
| Pool.ReorderSpec | grammars/f1_c_gen.py:163-165 | after the reorder each key lists its cost list's rules, and other entries are untouched |
| Pool.ReorderDropsInfinite | grammars/f1_c_gen.py:163-165 | the reorder drops a key's infinite-cost rules, so its new list is shorter |
| Pool.PooledFuzzer.ReorderRules | grammars/f1_c_gen.py:163-166 | the loop leaves the grammar with every key's rules replaced by its sorted cost list's rules |
| Pool.PooledFuzzer.constructor | grammars/f1_c_gen.py:156-157 | the pooled fuzzer starts from the finished analyser's grammar and tables |
| Pool.KeyId | grammars/f1_c_gen.py:179-180 | `index(k) + 1` is the 1-based position of the first occurrence of `k`, and fails exactly for a missing key |
| Pool.Choose | grammars/f1_c_gen.py:219-222 | `random_product` picks one option per token |
| Pool.TreesForKey | grammars/f1_c_gen.py:182-199 | a non-key yields one terminal leaf; a key yields at most 255 × 255 trees; failures are the recursion limit or an unknown key |
| Pool.TreesForRule | grammars/f1_c_gen.py:201-227 | a rule yields at most `MAX_SAMPLE` trees; an empty product yields none without looking up the key id |
| Pool.Options | grammars/f1_c_gen.py:208 | the subnode possibilities hold one list per token |
| Pool.KeyTreesSound | grammars/f1_c_gen.py:182-227 | every tree returned for a key is a derivation of that key with the right node type and rule id |
| Pool.RuleTreesSound | grammars/f1_c_gen.py:201-227 | every tree of a rule derives the key through that rule |
| Pool.OptionsSound | grammars/f1_c_gen.py:208 | every option for a token derives that token |
| Pool.TreeSound | grammars/f1_c_gen.py:225-226 | a node built over one option per token is a derivation of the key |
| Pool.CompletionTrees | grammars/f1_c_gen.py:228-230 | the pool has an entry for exactly the keys walked |
| Pool.CompletionTreesAt | grammars/f1_c_gen.py:228-230 | with distinct keys, the pool of each key is what `get_trees_for_key` returned for it |
| Pool.PoolTreesMinimal | grammars/f1_c_gen.py:156-168 | pool trees drawn from the cheap grammar derive their key in the reordered grammar and spell exactly its minimum cost |
| Pool.PoolCorrect | grammars/f1_c_gen.py:156-168 | the cheap grammar exists exactly when every key is productive; when the pools are then built, every pool tree of every key is a minimum-size derivation in the reordered grammar |
| Pool.UnitCycleCosts | grammars/f1_c_gen.py:170-177 | the analyser's finished costs give both keys of that grammar the minimum cost 1 |
| Pool.UnitCycleTable | grammars/f1_c_gen.py:163-165 | the finished cost table lists each rule of that grammar at cost 1, in rule order |
| Pool.UnitCycleCheap | grammars/f1_c_gen.py:170-177 | `cheap_grammar` keeps all three rules of that grammar, and so the cycle `<a>` to `<b>` to `<a>` |
| Pool.UnitCycleNeverEnds | grammars/f1_c_gen.py:182-227 | on that cheap grammar `get_trees_for_key` runs out of fuel for both keys, for every fuel and every sample drawn |
| Pool.UnitCyclePoolFails | grammars/f1_c_gen.py:156-168 | for that grammar every key is productive, the cheap grammar exists, and `completion_trees` still fails with the recursion error for every fuel |
| Pool.CheapDerivSize | grammars/f1_c_gen.py:170-177 | any tree built only from cheap rules spells exactly the minimum cost |
| Pool.DerivesInPrefix | grammars/f1_c_gen.py:163-166 | a derivation using only the first rules of each key is a derivation of the full grammar |
| TreeCodec.Latin1Bytes | grammars/f1_c_gen.py:91-97 | a Latin-1 value becomes one byte per character, equal to its code |
| TreeCodec.U32 | grammars/f1_c_gen.py:75-83 | four little-endian bytes that read back as the number |
| TreeCodec.Header | grammars/f1_c_gen.py:74-83 | the header is 16 bytes |
| TreeCodec.ToBytes | grammars/f1_c_gen.py:71-104 | the loop-built encoding is the recursive encoding |
| TreeCodec.EncodeLayout | grammars/f1_c_gen.py:71-104 | the fields sit at offsets 0, 4, 8 and 12, followed by the value and the subnodes' encodings in order |
| TreeCodec.FromBytes | grammars/f1_c_gen.py:106-134 | the loop-based reader is the recursive strict UTF-8 decoder |
| TreeCodec.ReadSubnodes | grammars/f1_c_gen.py:127-132 | the subnode loop reads each subnode from the data after what has been consumed |
| TreeCodec.RoundTrip | grammars/f1_c_gen.py:71-134 | decoding an encoding followed by anything gives the tree back, with the encoding's length consumed |
| TreeCodec.KidsRoundTrip | grammars/f1_c_gen.py:127-132 | a run of subnode encodings laid end to end reads back as those subnodes |
| TreeCodec.AsciiRoundTrip | grammars/f1_c_gen.py:71-134 | `from_bytes(to_bytes(t))` returns `t` whenever every value is ASCII |
| TreeCodec.Latin1RoundTrip | grammars/f1_c_gen.py:71-134 | a Latin-1 reader returns every tree that `to_bytes` accepts |
| TreeCodec.NonAsciiValueLost | grammars/f1_c_gen.py:91-124 | the value "é" encodes to byte 0xE9, which the strict UTF-8 reader rejects |
| TreeCodec.Utf8Ascii | grammars/f1_c_gen.py:124 | ASCII bytes decode as UTF-8 to the same characters |
| TreeCodec.CStr | grammars/f1_c_gen.py:151-153 | every byte becomes a four-character `\xHH` escape |
| TreeCodec.CStrRoundTrip | grammars/f1_c_gen.py:151-153 | parsing the escaped literal gives back exactly the bytes |
| TreeCodec.HexRoundTrip | grammars/f1_c_gen.py:152 | an upper-case hex digit reads back as its value |
| TreeCodec.ToStr | grammars/f1_c_gen.py:136-146 | the loop's text is `Str`: a leaf's value, otherwise the subnodes' texts in order |
| TreeCodec.StrAllAppend | grammars/f1_c_gen.py:144-145 | appending subnodes appends their texts, which makes the `ret +=` loop agree with the recursive text |
| Emitter.GroupCosts | grammars/f1_c_gen.py:305-311 | the first loop lists the distinct costs in ascending order, with the number of rules of each |
| Emitter.ChainOf | grammars/f1_c_gen.py:313-330 | each arm tests the next larger cost and counts the rules in the cheaper groups; the final count is the total |
| Emitter.GenNumCandidateRules | grammars/f1_c_gen.py:304-331 | for every budget at least the minimum cost, the emitted chain yields the number of rules costing at most the budget |
| Emitter.TotalCount | grammars/f1_c_gen.py:305-311 | the groups together count every rule |
| Emitter.CountLePrefix | grammars/f1_c_gen.py:353-358 | on ascending costs the counted rules are a prefix: rule `p` is counted exactly when it costs at most the budget |
| Emitter.FitNonEmpty | grammars/f1_c_gen.py:353-358 | a budget at least the minimum cost admits at least one rule, and every admitted rule fits |
| Emitter.ToU32 | grammars/f1_c_gen.py:536-538 | `int` to `uint32_t` conversion is the identity on non-negative values |
| Emitter.ToI32 | grammars/f1_c_gen.py:536-538 | reading a `uint32_t` back as `int` keeps values up to `INT_MAX` and makes larger ones negative |
| Emitter.MapRandBelow | grammars/f1_c_gen.py:536-538 | `map_rand(v)` lies in `[0, v)`, and is 0 when `v <= 1` |
| Emitter.GetRandomLen | grammars/f1_c_gen.py:540-548 | the loop returns the minimum of the total and `n - 1` draws, and the total itself for at most one subnode |
| Emitter.MinDrawsIsMin | grammars/f1_c_gen.py:540-548 | the result is at most every draw and equals the total or one of the draws |
| Emitter.RandomLenRange | grammars/f1_c_gen.py:540-548 | for a total in `[0, INT_MAX)` the result lies in `[0, total]` |
| Emitter.RandomLenNegative | grammars/f1_c_gen.py:540-548 | a negative total is no bound: a draw converted through `uint32_t` can return less than the total |
| Emitter.StepAccounting | grammars/f1_c_gen.py:282-299 | each token keeps `remaining_len` + the cost of the tokens still to emit + `*consumed` constant |
| Emitter.BodyAccounting | grammars/f1_c_gen.py:272-302 | a rule body ends with `remaining_len + *consumed == max_len` |
| Emitter.RunExact | grammars/f1_c_gen.py:282-299 | with exact children, `*consumed` grows by exactly the text generated |
| Emitter.RunWithin | grammars/f1_c_gen.py:282-299 | from a covering budget every child is offered at least its cost, `remaining_len` never goes negative, and `*consumed` stays within budget |
| Emitter.ChosenRule | grammars/f1_c_gen.py:353-360 | an in-range `rule_index` is taken as given; otherwise the chosen rule costs at most `max_len` |
| Emitter.GenerateWithin | grammars/f1_c_gen.py:340-390 | offered at least its minimum cost, a generator stores a count in `[0, max_len]` when its children do |
| Emitter.GenerateExact | grammars/f1_c_gen.py:340-390 | with the pool branch storing the pool tree's length, every call stores exactly the length it generated |
| Emitter.PoolBranchLosesCount | grammars/f1_c_gen.py:344-351 | as emitted, a pool branch stores nothing, and its parent reports 0 consumed for 2 characters |
| AntlrExport.SanitizedGrammar | grammars/f1_g4_translate.py:37-39 | each key lists its cost table's rules, cheapest first; the key order is unchanged |
| AntlrExport.SanitizedWellFormed | grammars/f1_g4_translate.py:37-39 | the reordered grammar is still well formed over the same keys |
| AntlrExport.SanitizedAscending | grammars/f1_g4_translate.py:37-39 | the alternatives of a reordered key come in ascending cost |
| AntlrExport.GetEntryKey | grammars/f1_g4_translate.py:51-62 | the loop returns exactly the keys no rule mentions, in key order |
| AntlrExport.EntryKeysSpec | grammars/f1_g4_translate.py:51-62 | a key is an entry key exactly when it is a grammar key that no rule of any key mentions |
| AntlrExport.MarkRules | grammars/f1_g4_translate.py:56-60 | marking one key's rules adds exactly the keys they mention |
| AntlrExport.EnterKey | grammars/f1_g4_translate.py:53-60 | one outer iteration keeps the seen-table invariant over the keys walked so far |
| AntlrExport.AntlrKeyShape | grammars/f1_g4_translate.py:66-67 | an ANTLR rule name is `node_` followed by a name free of the characters `to_key` replaces |
| AntlrExport.EscTokenIsMap | grammars/f1_g4_translate.py:69-76 | because the backslash is escaped first, the five replacements act character by character |
| AntlrExport.EscTokenRoundTrip | grammars/f1_g4_translate.py:69-76 | reading the escaped token back as a literal body gives the token |
| AntlrExport.LiteralText | grammars/f1_g4_translate.py:78-81 | a terminal is written as a quoted literal whose body reads back as the terminal |
| AntlrExport.Translate | grammars/f1_g4_translate.py:83-98 | the output is the header, the entry rule, then one block per key in key order, joined by newlines |
| AntlrExport.KeyBlocksSpec | grammars/f1_g4_translate.py:90-97 | block `i` of the output belongs to the `i`-th grammar key |
| Sanitize.ToKeyClean | examples/f1_c_gen.py:32-39 | a sanitised key has no `-`, `[`, `]`, `{` or `}` |
| Sanitize.ToKeyIdentity | examples/f1_c_gen.py:32-39 | a key without those characters or keywords is unchanged |
| Sanitize.ToKeyCollides | examples/f1_c_gen.py:34 | sanitising is not one-to-one: `[` and `Osq` give the same key |
| Sanitize.SymbolsGone | grammars/f1_g4_translate.py:43-45 | before keyword wrapping no special character is left |
| Sanitize.SplitTokens | examples/f1_c_gen.py:44-58 | a key stays one token; any other token splits into its characters |
| Sanitize.SplitTokensConcat | examples/f1_c_gen.py:44-58 | the pieces concatenate back to the token |
| Sanitize.CheapCharsLoop | examples/f1_c_gen.py:348-361 | the loop computes `cheap_chars`, consuming the string from the front |
| Sanitize.CheapCharsRoundTrip | examples/f1_c_gen.py:348-361 | on a Python-escaped string, one piece per raw character: quote and backslash escaped; a line break comes out raw as written and escaped in the corrected table |
| Sanitize.CheapCharsErrors | examples/f1_c_gen.py:354-356 | a trailing backslash and an unknown escape are the two failures |
| Sanitize.BareQuoteUnescaped | examples/f1_c_gen.py:357-358 | as written, a bare quote passes through unescaped, which is not a valid literal body |
| Sanitize.CheapCharsFixedSafe | examples/f1_c_gen.py:348-361 | with the quote and the line breaks escaped, every piece is a valid body of a C character constant: no bare quote, backslash or line break |
| Sanitize.CPiece | examples/f1_c_gen.py:350-361 | a corrected piece is a valid C character-constant body; a raw line break as written is not |
| Sanitize.LineBreakUnescaped | examples/f1_c_gen.py:350 | as written, the escapes `\n` and `\r` become raw line breaks, which a C character constant cannot hold; the corrected table keeps them escaped |
| DepthCost.DepthCostFuzzer.SymbolCost | examples/f1_c_gen.py:94-102 | a memoised cost is returned unchanged; a symbol already on the path is memoised as infinite; otherwise the minimum over its rules is memoised; old entries are kept |
| DepthCost.DepthCostFuzzer.ExpansionCost | examples/f1_c_gen.py:104-106 | one more than the largest cost of the keys the rule mentions, all computed with the same path |
| DepthCost.DepthCostFuzzer.CheapestRule | examples/f1_c_gen.py:99-100 | the minimum of the rules' costs, with the symbol on the path |
| DepthCost.DepthCostFuzzer.ComputeCost | examples/f1_c_gen.py:142-145 | every key's list is `sorted` applied to its rules paired with their expansion costs, which agree with the final memo |
| DepthCost.DepthCostFuzzer.KeyEntries | examples/f1_c_gen.py:143-144 | one key's entries pair each rule with its expansion cost |
| DepthCost.MaxKeys | examples/f1_c_gen.py:105-106 | the maximum is at least the memoised cost of every key the rule mentions |
| DepthCost.MinStep | examples/f1_c_gen.py:99-100 | folding one more rule keeps the minimum consistent with the grown memo |
| DepthCost.RulesCostingSpec | examples/f1_c_gen.py:154 | a rule is kept exactly when its entry has the given cost |
| DepthCost.LegacyCheapRules | examples/f1_c_gen.py:152-155 | an empty list fails; otherwise the cheap rules start with the first entry's rule |
| DepthCost.LegacyCheapGrammar | examples/f1_c_gen.py:149-156 | on success every key gets an entry; the first key without rules is the error |
| DepthCost.LegacyCheapMinimal | examples/f1_c_gen.py:149-156 | on a list in ascending cost the cheap rules are exactly the rules of minimum cost |
| DepthCost.SortByCostCorrect | examples/f1_c_gen.py:143 | `sorted` returns a permutation of the pairs, ascending by cost (infinity last) and then by rule |
| DepthCost.SortByCostUnique | examples/f1_c_gen.py:143 | two ascending arrangements of the same pairs are equal, so the insertion sort is Python's `sorted` |
| DepthCost.LegacyCheapOfTable | examples/f1_c_gen.py:142-156 | on the table `compute_cost` returns, a key's first cost is the smallest expansion cost of its rules, and the kept rules are exactly the rules of that cost |
| DepthCost.LegacyCheapGrammarOfTable | examples/f1_c_gen.py:149-156 | when every key has a rule, `cheap_grammar` succeeds on that table and gives each key its cheap rules |
| StringPool.PairsSpec | examples/f1_c_gen.py:168 | a pair string is exactly one string from each factor, concatenated |
| StringPool.CartesianSpec | examples/f1_c_gen.py:168 | a product string is exactly one string from each list, concatenated |
| StringPool.Sample | examples/f1_c_gen.py:164 | `random.sample` returns `min(MAX_SAMPLE, len(v))` elements of `v` |
| StringPool.StringsForKey | examples/f1_c_gen.py:160-164 | a non-key gives itself; a key gives at most `MAX_SAMPLE` strings; the only failure is the recursion limit |
| StringPool.StringsForRule | examples/f1_c_gen.py:166-169 | a rule gives at most `MAX_SAMPLE` strings |
| StringPool.KeyStringsSound | examples/f1_c_gen.py:160-169 | every string returned for a key is spelt by a derivation of the key |
| StringPool.CompletionStrings | examples/f1_c_gen.py:171-174 | the pool has an entry for exactly the keys walked |
| StringPool.CompletionStringsSound | examples/f1_c_gen.py:171-174 | every pooled string of a key is spelt by a derivation of that key |
| Recursion.RuleRecursiveSound | examples/f1_c_gen.py:307-319 | a positive answer comes with a real chain of rules leading back to the named rule |
| Recursion.RuleRecursionAbandons | examples/f1_c_gen.py:309-316 | a name already seen ends the search with False even when a later token would lead back |
| Recursion.KeyRecursionDirectOnly | examples/f1_c_gen.py:321-330 | as written, `is_key_recursive(k, k, set())` holds exactly when a rule of `k` mentions `k` itself |
| Recursion.MutualRecursionMissed | examples/f1_c_gen.py:321-330 | `<a> ::= <b>`, `<b> ::= <a>`: `<a>` reaches itself, yet the check says it is not recursive |
| Recursion.FixedSound | examples/f1_c_gen.py:321-330 | a positive answer of the corrected search is a path of references from the key to the target |
| Recursion.FixedComplete | examples/f1_c_gen.py:321-330 | the corrected search finds every simple path to the target that avoids the seen keys |
| Recursion.KeyRecursionFixedCorrect | examples/f1_c_gen.py:321-330 | the corrected search holds exactly when the key reaches itself through one or more references |
| Recursion.RuleRecursionTable | examples/f1_c_gen.py:337-341 | the first loop records every rule name with its answer |
| Recursion.KeyRecursionTable | examples/f1_c_gen.py:342-344 | the second loop records every key with its answer |
| Recursion.RecursionTables.ComputeRuleRecursion | examples/f1_c_gen.py:332-344 | after the call both tables cover exactly the rule names and the keys, with their answers |
| CTree.CountSubtrees | src/tree.c:138-151 | a tree's node count is its number of subtrees |
| CTree.LeavesPreorder | src/tree.c:187-214 | the dumped bytes are the values of the childless subtrees in pre-order |
| CTree.AppendCount | src/tree.c:62-77 | appending a child adds its node count |
| CTree.Node.constructor | src/tree.c:6-10 | a fresh node of the given type with no value, parent or children |
| CTree.Node.WithVal | src/tree.c:12-18 | a fresh node holding the given value |
| CTree.Node.SetVal | src/tree.c:49-60 | an empty value changes nothing; otherwise the node holds the new bytes |
| CTree.Node.AppendSubnode | src/tree.c:62-77 | the subnode becomes the last child, its parent is set, and the footprints join |
| CTree.Node.Clone | src/tree.c:79-98 | a fresh deep copy with the same contents and no parent |
| CTree.Equal | src/tree.c:100-136 | equal exactly when both are absent, or both present with equal contents |
| CTree.GetSize | src/tree.c:138-151 | 0 for an absent node, otherwise its subtree's node count |
| CTree.ReplaceSubnode | src/tree.c:153-185 | succeeds exactly when the old child has the new node's type and is a child; then the new node takes its place, but its parent is not set |
| CTree.ReplaceSubnodeLinked | src/tree.c:153-185 | the same replacement, with the new child's parent pointer set |
| CTree.Tree.constructor | src/tree.c:218-220 | no root, depth 0, an empty buffer |
| CTree.Tree.ToBuf | src/tree.c:240-245 | the buffer becomes the leaves' values, left to right |
| CTree.Tree.NodeToBuf | src/tree.c:187-214 | the buffer grows by the node's leaves |
| CTree.TreeClone | src/tree.c:251-262 | a fresh tree with a deep copy of the root, the same depth and an empty buffer |
| CTree.TreeEqual | src/tree.c:264-268 | the same tree, or two present trees with equal roots |
| CTree.CloneIsEqual | tests/test_tree.cpp:212-218 | a cloned tree is equal to its original |
| CTree.ExampleLeaves | tests/test_tree.cpp:206-210 | the test tree dumps `" true"` |
| TreeTrimming.RecursiveTrimming | src/tree_trimming.c:7-44 | at the root edge the result is the tail; otherwise the tail stands where the parent stood |
| TreeTrimming.SubtreeTrimming | src/tree_trimming.c:3-5 | the stub produces no tree |
| TreeTrimming.TrimmingShrinks | src/tree_trimming.c:7-44 | trimming removes at least one node, so the result differs from the input |
| TreeTrimming.ReplaceAtCount | src/tree_trimming.c:33-36 | replacing a subtree trades its nodes for the new subtree's |
| TreeTrimming.AtReplaced | src/tree_trimming.c:33-36 | after the replacement the path leads to the new subtree |
| TreeTrimming.TrimExample | tests/test_tree_trimming.cpp:45-81 | the test tree dumps `{{123}}` and trims to `{123}` |
| DList.List.constructor | src/list.c:6-8 | an empty list |
| DList.Insert | src/list.c:31-53 | an absent list gives nothing; otherwise the data becomes the new head, and also the tail of an empty list |
| DList.Append | src/list.c:55-77 | an absent list gives nothing; otherwise the data becomes the new tail, and also the head of an empty list |
| DList.Remove | src/list.c:79-107 | reports whether the data was present and removes exactly its first occurrence |
| DList.RemoveFirstSpec | src/list.c:79-107 | removal takes out one occurrence when there is one and nothing otherwise |
| DList.Unlink | src/list.c:89-102 | unlinking position `i` removes exactly that node and item and keeps the list valid |
| DList.Relink | src/list.c:89-96 | the neighbours are joined, head and tail move off the node, and its own links are cleared |
| DList.Free | src/list.c:10-29 | every node is cut loose, and the list has no head, no tail and size 0 |
| ChunkStore.AddSubtreeWf | src/chunk_store.cpp:13-37 | adding a subtree keeps each type's list made of seen subtrees of that type |
| ChunkStore.AddOneWf | src/chunk_store.cpp:18-29 | keeping one new subtree keeps the store well formed |
| ChunkStore.AddSubtreeCovers | src/chunk_store.cpp:13-37 | after the walk every non-terminal subtree it reaches is seen |
| ChunkStore.AddSubtreeGrows | src/chunk_store.cpp:13-37 | adding only records more keys |
| ChunkStore.AddCoveredFixed | src/chunk_store.cpp:19 | adding a subtree already fully seen changes nothing |
| ChunkStore.AddSubtreeIdempotent | src/chunk_store.cpp:13-37 | adding the same tree twice is the same as adding it once |
| ChunkStore.TotalUpdate | src/chunk_store.cpp:23-28 | replacing one list changes the total by the difference in lengths |
| ChunkStore.AddTreeExample | tests/test_chunk_store.cpp:58-79 | the test tree leaves two seen chunks and two entries under type 1 |
| ChunkStore.Store.constructor | src/chunk_store.cpp:10-11 | the store starts with no keys and no lists |
| ChunkStore.Store.AddNode | src/chunk_store.cpp:13-37 | nothing for an absent node; otherwise the store's contents become `AddSubtree` of the node's tree |
| ChunkStore.Store.AddTree | src/chunk_store.cpp:39-42 | nothing for an absent tree or root; otherwise the root is added |
| ChunkStore.Store.GetAlternativeNode | src/chunk_store.cpp:44-53 | nothing for an absent node or a type without a list; otherwise a fresh copy of a stored subtree of the same type |
| ChunkStore.Store.Clear | src/chunk_store.cpp:55-63 | the seen keys and the lists are all dropped |
| ChunkStore.Build | src/chunk_store.cpp:20 | a fresh node tree spanning the given subtree |
| CUtils.StrRStr | src/utils.c:101-124 | the downward scan returns the as-written search result |
| CUtils.StrRStrMissesStart | src/utils.c:101-124 | the search as written differs from the corrected one only by missing a match at offset 0 |
| CUtils.StrRStrWholeString | src/utils.c:101-124 | with haystack and needle both `"a"`, the search as written finds nothing, though there is a match at offset 0 |
| CUtils.StrRStrCorrected | src/utils.c:101-124 | the scan with the bound corrected returns the last occurrence |
| CUtils.StrRStrFixedMeaning | src/utils.c:101-124 | the corrected search finds a non-empty needle exactly when it occurs, and at its last occurrence |
| CUtils.LastFromMeaning | src/utils.c:112-121 | the downward scan finds the last occurrence in its range, and reports none only when there is none |
| CUtils.Rotl27Injective | src/utils.c:128-150 | the 27-bit rotation is one-to-one on 64-bit words |
| CUtils.Rotl27Swaps | src/utils.c:128 | the rotation swaps the high 27 bits and the low 37 bits |
| CUtils.Rng.Next | src/utils.c:145-153 | returns the old first word and advances the state by one romuDuoJr step modulo 2^64 |
| CUtils.Rng.RandomBelow | src/utils.c:172-189 | 0 without a draw for a limit of at most 1; otherwise the successive `random_next` results are drawn, every one before the last rejected at the threshold, and the last, reduced modulo the limit, returned; the state is the one after those draws |
| CUtils.Draws | src/utils.c:145-153 | the `i`-th draw is the first word of the state after `i` steps |
| CUtils.DrawsSplit | src/utils.c:145-153 | drawing `j` words and then `k` more is drawing `j + k`: draws depend only on the starting state |
| CUtils.ThresholdUnbiased | src/utils.c:185-187 | the accepted draws are a whole number of runs of `limit`, so every result is equally likely, and at most `limit` values (`UINT64_MAX % limit + 1`) are rejected |
| GrammarMutator.Mutator.constructor | src/grammar_mutator.c:20-34 | a zeroed mutator over an empty chunk store |
| GrammarMutator.Mutator.Deinit | src/grammar_mutator.c:36-51 | the trees are dropped, the stage and step counters zeroed, and the chunk store emptied |
| GrammarMutator.Mutator.QueueGet | src/grammar_mutator.c:53-147 | the current tree is dropped; the first call fails without a directory containing `/queue`; a failed rewrite gives 0; a missing tree file gives 1 with no tree; otherwise the stored tree becomes current; the output buffer is unchanged |
| GrammarMutator.Dir | src/grammar_mutator.c:66-74 | the name up to its last `/`, or none when it has no `/` |
| GrammarMutator.FindFrom | src/grammar_mutator.c:105-110 | the first offset at or after `i` where the pattern occurs, or none when it never does |
| GrammarMutator.CStr | src/grammar_mutator.c:104-115 | the C string in a buffer is its prefix before the first NUL |
| GrammarMutator.CopyInto | src/grammar_mutator.c:104 | `strncpy` of `strlen(fn)` characters overwrites the buffer's start with the name, and nothing else |
| GrammarMutator.WriteTrees | src/grammar_mutator.c:112 | the five characters after the slash become `trees` |
| GrammarMutator.CopyAndRewrite | src/grammar_mutator.c:104-112 | as written: the name is copied without a terminator, then its first `/queue/` is rewritten to `/trees/`; it fails when there is none |
| GrammarMutator.RewriteAfterTerminator | src/grammar_mutator.c:104-112 | when a NUL follows the copied name, the rewrite yields exactly the intended `/trees/` name |
| GrammarMutator.StaleTail | src/grammar_mutator.c:104-112 | after `/queue/ab`, the name `/queue/a` rewrites to `/trees/ab` instead of `/trees/a` |
| GrammarMutator.CopyAndRewriteTerminated | src/grammar_mutator.c:104-112 | with the terminator copied, the buffer names the intended `/trees/` file, and fails exactly when the name has no `/queue/` |
| GrammarMutator.RewriteTerminatedIntended | src/grammar_mutator.c:104-112 | copying the terminator gives the intended name whatever the buffer held before |
| GrammarMutator.Mutator.InitTrim | src/grammar_mutator.c:150-168 | no change and 0 without a current tree; otherwise the lists, stage 0 and the step totals are set, and the sum of the totals is returned as `int32_t`; the output buffer and the directory flag are unchanged |
| GrammarMutator.Mutator.Trim | src/grammar_mutator.c:170-213 | stage 0 pops a node and faults on the stub's missing tree; stage 1 pops an edge and returns the leaves of the recursively trimmed tree; other stages return no buffer; the directory flag is unchanged, and so is the output buffer in stage 0 |
| GrammarMutator.Mutator.TrimAtEdge | src/grammar_mutator.c:181-187 | the first edge is popped, the step counted, and the trimmed tree is smaller than the current one; the output buffer holds its bytes and the directory flag is unchanged |
| GrammarMutator.Mutator.PostTrim | src/grammar_mutator.c:215-262 | a missing trimmed tree, or on success a missing current tree, is the `NULL` dereference, with nothing changed; otherwise on success the trimmed tree is written and becomes current, and the steps advance by the shrinkage of the lists; the stage moves on by `NextStage`; the returned sum is converted to `int32_t`; the output buffer and the directory flag are unchanged |
| GrammarMutator.Mutator.Adopt | src/grammar_mutator.c:216-242 | the trimmed tree is written under the current file name and adopted; the steps grow by what the lists lost, modulo 2^64; the output buffer and the directory flag are unchanged |
| GrammarMutator.DropFront | src/grammar_mutator.c:232-233 | popping `count` times leaves the list without its first `min(count, size)` items |
| GrammarMutator.NextStage | src/grammar_mutator.c:249-259 | the stage never decreases and never passes 2; 0 moves on exactly when the subtree steps are done; reaching 2 needs the recursive steps done too |
| GrammarMutator.Int32 | src/grammar_mutator.c:166-167 | the `int32_t` result is congruent to the sum modulo 2^32 and lies in its range |
| GrammarMutator.Mutator.Fuzz | src/grammar_mutator.c:266-330 | without a tree the generated one is used and the choice is -1; otherwise the choice is `draw % 3`; a failed mutation returns 0; otherwise the output is the tree's leaves cut to `max_size` (a failed mutation leaves the output buffer alone); the directory flag is unchanged |
| GrammarMutator.Mutator.QueueNewEntry | src/grammar_mutator.c:333-365 | nothing for an entry not from the queue; otherwise the mutated tree is stored under the rewritten name, added to the chunk store and dropped; the output buffer and the directory flag are unchanged |
| GrammarMutator.StoreTree | src/grammar_mutator.c:360 | the chunk store's contents become `AddSubtree` of the tree |

## Left out

- I/O is not modelled. In the compiler this covers reading the grammar JSON and
  writing the generated C, header and ANTLR files. In the runtime it covers
  `open`/`fstat`/`mmap`, `write_tree_to_file`, `stat`/`mkdir` of the tree
  directory, and `create_directory`/`remove_directory` in `src/utils.c`.
  - Tree files are a map from file names to trees; a file that does not
    deserialise is a `None` entry.
  - The outcome of the directory check is the `dirReady` parameter of
    `QueueGet`.
  - `tree_serialize`/`tree_deserialize` are not part of this model. Their
    Python counterparts `to_bytes`/`from_bytes` are modelled in `TreeCodec`.
- Randomness is a parameter and is not simulated:
  - Python's Mersenne Twister becomes index draws;
  - `srandom`/`random()` in `afl_custom_init`/`afl_custom_fuzz` become `draw`;
  - `random_set_seed`, which hashes with XXH64, is not modelled: `Rng` starts
    from the given state;
  - the 32-bit RomuTrio generator of the non-64-bit build is not modelled;
  - only the romuDuoJr generator of the 64-bit build is modelled.
- CUtils.Rng.RandomBelow: gives up after `budget` draws with `None`, because
  the source's rejection loop has no bound that can be proved.
- The tree mutations are parameters of `Fuzz`:
  - `random_mutation`, `random_recursive_mutation` and `splicing_mutation` are
    stubs in `src/tree_mutation.c`, so the mutated tree (or its failure) is the
    `mutated` parameter;
  - `gen_init__(1000)` is generated C code, so its tree is the `generated`
    parameter.
- `tree_get_non_terminal_nodes` and `tree_get_recursion_edges` are not part of
  this model. Their results are the `nonTerms`/`edges` parameters of
  `InitTrim` and `PostTrim`, and the node's counters are `nonTermSize`/`edgeSize`.
- `list_pop_front` and `list_get` are not in `src/list.c`. Popping is a
  sequence tail in `Mutator`.
- Allocation failure (`malloc`, `calloc`, `maybe_grow`, `strndup`) and freeing
  are not modelled. `list_free`'s data-freeing callback is not modelled either:
  `Free` clears the links only.
- Stage 0 of `afl_custom_trim` dereferences the `NULL` returned by the
  `subtree_trimming` stub. `Trim` reports this as `Fault`. A stage-1 call with
  no tree or no edge also dereferences `NULL`, and is `Fault` with no change.
  `afl_custom_post_trim` frees or serialises a `NULL` trimmed tree, or reads a
  `NULL` current tree on success; `PostTrim` returns `None` there, with no change.
- GrammarMutator.Mutator.QueueNewEntry: requires a mutated tree when the entry
  comes from the queue and the rewritten name has a `/queue/`, because the
  source dereferences `mutated_tree` on exactly that path. The `NULL`
  dereference of a missing mutated tree there is not modelled as an outcome.
- `filename_cur` is not kept, because nothing in the core reads it.
- The `int i` counter of the pop loop in `afl_custom_post_trim` is not modelled
  as `int`: `DropFront` counts with the 64-bit step counter, because a step
  count above `INT_MAX` is out of reach for a parse tree in memory.
- CTree.ReplaceSubnode: requires that the new node is not already a child of
  the root. The source does not check this, but then the result shares a node
  twice and is no longer a tree.
- CTree.Node.AppendSubnode: on a node below another one, the ancestors' ghost
  `Model` is not refreshed. Only the node's own model is stated; the mutator
  builds trees bottom-up, so this does not arise in the core.
- CTree.GetSize: the `size_t` total is an unbounded count, with no wrap-around.
- TreeTrimming.RecursiveTrimming: modelled on tree values. The source
  temporarily relinks the parent pointers and restores them after the clone;
  the restored tree is unchanged, and the aliasing in between is not modelled.
- The chunk store keeps subtrees as values, not as cloned node graphs. The key
  `buffer(node)` is the subtree value itself (the definition of `buffer` is
  not part of this model).
  - ChunkStore.Store.GetAlternativeNode: the returned node is a fresh copy of a
    stored value, so the aliasing of the stored clone is not modelled.
- Pool.TreesForKey / StringPool.StringsForKey: recursion is bounded by `fuel`.
  Running out is the `RecursionLimit` error, which stands for Python's
  recursion limit. The limit is reached whenever the cheap grammar keeps a
  cycle of rules, and a productive grammar can do that: `Pool.UnitCyclePoolFails`
  shows it for `<a> ::= <b>`, `<b> ::= <a> | x`, where every rule costs one
  character. The older compiler's pool fails the same way on such a cycle;
  that case is not proved separately.
- Emitter: the emitted C is modelled by its meaning (`Generate`, `Body`,
  `GetRandomLen`), not as text. The layout of the generated files is not
  modelled: the headers, arrays of function pointers, `node_type_str_defs`,
  `node_cost_array_defs`, `node_num_rules_array_defs`, `ser_tree_pool_defs`
  and `gen_fuzz_hdr`.
- The older emitter's text in `examples/f1_c_gen.py` is not modelled: the
  Python/C `gen_rule_src`, `gen_alt_src`, `string_pool_defs`, `esc`/`esc_char`
  and the `main` layout. Its string pools, recursion tables and `cheap_chars`
  are modelled.
- `kr_to_s` is modelled as the pair (key, rule index). Two different pairs
  whose C names collide after `k_to_s` are therefore kept apart.
- The `IS_HTML` branch of `compute_rule_recursion` is not modelled, because
  `IS_HTML` is a constant that is false.
- `Sanitize.to_rule`/`translate` and `CTrans.split_tokens` in
  `examples/f1_c_gen.py` are not modelled, beyond `split_tokens`. The `esc`
  table there maps every character to itself, so splitting is the identity on
  characters.
- Python floats: `float("inf")` is the `Inf` constructor of `Cost`. Costs are
  unbounded naturals, with no float rounding.
- `LimitFuzzer.fuzz`/`gen_key`/`gen_rule` in `examples/f1_c_gen.py` are not
  modelled, because they only print generated strings; their cost tables are
  modelled.
- The C fuzzer's 32-bit `int` overflow of `max_len` arithmetic is not modelled
  beyond `Emitter.ToI32`/`ToU32`: the model assumes budgets below `INT_MAX`
  where stated.

## Findings

| source | as written | input that shows it | evidently intended | confidence | as-written member | corrected member |
|---|---|---|---|---|---|---|
| grammars/f1_c_gen.py:91-124 | `to_bytes` writes values as Latin-1, `from_bytes` reads them as UTF-8 | a leaf whose value is "é" (byte 0xE9) | the two sides use the same encoding, so every encoded tree reads back | high; not executed | TreeCodec.NonAsciiValueLost | TreeCodec.Latin1RoundTrip |
| grammars/f1_c_gen.py:344-351 | the pool branch declares its own `size_t consumed` and never stores into `*consumed` | `<p>` with `max_len` 1 and `rule_index` 1 calling `<c>`, whose minimum cost is 2 | the pool branch stores the length of the pool tree it returns | high; not executed | Emitter.PoolBranchLosesCount | Emitter.GenerateExact |
| examples/f1_c_gen.py:321-330 | the callee is passed `seen` already holding itself, so it stops at once: only direct recursion is found | `<a> ::= <b>`, `<b> ::= <a>` | `is_key_recursive(k, k, set())` holds exactly when `k` reaches itself | high; not executed | Recursion.MutualRecursionMissed | Recursion.KeyRecursionFixedCorrect |
| examples/f1_c_gen.py:357-358 | `"\'"` is the one-character string `'`, so a quote reaches the C literal unescaped | the string `'` | the quote piece is `\'` | high; not executed | Sanitize.BareQuoteUnescaped | Sanitize.CheapCharsFixedSafe |
| examples/f1_c_gen.py:350 | the `escaped` table maps `n` and `r` to a raw new-line and carriage return, which a C character constant cannot hold | the string `\n` (a backslash and `n`) | the piece is the escape `\n` | high; not executed | Sanitize.LineBreakUnescaped | Sanitize.CheapCharsFixedSafe |
| src/utils.c:101-124 | the scan stops before offset 0 | haystack `"a"`, needle `"a"` | the last occurrence, including one at offset 0 | high; not executed | CUtils.StrRStrWholeString | CUtils.StrRStrFixedMeaning |
| src/grammar_mutator.c:104-112 | `strncpy(buf, fn, strlen(fn))` copies no terminator into a reused buffer (again at line 341) | `/queue/ab`, then `/queue/a` | the buffer holds `/trees/a` | high; not executed | GrammarMutator.StaleTail | GrammarMutator.CopyAndRewriteTerminated |
| src/tree.c:153-185 | the replacing node's `parent` is not set | replace a child by a fresh node, then follow its parent pointer | the new child points back to the root, as after `node_append_subnode` | medium; not executed | CTree.ReplaceSubnode | CTree.ReplaceSubnodeLinked |
