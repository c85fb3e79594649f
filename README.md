# Boolean-function minimiser and companions, modelled in Dafny

This project models a collection of small Python programs: a Boolean-function minimiser, which is
the largest part, and a few companions around it.

The minimiser comes in two variants:
- `LR_4/logical_function.py` glues terms to a fixpoint. It has a second, Karnaugh-flavoured path.
- `LR_3/logical_function.py` glues terms grouped by weight. It also searches the Karnaugh map
  geometrically.

Both take a function of `n` variables given by its truth values. Row `i` assigns the bits of `i`,
most significant first, to the variables. The minterms are the encodings of the true rows and the
maxterms those of the false rows. Prime implicants are found by gluing terms that differ in one
position. A coverage table then selects an essential subset, and the chosen implicants are printed
as a DNF (`v`, `!v`, " & ", " | ") or a CNF (parenthesised " | " clauses joined by " & ").

A term is a sequence of `Trit`s: `Zero`, `One` or `DC`. `DC` stands for both don't-care markers
the source uses: `None` in the gluing code and `'-'` in the Karnaugh code. A truth table is a
`seq<bool>` of `2^n` entries. The source joins its output clauses in the iteration order of a
Python `set`, which is unspecified. Each result is therefore stated as a join of *some* ordering
of the set of rendered clauses. The loops that iterate over sets are specified to work for every
enumeration order.

Modules:
- **Terms**, **Cover**, **Rendering** and **Selection** are shared. `Terms` holds terms, minterm
  encoding and covering. `Cover` says what it means for implicants to represent a function.
  `Rendering` holds the clause printers. `Selection` holds the coverage-table selector, which is
  written identically in both source files.
- **Lr4Gluing**, **Lr4Minimise**, **Lr4Karnaugh** and **Lr4KmapMinimise** model the LR_4
  minimiser.
- **Lr3Gluing**, **Lr3Minimise**, **Lr3Groups**, **Lr3Karnaugh**, **Lr3KmapSearch** and
  **Lr3KmapMinimise** model the LR_3 minimiser. Its gluing keys the first round by the number of
  ones and later rounds by the number of fixed positions. After one round all terms share a key, so
  as written it stops after one round of gluing; the model keeps that behaviour.
- **Text**, **BitStrings**, **Enumerations** and **Sorting** are small helpers. They cover Python
  string joins, decimal and binary numerals (`str` and `int(s, 2)`), set enumeration, and the stable
  `list.sort`.

The companions are modelled with the same care:
- **RpnConverter**, **VariableManagers**, **TruthTableGenerator** and **LogicalExpressions** model
  the LR_2 front end that LR_3 and LR_4 import (`LR_4/LR_2`, `LR_3/LR_2`). It converts an infix
  formula over `!`, `&`, `|`, `->` and `~` to postfix with a shunting-yard loop. It tabulates its
  variables in first-appearance order and evaluates the postfix row by row, keeping one column per
  operator ("step_k (op)"). From the final column it prints the perfect DNF and CNF, their numeric
  forms and the index form. **BoolExprs** is a reference formula datatype. Its `Infix` and
  `Postfix` texts connect the converter and the evaluator to the formula's meaning. **OrderedDicts**
  models Python's insertion-ordered `dict` as a sequence of distinct keys.
- **Lr4Subtractor** models `LR_4/part_1.py`: the truth table of a one-bit full subtractor (inputs A,
  B, borrow-in C; difference D, borrow-out P) and `build_sdnf`.
- **Lr5Compare** models `compare_dicts` of `LR_5/lr_5.py`. It computes the excitation columns h of
  a counter by comparing each state bit with its next value.
- **Lr1BinaryConverter**, **Lr1DecimalConverter** and **Lr1BinaryCalculator** model LR_1's integer
  codes: sign-magnitude ("direct"), ones' complement ("reverse") and two's complement
  ("additional"). They cover the decoders back to whole numbers and the string arithmetic on
  codes: addition and subtraction in two's complement, and multiplication, long division and
  comparison in sign-magnitude. They also cover the sum of two positive IEEE-754 binary32 bit
  patterns, which works on strings only.
- **Lr6HashTable** models `LR_6/hash_table.py`: an open-addressing table with linear probing. Its
  keys are hashed from their first two characters, which must upper-case to Russian capitals, and
  it doubles at load factor 0.7.
- **Lr7Word** and **Lr7Matrix** model LR_7's 16-bit word with fields V, A, B and S, and the 16×16
  matrix that stores sixteen words along shifted diagonals. The matrix applies bitwise functions,
  searches by value and adds fields. `search_interval` keeps the words strictly between its bounds,
  as its code does, although its docstring writes the interval as closed; `SearchIntervalCorrected`
  keeps the closed interval (see Findings).

## Model

| member | source | states |
|---|---|---|
| Terms.EncodeBit | LR_4/logical_function.py:49-54 | position k of the n-bit encoding of row i is bit n-1-k of i, `(i >> (n-k-1)) & 1` |
| Lr4Gluing.MintermToBinary | LR_4/logical_function.py:49-54 | the append loop builds exactly the MSB-first n-bit encoding of the index |
| Terms.TermValueOfEncode | LR_4/logical_function.py:395 | reading an n-bit encoding back as a binary number gives the row index modulo 2^n |
| Terms.EncodeOfTermValue | LR_4/logical_function.py:169-171 | encoding the value of a full term gives the term back |
| Terms.EncodeInjective | LR_4/logical_function.py:49-54 | distinct rows below 2^n have distinct encodings |
| Terms.TrueIndicesCorrect | LR_4/logical_function.py:36 | the listed indices are exactly the true entries, strictly increasing |
| Terms.TrueIndicesAll | LR_4/logical_function.py:257 | every index is listed exactly when every entry is true |
| Terms.TrueIndicesNone | LR_4/logical_function.py:250 | no index is listed exactly when every entry is false |
| Terms.MintermsExact | LR_4/logical_function.py:27-47 | the encoding of row i is a minterm iff row i is true, and a maxterm iff it is false |
| Terms.MintermsShape | LR_4/logical_function.py:27-47 | every minterm and maxterm is a full term of n positions |
| Terms.AllDCCoversEverything | LR_4/logical_function.py:159-163 | the all-don't-care implicant covers every term |
| Terms.CoversTransitive | LR_4/logical_function.py:159-163 | covering is transitive |
| Cover.ExactCover | LR_4/logical_function.py:261-262 | implicants of the minterms that cover every minterm cover exactly the true rows of a full table |
| Cover.ImplicantOfFullTerms | LR_4/logical_function.py:159-163 | a full row covered by an implicant of full terms is one of those terms |
| Lr4Gluing.GlueTerms | LR_4/logical_function.py:76-88 | the loop returns the reference gluing `Glue`: a term exactly when DC meets DC and one position differs |
| Lr4Gluing.GlueDifference | LR_4/logical_function.py:76-88 | a glued pair differs at exactly one position, fixed in both, and the result is DC there and equal elsewhere |
| Lr4Gluing.GlueAt | LR_4/logical_function.py:76-88 | terms that agree except at one position where both are fixed glue to that position set to DC |
| Lr4Gluing.GlueRejectsMisalignedDC | LR_4/logical_function.py:82-83 | a DC against a fixed value makes gluing fail |
| Lr4Gluing.DiffCountZero | LR_4/logical_function.py:76-88 | identical terms (no difference) do not glue: the count of differences is 0 iff they are equal |
| Lr4Gluing.GlueFacts | LR_4/logical_function.py:76-88 | the glued term has the same length, covers both inputs and has one fixed position fewer |
| Lr4Gluing.GlueSound | LR_4/logical_function.py:76-88 | a row covered by the glued term is covered by one of the two inputs |
| Lr4Gluing.GluePrimeSet | LR_4/logical_function.py:90-114 | the fixpoint loop yields implicants of the terms that cover all of them; a lone term comes back unchanged; for the always-true function the only prime is all don't-care |
| Lr4Gluing.GetPrimeImplicants | LR_4/logical_function.py:90-116 | the listed primes are distinct, imply the terms and cover each; a lone term gives itself; all rows give the all-don't-care term |
| Lr4Gluing.RoundPreservesImplicants | LR_4/logical_function.py:100-108 | a gluing round produces only implicants of the terms |
| Lr4Gluing.RoundPreservesCoverage | LR_4/logical_function.py:100-114 | a round loses no coverage: new terms plus unused terms cover what the round's input covered |
| Lr4Gluing.GluedLayer | LR_4/logical_function.py:100-108 | gluing all terms with k fixed positions yields all terms with k-1, and uses every input |
| Lr4Gluing.AllRowsRound | LR_4/logical_function.py:95-114 | on a complete layer a round produces the next layer with no new prime, or ends with the all-don't-care prime |
| Lr4Gluing.FixedCountFull | LR_4/logical_function.py:159-163 | a term is full iff all positions are fixed |
| Selection.BuildCoverage | LR_4/logical_function.py:119-123 | the coverage table maps each term to the ascending indices of the primes covering it, once per occurrence of the term |
| Selection.EssentialPasses | LR_4/logical_function.py:125-142 | the passes end with every sole coverer taken and the remaining terms exactly those the taken primes miss |
| Selection.GreedyCompletion | LR_4/logical_function.py:144-155 | after the greedy completion, no remaining term is covered by any prime |
| Selection.SelectEssentialPrimes | LR_4/logical_function.py:118-157 | the selection is drawn from the primes, contains every prime that alone covers a term, and covers every term some prime covers; LR_3/logical_function.py:116-164 is the same selector |
| Sorting.SortCorrect | LR_4/logical_function.py:146 | the stable sort by descending coverage yields a sorted permutation of the candidates |
| Sorting.InsertTiedWith | LR_4/logical_function.py:146 | inserting y into a sorted list places it after every element tied with it, so the tied elements keep their order with y last |
| Sorting.SortStable | LR_4/logical_function.py:146 | the sort is stable: for every x, the elements tied with x come out in the order they had in the input |
| Rendering.ProductLiteralsFixed | LR_4/logical_function.py:56-63 | each product literal sits at a fixed position: `v` for 1, `!v` for 0 |
| Rendering.ProductLiteralsOrdered | LR_4/logical_function.py:58-62 | literals appear in variable order |
| Rendering.ProductLiteralsComplete | LR_4/logical_function.py:58-62 | every fixed position yields a literal |
| Rendering.ProductLiteralsCount | LR_4/logical_function.py:56-63 | there are as many product literals as fixed positions |
| Rendering.ClauseMeaning | LR_4/logical_function.py:56-74 | a product clause holds on a row iff the implicant covers it; a sum clause holds iff it does not; LR_3/logical_function.py:48-67 prints clauses the same way |
| Rendering.ProductLiteralsEmpty | LR_4/logical_function.py:63 | there are no product literals (and the text is "1") iff every position is DC |
| Rendering.SumLiteralsEmpty | LR_4/logical_function.py:74 | there are no sum literals (and the text is "1") iff every position is DC |
| Rendering.AllDCClauses | LR_4/logical_function.py:56-74 | every renderer prints the all-don't-care implicant as "1" |
| Lr4Minimise.PrimesThenSelect | LR_4/logical_function.py:261-262 | the chosen implicants imply and cover the terms; none is chosen only for an empty term list |
| Lr4Minimise.MinimizeSdnfCalculus | LR_4/logical_function.py:248-270 | "0" without minterms, "1" when all 2^n rows are minterms, otherwise a " \| " join of the clause texts of a selection that represents the on-set of a full table |
| Lr4Minimise.MinimizeSknfCalculus | LR_4/logical_function.py:272-287 | "1" without maxterms, otherwise a " & " join of clauses of a selection representing the off-set; "1" also for an always-false table |
| Lr4Minimise.MinimizeSknfCalculusCorrected | LR_4/logical_function.py:272-287 | with the guard the DNF side has, the CNF text is "0" exactly for the always-false and "1" exactly for the always-true table |
| Lr4Minimise.MinimizeSdnfTable | LR_4/logical_function.py:289-334 | "0" without minterms, otherwise a " \| " join of clauses of a selection representing the on-set; "1" for the always-true table |
| Lr4Minimise.MinimizeSknfTable | LR_4/logical_function.py:336-391 | "1" without maxterms, otherwise a " & " join of clauses of a selection representing the off-set; "1" also for an always-false table |
| Lr4Minimise.SdnfRowMeaning | LR_4/logical_function.py:268-270 | read as a disjunction of products, a selection representing the on-set is true exactly on the true rows |
| Lr4Minimise.SknfRowMeaning | LR_4/logical_function.py:285-287 | read as a conjunction of sums, a selection representing the off-set is true exactly on the true rows |
| Lr4Minimise.SknfAllFalseAsWritten | LR_4/logical_function.py:272-287 | for the always-false function the all-don't-care term implies and covers every maxterm, yet its clause text is "1" |
| Lr4Minimise.MaxtermsCount | LR_4/logical_function.py:273 | no maxterms iff always true; 2^n maxterms of a full table iff always false |
| Lr4Karnaugh.GenerateGrayCodes | LR_4/logical_function.py:165-167 | there are 2^k codes `i ^ (i >> 1)` |
| Lr4Karnaugh.GrayCodesPermutation | LR_4/logical_function.py:165-167 | the codes are a permutation of 0..2^k-1 whose neighbours differ in exactly one bit |
| Lr4Karnaugh.GrayCodesTwoBits | LR_4/logical_function.py:165-167 | for two bits the codes are [0, 1, 3, 2] |
| Lr4Karnaugh.GrayNeighbours | LR_4/logical_function.py:167 | consecutive codes differ in one bit |
| Lr4Karnaugh.GrayOfInverse | LR_4/logical_function.py:167 | every code value is the code of some index (the inverse Gray map) |
| Lr4Karnaugh.GrayInjective | LR_4/logical_function.py:167 | distinct indices have distinct codes |
| Lr4Karnaugh.ConvertRoundTrip | LR_4/logical_function.py:169-171 | converted terms are full n-bit terms whose value is the input integer below 2^n, and converting a term's value gives the term back |
| Lr4Karnaugh.TryMergeImplicants | LR_4/logical_function.py:173-185 | the early-exit loop returns the reference merge: a term with '-' exactly where the pair differs, when it differs in exactly one position |
| Lr4Karnaugh.MergeIsGlueWhenAligned | LR_4/logical_function.py:173-185 | where DC never meets a value, merging agrees with `_glue_terms` |
| Lr4Karnaugh.MergeEqualFixed | LR_4/logical_function.py:173-185 | terms with equal fixed counts merge only as `_glue_terms` would |
| Lr4Karnaugh.KmapRoundImplicants | LR_4/logical_function.py:200-207 | merged terms keep implying the minterms |
| Lr4Karnaugh.KmapRoundCoverage | LR_4/logical_function.py:200-212 | a round loses no coverage |
| Lr4Karnaugh.KmapLayerRound | LR_4/logical_function.py:196-216 | on a complete layer a round yields the next complete layer and uses every term, or ends at the all-don't-care term |
| Lr4Karnaugh.FindPrimeImplicantsKmap | LR_4/logical_function.py:187-218 | the rounds yield implicants covering every minterm; a lone minterm comes back unchanged; for the always-true function only the all-don't-care term remains |
| Lr4KmapMinimise.IsCoveringIsCovers | LR_4/logical_function.py:220-222 | on a term no longer than the implicant, `_is_covering` is `_covers` |
| Lr4KmapMinimise.ArgMax | LR_4/logical_function.py:240-242 | Python's `max` picks the first index of the largest key |
| Lr4KmapMinimise.SelectEssentialPrimesKmap | LR_4/logical_function.py:224-246 | the result is a subset of the primes containing every sole coverer and covering every minterm; no minterms give no primes |
| Lr4KmapMinimise.ConvertTermValues | LR_4/logical_function.py:395-398 | converting the terms' integers back gives the terms |
| Lr4KmapMinimise.MinimizeWithKmap | LR_4/logical_function.py:393-419 | ValueError exactly for no variables and some terms; otherwise distinct selected implicants represent the on-set (DNF) or off-set (CNF), none are selected iff there are no terms, and the text is "0"/"1" or the join of parenthesised clauses; "1" for either constant table |
| Lr4KmapMinimise.MinimizeWithKmapCorrected | LR_4/logical_function.py:393-419 | with an always-false guard for the CNF, the text is "0" exactly for the always-false and "1" exactly for the always-true table over at least one variable |
| Lr4KmapMinimise.KmapConstantSelection | LR_4/logical_function.py:399-400 | on a constant table whose rows are all terms, the only selected implicant is all don't-care |
| Lr3Gluing.StrLeIsPreorder | LR_3/logical_function.py:7 | the string order `sorted` uses is total, transitive and antisymmetric |
| Lr3Gluing.SortedVariablesCorrect | LR_3/logical_function.py:7 | the stored variables are in ascending string order and are a permutation of the given ones |
| Lr3Gluing.BuildTruthTable | LR_3/logical_function.py:13-23 | there are 2^n rows and row i pairs the MSB-first assignment of i with the function's value on it |
| Lr3Gluing.TruthTableRows | LR_3/logical_function.py:13-23 | every full assignment occurs in exactly one row |
| Lr3Gluing.RowsWhereMinterms | LR_3/logical_function.py:40-46 | the assignments whose result is 1 (0) are exactly the minterms (maxterms) of the truth values, in row order |
| Lr3Gluing.FullGlue | LR_3/logical_function.py:88-95 | two full terms one position apart glue to the first with that position made don't-care |
| Lr3Gluing.FirstRoundFacts | LR_3/logical_function.py:84-99 | every term the first round glues comes from two input terms and has exactly n-1 fixed positions |
| Lr3Gluing.UsedNeedsGlued | LR_3/logical_function.py:95-99 | a round that glues nothing marks nothing as used |
| Lr3Gluing.SecondRoundGluesNothing | LR_3/logical_function.py:81-107 | after the first round every group key is n-1, no key k+1 exists, and the second round glues and uses nothing |
| Lr3Gluing.GluePrimeSetLr3 | LR_3/logical_function.py:69-114 | the while loop returns the closed-form prime set: first-round terms that glued with nothing, plus every first-round glued term |
| Lr3Gluing.PrimeSetShape | LR_3/logical_function.py:69-114 | every prime has n positions and at least n-1 of them fixed; for n >= 2 the all-don't-care term is never prime |
| Lr3Gluing.PrimeSetImplicants | LR_3/logical_function.py:69-114 | every prime implies the terms |
| Lr3Gluing.PrimeSetCovers | LR_3/logical_function.py:69-114 | every term is covered by some prime |
| Lr3Gluing.PrimeSetSingleton | LR_3/logical_function.py:69-114 | a lone term is its own only prime |
| Lr3Gluing.GetPrimeImplicants | LR_3/logical_function.py:69-114 | the list holds each prime once; primes have n positions, at least n-1 fixed, imply the terms and cover each; a lone term gives itself |
| Lr3Minimise.PrimesThenSelect | LR_3/logical_function.py:186-187 | the selected primes imply and cover the terms; something is selected whenever there are terms |
| Lr3Minimise.MinimizeSdnfCalculus | LR_3/logical_function.py:173-195 | "0" without minterms, "1" when all 2^n rows are minterms, otherwise a " \| " join of the product texts of a selection that represents the on-set of a full table |
| Lr3Minimise.MinimizeSknfCalculus | LR_3/logical_function.py:197-212 | "1" without maxterms, otherwise a " & " join of sum texts of a selection representing the off-set; parenthesised from two variables on; "1" for an always-false table of at most one variable |
| Lr3Minimise.SmallAllFalsePrimes | LR_3/logical_function.py:69-114 | with at most one variable and no true row, the only prime of the maxterms is all don't-care |
| Lr3Minimise.SmallAllFalseText | LR_3/logical_function.py:197-212 | in that case the clause text is "1" |
| Lr3Minimise.MinimizeSknfCalculusCorrected | LR_3/logical_function.py:197-212 | with the guard the DNF side has, the CNF text is "0" exactly for the always-false and "1" exactly for the always-true table |
| Lr3Minimise.MinimizeSdnfTable | LR_3/logical_function.py:214-259 | "0" without minterms, otherwise a " \| " join of product texts of a selection representing the on-set |
| Lr3Minimise.MinimizeSknfTable | LR_3/logical_function.py:261-317 | "1" without maxterms, otherwise a " & " join of sum texts of a selection representing the off-set, parenthesised from two variables on |
| Lr3Minimise.SumTextParenthesised | LR_3/logical_function.py:57-67 | with two or more variables every prime keeps a literal, so the CNF text opens with '(' |
| Lr3Karnaugh.GrayCodeShape | LR_3/logical_function.py:451-456 | the reflected code of n bits lists 2^n full n-bit terms |
| Lr3Karnaugh.GrayCodeAdjacent | LR_3/logical_function.py:451-456 | consecutive codes differ in exactly one position |
| Lr3Karnaugh.GrayCodeCyclic | LR_3/logical_function.py:451-456 | the last code and the first differ in exactly one position |
| Lr3Karnaugh.GrayCodeDistinct | LR_3/logical_function.py:451-456 | no code repeats |
| Lr3Karnaugh.GrayCodeComplete | LR_3/logical_function.py:451-456 | every full n-bit term is a code |
| Lr3Karnaugh.GrayCodeHalves | LR_3/logical_function.py:455-456 | the first half prefixes the shorter code with 0, the second half prefixes it reversed with 1 |
| Lr3Karnaugh.BuildKarnaughMap | LR_3/logical_function.py:437-449 | the map sends each row's assignment to its result (a later row wins) and its keys come in first-insertion order |
| Lr3Karnaugh.MapOfDomain | LR_3/logical_function.py:444-446 | the keys are exactly the assignments, listed once each, and each maps to the result of its last row |
| Lr3Karnaugh.KarnaughTargets | LR_3/logical_function.py:369 | on a full table each row maps to its truth value and the cells holding 1 (0) are the minterms (maxterms) in row order |
| Lr3Karnaugh.TargetCellsMembers | LR_3/logical_function.py:369 | a cell is a target exactly when it is a key whose value is the target |
| Lr3Groups.CombinationsMembers | LR_3/logical_function.py:374 | every combination has k elements, all drawn from the input |
| Lr3Groups.CombinationsSingletons | LR_3/logical_function.py:374 | every element forms a one-element combination |
| Lr3Groups.CombinationsTooMany | LR_3/logical_function.py:374 | there is no combination of more elements than the input has |
| Lr3Groups.CombinationsAll | LR_3/logical_function.py:374 | the only combination of all elements is the input itself |
| Lr3Groups.GroupToImplicant | LR_3/logical_function.py:386-395 | the loop builds the common pattern: the shared value where all cells agree and don't-care elsewhere |
| Lr3Groups.ValuesSingleton | LR_3/logical_function.py:390-394 | the set of values at a position has one element iff all cells agree there |
| Lr3Groups.CommonPatternCovers | LR_3/logical_function.py:386-395 | the pattern covers every cell of the group |
| Lr3Groups.CommonPatternMostSpecific | LR_3/logical_function.py:386-395 | any term covering all cells covers the pattern |
| Lr3Groups.CommonPatternSingle | LR_3/logical_function.py:386-395 | a one-cell group's pattern is the cell |
| Lr3Groups.NonFixedMembers | LR_3/logical_function.py:403-410 | the non-fixed positions are, ascending, exactly those where the cells disagree |
| Lr3Groups.NonFixedCount | LR_3/logical_function.py:403-410 | fixed and non-fixed positions of a group of full cells add up to n |
| Lr3Groups.FillAt | LR_3/logical_function.py:424-429 | filling puts each value at its position and leaves the others as in the base cell |
| Lr3Groups.IsValidGroup | LR_3/logical_function.py:397-435 | the check answers the reference predicate: the group is nonempty, has 2^k cells for k non-fixed positions and contains every filled combination |
| Lr3Groups.FilledCell | LR_3/logical_function.py:423-429 | the rebuilt cell is the base cell with the combination placed at the non-fixed positions |
| Lr3Groups.ValidGroupSubcube | LR_3/logical_function.py:397-435 | a valid group of full cells is exactly the set of rows its pattern covers, 2^(n - fixed) of them |
| Lr3Groups.CoveredRowIsCell | LR_3/logical_function.py:397-435 | every full row the pattern of a valid group covers is a cell of the group |
| Lr3Groups.FillMatches | LR_3/logical_function.py:423-431 | filling with a row's own values at the non-fixed positions rebuilds that row |
| Lr3Karnaugh.ValidGroupImplicant | LR_3/logical_function.py:375-378 | the pattern of a valid group of target cells implies the targets and has at most two don't-cares |
| Lr3Karnaugh.ValidGroupImplicantOf | LR_3/logical_function.py:375-378 | the pattern of a valid group of target cells implies the targets |
| Lr3Karnaugh.KeepUncoveredMembers | LR_3/logical_function.py:381-383 | the filter keeps exactly the implicants no other one covers, and keeps them distinct |
| Lr3Karnaugh.CoversFixedCount | LR_3/logical_function.py:381-383 | a covering term has no more fixed positions, and strictly fewer unless equal |
| Lr3Karnaugh.CoveredByKept | LR_3/logical_function.py:381-383 | some kept implicant covers each found one |
| Lr3Karnaugh.AddValidGroups | LR_3/logical_function.py:374-378 | the loop appends the pattern of every valid group once, keeping earlier ones |
| Lr3Karnaugh.CollectGroupImplicants | LR_3/logical_function.py:373-378 | the found patterns imply the targets, repeat nothing, and include the pattern of every valid group of 4, 2 or 1 target cells |
| Lr3Karnaugh.SingletonsFound | LR_3/logical_function.py:373-378 | every target cell is among the found patterns |
| Lr3Karnaugh.KeptSound | LR_3/logical_function.py:381-383 | the kept patterns still imply the targets, and none covers another |
| Lr3Karnaugh.KeptCoverAll | LR_3/logical_function.py:381-383 | the kept patterns cover every target and every valid group's pattern |
| Lr3Karnaugh.FindPrimeImplicants | LR_3/logical_function.py:367-384 | the primes imply the targets, are distinct and pairwise non-covering, and cover every target cell and every valid group |
| Lr3KmapSearch.KmapImpCovered | LR_3/logical_function.py:538-543 | the check is `_covers` on the positions of the first implicant |
| Lr3KmapSearch.RangeCombinationShape | LR_3/logical_function.py:504 | each combination of positions a..n-1 is strictly increasing, of the requested size, within bounds |
| Lr3KmapSearch.RangeCombinationsComplete | LR_3/logical_function.py:504 | every strictly increasing sequence of positions is one of the combinations |
| Lr3KmapSearch.OutsideMembers | LR_3/logical_function.py:505 | the positions to change are, ascending, exactly those not kept |
| Lr3KmapSearch.OutsideSize | LR_3/logical_function.py:505 | with k distinct kept positions there are n-k to change |
| Lr3KmapSearch.TemplateShape | LR_3/logical_function.py:509-512 | the template is don't-care exactly at the positions to change |
| Lr3KmapSearch.SetPositions | LR_3/logical_function.py:510-518 | writing values at positions gives the filled term |
| Lr3KmapSearch.FillRow | LR_3/logical_function.py:516-518 | filling the don't-cares of a template with bits gives a row the template covers |
| Lr3KmapSearch.FillRebuilds | LR_3/logical_function.py:514-518 | every row the template covers is one of the filled rows |
| Lr3KmapSearch.CheckSubcube | LR_3/logical_function.py:514-523 | the early-exit loop answers whether every row the template covers holds the target |
| Lr3KmapSearch.AppendUncovered | LR_3/logical_function.py:525-534 | the template is added unless an earlier implicant covers it, and the search invariant is kept |
| Lr3KmapSearch.TryTemplate | LR_3/logical_function.py:508-534 | after one template, a template whose rows all hold the target is covered by the list |
| Lr3KmapSearch.SearchKeep | LR_3/logical_function.py:508-534 | after all fixed values of one kept set, every such valid template is covered |
| Lr3KmapSearch.SearchSize | LR_3/logical_function.py:504-534 | after all kept sets of one size, every valid template of that size is covered |
| Lr3KmapSearch.FindKmapImplicants | LR_3/logical_function.py:496-536 | every implicant has a don't-care and only target rows; none is covered by an earlier one and none is wider than an earlier one; every such subcube is covered by the list |
| Lr3KmapSearch.TemplateOf | LR_3/logical_function.py:504-512 | every term with a don't-care is the template of some kept set and some fixed values |
| Lr3KmapMinimise.KmapPrimes | LR_3/logical_function.py:325-330 | the kmap primes imply the table's terms, keep at least n-2 fixed positions, are distinct and non-covering, and cover every term and valid group |
| Lr3KmapMinimise.KmapSelection | LR_3/logical_function.py:325-333 | the selected primes are distinct, imply and cover the terms, and are empty exactly when there are no terms |
| Lr3KmapMinimise.MinimizeSdnfKmap | LR_3/logical_function.py:319-341 | outside 2..5 variables the calculus result; otherwise "0" without minterms, else the " \| " join of the product clauses of a selection that represents the on-set |
| Lr3KmapMinimise.MinimizeSknfKmap | LR_3/logical_function.py:343-365 | outside 2..4 variables the calculus result; otherwise "1" without maxterms, else the " & " join of the sum clauses of a selection representing the off-set; "1" for the two-variable always-false table |
| Lr3KmapMinimise.TwoVariableAllFalsePrimes | LR_3/logical_function.py:367-384 | with two variables and no true row, the four-cell group makes all don't-care the only prime |
| Lr3KmapMinimise.TwoVariableAllFalseText | LR_3/logical_function.py:358-364 | in that case the printed CNF is "1" |
| Lr3KmapMinimise.MinimizeSknfKmapCorrected | LR_3/logical_function.py:343-365 | with an always-false guard, the CNF text is "0" exactly for the always-false and "1" exactly for the always-true table |
| OrderedDicts.PutFacts | LR_4/LR_2/logical_expression.py:23 | after `d[k] = v`, k holds v, every other key keeps its value, and a new key is appended last |
| OrderedDicts.UpdateFresh | LR_4/LR_2/logical_expression.py:22 | `update` with entries under new keys appends them in order |
| OrderedDicts.LookupSome | LR_4/LR_2/logical_expression.py:46 | a key is present exactly when looking it up finds a value |
| RpnConverter.Priority | LR_4/LR_2/rpn_converter.py:40-47 | the priority is 5 exactly for "!", positive exactly for the five operators, and 0 for everything else, '(' included |
| RpnConverter.TokensConcat | LR_4/LR_2/rpn_converter.py:11-17 | the tokens the loop reads spell the expression back: nothing is lost or invented, "->" is one token |
| RpnConverter.TokensFrom | LR_4/LR_2/rpn_converter.py:12-17 | at position i the loop reads "->" when '-' is followed by '>', and the single character otherwise |
| RpnConverter.Convert | LR_4/LR_2/rpn_converter.py:7-35 | the index loop with its stack returns the token-by-token specification: output, pops and the final LIFO flush, or the error of a failed pop |
| RpnConverter.ToReversePolishNotation | LR_4/LR_2/rpn_converter.py:7-35 | the conversion as written, where an incoming '!' pops an earlier '!' of equal priority |
| RpnConverter.ToReversePolishNotationCorrected | LR_4/LR_2/rpn_converter.py:27-30 | the conversion with '!' treated as a right-associative prefix operator |
| RpnConverter.StepFacts | LR_4/LR_2/rpn_converter.py:19-30 | one token fails exactly when it is a ')' with no '(' on the stack, and then with the empty-pop IndexError; otherwise the stack stays well formed and operands go straight to the output |
| RpnConverter.ProcessErr | LR_4/LR_2/rpn_converter.py:11-30 | a token list fails exactly when some ')' finds no '(' to close |
| RpnConverter.RpnErrorsAndOperands | LR_4/LR_2/rpn_converter.py:7-35 | the conversion raises IndexError exactly for an unmatched ')'; when it succeeds the operands come out exactly as they came in, in order |
| RpnConverter.ProcessParens | LR_4/LR_2/rpn_converter.py:11-30 | the token loop writes no parenthesis to the output, and its stack ends holding exactly the '(' still unclosed |
| RpnConverter.RpnParens | LR_4/LR_2/rpn_converter.py:7-35 | ')' never reaches the output; '(' does exactly when the expression leaves one unclosed, since the final flush pops it with the operators |
| RpnConverter.UnclosedParenthesis | LR_4/LR_2/rpn_converter.py:32-33 | "(a" becomes ["a", "("] |
| RpnConverter.PopBangs | LR_4/LR_2/rpn_converter.py:27-30 | a binary operator arriving over `( ! … !` pops the negations and stops at the parenthesis |
| RpnConverter.CloseBangs | LR_4/LR_2/rpn_converter.py:23-26 | ')' over `( op ! … !` emits the negations, then the operator, and drops the parenthesis |
| RpnConverter.RpnOfInfix | LR_4/LR_2/rpn_converter.py:7-35 | the corrected converter turns the parenthesised text of every formula into its postfix form; the converter as written does so for every formula without a doubled negation |
| RpnConverter.DoubleNegationAsWritten | LR_4/LR_2/rpn_converter.py:27-30 | "!!a" as written becomes ["!", "a", "!"]: the second '!' pops the first before the operand |
| RpnConverter.DoubleNegationCorrected | LR_4/LR_2/rpn_converter.py:27-30 | corrected, "!!a" becomes ["a", "!", "!"] |
| VariableManagers.ExtractedFacts | LR_3/LR_2/variable_manager.py:9-12 | the scan keeps the existing keys first and in order, adds exactly the alphanumeric characters of the expression not yet keys, in first-appearance order, and none twice |
| VariableManagers.ExtractedIdempotent | LR_3/LR_2/variable_manager.py:9-12 | scanning an expression whose variables are already keys adds nothing |
| VariableManagers.ColumnOf | LR_3/LR_2/variable_manager.py:22-25 | a column has 2^n rows |
| VariableManagers.ColumnOfEncode | LR_3/LR_2/variable_manager.py:22-25 | row i of the column of the variable at position idx is bit idx, most significant first, of the n-bit encoding of i |
| VariableManagers.Columns | LR_3/LR_2/variable_manager.py:14-25 | the map has exactly the given names as keys |
| VariableManagers.ColumnsFilled | LR_3/LR_2/variable_manager.py:19-25 | full columns under every key make up the table of those keys |
| VariableManagers.ClearColumns | LR_3/LR_2/variable_manager.py:19-20 | the reset loop keeps the keys and empties every column |
| VariableManagers.FillRows | LR_3/LR_2/variable_manager.py:22-25 | the row loop fills the column of the variable at position idx with its bits of `format(i, '0nb')` for every row i |
| VariableManagers.VariableManager.constructor | LR_3/LR_2/variable_manager.py:4-7 | the keys are the expression's variables in first-appearance order, each with its full column |
| VariableManagers.VariableManager.ExtractVariables | LR_3/LR_2/variable_manager.py:9-12 | new variables get an empty column, existing keys keep theirs |
| VariableManagers.VariableManager.InitializeVariableMap | LR_3/LR_2/variable_manager.py:14-25 | after the scan every key's column is rebuilt from the bits of the row numbers |
| VariableManagers.VariableManager.CountVariables | LR_3/LR_2/variable_manager.py:30-31 | the count is the number of keys |
| VariableManagers.ManagerTable | LR_3/LR_2/variable_manager.py:4-25 | a fresh manager's keys are exactly the expression's variables, each once, and on each of the 2^n rows a column holds its variable's bit of the row number |
| VariableManagers.InitializeTwice | LR_3/LR_2/variable_manager.py:14-25 | initialising again changes nothing: the keys are already there and the columns come out equal |
| VariableManagers.ConjunctionVariableMap | LR_3/LR_2/variable_manager.py:14-25 | "a & b" gives the keys a and b with the columns 0011 and 0101 |
| VariableManagers.ThreeVariables | LR_3/LR_2/variable_manager.py:30-31 | "a & b \| c" has three variables |
| TruthTableGenerator.Operators | LR_4/LR_2/truth_table_generator.py:13-18 | the filter keeps only operator tokens, never more than the list holds |
| TruthTableGenerator.StepNamesDistinct | LR_4/LR_2/truth_table_generator.py:16 | step keys "step_k (op)" with different k are different |
| TruthTableGenerator.Placeholders | LR_4/LR_2/truth_table_generator.py:17 | one placeholder column of 2^n entries under each step key, in operator order |
| TruthTableGenerator.StepColumns | LR_4/LR_2/truth_table_generator.py:13-18 | the first loop creates exactly one step column per operator, numbered from 1 in postfix order |
| TruthTableGenerator.RunRowSteps | LR_4/LR_2/truth_table_generator.py:24-47 | each operator contributes exactly one step value to a row |
| TruthTableGenerator.RowsUpTo | LR_4/LR_2/truth_table_generator.py:20-49 | a successful run of n rows yields n rows |
| TruthTableGenerator.RowsUpToErr | LR_4/LR_2/truth_table_generator.py:20-49 | once a row raises, every longer run raises the same exception |
| TruthTableGenerator.EvaluateRow | LR_4/LR_2/truth_table_generator.py:21-49 | one row returns the value left on the stack and writes the row's step values into their columns, or raises what the row raises (an empty pop, a missing key) |
| TruthTableGenerator.EvaluateExpression | LR_4/LR_2/truth_table_generator.py:8-51 | the row loop returns the final column and the filled step columns of the row-by-row specification |
| TruthTableGenerator.BinOperate | LR_4/LR_2/truth_table_generator.py:33-43 | a binary operator pops the right operand, then the left, and pushes `&`, `\|`, `->` (not l or r) or `~` (l == r) of them |
| TruthTableGenerator.RowPostfix | LR_4/LR_2/truth_table_generator.py:20-49 | each row of a formula's postfix evaluates to the formula's value under that row's assignment, with one step value per operator |
| TruthTableGenerator.EvaluatePostfix | LR_4/LR_2/truth_table_generator.py:8-51 | evaluating the postfix of a formula whose variables all have full columns succeeds, with 2^n entries, and row i of the final column is the formula's value on row i |
| TruthTableGenerator.EvaluatePostfixLastStep | LR_4/LR_2/truth_table_generator.py:45-49 | with at least one operator, the last step column equals the final column |
| TruthTableGenerator.EvaluateLeadingNot | LR_4/LR_2/truth_table_generator.py:30-31 | a postfix list starting with "!" raises the empty-pop IndexError |
| TruthTableGenerator.EvaluateConjunction | LR_4/LR_2/truth_table_generator.py:8-51 | for a and b with columns 0011 and 0101, "a b &" gives the final column 0001 and the single step column "step_1 (&)" equal to it |
| LogicalExpressions.VarColumns | LR_4/LR_2/logical_expression.py:15 | the copy of the variable map lists its keys in insertion order |
| LogicalExpressions.DropLast | LR_4/LR_2/logical_expression.py:18-20 | deleting the last step removes exactly the last entry, when there is one |
| LogicalExpressions.StepKeysDistinct | LR_4/LR_2/truth_table_generator.py:13-18 | the step keys of an evaluated table are all different and longer than one character |
| LogicalExpressions.TableKeysDistinct | LR_4/LR_2/logical_expression.py:14-24 | variable keys have one character and step keys more, so the two never collide |
| LogicalExpressions.PutAfterUpdate | LR_4/LR_2/logical_expression.py:22-23 | after the update and the final assignment every key sits where the dictionary puts it and holds its column |
| LogicalExpressions.TruthTableLayout | LR_4/LR_2/logical_expression.py:14-24 | the table fails exactly when the evaluation fails; otherwise it holds the variable columns, every step but the last, and the expression's key with the final column, each key once |
| LogicalExpressions.RowsWhereCorrect | LR_4/LR_2/logical_expression.py:48-49 | the listed rows are exactly those holding the wanted value, each once, in increasing order |
| LogicalExpressions.RowsWherePartition | LR_4/LR_2/logical_expression.py:70-88 | the true rows and the false rows together are every row, each in exactly one of the two lists |
| LogicalExpressions.Literals | LR_4/LR_2/logical_expression.py:51-52 | a row has one literal per variable |
| LogicalExpressions.Clauses | LR_4/LR_2/logical_expression.py:48-53 | one clause per row holding the wanted value |
| LogicalExpressions.ClausesSnoc | LR_4/LR_2/logical_expression.py:48-53 | one more row adds its clause exactly when its result is the wanted value |
| LogicalExpressions.CanonicalForm | LR_4/LR_2/logical_expression.py:44-68 | the row loop builds the parenthesised clauses of the true rows joined by " \| " (perfect DNF) or of the false rows joined by " & " (perfect CNF) |
| LogicalExpressions.RowLiterals | LR_4/LR_2/logical_expression.py:51-52 | the inner loop lists, in key order, `v` or `!v` as the variable is true or false (swapped for the CNF) |
| LogicalExpressions.RowNumbers | LR_4/LR_2/logical_expression.py:76 | the decimal text of each row number |
| LogicalExpressions.NumericForm | LR_4/LR_2/logical_expression.py:70-88 | the loop builds "( i , j , … ) \|" from the true rows or "( … ) &" from the false rows |
| LogicalExpressions.BinaryString | LR_4/LR_2/logical_expression.py:92 | the digit string has one '1' or '0' per row, '1' exactly on true rows |
| LogicalExpressions.ColumnOfIndex | LR_4/LR_2/logical_expression.py:90-93 | the column of a number has the requested number of rows |
| LogicalExpressions.IndexFormRoundTrip | LR_4/LR_2/logical_expression.py:90-93 | the index form of a column is a number below 2^rows whose binary digits, row 0 most significant, give the column back |
| LogicalExpressions.BinaryStringOfBits | LR_4/LR_2/logical_expression.py:92 | writing the column of a bit string gives the bit string back |
| LogicalExpressions.IndexOfColumnRoundTrip | LR_4/LR_2/logical_expression.py:90-93 | every number below 2^rows is the index form of exactly one column |
| LogicalExpressions.ExtractedSingle | LR_3/LR_2/variable_manager.py:9-12 | the manager's keys are distinct one-character names |
| LogicalExpressions.ColumnsRows | LR_3/LR_2/variable_manager.py:14-25 | every column of the manager's map has 2^n rows |
| LogicalExpressions.FinalLength | LR_4/LR_2/truth_table_generator.py:20-49 | a successful evaluation has one final value per row of the map |
| LogicalExpressions.LogicalExpression.Init | LR_4/LR_2/logical_expression.py:7-12 | stores the expression, its manager and its postfix |
| LogicalExpressions.LogicalExpression.Create | LR_4/LR_2/logical_expression.py:7-12 | a conversion error (an unmatched ')') propagates; otherwise a valid object for the expression, holding its manager and its postfix list |
| LogicalExpressions.LogicalExpression.GenerateTruthTable | LR_4/LR_2/logical_expression.py:14-24 | copy, delete the last step, update and assign give exactly the table layout `TruthTableLayout` describes |
| LogicalExpressions.LogicalExpression.ExpressionColumn | LR_4/LR_2/logical_expression.py:46 | the column under the expression's key is the final column, with 2^n rows |
| LogicalExpressions.LogicalExpression.GeneratePdnf | LR_4/LR_2/logical_expression.py:44-55 | the text is the perfect DNF of the final column, or the evaluation's exception |
| LogicalExpressions.LogicalExpression.GeneratePcnf | LR_4/LR_2/logical_expression.py:57-68 | the text is the perfect CNF of the final column, or the evaluation's exception |
| LogicalExpressions.LogicalExpression.GenerateCanonical | LR_4/LR_2/logical_expression.py:44-68 | the loop shared by the two perfect forms |
| LogicalExpressions.LogicalExpression.ToNumericFormPdnf | LR_4/LR_2/logical_expression.py:70-78 | the true row numbers, ascending, as "( … ) \|" |
| LogicalExpressions.LogicalExpression.ToNumericFormPcnf | LR_4/LR_2/logical_expression.py:80-88 | the false row numbers, ascending, as "( … ) &" |
| LogicalExpressions.LogicalExpression.ToIndexForm | LR_4/LR_2/logical_expression.py:90-93 | the number whose binary digits are the final column, below 2^(2^n) |
| LogicalExpressions.VariablesOfInfix | LR_3/LR_2/variable_manager.py:9-12 | the variables the manager finds in a formula's text are the formula's variables |
| LogicalExpressions.Assignment | LR_3/LR_2/variable_manager.py:22-25 | the assignment of row i gives a value to exactly the named variables |
| LogicalExpressions.EvalAgree | LR_4/LR_2/truth_table_generator.py:24-47 | a formula's value depends only on its own variables |
| LogicalExpressions.FormulaTruthTable | LR_4/LR_2/logical_expression.py:7-24 | for the text of any formula without a doubled negation: it converts to the formula's postfix, the keys are its variables, and row i of the expression's column is its value under the assignment of row i |
| LogicalExpressions.FinalColumn | LR_4/LR_2/truth_table_generator.py:20-49 | the final column over the manager's map holds the formula's value row by row |
| LogicalExpressions.RowAssignment | LR_3/LR_2/variable_manager.py:22-25 | row i of the manager's map is the assignment of row i |
| LogicalExpressions.FormulaCanonicalRows | LR_4/LR_2/logical_expression.py:44-88 | the clauses of a formula's perfect DNF are its true rows and those of its perfect CNF its false rows; every row is in exactly one of the two |
| LogicalExpressions.ConjunctionRows | LR_4/LR_2/logical_expression.py:70-88 | for the column 0001 the true rows are [3] and the false rows [0, 1, 2] |
| LogicalExpressions.ConjunctionNumericForms | LR_4/LR_2/logical_expression.py:70-88 | the conjunction's numeric forms are "( 3 ) \|" and "( 0 , 1 , 2 ) &" |
| LogicalExpressions.ConjunctionIndexForm | LR_4/LR_2/logical_expression.py:90-93 | the index form of the column 0001 is 1 |
| LogicalExpressions.ConjunctionPdnf | LR_4/LR_2/logical_expression.py:44-55 | the perfect DNF of "a & b" is "(a & b)" |
| LogicalExpressions.DisjunctionPcnf | LR_4/LR_2/logical_expression.py:57-68 | the perfect CNF of "a \| b" is "(a \| b)" |
| Lr4Subtractor.SubtractorTable | LR_4/part_1.py:3-13 | the constant table has the columns A, B, C, D and P, eight rows each |
| Lr4Subtractor.SubtractorInputs | LR_4/part_1.py:7-9 | row i assigns the three bits of i, most significant first, to A, B and C |
| Lr4Subtractor.SubtractorArithmetic | LR_4/part_1.py:6-12 | A - B - C == D - 2·P on every row with D and P bits: D is the parity of A, B and C, P the borrow |
| Lr4Subtractor.RowLiterals | LR_4/part_1.py:22-24 | when the row can be read, one literal per column |
| Lr4Subtractor.Parenthesised | LR_4/part_1.py:27 | each term wrapped in parentheses |
| Lr4Subtractor.BuildSdnf | LR_4/part_1.py:15-27 | the nested loops return the specification `Sdnf`: the clauses of the output's 1-rows or the first lookup error |
| Lr4Subtractor.ErrorPersists | LR_4/part_1.py:19-25 | once a row raises, every later prefix of the loop raises the same error |
| Lr4Subtractor.RowLiteralsOk | LR_4/part_1.py:22-24 | a row's literals exist exactly when every column has that row, and then they are in column order |
| Lr4Subtractor.OneRowsCorrect | LR_4/part_1.py:19-20 | the listed rows are exactly the rows holding 1, each once, increasing |
| Lr4Subtractor.SdnfTermsRows | LR_4/part_1.py:19-25 | on a readable table the terms are the clauses of the 1-rows in row order, and the loop raises exactly on an unreadable table |
| Lr4Subtractor.SdnfOk | LR_4/part_1.py:15-27 | `build_sdnf` raises exactly on an unreadable table |
| Lr4Subtractor.SdnfZero | LR_4/part_1.py:27 | on a readable table the result is "0" exactly when no row's output is 1 |
| Lr4Subtractor.SdnfText | LR_4/part_1.py:15-27 | on a readable table the result joins with " \| " one parenthesised " & " clause per 1-row, in increasing row order, or is "0" |
| Lr4Subtractor.SdnfMissingOutput | LR_4/part_1.py:20 | an unknown output column raises KeyError |
| Lr4Subtractor.SubtractorReadable | LR_4/part_1.py:6-12 | every column of the subtractor table has eight rows |
| Lr4Subtractor.SdnfOfFourRows | LR_4/part_1.py:15-27 | an output with 1s on exactly four rows gives those rows' four clauses |
| Lr4Subtractor.DifferenceSdnf | LR_4/part_1.py:39 | the SDNF of D is the clauses of rows 1, 2, 4 and 7 |
| Lr4Subtractor.BorrowSdnf | LR_4/part_1.py:40 | the SDNF of P is the clauses of rows 1, 2, 3 and 7 |
| Lr5Compare.Compared | LR_5/lr_5.py:25 | the comparison has the length of the shorter list |
| Lr5Compare.ComparedBits | LR_5/lr_5.py:25 | each entry is 1 exactly where the lists differ and 0 exactly where they agree |
| Lr5Compare.ComparedSymmetric | LR_5/lr_5.py:25 | comparing is symmetric, and a list agrees with itself everywhere |
| Lr5Compare.ComparedXor | LR_5/lr_5.py:25 | on bit lists of one length the second list is the first xor the comparison |
| Lr5Compare.CompareDicts | LR_5/lr_5.py:18-29 | the loop over `dict1` builds the result of the specification `CompareUpTo` over all entries |
| Lr5Compare.CompareDistinct | LR_5/lr_5.py:18-29 | the result has no key twice |
| Lr5Compare.CompareKeys | LR_5/lr_5.py:20-28 | a key is in the result exactly when some entry of `dict1` whose 'out' name is a key of `dict2` has it as its 'h' name |
| Lr5Compare.CompareValues | LR_5/lr_5.py:23-28 | the list under a key compares the last `dict1` entry renamed to it with its `dict2` partner |
| Lr5Compare.ComparedEntry | LR_5/lr_5.py:23-28 | when the 'h' names are all different each stored entry keeps its own comparison |
| Lr5Compare.InputRenames | LR_5/lr_5.py:6-16 | in3, in2 and in1 rename to out3, out2, out1 and to h3, h2, h1 |
| Lr5Compare.CounterExcitations | LR_5/lr_5.py:31 | `compare_dicts(inputs, outputs)` holds h3, h2 and h1 in this order, each the comparison of a state bit with its next value |
| Lr5Compare.CounterBits | LR_5/lr_5.py:6-16 | every column of the two tables holds sixteen bits |
| Lr5Compare.CounterExcitationsXor | LR_5/lr_5.py:7-16 | each h column has sixteen entries and out_k[i] == in_k[i] xor h_k[i] |
| Lr1BinaryConverter.ToBinaryDigits | LR_1/binary_converter.py:11-20 | the halving loop gives "0" for 0 and otherwise a '0'/'1' numeral with a leading '1' whose value is the number |
| Lr1BinaryConverter.DirectCode | LR_1/binary_converter.py:35-55 | the sign bit is '1' exactly for a negative number and the rest is the magnitude in binary |
| Lr1BinaryConverter.ReverseCode | LR_1/binary_converter.py:58-73 | as long as the direct code, same sign bit, magnitude bits complemented for n < 0, signed value n (n - 1 for n < 0) |
| Lr1BinaryConverter.ReverseCodeOf | LR_1/binary_converter.py:58-73 | the loop builds the reverse code |
| Lr1BinaryConverter.InvertMagnitude | LR_1/binary_converter.py:65-73 | the sign '1', then every bit after the first complemented |
| Lr1BinaryConverter.ReverseCodeNegative | LR_1/binary_converter.py:61-73 | for n < 0 the reverse code is '1' followed by the complemented magnitude |
| Lr1BinaryConverter.AdditionalCodeCorrect | LR_1/binary_converter.py:76-111 | the additional code has the length and sign bit of the direct code, reads as n in two's complement, and for n < 0 is the reverse code plus one |
| Lr1BinaryConverter.NegativeIncrement | LR_1/binary_converter.py:101-111 | for n < 0 adding one to the reverse code does not carry out of the word |
| Lr1BinaryConverter.AdditionalCodeOf | LR_1/binary_converter.py:76-111 | the carry loop builds the additional code |
| Lr1BinaryConverter.AddOne | LR_1/binary_converter.py:102-110 | the in-place carry loop adds one modulo 2^len, keeping the length |
| Lr1BinaryConverter.CodesSameLength | LR_1/binary_converter.py:35-111 | the three codes of a number have one length, one more than its magnitude's numeral |
| Lr1DecimalConverter.Accumulate | LR_1/decimal_converter.py:15-19 | the weighted accumulation loop returns the value of the bit string |
| Lr1DecimalConverter.ReverseCodeToDecimal | LR_1/decimal_converter.py:3-25 | IndexError exactly for the empty string; otherwise the value, or minus the value of the complemented string for a leading '1' |
| Lr1DecimalConverter.ReverseValueSigned | LR_1/decimal_converter.py:3-25 | that decoding is the two's-complement value, plus one for a negative string: the ones'-complement reading |
| Lr1DecimalConverter.AdditionalCodeToDecimal | LR_1/decimal_converter.py:28-60 | IndexError exactly for the empty string; otherwise the value, or minus (complement + 1, carry out dropped) for a leading '1' |
| Lr1DecimalConverter.IncrementWithCarry | LR_1/decimal_converter.py:36-46 | the carry loop adds one modulo 2^len |
| Lr1DecimalConverter.AdditionalValueSigned | LR_1/decimal_converter.py:28-60 | that decoding is the two's-complement value |
| Lr1DecimalConverter.DirectCodeToDecimalInt | LR_1/decimal_converter.py:64-77 | IndexError exactly for the empty string; otherwise the sign of the first bit times the value of the rest |
| Lr1DecimalConverter.DecodeEncode | LR_1/decimal_converter.py:3-77 | each decoder inverts the matching encoder of `BinaryConverter` on every whole number |
| Lr1BinaryCalculator.SignExtend | LR_1/binary_calculator.py:7-14 | unchanged when already long enough; otherwise exactly new_len characters, copies of the first bit in front of the input (IndexError for an empty input) |
| Lr1BinaryCalculator.SignExtendSigned | LR_1/binary_calculator.py:7-14 | sign extension keeps the two's-complement value |
| Lr1BinaryCalculator.ZFillBits | LR_1/binary_calculator.py:19-21 | zero-filling keeps the value and pads to the width |
| Lr1BinaryCalculator.AddBinaries | LR_1/binary_calculator.py:16-40 | the value is the sum of the values, and the length is the longer operand's, plus one exactly when the sum reaches 2^len |
| Lr1BinaryCalculator.SumAdditionalCode | LR_1/binary_calculator.py:44-55 | IndexError exactly for an empty operand; otherwise max(len)+1 bits whose two's-complement value is the signed sum (the sum modulo 2^(max(len)+1)) |
| Lr1BinaryCalculator.SubtractAdditionalCode | LR_1/binary_calculator.py:59-79 | the same for the signed difference |
| Lr1BinaryCalculator.Negated | LR_1/binary_calculator.py:66-70 | complementing every bit of the subtrahend and adding `1` zero-filled to its width gives one more bit whose signed value is minus the subtrahend |
| Lr1BinaryCalculator.OperandsFit | LR_1/binary_calculator.py:44-79 | the signed sum and difference fit in one bit more than the longer operand, so cutting the carry loses nothing |
| Lr1BinaryCalculator.MultiplyDirectCode | LR_1/binary_calculator.py:83-105 | the sign is '0' exactly when the sign bits agree, and the remaining bits' value is the product of the magnitudes |
| Lr1BinaryCalculator.StrLeValue | LR_1/binary_calculator.py:163-172 | equal-length bit strings compare as Python strings exactly as their values compare |
| Lr1BinaryCalculator.BinaryCompare | LR_1/binary_calculator.py:158-172 | 1, 0 or -1 exactly as the first value is greater than, equal to or less than the second |
| Lr1BinaryCalculator.SubtractDirectCode | LR_1/binary_calculator.py:176-196 | the result is a numeral without leading zeros ("0" for zero) of the difference modulo 2^len, which is the difference itself when it is not negative |
| Lr1BinaryCalculator.DivisionDirectCode | LR_1/binary_calculator.py:109-154 | ValueError exactly for a zero divisor magnitude (IndexError for an empty operand); otherwise the sign from the two sign bits, and for a divisor magnitude starting with '1' the digits of ⌊dividend·2^precision / divisor⌋ with the point before the last `precision` digits |
| Lr1BinaryCalculator.LongDivision | LR_1/binary_calculator.py:129-142 | one quotient digit per brought-down digit; when the divisor starts with '1' the digits are those of ⌊dividend / divisor⌋ |
| Lr1BinaryCalculator.QuotientText | LR_1/binary_calculator.py:126-143 | there are as many quotient digits as dividend bits after the sign, plus precision, and their value is ⌊dividend·2^precision / divisor⌋ |
| Lr1BinaryCalculator.SumIeee754 | LR_1/binary_calculator.py:256-310 | ValueError exactly unless both inputs are 32 characters with sign bit '0'; otherwise the packed sum of the aligned significands |
| Lr1BinaryCalculator.AlignExponents | LR_1/binary_calculator.py:262-290 | two 24-digit significands whose values add up to the aligned sum (the smaller-exponent significand divided by 2 to the exponent difference, truncated), and the larger exponent |
| Lr1BinaryCalculator.NormalisedFraction | LR_1/binary_calculator.py:295-303 | after a carry the last digit is dropped; either way the 23 fraction digits are the sum without its hidden one |
| Lr1BinaryCalculator.AlignedSumBounds | LR_1/binary_calculator.py:280-293 | the aligned significand sum lies in [2^23, 2^25) |
| Lr1BinaryCalculator.Ieee754SumFields | LR_1/binary_calculator.py:256-310 | below the top exponent the result is a 32-character positive binary32 pattern whose exponent is the larger one (one more on a carry) and whose significand is the aligned sum (halved on a carry) |
| Lr1BinaryCalculator.Ieee754SumOverflow | LR_1/binary_calculator.py:296-310 | at exponent 255 a carry makes the exponent field nine digits long: the result has 33 characters |
| Lr6HashTable.Upper | LR_6/hash_table.py:12 | `str.upper` of one character: no single character exactly for the characters whose upper case is several (ß, ŉ, ǰ, ligatures, Greek with iota, …); otherwise a Russian capital exactly for Russian letters and the Cyrillic Extended-C letters U+1C80..U+1C86, and a Russian letter's capital is itself when it is already capital |
| Lr6HashTable.CharToNum | LR_6/hash_table.py:10-19 | TypeError from `ord` exactly when the upper case is several characters; otherwise a number in -1..30 that is -1 exactly for characters whose upper case is not a Russian capital |
| Lr6HashTable.LetterCode | LR_6/hash_table.py:13-19 | the number of a Russian or Cyrillic Extended-C letter is at most 30 |
| Lr6HashTable.CharToNumNumbered | LR_6/hash_table.py:10-19 | such a letter's number is its letter code, never an error or -1 |
| Lr6HashTable.CharToNumValues | LR_6/hash_table.py:10-19 | А/а 0, Е/е 5, Ё/ё 6, Я/я 30; 'Ж' and 'З' also get 6, since only offsets above 6 are lowered |
| Lr6HashTable.CharToNumOthers | LR_6/hash_table.py:10-19 | U+1C80 upper-cases to 'В' (2) and U+1C86 to 'Ъ' (25); 'Z', 'z' and U+1C87 get -1; 'ß' is the TypeError of `ord` |
| Lr6HashTable.CharToNumIgnoresCase | LR_6/hash_table.py:12 | a character whose upper case is one character gets the same number as that upper case |
| Lr6HashTable.Home | LR_6/hash_table.py:37-38 | the home slot lies in the table |
| Lr6HashTable.HashFunction | LR_6/hash_table.py:21-39 | an error exactly for a key shorter than two characters or whose first two characters are not numbered letters; the TypeError exactly when one of them upper-cases to several characters; otherwise (home + B) mod size |
| Lr6HashTable.HashFunctionExamples | LR_6/hash_table.py:21-39 | U+1C80 U+1C80 hashes like "ВВ"; "ßА" raises the TypeError and "AB" the ValueError |
| Lr6HashTable.ProbeSequence | LR_6/hash_table.py:38 | probe B is the home slot moved on by B places, wrapping round |
| Lr6HashTable.ProbeCoversTable | LR_6/hash_table.py:38 | the first `size` probes of a valid key visit every slot exactly once |
| Lr6HashTable.Search | LR_6/hash_table.py:81-95 | a stop at an empty slot or at the key's slot reports the probe number and the slot it stopped at |
| Lr6HashTable.Occupied | LR_6/hash_table.py:4-5 | at most as many occupied slots as slots |
| Lr6HashTable.NotExhausted | LR_6/hash_table.py:92-95 | while an empty slot remains the probe loop of `insert` stops before running out of probes |
| Lr6HashTable.SearchAfterWrite | LR_6/hash_table.py:84-90 | writing the key's entry where its probe loop stopped makes the loop find it there |
| Lr6HashTable.LookupPlaced | LR_6/hash_table.py:73-110 | `get` after `insert`'s probe loop stored (key, value) returns value |
| Lr6HashTable.LookupPlacedOther | LR_6/hash_table.py:73-110 | inserting one key leaves what `get` returns for every other key it found unchanged |
| Lr6HashTable.DeleteHidesCollidingKey | LR_6/hash_table.py:129-140 | delete empties the slot without a marker: with "АА" at its home slot and the colliding "АВ" behind it, deleting "АА" makes `get("АВ")` return None though "АВ" is still stored |
| Lr6HashTable.HashTable.constructor | LR_6/hash_table.py:2-5 | `size` empty slots and a count of 0 |
| Lr6HashTable.HashTable.Place | LR_6/hash_table.py:78-95 | the probe loop stores the entry in the first empty slot of the key's probe sequence (True, count + 1) or over the key's own entry (False, count kept); `get` then finds the value, and count still equals the occupied slots |
| Lr6HashTable.HashTable.Resize | LR_6/hash_table.py:41-51 | twice the slots, the same keys, only stored pairs, and the invariant kept |
| Lr6HashTable.HashTable.Insert | LR_6/hash_table.py:73-95 | at load 0.7 the table first doubles; ValueError exactly for an invalid key; otherwise the key is added, `get` returns the new value, and without a resize True exactly when the key was not found |
| Lr6HashTable.HashTable.Get | LR_6/hash_table.py:97-110 | ValueError exactly for an invalid key; otherwise the value at the first probe slot holding the key, or None at an empty slot or after `size` probes |
| Lr6HashTable.HashTable.Update | LR_6/hash_table.py:112-127 | ValueError exactly for an invalid key; True exactly when `get` would find the key, and then only the value (and the probe number) of that slot changes; otherwise nothing changes |
| Lr6HashTable.HashTable.Delete | LR_6/hash_table.py:129-144 | ValueError exactly for an invalid key; True exactly when `get` would find the key, and then that slot is emptied and count drops by one; otherwise nothing changes |
| Lr7Word.Word.constructor | LR_7/word.py:2-5 | the word holds the given 16 characters |
| Lr7Word.Word.Create | LR_7/word.py:2-5 | ValueError exactly when the string does not have 16 characters |
| Lr7Word.Word.FieldsPartition | LR_7/word.py:7-17 | V, A, B and S have 3, 4, 4 and 5 bits and together make up the word, in order |
| Lr7Word.Word.SetS | LR_7/word.py:19-22 | ValueError exactly for a new field not of 5 characters; otherwise only bits 11..15 change, to the new field, and the length stays 16 |
| Lr7Word.Word.GetValue | LR_7/word.py:24-34 | `int(f, 2)` of field 'v', 'a', 'b' or 's': the binary value, negated after a '-', between -4 and 8, -8 and 16, -8 and 16, -16 and 32 (exclusive); ValueError for any other name or a field that is not a binary literal |
| Lr7Word.Word.FieldsAreBits | LR_7/word.py:7-17 | the fields of a binary word are binary |
| Lr7Word.Word.Repr | LR_7/word.py:36-42 | ValueError exactly when some field is not a binary literal; otherwise "V: " V " (" value ")" then " \| A: …", " \| B: …", " \| S: …" the same way, each value being that field's `get_value` in decimal |
| Lr7Word.Word.ReprOfBits | LR_7/word.py:36-42 | for a '0'/'1' word each field is shown with its unsigned value |
| Lr7Word.SignedFieldExample | LR_7/word.py:24-42 | the fields "-01" and "+0011" read as -1 and 3, and the text shows "(-1)" and "(3)" |
| Lr7Word.WordExample | LR_7/word.py:7-42 | 1101001011110010 has fields 110, 1001, 0111, 10010 worth 6, 9, 7, 18, an unknown field raises, and the text is "V: 110 (6) \| A: 1001 (9) \| B: 0111 (7) \| S: 10010 (18)" |
| Lr7Matrix.BitsOf | LR_7/matrix.py:8 | one bit string per word, in order |
| Lr7Matrix.OffsetOfRow | LR_7/matrix.py:15 | bit b of column c lies in row (c + b) mod 16 |
| Lr7Matrix.DiagonalPlacesBits | LR_7/matrix.py:11-17 | bit b of word w sits in cell ((w + b) mod 16, w) |
| Lr7Matrix.Gate | LR_7/matrix.py:34-42 | every output character is a bit |
| Lr7Matrix.GateTruthTable | LR_7/matrix.py:34-42 | f7 is x or y, f8 is not (x or y), f2 is x and not y, f13 is (not x) or y, any other name 0 |
| Lr7Matrix.Combine | LR_7/matrix.py:32-46 | the result has the operands' length and is the bitwise function position by position |
| Lr7Matrix.ComplementPairs | LR_7/matrix.py:34-42 | f8 is the complement of f7 and f13 the complement of f2 |
| BitStrings.ParseBinary | LR_7/matrix.py:69-70 | `int(s, 2)`: accepted exactly for '0'/'1' digits after an optional sign; the binary value, negated after '-'; for n characters strictly between -2^(n-1) and 2^n |
| Lr7Matrix.IntBoundRoundTrip | LR_7/matrix.py:60-66 | an int bound is accepted exactly when -2^15 < n < 2^16, its text then having 16 characters, and it reads back as n |
| Lr7Matrix.SumFieldsFields | LR_7/matrix.py:105-111 | the rewritten word keeps V, A and B, and its S reads as (A + B) mod 32 |
| Lr7Matrix.TargetVExamples | LR_7/matrix.py:97-100 | key 5 selects V = 101 and key "11" selects V = 011 |
| Lr7Matrix.TargetVOutOfRange | LR_7/matrix.py:97-98 | an int key outside 0..7 formats to no three-bit V, so it selects no word |
| Lr7Matrix.SumInto | LR_7/matrix.py:104-111 | one word is rewritten as S := (A + B) mod 32 in five bits when its V matches, and stays 16 binary characters |
| Lr7Matrix.Matrix.constructor | LR_7/matrix.py:7-9 | the words hold the given sixteen strings, in fresh objects, and the grid is their diagonal layout |
| Lr7Matrix.Matrix.UpdateDiagonalMatrix | LR_7/matrix.py:11-17 | a new grid whose cell ((w + b) mod 16, w) is bit b of word w, for every w and b |
| Lr7Matrix.Matrix.ApplyLogicalFunction | LR_7/matrix.py:19-55 | IndexError exactly for a column outside -16..15; otherwise only the target word changes, to the bitwise function of the two words, and the grid is rebuilt |
| Lr7Matrix.Matrix.SearchInterval | LR_7/matrix.py:57-93 | ValueError exactly when a bound's text is not 16 characters or not binary; otherwise the increasing indices of the words whose value lies strictly between the bounds, as the loops are written |
| Lr7Matrix.Matrix.SearchIntervalCorrected | LR_7/matrix.py:57-58 | the same errors; otherwise the increasing indices of the words whose value lies in the closed interval [lower, upper] |
| Lr7Matrix.BoundsExcludedAsWritten | LR_7/matrix.py:75-83 | the loops as written drop a word equal to either bound, which the closed interval keeps; written loops keep exactly lo < v < hi, corrected ones lo <= v <= hi |
| Lr7Matrix.Matrix.FlagsBetween | LR_7/matrix.py:68-85 | the two clearing loops leave flagged, in increasing order, exactly the words within the bounds: strictly as written, inclusively when corrected |
| Lr7Matrix.Matrix.ArithmeticOperation | LR_7/matrix.py:95-114 | every word whose V is the key's text gets S := (A + B) mod 32, every other word and field stays, and the grid is rebuilt |
| OrderedDicts.PutDistinct | LR_4/LR_2/logical_expression.py:23 | assignment never makes a key appear twice |
| Lr6HashTable.DistinctProbes | LR_6/hash_table.py:38 | two different probe numbers below size reach different slots |
| Lr1BinaryConverter.OnesComplementSigned | LR_1/binary_converter.py:65-73 | '1' followed by the complemented magnitude reads as -(magnitude + 1) in two's complement, that is as the negative number in ones' complement |
| Lr1BinaryCalculator.CarryOut | LR_1/binary_calculator.py:37-40 | the final carry goes in front exactly when the sum reaches 2^len |
| Lr1BinaryCalculator.ExtendedSumMod | LR_1/binary_calculator.py:44-49 | the sum of two equal-length operands is congruent modulo 2^len to the sum of their signed values |
| Lr1BinaryCalculator.CutCongruent | LR_1/binary_calculator.py:52-53 | keeping the last max_len digits of a sum congruent to a value in the signed max_len-bit range leaves exactly that value |
| Lr1BinaryCalculator.DifferenceOfBorrows | LR_1/binary_calculator.py:184-195 | the digits of the borrow loop are the difference modulo 2^len |
| Lr1BinaryCalculator.LongDivisionStep | LR_1/binary_calculator.py:134-143 | each step of the long division appends one quotient digit and keeps the remainder below the divisor |
| Lr7Matrix.NonNegativeBound | LR_7/matrix.py:60-63 | a bound n >= 0 formats to 16 characters exactly when n < 2^16, and then reads back as n |
| Lr7Matrix.NegativeBound | LR_7/matrix.py:60-63 | a bound -m formats to "-" and the digits of m, 16 characters exactly when m < 2^15, and reads back as -m |
| Lr1BinaryCalculator.SubtractColumns | LR_1/binary_calculator.py:184-195 | the borrow loop leaves one bit per column, and those digits less the final borrow times 2^len are the difference of the two values |
| Lr3Groups.SplitPositions | LR_3/logical_function.py:403-412 | the non-fixed positions are, ascending, those where the cells disagree; a position is fixed exactly when all cells agree there, and holds their shared value |
| Lr3Groups.AllCombinationsPresent | LR_3/logical_function.py:419-435 | the early-exit loop answers whether every fill of the non-fixed positions is one of the cells |
| Lr3Karnaugh.AddIfValid | LR_3/logical_function.py:376-379 | earlier patterns stay; only a valid group's pattern is added, and it is present afterwards when the group is valid; the list still holds group implicants without repeats |
| Lr3KmapSearch.AnyCovers | LR_3/logical_function.py:527-531 | true exactly when some earlier implicant covers the template |
| Lr3KmapSearch.SearchCombination | LR_3/logical_function.py:505-534 | after one more kept set, earlier implicants stay and every valid template over the kept sets so far is covered |
| Lr3KmapSearch.SearchRound | LR_3/logical_function.py:502-534 | after the round for `size`, the search invariant holds and every valid template with at most n - size kept positions is covered |
| Lr6HashTable.HashTable.ProbeSlot | LR_6/hash_table.py:78-92 | the loop stops at a probe number B below the size, at the slot (home + B) mod size that the reference search reaches: the first free slot or the key's slot |
| Lr6HashTable.HashTable.HashSlot | LR_6/hash_table.py:21-39 | `_hash_function(key, B)` on the table's size: the error exactly for an invalid key, otherwise slot (home + B) mod size |
| Lr6HashTable.HashTable.Locate | LR_6/hash_table.py:99-110 | the loop's outcome is the reference probe search: a free slot, the key's slot, or nothing after `size` probes |
| Lr7Matrix.FieldSum | LR_7/matrix.py:106-109 | five binary digits of (A + B) mod 32 for the word's fields A and B |
| Lr7Matrix.SumAll | LR_7/matrix.py:104-112 | every word's bits become the rewritten bits of its old bits (S := A + B mod 32 where V matches) and stay 16 binary characters |
| Lr7Matrix.CombineBits | LR_7/matrix.py:32-46 | the bit loop builds the position-by-position gate output of the two words |
| Lr7Matrix.Matrix.NewWords | LR_7/matrix.py:8 | sixteen distinct fresh words holding the given strings in order |
| VariableManagers.FillRow | LR_3/LR_2/variable_manager.py:23-25 | one pass appends row i, the bit idx of `format(i, '0nb')`, to the column of the variable at position idx, keeping the same keys |
| VariableManagers.Rebuild | LR_3/LR_2/variable_manager.py:19-25 | clearing then filling gives exactly the table of the keys |
| Selection.AddCoverageColumn | LR_4/logical_function.py:121-123 | appending prime i to the entry of every term it covers extends the coverage table by column i |
| Selection.EssentialPass | LR_4/logical_function.py:131-139 | one pass takes every sole coverer, keeps the remaining terms exactly those the taken primes miss, and reports a change only when a term was dropped |
| Selection.TakeWhileCovering | LR_4/logical_function.py:148-155 | the greedy loop takes only unselected primes and ends with no remaining term covered by any prime |
| Selection.PrimesOf | LR_4/logical_function.py:157 | the selection lists the chosen primes, one per chosen index, without repeats when the primes have none |
| Lr3Minimise.SelectCovering | LR_3/logical_function.py:186-187 | on primes covering every term, the selection is drawn from them, covers every term, and is nonempty when there are terms |
| Lr3KmapMinimise.PickCovering | LR_3/logical_function.py:330-333 | on primes covering every term, the selection is drawn from them, repeats nothing when they do not, and covers every term |
| Enumerations.Enumerate | LR_4/logical_function.py:265 | `list` of a set holds every element exactly once |
| Enumerations.JoinInSomeOrder | LR_4/logical_function.py:268-270 | the joined text is the join of some ordering of the set |

## Left out

- The eval-based `_evaluate_expression` (LR_4/logical_function.py:14-25): truth values are an input.
- Console output of every minimiser, the coverage tables of `minimize_*_table` and `display_kmap`
  (LR_4/logical_function.py:421-461); only return values are modelled.
- Lr4KmapMinimise.SelectEssentialPrimesKmap: requires that every minterm is covered by some prime,
  because the source's greedy loop never ends otherwise; the Karnaugh search always meets it.
- The LR_3 console output: `_print_karnaugh_map` (LR_3/logical_function.py:458-494), the coverage
  tables and the intermediate "after gluing" lines; only return values are modelled.
- The Gray order `_build_karnaugh_map` computes and never uses (LR_3/logical_function.py:442) is
  modelled as `Lr3Karnaugh.GrayCode` with its own properties; the map does not depend on it.
- The LR_3 eval-based `_evaluate_expression` (LR_3/logical_function.py:25-38) is a parameter of
  `Lr3Gluing.BuildTruthTable`; the minimisers take the truth values directly.
- Lr3KmapMinimise.MinimizeSdnfKmap and Lr3KmapMinimise.MinimizeSknfKmap: require a full table of
  2^n values, which the constructor always builds; the map lookups need every row.
- Lr3KmapSearch.FindKmapImplicants: requires every full row to be a key of the map (a missing key
  raises `KeyError` in the source); `_find_kmap_implicants` has no caller in the file.
- Console output of the front end and the companions: `print_truth_table`
  (LR_4/LR_2/logical_expression.py:26-42), `HashTable.display` (LR_6/hash_table.py:146-162),
  `print_matrix` and the prints inside the matrix methods (LR_7/matrix.py:25-29, 47-55, 72-91,
  102-112, 116-119), and the scripts `main` of LR_4/part_1.py:29-66 and LR_5/lr_5.py:33-72.
- LR_1's floating-point paths: `frac_to_binary`, `ieee754`, the fractional branches of the three
  codes, `direct_code_to_decimal_float` and `ieee754_to_decimal`. Floating point is out of scope.
  The integer codes are modelled for whole numbers.
- The commented-out first `sum_ieee754` (LR_1/binary_calculator.py:199-253) is not code.
- The LR_1 operations require their operands to be '0'/'1' strings. The source's `int(bit)` would
  raise on other characters and its '.' handling belongs to the fractional paths.
- Lr1BinaryCalculator.DivisionDirectCode: the quotient digits are specified only when the divisor's
  magnitude starts with '1'. With leading zeros in the divisor, the source's length test
  `len(remainder) < len(divisor)` shifts the digits, and the model states only the sign and the
  error cases. `precision` is a natural number.
- `_initialize_test_data` (LR_6/hash_table.py:53-71) is a list of constant insertions. The
  constructor starts empty and requires a positive size. The non-string key branch
  (LR_6/hash_table.py:23-24) cannot arise, because keys are strings.
- The fallback of `insert` after `size` probes (LR_6/hash_table.py:93-95) cannot be reached. The
  load check keeps an empty slot, and `Lr6HashTable.NotExhausted` proves the loop stops before.
- Lr6HashTable.Upper maps exactly the Russian letters, the Cyrillic Extended-C letters, ASCII and
  the characters whose upper case is several characters. Every other character stands for itself:
  its true upper case is never a Russian capital, so it gets -1 as in the source.
- The load factor 0.7 is compared exactly as `10 * count >= 7 * size`, instead of in floating point.
- Lr6HashTable.HashTable.Resize: states that the keys are kept and the pairs are a subset, not that
  the pairs are kept. After a delete the same key can be stored twice (see
  `Lr6HashTable.DeleteHidesCollidingKey`), and reinsertion then keeps only one of the two values.
- The random words of `Matrix.__init__` (LR_7/matrix.py:8) are a constructor parameter.
- BitStrings.ParseBinary: reads '0'/'1' digits with an optional leading '-' or '+'. Python's
  `int(s, 2)` also accepts surrounding whitespace, underscores between digits and a "0b" prefix.
  Those are not modelled, so such a string bound is a ValueError here.
- Lr7Word.Word.GetValue and Lr7Word.Word.Repr: for the same reason a field such as " 01", "0_1" or
  "0b1" is a ValueError here, though `int(f, 2)` reads it.
- Lr7Word.Word.GetValue and the other field getters require the word to hold 16 characters. The
  source checks this only in the constructor, and `bits` can be reassigned from outside.
- LogicalExpressions.LogicalExpression.GeneratePdnf and
  LogicalExpressions.LogicalExpression.GeneratePcnf: return the text of the perfect form. The
  source wraps it in a new `LogicalExpression`, whose construction is modelled by `Create`.
- The `isalnum` test of the LR_2 classes is modelled by `BoolExprs.IsAlnum` over the ASCII letters
  and digits. Other Unicode letters and digits are out of scope.

## Findings

| source | as written | input that shows it | evidently intended | confidence | as-written member | corrected member |
|---|---|---|---|---|---|---|
| LR_4/logical_function.py:272-287 | for the always-false function the all-don't-care prime is printed as the clause "1", so `minimize_sknf_calculus` (and `minimize_sknf_table`) return "1" | variables ['a'], truth values [0, 0] | return "0", as `minimize_sdnf_calculus` does for the dual case | not executed | Lr4Minimise.SknfAllFalseAsWritten | Lr4Minimise.MinimizeSknfCalculusCorrected |
| LR_4/logical_function.py:393-419 | `minimize_with_kmap(is_dnf=False)` prints the all-don't-care prime of the always-false function as "1" | variables ['a'], truth values [0, 0] | return "0" | not executed | Lr4KmapMinimise.MinimizeWithKmap | Lr4KmapMinimise.MinimizeWithKmapCorrected |
| LR_3/logical_function.py:197-212 | with at most one variable, the maxterms of the always-false function glue to the all-don't-care prime, printed as "1" | variables ['a'], truth values [0, 0] | return "0" | not executed | Lr3Minimise.MinimizeSknfCalculus | Lr3Minimise.MinimizeSknfCalculusCorrected |
| LR_3/logical_function.py:343-365 | with two variables, the always-false function's four-cell group gives the all-don't-care prime, printed as "1" | variables ['a', 'b'], truth values [0, 0, 0, 0] | return "0" | not executed | Lr3KmapMinimise.MinimizeSknfKmap | Lr3KmapMinimise.MinimizeSknfKmapCorrected |
| LR_7/matrix.py:75-83 | `search_interval` clears words with value >= upper and <= lower, so a word equal to a bound is not found, though the docstring and the printed interval say [lower, upper] | a word worth 5 with bounds 5 and 5 (or 5 and 9) | keep lower <= value <= upper | not executed | Lr7Matrix.BoundsExcludedAsWritten | Lr7Matrix.Matrix.SearchIntervalCorrected |
| LR_4/LR_2/rpn_converter.py:27-30 | an incoming '!' pops an earlier '!' of equal priority, so a doubled negation is emitted before its operand and the evaluator then pops an empty stack (IndexError) | "!!a" becomes ["!", "a", "!"] | ["a", "!", "!"], with '!' right-associative | not executed | RpnConverter.DoubleNegationAsWritten | RpnConverter.ToReversePolishNotationCorrected |
