# Permutation of an Enigma alphabet

A Dafny model of the `Permutation` class of a Java Enigma simulator. A permutation is
built from a cycle string such as `"(AELTPHQXRU) (BKNW) (S)"` and an alphabet. The
constructor splits the string on `)`, deletes the brackets and spaces from each piece,
and hands each cycle to `addCycle`. `addCycle` writes `ci -> c(i+1)` and `cm -> c0`
into a forward map, and the mirror pairs into an inverse map. A fill loop then sends
every alphabet symbol that no cycle mentions to itself. The queries are:

- `permute`/`invert` on symbols: map lookups;
- `permute`/`invert` on positions: wrap the position modulo the alphabet size, then look up;
- `wrap`, `size` and `alphabet`;
- `derangement`: whether no key maps to itself.

Layout:

- `alphabet.dfy` (`Alphabets`): the alphabet as a non-empty, duplicate-free
  `seq<char>`, `toChar`/`toInt`, and the upper-case alphabet.
- `cycle_notation.dfy` (`CycleNotation`): Java's `split` and `replaceAll` as
  functions, the cycles the constructor reads, and cycle notation written back out.
- `cycle_tables.dfy` (`CycleTables`): the two maps as a `Tables` value, and what
  `addCycle` and the constructor's loops write into them.
- `table_facts.dfy` (`TableFacts`): what the finished tables contain.
- `permutation.dfy` (`Permutations`): the class, with its `map` fields.
  - The constructor, `Fill` and `AddCycle` are loops proved against the `CycleTables` functions.
  - The queries are functions.
  - `Derangement` is a read-only loop.
- `permutation_facts.dfy` (`PermutationFacts`): the promised properties of a constructed object.
- `permutation_examples.dfy` (`PermutationExamples`): the JUnit cases.

`Valid()` ties the fields to `Build(cycles, alphabet)`, the tables the constructor
builds for that cycle string. The constructor establishes it, and the symbol and position
lookups require it. `Size`, `Alphabet`, `Wrap` and both versions of `Derangement` do not
need it. `AddCycle` and `Fill` neither require nor keep it. Only the constructor calls
them, as Java's `addCycle` is private, and a further `AddCycle` on a finished object may
break it.

The code checks nothing about its input. It imports `EnigmaException`
(Permutation.java:9) and never throws it, although its Javadoc (:17-21) says the cycles
hold alphabet characters and whitespace is ignored. The model follows the code:

- **No input checks.** The constructor accepts any cycle string.
  - A symbol repeated across cycles overwrites the earlier entries (last write wins).
  - Symbols outside the alphabet become keys too.
  - Brackets are not checked for balance.
  - The round trips are therefore stated under `WellFormed`: cycles disjoint and drawn from the alphabet.
- **Non-keys.** `permute(char)`/`invert(char)` on a symbol that is not a key unbox the `null` that `HashMap.get` returns.
  - In Java that is a `NullPointerException`; the model returns `None`.
  - A foreign symbol that a cycle mentions is a key, and is answered normally.
- **Only the space is deleted**, not every kind of whitespace.

## Model

| member | source | states |
|---|---|---|
| CycleNotation.SplitJoin | enigma/Permutation.java:29 | splitting on `)` loses nothing: the pieces joined with `)` give back the string |
| CycleNotation.DropTrailingEmpty | enigma/Permutation.java:29 | Java's `split` with limit 0 keeps a prefix of the pieces, drops only empty ones, and the last piece kept is non-empty |
| CycleNotation.JavaSplit | enigma/Permutation.java:29 | no piece of `split("\\)")` contains `)` |
| CycleNotation.Without | enigma/Permutation.java:31-34 | a `replaceAll` by "" keeps exactly the characters outside the pattern's set |
| CycleNotation.Clean | enigma/Permutation.java:31-34 | the four `replaceAll` passes together delete exactly `(`, space and `)` |
| CycleNotation.Cycles | enigma/Permutation.java:29-37 | one cycle per piece of the split, none holding a bracket or a space |
| CycleNotation.ParseFormat | enigma/Permutation.java:17-21 | reading a string written in the documented form "(c0) (c1) ..." gives back exactly those cycles |
| CycleNotation.ParseEmpty | enigma/Permutation.java:29-37 | the empty cycle string yields a single empty cycle |
| CycleTables.AddCycle | enigma/Permutation.java:49-62 | the tables after `addCycle(c)`: the turns of its loop applied in order, later writes overwriting earlier ones; `AddCycleKeys` and `AddCycleRecords` state what they hold |
| CycleTables.AddCycles | enigma/Permutation.java:30-37 | the tables after the constructor's first loop: `addCycle` on each cleaned piece in turn; `AddCyclesKeys` and `AddCyclesRecords` state what they hold |
| CycleTables.FillPrefix | enigma/Permutation.java:39-44 | the tables after the first k turns of the fill loop; `FillPrefixFacts` states what they hold |
| CycleTables.Build | enigma/Permutation.java:23-45 | the tables the constructor leaves for a cycle string and an alphabet; the `Build` lemmas state what they hold |
| CycleTables.PredIndex | enigma/Permutation.java:51-60 | every cycle position has exactly the predecessor that `addCycle` maps onto it |
| TableFacts.AddCyclePrefixKeys | enigma/Permutation.java:51-61 | after k turns of the loop, the new forward keys are the first k symbols and the new inverse keys are their successors; every other entry is unchanged |
| TableFacts.AddCycleKeys | enigma/Permutation.java:49-62 | `addCycle` adds exactly the cycle's symbols as keys of both maps and leaves every other entry as it was |
| TableFacts.AddCycleRecords | enigma/Permutation.java:49-62 | for a cycle without repeats, `ci -> c(i+1)` and `cm -> c0` are in the forward map and the mirror pairs in the inverse map |
| TableFacts.SingletonCycle | enigma/Permutation.java:52-54 | a one-symbol cycle maps its symbol to itself in both maps |
| TableFacts.AddCyclesKeys | enigma/Permutation.java:30-37 | after the first loop the keys of both maps are exactly the cycle symbols |
| TableFacts.AddCyclesRecords | enigma/Permutation.java:30-37 | for disjoint cycles, later cycles do not disturb the pairs of earlier ones |
| TableFacts.FillPrefixFacts | enigma/Permutation.java:39-44 | the fill loop adds the alphabet symbols as keys, keeps every entry it finds, and sends new keys to themselves |
| TableFacts.BuildKeys | enigma/Permutation.java:23-45 | after construction the keys of both maps are exactly the alphabet plus the cycle symbols |
| TableFacts.BuildCoversAlphabet | enigma/Permutation.java:17-21 | every alphabet symbol is a key of both maps |
| TableFacts.BuildEntries | enigma/Permutation.java:39-44 | the fill does not change what the cycles wrote, and alphabet symbols that no cycle mentions map to themselves both ways |
| TableFacts.BuildRecords | enigma/Permutation.java:23-62 | with disjoint cycles, every cycle's pairs survive construction |
| TableFacts.BuildEmpty | enigma/Permutation.java:29-44 | the empty cycle string gives the identity on the alphabet |
| TableFacts.BuildRoundTrip | enigma/Permutation.java:17-21 | for disjoint cycles over the alphabet, both maps stay in the alphabet, and each undoes the other on every alphabet symbol |
| TableFacts.ImageInAlphabet | enigma/Permutation.java:80-91 | for disjoint cycles over the alphabet, the image of an alphabet symbol is an alphabet symbol, so `toInt` applies |
| TableFacts.CoverNoFixedPoint | enigma/Permutation.java:109-121 | disjoint cycles that cover the alphabet, with no one-symbol cycle, leave no fixed point |
| TableFacts.SingletonNoDerangement | enigma/Permutation.java:109-121 | with disjoint cycles, a one-symbol cycle is a fixed point |
| TableFacts.BuildNoFixedPoint | enigma/Permutation.java:109-121 | for disjoint cycles over the alphabet: no fixed point if and only if the cycles cover the alphabet and none has one symbol |
| Permutations.JavaRem | enigma/Permutation.java:66 | Java's `%` on a positive divisor: the remainder is below the divisor in magnitude and takes the dividend's sign |
| Permutations.WrapRem | enigma/Permutation.java:66-70 | adding the size to a negative truncated remainder gives the Euclidean remainder |
| Permutations.SameBoxOnCache | enigma/Permutation.java:116 | when every key is at most '\u007f', the boxed comparison finds a fixed point exactly when the character comparison does |
| Permutations.Permutation.constructor | enigma/Permutation.java:23-45 | the object is valid: its maps are `Build(cycles, alphabet)` |
| Permutations.Permutation.Fill | enigma/Permutation.java:39-44 | the fill loop leaves exactly `FillPrefix` of the tables it found |
| Permutations.Permutation.AddCycle | enigma/Permutation.java:49-62 | the maps become exactly `AddCycle` of the old maps |
| Permutations.Permutation.Alphabet | enigma/Permutation.java:105-107 | the alphabet given to the constructor |
| Permutations.Permutation.Size | enigma/Permutation.java:74-76 | the alphabet's size, always positive |
| Permutations.Permutation.Wrap | enigma/Permutation.java:65-71 | `0 <= wrap(p) < size()` and `wrap(p) ≡ p` modulo the size, negative `p` included |
| Permutations.Permutation.PermuteChar | enigma/Permutation.java:95-97 | an answer exactly for keys of the forward map, namely the map's value; always an answer for alphabet symbols |
| Permutations.Permutation.InvertChar | enigma/Permutation.java:100-102 | an answer exactly for keys of the inverse map, namely the map's value; always an answer for alphabet symbols |
| Permutations.Permutation.PermuteIndex | enigma/Permutation.java:80-84 | `toChar` of the result is `permute(toChar(wrap(p)))`; a result whenever that image is in the alphabet, so always for well-formed cycles |
| Permutations.Permutation.InvertIndex | enigma/Permutation.java:88-91 | `toChar` of the result is `invert(toChar(wrap(c)))`; a result whenever that image is in the alphabet, so always for well-formed cycles |
| Permutations.Permutation.Derangement | enigma/Permutation.java:109-121 | true exactly when no key of the forward map is sent to itself |
| Permutations.Permutation.DerangementAsWritten | enigma/Permutation.java:115-120 | true exactly when no key is `==` to its value as a boxed `Character` |
| PermutationFacts.Keys | enigma/Permutation.java:23-45 | the keys of both maps are the alphabet plus the cycle symbols, for any cycle string |
| PermutationFacts.CycleEntries | enigma/Permutation.java:49-62 | for disjoint cycles, `permute(ci) = c(i+1)`, `permute(cm) = c0`, and `invert` maps them back |
| PermutationFacts.SingletonFixed | enigma/Permutation.java:52-54 | with disjoint cycles, a cycle such as `(S)` is a fixed point of `permute` and `invert` |
| PermutationFacts.LeftoverFixed | enigma/Permutation.java:39-44 | an alphabet symbol that no cycle mentions maps to itself both ways, so the permutation is no derangement |
| PermutationFacts.FillKeepsCycles | enigma/Permutation.java:39-44 | the fill loop does not overwrite what the cycles wrote |
| PermutationFacts.Identity | enigma/PermutationTest.java:53-58 | the empty cycle string gives the identity on symbols, and `wrap` on positions |
| PermutationFacts.CharRoundTrip | enigma/PermutationTest.java:32-47 | for disjoint cycles over the alphabet, `invert(permute(c)) == c` and `permute(invert(c)) == c` on the alphabet |
| PermutationFacts.IndexRoundTrip | enigma/Permutation.java:80-91 | for disjoint cycles over the alphabet, the index forms undo each other up to the wrap of the starting position |
| PermutationFacts.SameWrapSameIndex | enigma/Permutation.java:80-91 | the index forms depend on a position only through its wrapped value |
| PermutationFacts.WrapPeriodic | enigma/Permutation.java:65-71 | `wrap(p + k * size()) == wrap(p)` for every integer k |
| PermutationFacts.IndexPeriodic | enigma/Permutation.java:80-91 | `permute(p + k * size()) == permute(p)` and the same for `invert`, for every integer k |
| PermutationFacts.DerangementOnAlphabet | enigma/Permutation.java:109-111 | with cycle symbols in the alphabet, a derangement is one that moves every alphabet symbol |
| PermutationFacts.DerangementIff | enigma/Permutation.java:109-121 | for disjoint cycles over the alphabet, a derangement exactly when the cycles cover the alphabet and none has one symbol |
| PermutationExamples.ParseInvertCharCycles | enigma/PermutationTest.java:88 | "(PNH) (ABDFIKLZYXW) (JC)" reads as the cycles PNH, ABDFIKLZYXW, JC |
| PermutationExamples.InvertCharExample | enigma/PermutationTest.java:86-95 | over A-Z: `invert('B') = 'A'`, `invert('G') = 'G'`, `invert('A') = 'W'`, `invert('P') = 'H'` |
| PermutationExamples.FormatRotor | enigma/PermutationTest.java:62 | the test's rotor string "(AELTPHQXRU) (BKNW) (CMOY) (DFG) (IV) (JZ) (S)" is its seven cycles in cycle notation |
| PermutationExamples.ParseRotor | enigma/PermutationTest.java:62-63 | the constructor reads those seven cycles back from that notation |
| PermutationExamples.RotorExample | enigma/PermutationTest.java:60-84 | over A-Z, with the test's rotor string: B->K, U->A, S->S, A->E forward and K->B, A->U, S->S, E->A backward; also no derangement, as lines 116-118 expect, both as intended and as written |
| PermutationExamples.FormatKeyboard | enigma/PermutationTest.java:112 | the string "(QWERTYUIOP) (ASDFGHJKL) (ZXCVBNM)" is its three cycles in cycle notation |
| PermutationExamples.ParseKeyboard | enigma/PermutationTest.java:112-113 | the constructor reads those three cycles back from that notation |
| PermutationExamples.KeyboardCycles | enigma/PermutationTest.java:112 | the keyboard cycles are disjoint, drawn from A-Z, cover A-Z, and none has one symbol |
| PermutationExamples.KeyboardExample | enigma/PermutationTest.java:110-114 | over A-Z, with the test's keyboard string: a derangement, both as intended and as written |
| PermutationExamples.BoxedComparisonMissesFixedPoint | enigma/Permutation.java:116 | for alphabet "Ä" and no cycles, 'Ä' maps to itself, yet no key is `==` to its value as a boxed object |
| Alphabets.UpperRange | enigma/PermutationTest.java:89 | the upper-case alphabet holds exactly 'A' to 'Z' |

## Left out

- The `Alphabet` and `CharacterRange` classes and `TestUtils` are not part of this model.
  - An alphabet is a non-empty `seq<char>` without duplicates.
  - `toChar(i)` is the symbol at position `i`; `toInt(c)` is the position of `c`, defined only for members.
  - `UPPER` is the literal "A" to "Z".
- Permutations.Permutation.PermuteIndex and `InvertIndex`: `toInt` of a symbol outside the alphabet is not defined, because `Alphabet` is not part of this model.
  - The index forms return `None` there.
  - That can happen only when a cycle holds a foreign symbol.
- Java's regular-expression engine. Only the two patterns the constructor uses are modelled: `split` on `)` with Java's limit-0 rule, and `replaceAll` of a single character or a character class by the empty string.
- `HashMap` hashing and iteration order. The maps are `map<char, char>`, and `Derangement` visits the keys in an arbitrary order. The result does not depend on that order.
- 32-bit `int` positions. Positions are unbounded integers. `wrap` computes only remainders smaller than the size, so it cannot overflow; for every `int` input the model agrees with the code.
- Java's 16-bit `char`. Java strings are sequences of UTF-16 code units, and `addCycle` reads them one at a time with `charAt`. A Dafny `char` is a whole Unicode scalar value.
  - A symbol outside the Basic Multilingual Plane is one symbol in the model, but two units (a surrogate pair) in Java. For "(𝔸B)" Java writes three forward pairs: high surrogate to low surrogate, low surrogate to 'B', 'B' to high surrogate. The model writes two: '𝔸' to 'B' and 'B' to '𝔸'.
  - A lone surrogate is a valid Java `char` but not a Dafny `char`, so the model has no such symbols.
  - The model agrees with the code on strings and alphabets whose symbols all lie in the Basic Multilingual Plane, surrogates excepted.
- Object identity of the alphabet. The model keeps the alphabet as a value, and nothing in the class changes it.
- `System.out.println` in the tests and the JUnit timeout rule.
- The JUnit cases are lemmas about any valid object built from the tests' arguments. `derangement` is a method, so the cases state what its two versions return: `NoFixedPoint` of the forward map as intended, and `NoSameBox` as written.
- Permutations.Permutation.Fill is the constructor's second loop, written as a method of its own that the constructor calls.

## Findings

| source | as written | input that shows it | evidently intended | confidence | as-written member | corrected member |
|---|---|---|---|---|---|---|
| enigma/Permutation.java:116 | `pair.getValue() == pair.getKey()` compares two boxed `Character` objects by reference; they share a box only through the autobox cache, which covers '\u0000' to '\u007f' | alphabet "Ä" (or any symbol above '\u007f') with the cycle string "": 'Ä' maps to itself, yet `derangement()` returns true | compare the characters, so that any symbol mapped to itself makes `derangement()` false | not executed | Permutations.Permutation.DerangementAsWritten, PermutationExamples.BoxedComparisonMissesFixedPoint | Permutations.Permutation.Derangement, PermutationFacts.DerangementIff |
