# wordament_solver: prefix-tree dictionary and letter grid

This project models the two data structures of the word-grid solver `wordament_solver`
and proves properties of them.

- The dictionary (`src/dictionary.rs`) is a prefix tree over the letters `a`–`z`. Its root
  is a vector of 26 slots. Each slot is `Empty` or holds a `Letter` node. A node has its
  character, an `is_word` flag and 26 child slots of its own.
  - `translate_dictionary_to_word_map` builds the tree from a list of words, byte by byte,
    through a cursor that points at the slot it last stepped on.
  - `find_word` walks the tree for a candidate string.
  - `to_string` lists the present nodes in pre-order.
- The grid (`src/grid.rs`) is a `height × width` array of cells. Each cell has a letter and a
  signed 32-bit point value. It is created with default cells and written one cell at a
  time by `set_cell`.

Files:

- `dictionary.dfy`, module `Dictionary`: the tree as datatypes (`Entry`, `Letter`,
  `DebugDictionary`), and the shape invariant `Valid`: 26 slots per vector, and the node in
  slot k carries the k-th letter. It also holds the pure walk `Walk`/`HasWord`, the method
  `FindWord` with its cursor loop, and the build. The build is the method
  `TranslateDictionaryToWordMap` with its two nested loops and its specification functions
  `TouchSlot`, `TouchAt`, `InsertSteps`, `Insert` and `Build`. The file ends with the lemmas
  that say what the built dictionary contains.
- `dictionary_listing.dfy`, module `DictionaryListing`: `to_string` as a recursive method
  with a loop over the 26 slots. It produces one line record (depth, letter, flag) per
  present node. A reader `Parse` reads such a listing back; it is not part of the program and
  serves as the listing's inverse.
- `grid.dfy`, module `Grid`: the `Cell` datatype, the class `Grid` with its constructor
  `Init` and the method `SetCell`, and the function `Written`, which specifies a write on
  the rows.

The build's `&mut` cursor is modelled as the path from the root to the slot it points at.
Writing through the cursor is a functional update of the tree at that path (`TouchAt`).
The create-or-OR step on one slot is `TouchSlot`. In the method, the cursor's `Entry::Empty`
arm (src/dictionary.rs:154) is an `assert false`: the proof shows that it cannot be
reached.

## Model

| member | source | states |
|---|---|---|
| Dictionary.Index | src/dictionary.rs:52 | the slot of a lowercase letter is below 26 |
| Dictionary.SlotChar | src/dictionary.rs:108 | the letter printed for slot k is a lowercase letter whose slot is k again |
| Dictionary.Blank | src/dictionary.rs:129 | a fresh child vector has 26 slots, all empty, and satisfies the shape invariant |
| Dictionary.Walk | src/dictionary.rs:51-65 | the node a walk reaches carries the last letter walked and has a valid 26-slot child vector |
| Dictionary.WalkSnoc | src/dictionary.rs:59-64 | reading one more letter moves one slot deeper from where the cursor stood, or fails if that slot is empty |
| Dictionary.AbsentPrefixClosed | src/dictionary.rs:55-61 | once the walk for p meets an empty slot, no extension p ++ s has a node or is a word (early exit) |
| Dictionary.MissingPrefixNoWord | src/dictionary.rs:56-61 | if the first n letters of w already lead to an empty slot, w is not a word |
| Dictionary.AbsentPrefixReadable | src/dictionary.rs:55-61 | once the walk for p meets an empty slot, find_word reads nothing of any suffix s, so it may be asked p ++ s for every s and then answers false |
| Dictionary.LowercaseIsRead | src/dictionary.rs:50-65 | a string of lowercase letters meets find_word's demand that every character it reads is a letter `a`-`z` |
| Dictionary.UnreadCharacterAllowed | src/dictionary.rs:56 | a character after the first empty slot is never read, so "q1" may be asked of a dictionary without 'q' |
| Dictionary.FindWord | src/dictionary.rs:49-68 | the cursor loop answers true exactly when the string is lowercase and its walk ends on a node flagged as a word; a string whose walk stops before a non-letter gives false; the empty string gives false |
| Dictionary.TouchSlot | src/dictionary.rs:136-149 | creating a node (flag = last byte) in an empty slot, or OR-ing the flag of an existing one, keeps the 26-slot shape and slot letters |
| Dictionary.TouchAt | src/dictionary.rs:152-176 | the same step applied at the cursor's child vector keeps the whole tree valid |
| Dictionary.TouchAtEffect | src/dictionary.rs:133-176 | a step adds exactly the node for cursor ++ [ch]; that node becomes a word exactly when it is the last byte; no other node or flag changes, and no flag is cleared |
| Dictionary.TouchAtReaches | src/dictionary.rs:173-174 | after a step the slot the cursor moves to is present, so the cursor never points at an empty slot |
| Dictionary.InsertSteps | src/dictionary.rs:133-178 | after the first i bytes of a word the tree is valid and has a node for those i letters |
| Dictionary.Insert | src/dictionary.rs:132-179 | inserting a word keeps the tree valid |
| Dictionary.Build | src/dictionary.rs:128-181 | the tree built from a list is valid: every vector has 26 slots, and slot k holds 'a'+k |
| Dictionary.InsertStepsEffect | src/dictionary.rs:133-178 | after i bytes of w the nodes are the old ones plus the prefixes of w up to i; the words are the old ones, plus w once all its bytes are in |
| Dictionary.EmptyWordChangesNothing | src/dictionary.rs:133 | an empty word has no bytes to loop over, so inserting it leaves the tree unchanged |
| Dictionary.InsertKeepsWords | src/dictionary.rs:146-148 | inserting a word never clears the flag of a word already present |
| Dictionary.BuildHasExactlyListedWords | src/dictionary.rs:128-181 | the built tree contains a string as a word if and only if it is a non-empty member of the list |
| Dictionary.BuildNodesArePrefixes | src/dictionary.rs:159-167 | a node exists for a non-empty string if and only if it is a prefix of some listed word |
| Dictionary.InsertTwiceSameAnswers | src/dictionary.rs:169-171 | appending the same word twice gives the same answers as appending it once |
| Dictionary.BuildOrderIrrelevant | src/dictionary.rs:132-179 | two lists with the same members, in any order or multiplicity, give trees with the same words |
| Dictionary.TranslateDictionaryToWordMap | src/dictionary.rs:128-181 | the nested byte loop with its cursor computes the specified tree; that tree is valid, and its words are exactly the non-empty listed words |
| Dictionary.New | src/dictionary.rs:75-82 | the debug dictionary contains exactly the words "ad", "bad", "cab", "cad", "ab", "a" |
| Dictionary.ShortWordAfterLongerOne | src/dictionary.rs:78 | inserting "ad" creates the 'a' node as a non-word, yet "a", inserted last, is a word of the finished dictionary |
| DictionaryListing.RenderFromShape | src/dictionary.rs:87-120 | every listed line lies at the current depth or deeper, and the first one at the current depth |
| DictionaryListing.ParseRenderFrom | src/dictionary.rs:89-118 | reading back the lines for the slots from k on rebuilds exactly those slots |
| DictionaryListing.ListingRoundTrip | src/dictionary.rs:86-122 | the listing of a valid dictionary determines it: reading the listing back gives the dictionary |
| DictionaryListing.ToStringRecursive | src/dictionary.rs:87-120 | the loop over the slots emits, for each present slot in order, its line and then its children's lines one level deeper |
| DictionaryListing.ToString | src/dictionary.rs:86-122 | to_string produces the listing of the root vector at depth 0, from which the dictionary reads back unchanged |
| Grid.Written | src/grid.rs:21-22 | a write keeps the number of rows and each row's length, puts the new cell at (row, col) and keeps every other cell |
| Grid.LastWriteWins | src/grid.rs:20-23 | of two writes to the same cell the second one wins |
| Grid.DistinctWritesCommute | src/grid.rs:20-23 | writes to two different cells can be done in either order |
| Grid.Grid.Init | src/grid.rs:12-18 | a new grid has height rows of width cells, each the default cell ('a', 0) |
| Grid.Grid.SetCell | src/grid.rs:20-23 | with row and col in range, the cell at (row, col) gets exactly the given letter and value, every other cell and the dimensions stay the same |

## Left out

- The solver, with its backtracking search, neighbour geometry and solution records, is
  not part of this model. `src/main.rs` uses a `Solver` type and a `grid.set` method, and
  neither is defined in the modelled files.
- `src/main.rs` (command-line wiring, printing) and `src/lib.rs` (the `Solution` constructor
  and its `Display` output) contain no logic to verify.
- The `fmt::Debug` output of `Grid` and `Cell`, and the exact text of `to_string`, are not
  modelled. The text is the depth's repeated `"- "`, the letter, "is word"/"not word" and
  `" -> "`. The model keeps one record per line: depth, letter and flag.
- The commented-out and unreachable `println!` calls, and word-list loading from a file,
  are I/O.
- In-place mutation through the `&mut` cursor is modelled on values: the tree is a
  datatype value that the build method reassigns, and the cursor is its path from the
  root. Aliasing between the cursor and the tree is therefore not modelled.
- `Letter::default()`, the starting cursor of `find_word`, is the constant `DefaultLetter`.
  `Cell::default()` is the constant `DefaultCell`.
- `find_word` answers only whether the string is a word. The program has no prefix or
  terminal query, no cell read and no neighbour enumeration.
- A character outside `a`–`z` makes the program panic when it is read: the subtraction
  underflows or the index is past 25. `find_word` reads characters only up to the first
  empty slot, so its precondition (`ReadsLowercase`) asks only those characters to be
  letters. The build reads every byte, so it asks every listed word to be lowercase.
- `set_cell` outside the grid panics on `Vec` indexing; the model asks for indices in range.
