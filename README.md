# Spell corrector: a verified Dafny model

This project models the core of a Java spelling corrector (package `spell`).

- A **prefix tree** (`Trie`, `Node`) stores the dictionary. Each node has 26 child slots, one per lower-case letter, and a count: how many times the word ending at that node was added.
- The tree keeps a count of distinct words and a count of nodes. It can look a word up (`find`, `foundInTrie`), list its words in order (`toString`), and compare itself with another tree (`equals`).
- A **corrector** (`SpellCorrector`) fills the tree from a list of words and suggests a correction for an input:
  - no suggestion for the empty input;
  - the input itself when it is a dictionary word;
  - otherwise the most frequent dictionary word one edit away (a deletion, a transposition of neighbours, an alteration or an insertion), with ties going to the alphabetically first;
  - failing that, the same choice among the dictionary words two edits away;
  - failing that, none.

The model has six modules:

- `Alphabet`: letters and the letter to child-slot conversion.
- `Ordering`: the order of Java strings (the order of `TreeMap` keys), the least key, and sorted listings.
- `Nodes`: the node class.
- `Tries`: the trie class and the dictionary functions it is proved against.
- `Edits`: the four edit loops, each described by the set of strings it builds.
- `Corrector`: the corrector class and the specification of the suggestion.

The trie lives on the heap as `Node` objects with their child arrays. Three ghost fields describe it:

- `nodeAt` maps each path of letters from the root to its node.
- `contents` maps each stored word to its count.
- `pathOf` maps each node and child array back to its path, which shows that no node or array is shared.

`Trie.Valid()` ties the heap to these maps. Every operation is proved against them.

The corrector's helpers work on the candidate map as a value: each helper takes the map and returns it with its finds added. `SuggestSimilarWord` stores the result in `possibleSpellings`. The suggestion is proved equal to the specification function `Suggest` of the dictionary, and lemmas about `Suggest` state what a suggestion is.

## Model

| member | source | states |
|---|---|---|
| Alphabet.Letter | SpellCorrector/src/spell/Trie.java:153 | the letter of a child slot is a lower-case letter |
| Alphabet.Index | SpellCorrector/src/spell/Trie.java:63-64 | `letter - 'a'` is a slot below 26, the only one whose letter is `letter` |
| Ordering.Least | SpellCorrector/src/spell/SpellCorrector.java:77 | `firstKey`: the key that sorts before every other key |
| Ordering.LessTransitive | SpellCorrector/src/spell/SpellCorrector.java:77 | the string order of the map keys is transitive |
| Ordering.LessTotal | SpellCorrector/src/spell/SpellCorrector.java:77 | any two different keys are ordered one way or the other |
| Ordering.LessIrreflexive | SpellCorrector/src/spell/SpellCorrector.java:77 | no key sorts before itself |
| Ordering.LessAsymmetric | SpellCorrector/src/spell/SpellCorrector.java:77 | two keys are never ordered both ways |
| Ordering.LessAtFirstDifference | SpellCorrector/src/spell/SpellCorrector.java:77 | as in `String.compareTo`, two keys that agree up to a position and differ there are ordered by their characters at that position |
| Ordering.PrefixLess | SpellCorrector/src/spell/SpellCorrector.java:77 | as in `String.compareTo`, a proper prefix sorts before every longer key that extends it |
| Ordering.LeastUnique | SpellCorrector/src/spell/SpellCorrector.java:77 | a key below all others is the first key |
| Ordering.SortedUnique | SpellCorrector/src/spell/Trie.java:126-134 | two sorted listings with the same elements are equal, so the listing is determined by the stored words |
| Nodes.Node.constructor | SpellCorrector/src/spell/Node.java:7-10 | a new node has 26 empty child slots in a fresh array and count 0 |
| Nodes.Node.IncrementValue | SpellCorrector/src/spell/Node.java:18-20 | the count goes up by one |
| Nodes.Node.GetValue | SpellCorrector/src/spell/Node.java:13-15 | returns the node's count, the number of times the word ending here was added |
| Nodes.Node.GetChildren | SpellCorrector/src/spell/Node.java:23-25 | returns the node's own child array, not a copy, so a caller writing a slot changes the node |
| Tries.BumpAllCounts | SpellCorrector/src/spell/SpellCorrector.java:25-28 | after adding a list of words, each word's count is its old count plus its number of occurrences in the list; the empty word is never stored |
| Tries.SameBagSameContents | SpellCorrector/src/spell/SpellCorrector.java:25-28 | the dictionary does not depend on the order of the words added |
| Tries.SameBagSamePaths | SpellCorrector/src/spell/SpellCorrector.java:25-28 | the tree's paths do not depend on the order of the words added |
| Tries.PrefixesCount | SpellCorrector/src/spell/Trie.java:33-36 | a word of n letters has n non-empty prefixes, so adding it creates at most n nodes |
| Tries.Trie.constructor | SpellCorrector/src/spell/Trie.java:9-14 | a new trie is a lone root, no words, one node |
| Tries.Trie.Walk | SpellCorrector/src/spell/Trie.java:62-71 | walking a path's letters from the root reaches a node exactly when the path is in the tree, and that node is the path's node |
| Tries.Trie.NodeCountIsNodes | SpellCorrector/src/spell/Trie.java:121-124 | `nodeCount` is the number of distinct nodes |
| Tries.Trie.Shape | SpellCorrector/src/spell/Trie.java:22-46 | the paths are words closed under prefixes; the stored words are among them with positive counts |
| Tries.Trie.Add | SpellCorrector/src/spell/Trie.java:22-46 | one more occurrence of the word; the new paths are exactly its prefixes; `nodeCount` grows by the new prefixes, at most the word's length; `wordCount` grows by one for a new non-empty word; only fresh objects are added |
| Tries.Trie.AddPath | SpellCorrector/src/spell/Trie.java:28-45 | the loop of `add`: every prefix of the word becomes a path and the word's count goes up |
| Tries.Trie.Step | SpellCorrector/src/spell/Trie.java:29-44 | one turn: the next prefix becomes a path, and on the last letter the word is counted |
| Tries.Trie.Child | SpellCorrector/src/spell/Trie.java:33-36 | the child for the next letter, created when missing, is the node of the extended path |
| Tries.Trie.AddChild | SpellCorrector/src/spell/Trie.java:33-36 | hanging a fresh node adds exactly one path and two objects and keeps the invariant |
| Tries.Trie.CountWord | SpellCorrector/src/spell/Trie.java:38-42 | the word's count goes up by one, and `wordCount` grows exactly when the word was new |
| Tries.Trie.Probed | SpellCorrector/src/spell/Trie.java:73 | the path whose count `find` reads: the word itself, or "a" for the empty word |
| Tries.Trie.Find | SpellCorrector/src/spell/Trie.java:55-78 | the node of the probed path when a word is stored there, else null; its count is the word's count |
| Tries.Trie.FoundInTrie | SpellCorrector/src/spell/Trie.java:80-104 | true exactly when the probed path is a stored word |
| Tries.Trie.GetWordCount | SpellCorrector/src/spell/Trie.java:112-114 | the number of distinct stored words |
| Tries.Trie.GetNodeCount | SpellCorrector/src/spell/Trie.java:122-124 | the number of paths, the root included |
| Tries.Trie.ToString | SpellCorrector/src/spell/Trie.java:126-134 | every stored word once, in increasing order, each followed by a newline |
| Tries.Trie.StringListGenerator | SpellCorrector/src/spell/Trie.java:144-159 | appends, in increasing order, exactly the stored words at or below the current path |
| Tries.Trie.TreeDif | SpellCorrector/src/spell/Trie.java:185-205 | true exactly when the two subtrees have the same paths and counts |
| Tries.Trie.Equals | SpellCorrector/src/spell/Trie.java:161-175 | true exactly when the two tries have the same paths and the same words with the same counts |
| Edits.Delete | SpellCorrector/src/spell/SpellCorrector.java:91-92 | `deleteCharAt` leaves a string one shorter |
| Edits.DeletionUndone | SpellCorrector/src/spell/SpellCorrector.java:91-92 | putting the deleted character back gives the word again |
| Edits.DeletionsMeaning | SpellCorrector/src/spell/SpellCorrector.java:87-97 | the deletion loop builds exactly the word with one character removed, and nothing for words shorter than 2 |
| Edits.Swap | SpellCorrector/src/spell/SpellCorrector.java:110-113 | the two characters are exchanged and the others stay |
| Edits.SwapTwice | SpellCorrector/src/spell/SpellCorrector.java:110-113 | exchanging the same pair twice gives the word back |
| Edits.TranspositionsMeaning | SpellCorrector/src/spell/SpellCorrector.java:106-119 | the transposition loop builds exactly the word with one neighbouring pair exchanged |
| Edits.AlterationRowMeaning | SpellCorrector/src/spell/SpellCorrector.java:130-136 | the inner loop builds exactly the word with each letter written at the position |
| Edits.AlterationsMeaning | SpellCorrector/src/spell/SpellCorrector.java:128-138 | the alteration loops build exactly the strings of the same length that differ from the word at most at one position, which holds a letter |
| Edits.Insert | SpellCorrector/src/spell/SpellCorrector.java:149-150 | `insert` makes a string one longer |
| Edits.InsertionUndone | SpellCorrector/src/spell/SpellCorrector.java:149-150 | removing the inserted letter gives the word again |
| Edits.InsertionsMeaning | SpellCorrector/src/spell/SpellCorrector.java:146-157 | the insertion loops build exactly the word with one letter inserted at one of its gaps |
| Edits.Edits1Shape | SpellCorrector/src/spell/SpellCorrector.java:203-263 | every string one edit away is within one of the word's length, is non-empty for a non-empty word, and is a word of letters |
| Edits.Edits1Meaning | SpellCorrector/src/spell/SpellCorrector.java:203-263 | a string is one edit away exactly when it is a one-character deletion of a word of two or more characters, a neighbour swap, a one-letter alteration or a one-letter insertion |
| Edits.Edits2Shape | SpellCorrector/src/spell/SpellCorrector.java:62-69 | every string two edits away is within two of the word's length and is a word of letters |
| Corrector.MaxCount | SpellCorrector/src/spell/SpellCorrector.java:166-174 | the largest count of the map, reached by some key, or 0 for an empty map |
| Corrector.Best | SpellCorrector/src/spell/SpellCorrector.java:55-56 | the candidate with the highest count, the alphabetically first among equals |
| Corrector.SuggestSound | SpellCorrector/src/spell/SpellCorrector.java:32-78 | every suggestion is a dictionary word |
| Corrector.SuggestNone | SpellCorrector/src/spell/SpellCorrector.java:32-78 | there is no suggestion exactly when the input is empty, or is not a dictionary word and no dictionary word is one or two edits away |
| Corrector.SuggestNearest | SpellCorrector/src/spell/SpellCorrector.java:46-56 | when a dictionary word is one edit away, the suggestion is one edit away and no word one edit away beats it |
| Corrector.SuggestSecond | SpellCorrector/src/spell/SpellCorrector.java:62-77 | when nothing one edit away is a word, the suggestion is the best dictionary word two edits away |
| Corrector.EmptyInputAnswered | SpellCorrector/src/spell/SpellCorrector.java:36 | the reference comparison `inputWord == ""` lets a non-literal empty input through, and it comes back as correct when "a" is a word |
| Corrector.SuggestAsWritten | SpellCorrector/src/spell/SpellCorrector.java:33-78 | `suggestSimilarWord` as written: it agrees with `Suggest` except for an empty input that is not the literal `""`; for that input it crashes exactly when no dictionary word starts with 'a', and returns the empty input as correct when "a" is a word |
| Corrector.EmptyInputCrashes | SpellCorrector/src/spell/SpellCorrector.java:36 | the same input crashes when no word starts with 'a' |
| Corrector.SpellCorrector.constructor | SpellCorrector/src/spell/SpellCorrector.java:15-17 | a corrector with an empty trie |
| Corrector.SpellCorrector.UseDictionary | SpellCorrector/src/spell/SpellCorrector.java:20-30 | the dictionary becomes the old one with every word of the list added, and the tree gains exactly the prefixes of those words |
| Corrector.SpellCorrector.AddFirst | SpellCorrector/src/spell/SpellCorrector.java:25-27 | one turn of the loop: the first word is added |
| Corrector.SpellCorrector.Lookup | SpellCorrector/src/spell/SpellCorrector.java:93-94 | `foundInTrie` and `find(..).getValue()` give membership and the count |
| Corrector.SpellCorrector.Record | SpellCorrector/src/spell/SpellCorrector.java:93-95 | a candidate goes into the map with its count exactly when it is a dictionary word |
| Corrector.SpellCorrector.AddDeletionSpellings | SpellCorrector/src/spell/SpellCorrector.java:87-97 | adds exactly the dictionary words among the deletions, with their counts |
| Corrector.SpellCorrector.AddTranspositionSpellings | SpellCorrector/src/spell/SpellCorrector.java:106-119 | adds exactly the dictionary words among the transpositions |
| Corrector.SpellCorrector.AddAlterationSpellings | SpellCorrector/src/spell/SpellCorrector.java:128-138 | adds exactly the dictionary words among the alterations |
| Corrector.SpellCorrector.AddAlterationRow | SpellCorrector/src/spell/SpellCorrector.java:130-136 | adds exactly the dictionary words with some letter at the position |
| Corrector.SpellCorrector.AddInsertionSpellings | SpellCorrector/src/spell/SpellCorrector.java:146-157 | adds exactly the dictionary words among the insertions |
| Corrector.SpellCorrector.AddInsertionRow | SpellCorrector/src/spell/SpellCorrector.java:148-155 | adds exactly the dictionary words with some letter inserted at the gap |
| Corrector.SpellCorrector.AddEditSpellings | SpellCorrector/src/spell/SpellCorrector.java:47-50 | the four helpers together add exactly the dictionary words one edit away |
| Corrector.SpellCorrector.FindMax | SpellCorrector/src/spell/SpellCorrector.java:166-174 | the largest count of the map, 0 when it is empty |
| Corrector.SpellCorrector.SortOutMaxs | SpellCorrector/src/spell/SpellCorrector.java:185-194 | exactly the entries whose count is the given maximum |
| Corrector.SpellCorrector.FirstKey | SpellCorrector/src/spell/SpellCorrector.java:53 | the alphabetically first key |
| Corrector.SpellCorrector.GenerateDistanceOneList | SpellCorrector/src/spell/SpellCorrector.java:203-263 | the keys are exactly the strings one edit away, dictionary words or not |
| Corrector.SpellCorrector.DeletionKeys | SpellCorrector/src/spell/SpellCorrector.java:206-218 | the deletion loop adds exactly the deletions |
| Corrector.SpellCorrector.TranspositionKeys | SpellCorrector/src/spell/SpellCorrector.java:220-234 | the transposition loop adds exactly the transpositions |
| Corrector.SpellCorrector.AlterationKeys | SpellCorrector/src/spell/SpellCorrector.java:236-247 | the alteration loops add exactly the alterations |
| Corrector.SpellCorrector.InsertionKeys | SpellCorrector/src/spell/SpellCorrector.java:249-260 | the insertion loops add exactly the insertions |
| Corrector.SpellCorrector.AddEditsOfAll | SpellCorrector/src/spell/SpellCorrector.java:64-69 | running the four helpers on every string of the list adds exactly the dictionary words one edit away from one of them |
| Corrector.SpellCorrector.Choose | SpellCorrector/src/spell/SpellCorrector.java:73-77 | `findMax`, `sortOutMaxs` and `firstKey` together give the best candidate |
| Corrector.SpellCorrector.OnlyCandidate | SpellCorrector/src/spell/SpellCorrector.java:52-53 | the shortcut for a single candidate gives the same answer as the full choice |
| Corrector.SpellCorrector.TopsAreFinal | SpellCorrector/src/spell/SpellCorrector.java:55-56 | the map `sortOutMaxs` returns is non-empty, and its first key is the best candidate |
| Corrector.SpellCorrector.PickFirst | SpellCorrector/src/spell/SpellCorrector.java:52-56 | the choice after the first round is the best candidate |
| Corrector.SpellCorrector.DistanceTwoSpellings | SpellCorrector/src/spell/SpellCorrector.java:62-69 | the second round finds exactly the dictionary words two edits away |
| Corrector.SpellCorrector.SetSpellings | SpellCorrector/src/spell/SpellCorrector.java:46 | stores the candidate map and changes nothing else |
| Corrector.SpellCorrector.SuggestFromEdits | SpellCorrector/src/spell/SpellCorrector.java:46-77 | for an input that is not a dictionary word: the suggestion is `Suggest`, and `possibleSpellings` holds the candidates of the round that decided |
| Corrector.SpellCorrector.SuggestSimilarWord | SpellCorrector/src/spell/SpellCorrector.java:32-78 | the suggestion is `Suggest` of the dictionary; `alreadyCorrect` is set exactly when the input is a non-empty dictionary word; `possibleSpellings` holds the candidates of the deciding round, or is left as it was for an empty or correct input; only the corrector's own fields change |

## Left out

- Reading the dictionary file (`File`, `Scanner`) is not modelled. `UseDictionary` takes the words as a sequence, and the I/O exceptions are gone with it.
- `toLowerCase` is not modelled. The model requires every added word and every input to consist of the letters `a`..`z` already. The source does the same for anything else: a character outside the alphabet indexes outside the 26 slots.
- `Trie.hashCode` and the `indexHasher` field that only it reads are not modelled. They are arithmetic on character codes with 32-bit overflow and no bearing on any other operation.
- Java's 32-bit `int` counts are unbounded in the model. Overflow would need at least 2^31 additions of one word or at least 2^31 nodes, since a Java `int` holds at most 2^31 - 1 and `nodeCount` starts at 1.
- `Trie.equals` checks identity, `null` and the class before comparing. `Tries.Trie.Equals` takes another valid trie, so it starts at the counter comparison.
- GenerateDistanceOneList: only the keys of the returned map are modelled. Its values are never read. For a repeated key, the source writes the value read at `key + 1`, which is never a key, so the value becomes null; that has no effect on anything observed.
- `TreeMap` iteration order in the distance-two loop and in `findMax`/`sortOutMaxs` is not modelled. Those loops visit the keys in any order, and their results do not depend on the order.
- Corrector.SpellCorrector.SuggestSimilarWord: the reference comparison `inputWord == ""` is modelled as an emptiness test, the evidently intended meaning. The behaviour as written is modelled separately by `Corrector.SuggestAsWritten` (see Findings).
- Tries.Trie.Find and Tries.Trie.FoundInTrie require, for the empty word, that some stored word starts with 'a'. Otherwise the source dereferences null and throws. With that precondition both answer for the probed path "a".
- The `add*Spellings` helpers take the candidate map and return it with their finds added. The source mutates the field `possibleSpellings` in each helper. The model stores the final map once per round (`SetSpellings`), and no caller can tell the difference.
- Corrector.SpellCorrector.SuggestFromEdits: when the first round finds nothing, the source runs `findMax` and `sortOutMaxs` on the empty map before the second round. Those calls have no effect and are not modelled.
- Corrector.SpellCorrector.SuggestSimilarWord: `possibleSpellings` starts out null in the source and as the empty map in the model. An input that is empty or already correct leaves it unchanged in both.
- The `ITrie`, `INode` and `ISpellCorrector` interfaces and `Main.java` are not part of this model.

## Findings

| source | as written | input that shows it | evidently intended | confidence | as-written member | corrected member |
|---|---|---|---|---|---|---|
| SpellCorrector/src/spell/SpellCorrector.java:36 | `inputWord == ""` compares references, so an empty input that is not the interned literal (for example a command-line argument) passes the test and reaches `foundInTrie("")`, which reads child slot 0 of the root unchecked | empty input with dictionary {"a": 1}: `""` is returned as already correct; with dictionary {"b": 1}: NullPointerException | an emptiness test (`inputWord.isEmpty()`): no suggestion for the empty input | medium, not executed (depends on the empty string not being the interned literal) | Corrector.EmptyInputAnswered | Corrector.SuggestNone |
