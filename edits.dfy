/** The single-edit candidates of SpellCorrector.java: the strings its
    deletion, transposition, alteration and insertion loops build from a
    word. Each loop is described by the set of strings it has built after
    its first `n` turns, so that a loop invariant is one of these sets and
    the whole loop is the set after its last turn. */
module Edits {
  import opened Alphabet

  /** `w` without its character at position `k` (`deleteCharAt(k)`). */
  function Delete(w: string, k: nat): (r: string)
    requires k < |w|
    ensures |r| == |w| - 1
  {
    w[..k] + w[k + 1..]
  }

  /** Putting the deleted character back where it was gives the word again. */
  lemma DeletionUndone(w: string, k: nat)
    requires k < |w|
    ensures Delete(w, k)[..k] + [w[k]] + Delete(w, k)[k..] == w
  {
    var d := Delete(w, k);
    assert d[..k] == w[..k];
    assert d[k..] == w[k + 1..];
    assert w == w[..k] + [w[k]] + w[k + 1..];
  }

  /** The deletion loop after positions 0..n-1. */
  function DeletionsBefore(w: string, n: nat): set<string>
    requires n <= |w|
  {
    if n == 0 then {} else DeletionsBefore(w, n - 1) + {Delete(w, n - 1)}
  }

  /** The deletion loop: each position deleted in turn; nothing for a word
      shorter than 2 (addDeletionSpellings). */
  function Deletions(w: string): set<string>
  {
    if |w| < 2 then {} else DeletionsBefore(w, |w|)
  }

  /** What the deletion loop builds in its first `n` turns: the word with
      one of its first `n` characters removed. */
  lemma {:induction false} DeletionsBeforeMeaning(w: string, n: nat, c: string)
    requires n <= |w|
    ensures c in DeletionsBefore(w, n) <==> exists k | 0 <= k < n :: c == Delete(w, k)
  {
    if n > 0 {
      DeletionsBeforeMeaning(w, n - 1, c);
    }
  }

  /** The deletions are exactly the word with one character removed, and
      there are none for a word shorter than 2. */
  lemma DeletionsMeaning(w: string, c: string)
    ensures c in Deletions(w) <==> |w| >= 2 && exists k | 0 <= k < |w| :: c == Delete(w, k)
  {
    if |w| >= 2 {
      DeletionsBeforeMeaning(w, |w|, c);
    }
  }

  /** `w` with the characters at `i - 1` and `i` exchanged, as the two
      `setCharAt` calls of the transposition loop write it. */
  function Swap(w: string, i: nat): (r: string)
    requires 0 < i < |w|
    ensures |r| == |w| && r[i - 1] == w[i] && r[i] == w[i - 1]
    ensures forall p | 0 <= p < |w| && p != i - 1 && p != i :: r[p] == w[p]
  {
    w[i := w[i - 1]][i - 1 := w[i]]
  }

  /** Exchanging the same pair twice restores the word. */
  lemma SwapTwice(w: string, i: nat)
    requires 0 < i < |w|
    ensures Swap(Swap(w, i), i) == w
  {
    var s := Swap(Swap(w, i), i);
    assert forall p | 0 <= p < |w| :: s[p] == w[p];
  }

  /** Exchanging two letters of a word leaves a word. */
  lemma SwappedWord(w: string, i: nat)
    requires IsWord(w) && 0 < i < |w|
    ensures IsWord(Swap(w, i))
  {
    var r := Swap(w, i);
    forall p | 0 <= p < |r|
      ensures IsLetter(r[p])
    {
      if p != i - 1 && p != i {
        assert r[p] == w[p];
      }
    }
  }

  /** The transposition loop after the pairs ending at 1..n-1. */
  function TranspositionsBefore(w: string, n: nat): set<string>
    requires n <= |w|
  {
    if n <= 1 then {} else TranspositionsBefore(w, n - 1) + {Swap(w, n - 1)}
  }

  /** The transposition loop: the pairs (0, 1), (1, 2), ... exchanged in
      turn; nothing for a word shorter than 2 (addTranspositionSpellings). */
  function Transpositions(w: string): set<string>
  {
    TranspositionsBefore(w, |w|)
  }

  /** What the transposition loop builds in its turns before `n`: the word
      with one neighbouring pair ending before `n` exchanged. */
  lemma {:induction false} TranspositionsBeforeMeaning(w: string, n: nat, c: string)
    requires n <= |w|
    ensures c in TranspositionsBefore(w, n) <==> exists i | 0 < i < n :: c == Swap(w, i)
  {
    if n > 1 {
      TranspositionsBeforeMeaning(w, n - 1, c);
    }
  }

  /** The transpositions are exactly the word with one neighbouring pair
      exchanged. */
  lemma TranspositionsMeaning(w: string, c: string)
    ensures c in Transpositions(w) <==> exists i | 0 < i < |w| :: c == Swap(w, i)
  {
    TranspositionsBeforeMeaning(w, |w|, c);
  }

  /** The inner alteration loop at position `i` after the letters
      'a'..'a'+n-1. */
  function AlterationRow(w: string, i: nat, n: nat): set<string>
    requires i < |w| && n <= 26
  {
    if n == 0 then {} else AlterationRow(w, i, n - 1) + {w[i := Letter(n - 1)]}
  }

  /** The outer alteration loop after positions 0..n-1. */
  function AlterationsBefore(w: string, n: nat): set<string>
    requires n <= |w|
  {
    if n == 0 then {} else AlterationsBefore(w, n - 1) + AlterationRow(w, n - 1, 26)
  }

  /** The alteration loops (addAlterationSpellings). */
  function Alterations(w: string): set<string>
  {
    AlterationsBefore(w, |w|)
  }

  /** `c` is `w` with position `i` holding some letter. */
  predicate Altered(w: string, i: nat, c: string)
    requires i < |w| && |c| == |w|
  {
    IsLetter(c[i]) && forall p | 0 <= p < |w| && p != i :: c[p] == w[p]
  }

  /** What the inner alteration loop builds: the word with one of the first
      `n` letters written at position `i`. */
  lemma {:induction false} AlterationRowMeaning(w: string, i: nat, n: nat, c: string)
    requires i < |w| && n <= 26
    ensures c in AlterationRow(w, i, n) <==> exists j | 0 <= j < n :: c == w[i := Letter(j)]
  {
    if n > 0 {
      AlterationRowMeaning(w, i, n - 1, c);
    }
  }

  /** Every string the alteration loops build before position `n` has the
      word's length and differs from it at most at one position before `n`,
      which holds a letter. */
  lemma {:induction false} AlterationsBeforeShape(w: string, n: nat, c: string)
    requires n <= |w| && c in AlterationsBefore(w, n)
    ensures |c| == |w| && exists i | 0 <= i < n :: Altered(w, i, c)
  {
    if c in AlterationsBefore(w, n - 1) {
      AlterationsBeforeShape(w, n - 1, c);
    } else {
      AlterationRowMeaning(w, n - 1, 26, c);
      var j :| 0 <= j < 26 && c == w[n - 1 := Letter(j)];
      assert Altered(w, n - 1, c);
    }
  }

  /** The outer alteration loop only adds strings. */
  lemma {:induction false} AlterationsGrow(w: string, m: nat, n: nat)
    requires m <= n <= |w|
    ensures AlterationsBefore(w, m) <= AlterationsBefore(w, n)
    decreases n - m
  {
    if m < n {
      AlterationsGrow(w, m, n - 1);
    }
  }

  /** The alterations are exactly the strings of the word's length that
      agree with it everywhere except at one position, which holds a
      letter. */
  lemma AlterationsMeaning(w: string, c: string)
    ensures c in Alterations(w) <==> |c| == |w| && exists i | 0 <= i < |w| :: Altered(w, i, c)
  {
    if c in Alterations(w) {
      AlterationsBeforeShape(w, |w|, c);
    } else if |c| == |w| && exists i | 0 <= i < |w| :: Altered(w, i, c) {
      var i :| 0 <= i < |w| && Altered(w, i, c);
      var j := Index(c[i]);
      assert c == w[i := Letter(j)];
      AlterationRowMeaning(w, i, 26, c);
      AlterationsGrow(w, i + 1, |w|);
      assert false;
    }
  }

  /** A letter written into a word leaves a word. */
  lemma AlteredWord(w: string, i: nat, c: char)
    requires IsWord(w) && i < |w| && IsLetter(c)
    ensures IsWord(w[i := c])
  {
  }

  /** `w` with `c` inserted before position `i` (`insert(i, c)`). */
  function Insert(w: string, i: nat, c: char): (r: string)
    requires i <= |w|
    ensures |r| == |w| + 1
  {
    w[..i] + [c] + w[i..]
  }

  /** Removing the inserted character gives the word again. */
  lemma InsertionUndone(w: string, i: nat, c: char)
    requires i <= |w|
    ensures Insert(w, i, c)[i] == c
    ensures Insert(w, i, c)[..i] + Insert(w, i, c)[i + 1..] == w
  {
    var r := Insert(w, i, c);
    assert r[..i] == w[..i];
    assert r[i + 1..] == w[i..];
  }

  /** A letter inserted into a word gives a word. */
  lemma InsertedWord(w: string, i: nat, c: char)
    requires IsWord(w) && i <= |w| && IsLetter(c)
    ensures IsWord(Insert(w, i, c))
  {
    var r := Insert(w, i, c);
    forall p | 0 <= p < |r|
      ensures IsLetter(r[p])
    {
      if p > i {
        assert r[p] == w[p - 1];
      }
    }
  }

  /** The inner insertion loop at gap `i` after the letters 'a'..'a'+n-1. */
  function InsertionRow(w: string, i: nat, n: nat): set<string>
    requires i <= |w| && n <= 26
  {
    if n == 0 then {} else InsertionRow(w, i, n - 1) + {Insert(w, i, Letter(n - 1))}
  }

  /** The outer insertion loop after gaps 0..n-1. */
  function InsertionsBefore(w: string, n: nat): set<string>
    requires n <= |w| + 1
  {
    if n == 0 then {} else InsertionsBefore(w, n - 1) + InsertionRow(w, n - 1, 26)
  }

  /** The insertion loops, gaps 0..|w| (addInsertionSpellings). */
  function Insertions(w: string): set<string>
  {
    InsertionsBefore(w, |w| + 1)
  }

  /** What the inner insertion loop builds: the word with one of the first
      `n` letters inserted at gap `i`. */
  lemma {:induction false} InsertionRowMeaning(w: string, i: nat, n: nat, c: string)
    requires i <= |w| && n <= 26
    ensures c in InsertionRow(w, i, n) <==> exists j | 0 <= j < n :: c == Insert(w, i, Letter(j))
  {
    if n > 0 {
      InsertionRowMeaning(w, i, n - 1, c);
    }
  }

  /** What the insertion loops build at the gaps before `n`. */
  lemma {:induction false} InsertionsBeforeMeaning(w: string, n: nat, c: string)
    requires n <= |w| + 1
    ensures c in InsertionsBefore(w, n) <==>
      exists i, j | 0 <= i < n && 0 <= j < 26 :: c == Insert(w, i, Letter(j))
  {
    if n > 0 {
      InsertionsBeforeMeaning(w, n - 1, c);
      InsertionRowMeaning(w, n - 1, 26, c);
    }
  }

  /** The insertions are exactly the word with one letter inserted at one
      of its |w| + 1 gaps. */
  lemma InsertionsMeaning(w: string, c: string)
    ensures c in Insertions(w) <==>
      exists i, j | 0 <= i <= |w| && 0 <= j < 26 :: c == Insert(w, i, Letter(j))
  {
    InsertionsBeforeMeaning(w, |w| + 1, c);
  }

  /** Every string of an inner insertion loop is one longer than the word
      and, for a word of letters, a word of letters. */
  lemma {:induction false} InsertionRowShape(w: string, i: nat, n: nat, c: string)
    requires i <= |w| && n <= 26 && c in InsertionRow(w, i, n)
    ensures |c| == |w| + 1 && (IsWord(w) ==> IsWord(c))
  {
    if c in InsertionRow(w, i, n - 1) {
      InsertionRowShape(w, i, n - 1, c);
    } else if IsWord(w) {
      InsertedWord(w, i, Letter(n - 1));
    }
  }

  /** Every string the insertion loops build is one longer than the word
      and, for a word of letters, a word of letters. */
  lemma {:induction false} InsertionsBeforeShape(w: string, n: nat, c: string)
    requires n <= |w| + 1 && c in InsertionsBefore(w, n)
    ensures |c| == |w| + 1 && (IsWord(w) ==> IsWord(c))
  {
    if c in InsertionsBefore(w, n - 1) {
      InsertionsBeforeShape(w, n - 1, c);
    } else {
      InsertionRowShape(w, n - 1, 26, c);
    }
  }

  /** A character deleted from a word leaves a word. */
  lemma DeletedWord(w: string, k: nat)
    requires IsWord(w) && k < |w|
    ensures IsWord(Delete(w, k))
  {
    var r := Delete(w, k);
    forall p | 0 <= p < |r|
      ensures IsLetter(r[p])
    {
      if p >= k {
        assert r[p] == w[p + 1];
      }
    }
  }

  /** Every deletion is one character shorter and, for a word, a word. */
  lemma {:induction false} DeletionsBeforeShape(w: string, n: nat, c: string)
    requires n <= |w| && c in DeletionsBefore(w, n)
    ensures |c| == |w| - 1 && (IsWord(w) ==> IsWord(c))
  {
    if c in DeletionsBefore(w, n - 1) {
      DeletionsBeforeShape(w, n - 1, c);
    } else if IsWord(w) {
      DeletedWord(w, n - 1);
    }
  }

  /** Every transposition has the word's length and, for a word, is a word. */
  lemma {:induction false} TranspositionsBeforeShape(w: string, n: nat, c: string)
    requires n <= |w| && c in TranspositionsBefore(w, n)
    ensures |c| == |w| && (IsWord(w) ==> IsWord(c))
  {
    if c in TranspositionsBefore(w, n - 1) {
      TranspositionsBeforeShape(w, n - 1, c);
    } else if IsWord(w) {
      SwappedWord(w, n - 1);
    }
  }

  /** Every string one edit away from `w` (the keys of
      generateDistanceOneList). */
  function Edits1(w: string): set<string>
  {
    Deletions(w) + Transpositions(w) + Alterations(w) + Insertions(w)
  }

  /** The strings one edit away are exactly the one-character deletions
      (of a word of two or more characters), the neighbour swaps, the
      one-letter alterations and the one-letter insertions. */
  lemma Edits1Meaning(w: string, c: string)
    ensures c in Edits1(w) <==>
      (|w| >= 2 && exists k | 0 <= k < |w| :: c == Delete(w, k)) ||
      (exists i | 0 < i < |w| :: c == Swap(w, i)) ||
      (|c| == |w| && exists i | 0 <= i < |w| :: Altered(w, i, c)) ||
      (exists i, j | 0 <= i <= |w| && 0 <= j < 26 :: c == Insert(w, i, Letter(j)))
  {
    DeletionsMeaning(w, c);
    TranspositionsMeaning(w, c);
    AlterationsMeaning(w, c);
    InsertionsMeaning(w, c);
  }

  /** Every string one edit away from a non-empty word is not empty, is
      within one of the word's length and, for a word of letters, is a word
      of letters. */
  lemma Edits1Shape(w: string)
    ensures forall c | c in Edits1(w) :: |w| - 1 <= |c| <= |w| + 1
    ensures w != [] ==> forall c | c in Edits1(w) :: c != []
    ensures IsWord(w) ==> forall c | c in Edits1(w) :: IsWord(c)
  {
    forall c | c in Edits1(w)
      ensures |w| - 1 <= |c| <= |w| + 1 && (w != [] ==> c != []) && (IsWord(w) ==> IsWord(c))
    {
      if c in Deletions(w) {
        DeletionsBeforeShape(w, |w|, c);
      } else if c in Transpositions(w) {
        TranspositionsBeforeShape(w, |w|, c);
      } else if c in Alterations(w) {
        AlterationsBeforeShape(w, |w|, c);
        var i :| 0 <= i < |w| && Altered(w, i, c);
        if IsWord(w) {
          forall p | 0 <= p < |c|
            ensures IsLetter(c[p])
          {
            if p != i {
              assert c[p] == w[p];
            }
          }
        }
      } else {
        InsertionsBeforeShape(w, |w| + 1, c);
      }
    }
  }

  /** The strings one edit away from some string of `s`. */
  ghost function Reach(s: set<string>): set<string>
  {
    set v, u | u in s && v in Edits1(u) :: v
  }

  /** Every string two edits away from `w`. */
  ghost function Edits2(w: string): set<string>
  {
    Reach(Edits1(w))
  }

  /** Reaching from one more string adds its own edits. */
  lemma ReachAdd(s: set<string>, u: string)
    ensures Reach(s + {u}) == Reach(s) + Edits1(u)
  {
  }

  /** Every single edit changes the length by at most one, so every string
      two edits away is within two of the word's length and, for a word of
      letters, is a word of letters. */
  lemma Edits2Shape(w: string)
    ensures forall v | v in Edits2(w) :: |w| - 2 <= |v| <= |w| + 2
    ensures IsWord(w) ==> forall v | v in Edits2(w) :: IsWord(v)
  {
    Edits1Shape(w);
    forall v | v in Edits2(w)
      ensures |w| - 2 <= |v| <= |w| + 2 && (IsWord(w) ==> IsWord(v))
    {
      var u :| u in Edits1(w) && v in Edits1(u);
      Edits1Shape(u);
    }
  }
}
