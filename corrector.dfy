/** The spelling corrector (SpellCorrector.java): a dictionary trie, the
    candidates one or two edits away from the input that are dictionary
    words, and the choice among them of the most frequent, ties going to
    the alphabetically first. */
module Corrector {
  import opened Alphabet
  import opened Ordering
  import opened Nodes
  import opened Tries
  import opened Edits

  datatype Option<T> = None | Some(value: T)

  /** The dictionary words among `cands` with their counts: what the
      `add*Spellings` helpers put into `possibleSpellings`. */
  function Found(d: map<string, nat>, cands: set<string>): map<string, nat>
  {
    map w | w in cands && w in d :: d[w]
  }

  /** Looking up one more candidate puts it in with its count when it is a
      dictionary word, and changes nothing otherwise. */
  lemma FoundAdd(m: map<string, nat>, d: map<string, nat>, a: set<string>, x: string)
    ensures m + Found(d, a + {x}) ==
      if x in d then (m + Found(d, a))[x := d[x]] else m + Found(d, a)
  {
  }

  /** Collecting into an empty map gives just what was collected. */
  lemma EmptyPlus(m: map<string, nat>)
    ensures map[] + m == m
  {
  }

  /** Collecting two candidate sets one after the other collects their union. */
  lemma FoundUnion(m: map<string, nat>, d: map<string, nat>, a: set<string>, b: set<string>)
    ensures m + Found(d, a) + Found(d, b) == m + Found(d, a + b)
  {
  }

  /** The largest count in `m`, 0 for an empty map. */
  ghost function MaxCount(m: map<string, nat>): (max: nat)
    ensures forall w | w in m :: m[w] <= max
    ensures m == map[] ==> max == 0
    ensures m != map[] ==> exists w | w in m :: m[w] == max
    decreases |m|
  {
    if m == map[] then 0
    else
      var k :| k in m;
      var rest := MaxCount(m - {k});
      assert forall w | w in m && w != k :: w in m - {k} && (m - {k})[w] == m[w];
      if m[k] >= rest then m[k] else rest
  }

  /** A bound that every count stays below and that is reached (or is 0
      for an empty map) is the largest count. */
  lemma MaxCountUnique(m: map<string, nat>, max: nat)
    requires forall w | w in m :: m[w] <= max
    requires m == map[] ==> max == 0
    requires m != map[] ==> exists w | w in m :: m[w] == max
    ensures max == MaxCount(m)
  {
    if m != map[] {
      var w :| w in m && m[w] == max;
      var v :| v in m && m[v] == MaxCount(m);
    }
  }

  /** The candidates of highest count. */
  ghost function Tops(m: map<string, nat>): set<string>
  {
    set w | w in m && m[w] == MaxCount(m)
  }

  /** The suggestion among the candidates of `m`: highest count first, the
      alphabetically first of those. */
  ghost function Best(m: map<string, nat>): (b: string)
    requires m != map[]
    ensures b in m
    ensures forall w | w in m :: m[w] < m[b] || (m[w] == m[b] && (w == b || Less(b, w)))
  {
    var w :| w in m && m[w] == MaxCount(m);
    assert w in Tops(m);
    Least(Tops(m))
  }

  /** The candidates suggestSimilarWord chooses among: the dictionary words
      one edit away, or when there is none, those two edits away. */
  ghost function Candidates(d: map<string, nat>, w: string): map<string, nat>
  {
    if Found(d, Edits1(w)) != map[] then Found(d, Edits1(w)) else Found(d, Edits2(w))
  }

  /** The suggestion for `w` given the dictionary `d` (suggestSimilarWord):
      none for the empty input, the input itself when it is a dictionary
      word, else the best candidate, else none. */
  ghost function Suggest(d: map<string, nat>, w: string): Option<string>
  {
    if w == [] then None
    else if w in d then Some(w)
    else if Candidates(d, w) == map[] then None
    else Some(Best(Candidates(d, w)))
  }

  /** Every suggestion is a dictionary word. */
  lemma SuggestSound(d: map<string, nat>, w: string)
    requires Suggest(d, w).Some?
    ensures Suggest(d, w).value in d
  {
    if w != [] && w !in d {
      assert Suggest(d, w).value in Candidates(d, w);
    }
  }

  /** There is no suggestion exactly when the input is empty, or is not a
      dictionary word and no dictionary word is one or two edits away. */
  lemma SuggestNone(d: map<string, nat>, w: string)
    ensures Suggest(d, w) == None <==>
      w == [] || (w !in d && forall v | v in Edits1(w) + Edits2(w) :: v !in d)
  {
    if w != [] && w !in d {
      if exists v | v in Edits1(w) + Edits2(w) :: v in d {
        var v :| v in Edits1(w) + Edits2(w) && v in d;
        if v in Edits1(w) {
          assert v in Found(d, Edits1(w));
        } else {
          assert v in Found(d, Edits2(w));
        }
      }
    }
  }

  /** Nearest first: when a dictionary word is one edit away from an input
      that is not itself a word, the suggestion is one edit away, and no
      dictionary word one edit away has a higher count or the same count and
      an earlier place in the alphabet. */
  lemma SuggestNearest(d: map<string, nat>, w: string, v: string)
    requires w != [] && w !in d && v in Edits1(w) && v in d
    ensures Suggest(d, w).Some?
    ensures Suggest(d, w).value in Edits1(w)
    ensures var s := Suggest(d, w).value;
      d[v] < d[s] || (d[v] == d[s] && (v == s || Less(s, v)))
  {
    var m := Found(d, Edits1(w));
    assert v in m;
    assert Candidates(d, w) == m;
    var s := Best(m);
    assert s in m;
  }

  /** When nothing one edit away is a dictionary word, the suggestion is the
      best dictionary word two edits away. */
  lemma SuggestSecond(d: map<string, nat>, w: string, v: string)
    requires w != [] && w !in d && (forall u | u in Edits1(w) :: u !in d)
    requires v in Edits2(w) && v in d
    ensures Suggest(d, w).Some?
    ensures Suggest(d, w).value in Edits2(w)
    ensures var s := Suggest(d, w).value;
      d[v] < d[s] || (d[v] == d[s] && (v == s || Less(s, v)))
  {
    var m := Found(d, Edits2(w));
    assert v in m;
    assert Candidates(d, w) == m;
    var s := Best(m);
    assert s in m;
  }

  /** What a call of suggestSimilarWord comes to: an answer, or an
      exception. */
  datatype Outcome = Returns(answer: Option<string>) | Crashes

  /** suggestSimilarWord as written, on a trie built from the dictionary
      `d`. Its emptiness test compares references, so an empty input that
      is not the very object of the literal "" (`sameObject` false) goes on
      to foundInTrie(""), which reads child slot 0 of the root unchecked: a
      NullPointerException when no dictionary word starts with 'a', else
      the empty input itself when "a" is a word, else the choice among the
      strings one or two edits away from the empty string. */
  ghost function SuggestAsWritten(d: map<string, nat>, w: string, sameObject: bool): (r: Outcome)
    ensures w != [] || sameObject ==> r == Returns(Suggest(d, w))
    ensures r == Crashes <==> w == [] && !sameObject && forall v | v in d :: v == [] || v[0] != 'a'
    ensures w == [] && !sameObject && "a" in d ==> r == Returns(Some(w))
  {
    if w != [] || sameObject then Returns(Suggest(d, w))
    else if forall v | v in d :: v == [] || v[0] != 'a' then Crashes
    else if "a" in d then Returns(Some(w))
    else if Candidates(d, w) == map[] then Returns(None)
    else Returns(Some(Best(Candidates(d, w))))
  }

  /** An empty input that is not the literal "" comes back as a correct
      word when "a" is in the dictionary, although the empty string is no
      dictionary word and the intended answer is none. */
  lemma EmptyInputAnswered()
    ensures SuggestAsWritten(map["a" := 1], [], false) == Returns(Some([]))
    ensures [] !in map["a" := 1] && Suggest(map["a" := 1], []) == None
  {
    assert "a" in map["a" := 1] && "a"[0] == 'a';
  }

  /** The same input makes the program crash when no dictionary word starts
      with 'a'. */
  lemma EmptyInputCrashes()
    ensures SuggestAsWritten(map["b" := 1], [], false) == Crashes
  {
    assert forall v | v in map["b" := 1] :: v == "b";
  }

  class SpellCorrector {
    const dictionary: Trie
    /** The candidates found so far, with their dictionary counts. */
    var possibleSpellings: map<string, nat>
    /** Whether the last input was itself a dictionary word. */
    var alreadyCorrect: bool

    ghost predicate Valid()
      reads dictionary, dictionary.Repr()
    {
      this !in dictionary.Repr() && dictionary.Valid()
    }

    constructor ()
      ensures Valid() && fresh(dictionary.Repr())
      ensures dictionary.nodeAt.Keys == {""} && dictionary.contents == map[]
      ensures possibleSpellings == map[] && !alreadyCorrect
    {
      dictionary := new Trie();
      possibleSpellings := map[];
      alreadyCorrect := false;
    }

    /** Adds each word of `words`, in order (useDictionary, with the words
        given rather than read from a file). */
    method UseDictionary(words: seq<string>)
      requires Valid() && forall i | 0 <= i < |words| :: IsWord(words[i])
      modifies dictionary.Repr()
      ensures Valid() && fresh(dictionary.Repr() - old(dictionary.Repr()))
      ensures dictionary.contents == BumpAll(old(dictionary.contents), words)
      ensures dictionary.nodeAt.Keys == old(dictionary.nodeAt.Keys) + AllPrefixes(words)
    {
      var rest := words;
      while rest != []
        invariant Valid()
        invariant forall o | o in dictionary.Repr() :: o in old(dictionary.Repr()) || !old(allocated(o))
        invariant forall i | 0 <= i < |rest| :: IsWord(rest[i])
        invariant BumpAll(dictionary.contents, rest) == BumpAll(old(dictionary.contents), words)
        invariant dictionary.nodeAt.Keys + AllPrefixes(rest) == old(dictionary.nodeAt.Keys) + AllPrefixes(words)
        decreases |rest|
      {
        rest := AddFirst(rest);
      }
    }

    /** One turn of the useDictionary loop: the first of the words left is
        added, and the rest are left. */
    method AddFirst(rest: seq<string>) returns (tail: seq<string>)
      requires Valid() && rest != [] && forall i | 0 <= i < |rest| :: IsWord(rest[i])
      modifies dictionary.Repr()
      ensures Valid() && fresh(dictionary.Repr() - old(dictionary.Repr()))
      ensures tail == rest[1..]
      ensures BumpAll(dictionary.contents, tail) == BumpAll(old(dictionary.contents), rest)
      ensures dictionary.nodeAt.Keys + AllPrefixes(tail) == old(dictionary.nodeAt.Keys) + AllPrefixes(rest)
    {
      dictionary.Add(rest[0]);
      tail := rest[1..];
    }

    /** The dictionary count of `cand`, when it is a dictionary word: the
        `foundInTrie` / `find(..).getValue()` pair of every helper below. */
    method Lookup(cand: string) returns (found: bool, count: nat)
      requires Valid() && IsWord(cand) && cand != []
      ensures Valid()
      ensures found <==> cand in dictionary.contents
      ensures found ==> count == dictionary.contents[cand]
    {
      found := dictionary.FoundInTrie(cand);
      count := 0;
      if found {
        var node := dictionary.Find(cand);
        count := node.GetValue();
      }
    }

    /** `spellings` with `cand` put in with its dictionary count when it is
        a dictionary word: the `foundInTrie` test and `put` that every helper
        below performs on each candidate. */
    method Record(spellings: map<string, nat>, cand: string) returns (r: map<string, nat>)
      requires Valid() && IsWord(cand) && cand != []
      ensures Valid()
      ensures r == if cand in dictionary.contents then spellings[cand := dictionary.contents[cand]] else spellings
    {
      r := spellings;
      var found, count := Lookup(cand);
      if found {
        r := r[cand := count];
      }
    }

    /** Records the dictionary words among the deletions of `word`
        (addDeletionSpellings). */
    method AddDeletionSpellings(word: string, spellings: map<string, nat>) returns (r: map<string, nat>)
      requires Valid() && IsWord(word)
      ensures Valid()
      ensures r == spellings + Found(dictionary.contents, Deletions(word))
    {
      r := spellings;
      if |word| < 2 {
        return;
      }
      var i := 0;
      while i < |word|
        invariant 0 <= i <= |word|
        invariant r == spellings + Found(dictionary.contents, DeletionsBefore(word, i))
        invariant Valid()
        modifies {}
      {
        var sb := Delete(word, i);
        DeletedWord(word, i);
        r := Record(r, sb);
        FoundAdd(spellings, dictionary.contents, DeletionsBefore(word, i), sb);
        i := i + 1;
      }
    }

    /** Records the dictionary words among the transpositions of `word`
        (addTranspositionSpellings). */
    method AddTranspositionSpellings(word: string, spellings: map<string, nat>) returns (r: map<string, nat>)
      requires Valid() && IsWord(word)
      ensures Valid()
      ensures r == spellings + Found(dictionary.contents, Transpositions(word))
    {
      r := spellings;
      if |word| < 2 {
        return;
      }
      var i := 1;
      while i < |word|
        invariant 1 <= i <= |word|
        invariant r == spellings + Found(dictionary.contents, TranspositionsBefore(word, i))
        invariant Valid()
        modifies {}
      {
        var sb := Swap(word, i);
        SwappedWord(word, i);
        r := Record(r, sb);
        FoundAdd(spellings, dictionary.contents, TranspositionsBefore(word, i), sb);
        i := i + 1;
      }
    }

    /** Records the dictionary words among the alterations of `word`
        (addAlterationSpellings). */
    method AddAlterationSpellings(word: string, spellings: map<string, nat>) returns (r: map<string, nat>)
      requires Valid() && IsWord(word)
      ensures Valid()
      ensures r == spellings + Found(dictionary.contents, Alterations(word))
    {
      r := spellings;
      var i := 0;
      while i < |word|
        invariant 0 <= i <= |word|
        invariant r == spellings + Found(dictionary.contents, AlterationsBefore(word, i))
        invariant Valid()
        modifies {}
      {
        r := AddAlterationRow(word, i, r);
        FoundUnion(spellings, dictionary.contents, AlterationsBefore(word, i), AlterationRow(word, i, 26));
        i := i + 1;
      }
    }

    /** The inner loop of addAlterationSpellings: every letter written at
        position `i` in turn. */
    method AddAlterationRow(word: string, i: nat, spellings: map<string, nat>) returns (r: map<string, nat>)
      requires Valid() && IsWord(word) && i < |word|
      ensures Valid()
      ensures r == spellings + Found(dictionary.contents, AlterationRow(word, i, 26))
    {
      r := spellings;
      var alphabet := 'a';
      ghost var j := 0;
      while alphabet <= 'z'
        invariant 'a' <= alphabet <= '{' && j == alphabet as int - 'a' as int
        invariant r == spellings + Found(dictionary.contents, AlterationRow(word, i, j))
        invariant Valid()
        modifies {}
      {
        var sb := word[i := alphabet];
        assert alphabet == Letter(j);
        AlteredWord(word, i, alphabet);
        r := Record(r, sb);
        FoundAdd(spellings, dictionary.contents, AlterationRow(word, i, j), sb);
        alphabet := (alphabet as int + 1) as char;
        j := j + 1;
      }
      assert j == 26;
    }

    /** Records the dictionary words among the insertions into `word`
        (addInsertionSpellings). */
    method AddInsertionSpellings(word: string, spellings: map<string, nat>) returns (r: map<string, nat>)
      requires Valid() && IsWord(word)
      ensures Valid()
      ensures r == spellings + Found(dictionary.contents, Insertions(word))
    {
      r := spellings;
      var i := 0;
      while i <= |word|
        invariant 0 <= i <= |word| + 1
        invariant r == spellings + Found(dictionary.contents, InsertionsBefore(word, i))
        invariant Valid()
        modifies {}
      {
        r := AddInsertionRow(word, i, r);
        FoundUnion(spellings, dictionary.contents, InsertionsBefore(word, i), InsertionRow(word, i, 26));
        i := i + 1;
      }
    }

    /** The inner loop of addInsertionSpellings: every letter inserted at
        gap `i` in turn. */
    method AddInsertionRow(word: string, i: nat, spellings: map<string, nat>) returns (r: map<string, nat>)
      requires Valid() && IsWord(word) && i <= |word|
      ensures Valid()
      ensures r == spellings + Found(dictionary.contents, InsertionRow(word, i, 26))
    {
      r := spellings;
      var alphabet := 'a';
      ghost var j := 0;
      while alphabet <= 'z'
        invariant 'a' <= alphabet <= '{' && j == alphabet as int - 'a' as int
        invariant r == spellings + Found(dictionary.contents, InsertionRow(word, i, j))
        invariant Valid()
        modifies {}
      {
        var sb := Insert(word, i, alphabet);
        assert alphabet == Letter(j);
        InsertedWord(word, i, alphabet);
        r := Record(r, sb);
        FoundAdd(spellings, dictionary.contents, InsertionRow(word, i, j), sb);
        alphabet := (alphabet as int + 1) as char;
        j := j + 1;
      }
      assert j == 26;
    }

    /** The four helpers in the order suggestSimilarWord calls them: every
        dictionary word one edit away from `word`. */
    method AddEditSpellings(word: string, spellings: map<string, nat>) returns (r: map<string, nat>)
      requires Valid() && IsWord(word)
      ensures Valid()
      ensures r == spellings + Found(dictionary.contents, Edits1(word))
    {
      ghost var d := dictionary.contents;
      r := AddDeletionSpellings(word, spellings);
      r := AddTranspositionSpellings(word, r);
      r := AddAlterationSpellings(word, r);
      r := AddInsertionSpellings(word, r);
      FoundUnion(spellings, d, Deletions(word), Transpositions(word));
      FoundUnion(spellings, d, Deletions(word) + Transpositions(word), Alterations(word));
      FoundUnion(spellings, d, Deletions(word) + Transpositions(word) + Alterations(word), Insertions(word));
    }

    /** The largest count in `m`, 0 when it is empty (findMax). */
    static method FindMax(m: map<string, nat>) returns (max: nat)
      ensures max == MaxCount(m)
    {
      max := 0;
      var rest := m.Keys;
      while rest != {}
        invariant rest <= m.Keys
        invariant forall w | w in m.Keys - rest :: m[w] <= max
        invariant max == 0 || exists w | w in m.Keys - rest :: m[w] == max
        decreases |rest|
      {
        var w :| w in rest;
        if m[w] > max {
          max := m[w];
        }
        rest := rest - {w};
      }
      if max == 0 && m != map[] {
        var w :| w in m;
      }
      MaxCountUnique(m, max);
    }

    /** The entries of `m` whose count is `max` (sortOutMaxs). */
    static method SortOutMaxs(m: map<string, nat>, max: nat) returns (r: map<string, nat>)
      ensures r.Keys <= m.Keys
      ensures forall w | w in m :: w in r <==> m[w] == max
      ensures forall w | w in r :: r[w] == max
    {
      r := map[];
      var rest := m.Keys;
      while rest != {}
        invariant rest <= m.Keys && r.Keys <= m.Keys - rest
        invariant forall w | w in m.Keys - rest :: w in r <==> m[w] == max
        invariant forall w | w in r :: r[w] == max
        decreases |rest|
      {
        var w :| w in rest;
        if m[w] == max {
          r := r[w := m[w]];
        }
        rest := rest - {w};
      }
    }

    /** The alphabetically first key of a non-empty map (`TreeMap.firstKey`). */
    static method FirstKey(m: map<string, nat>) returns (k: string)
      requires m != map[]
      ensures k == Least(m.Keys)
    {
      k :| k in m;
      var rest := m.Keys - {k};
      while rest != {}
        invariant rest <= m.Keys && k in m && k !in rest
        invariant forall w | w in m.Keys - rest && w != k :: Less(k, w)
        decreases |rest|
      {
        var w :| w in rest;
        if Less(w, k) {
          forall o | o in m.Keys - rest && o != k
            ensures Less(w, o)
          {
            LessTransitive(w, k, o);
          }
          k := w;
        } else {
          LessTotal(k, w);
        }
        rest := rest - {w};
      }
      LeastUnique(m.Keys, k);
    }

    /** The keys of generateDistanceOneList: every string one edit away from
        `word`, dictionary word or not, gathered by its four loops in turn.
        The map's values are never read and are not modelled. */
    static method GenerateDistanceOneList(word: string) returns (keys: set<string>)
      ensures keys == Edits1(word)
    {
      keys := DeletionKeys(word, {});
      keys := TranspositionKeys(word, keys);
      keys := AlterationKeys(word, keys);
      keys := InsertionKeys(word, keys);
    }

    /** The deletion loop of generateDistanceOneList. */
    static method DeletionKeys(word: string, start: set<string>) returns (keys: set<string>)
      ensures keys == start + Deletions(word)
    {
      keys := start;
      if |word| < 2 {
        return;
      }
      var i := 0;
      while i < |word|
        invariant 0 <= i <= |word|
        invariant keys == start + DeletionsBefore(word, i)
      {
        keys := keys + {word[..i] + word[i + 1..]};
        i := i + 1;
      }
    }

    /** The transposition loop of generateDistanceOneList. */
    static method TranspositionKeys(word: string, start: set<string>) returns (keys: set<string>)
      ensures keys == start + Transpositions(word)
    {
      keys := start;
      if |word| < 2 {
        return;
      }
      var i := 1;
      while i < |word|
        invariant 1 <= i <= |word|
        invariant keys == start + TranspositionsBefore(word, i)
      {
        var savedLetter := word[i];
        keys := keys + {word[i := word[i - 1]][i - 1 := savedLetter]};
        i := i + 1;
      }
    }

    /** The alteration loops of generateDistanceOneList. */
    static method AlterationKeys(word: string, start: set<string>) returns (keys: set<string>)
      ensures keys == start + Alterations(word)
    {
      keys := start;
      var i := 0;
      while i < |word|
        invariant 0 <= i <= |word|
        invariant keys == start + AlterationsBefore(word, i)
      {
        ghost var done := keys;
        var alphabet := 'a';
        ghost var j := 0;
        while alphabet <= 'z'
          invariant 'a' <= alphabet <= '{' && j == alphabet as int - 'a' as int
          invariant keys == done + AlterationRow(word, i, j)
        {
          assert alphabet == Letter(j);
          keys := keys + {word[i := alphabet]};
          alphabet := (alphabet as int + 1) as char;
          j := j + 1;
        }
        i := i + 1;
      }
    }

    /** The insertion loops of generateDistanceOneList. */
    static method InsertionKeys(word: string, start: set<string>) returns (keys: set<string>)
      ensures keys == start + Insertions(word)
    {
      keys := start;
      var i := 0;
      while i <= |word|
        invariant 0 <= i <= |word| + 1
        invariant keys == start + InsertionsBefore(word, i)
      {
        ghost var done := keys;
        var alphabet := 'a';
        ghost var j := 0;
        while alphabet <= 'z'
          invariant 'a' <= alphabet <= '{' && j == alphabet as int - 'a' as int
          invariant keys == done + InsertionRow(word, i, j)
        {
          assert alphabet == Letter(j);
          keys := keys + {word[..i] + [alphabet] + word[i..]};
          alphabet := (alphabet as int + 1) as char;
          j := j + 1;
        }
        i := i + 1;
      }
    }

    /** The distance-two loop of suggestSimilarWord: the four helpers run on
        every string of `words`, in any order. */
    method AddEditsOfAll(words: set<string>, spellings: map<string, nat>) returns (r: map<string, nat>)
      requires Valid() && forall u | u in words :: IsWord(u)
      ensures Valid()
      ensures r == spellings + Found(dictionary.contents, Reach(words))
    {
      r := spellings;
      var todo := words;
      ghost var done := {};
      while todo != {}
        invariant done + todo == words && Valid()
        invariant r == spellings + Found(dictionary.contents, Reach(done))
        modifies {}
        decreases |todo|
      {
        var u :| u in todo;
        r := AddEditSpellings(u, r);
        FoundUnion(spellings, dictionary.contents, Reach(done), Edits1(u));
        ReachAdd(done, u);
        done := done + {u};
        todo := todo - {u};
      }
      assert done == words;
    }

    /** The suggestion among candidates: findMax, sortOutMaxs and firstKey
        in turn give the best one. */
    method Choose(m: map<string, nat>) returns (k: string)
      requires Valid() && m != map[]
      ensures Valid() && k == Best(m)
    {
      var max := FindMax(m);
      var finalSpellings := SortOutMaxs(m, max);
      TopsAreFinal(m, finalSpellings);
      k := FirstKey(finalSpellings);
    }

    /** The suggestion for `inputWord` (suggestSimilarWord): null (None) for
        the empty input, the input itself when it is a dictionary word, else
        the most frequent dictionary word one edit away, the alphabetically
        first on a tie, and only when there is none, the same choice among
        the dictionary words two edits away. */
    method SuggestSimilarWord(inputWord: string) returns (r: Option<string>)
      requires Valid() && IsWord(inputWord)
      modifies this
      ensures Valid()
      ensures r == Suggest(old(dictionary.contents), inputWord)
      ensures alreadyCorrect <==> inputWord != [] && inputWord in old(dictionary.contents)
      ensures possibleSpellings ==
        if inputWord == [] || inputWord in old(dictionary.contents) then old(possibleSpellings)
        else Candidates(old(dictionary.contents), inputWord)
    {
      alreadyCorrect := false;
      if |inputWord| == 0 {
        return None;
      }
      var found := dictionary.FoundInTrie(inputWord);
      if found {
        alreadyCorrect := true;
      }
      if alreadyCorrect {
        return Some(inputWord);
      }
      r := SuggestFromEdits(inputWord);
    }

    /** suggestSimilarWord past the dictionary check: the candidates one edit
        away, stored in possibleSpellings; the only one, or the best one when
        there are several; failing any, the same for two edits away. */
    method SuggestFromEdits(inputWord: string) returns (r: Option<string>)
      requires Valid() && IsWord(inputWord) && inputWord != [] && inputWord !in dictionary.contents
      modifies this
      ensures Valid() && alreadyCorrect == old(alreadyCorrect)
      ensures possibleSpellings == Candidates(old(dictionary.contents), inputWord)
      ensures r == Suggest(old(dictionary.contents), inputWord)
    {
      ghost var d := dictionary.contents;
      var spellings := AddEditSpellings(inputWord, map[]);
      EmptyPlus(Found(d, Edits1(inputWord)));
      if |spellings| != 0 {
        SetSpellings(spellings);
        var k := PickFirst(spellings);
        return Some(k);
      }
      spellings := DistanceTwoSpellings(inputWord);
      SetSpellings(spellings);
      if |spellings| == 0 {
        return None;
      }
      var k := Choose(spellings);
      return Some(k);
    }

    /** Stores the candidates of the last correction. */
    method SetSpellings(m: map<string, nat>)
      requires Valid()
      modifies this
      ensures Valid() && possibleSpellings == m && alreadyCorrect == old(alreadyCorrect)
      ensures dictionary.contents == old(dictionary.contents)
    {
      possibleSpellings := m;
    }

    /** The choice after the first round: the only candidate when there is
        one (`firstKey`), else findMax, sortOutMaxs and firstKey. */
    method PickFirst(m: map<string, nat>) returns (k: string)
      requires Valid() && m != map[]
      ensures Valid() && k == Best(m)
    {
      if |m| == 1 {
        k := FirstKey(m);
        OnlyCandidate(m);
      } else {
        k := Choose(m);
      }
    }

    /** The distance-two round of suggestSimilarWord: every dictionary word
        one edit away from a string one edit away from `inputWord`. */
    method DistanceTwoSpellings(inputWord: string) returns (spellings: map<string, nat>)
      requires Valid() && IsWord(inputWord)
      ensures Valid()
      ensures spellings == Found(dictionary.contents, Edits2(inputWord))
    {
      var distanceOneList := GenerateDistanceOneList(inputWord);
      Edits1Shape(inputWord);
      spellings := AddEditsOfAll(distanceOneList, map[]);
      EmptyPlus(Found(dictionary.contents, Edits2(inputWord)));
    }

    /** With a single candidate, its first key is the best candidate. */
    static lemma OnlyCandidate(m: map<string, nat>)
      requires |m| == 1
      ensures Least(m.Keys) == Best(m)
    {
      var b := Best(m);
      var rest := m.Keys - {b};
      assert m.Keys == rest + {b};
      assert |rest| == 0;
      assert m.Keys == {b};
      LeastUnique(m.Keys, b);
    }

    /** The entries of highest count, as sortOutMaxs returns them, have the
        best candidate as their first key. */
    static lemma TopsAreFinal(m: map<string, nat>, f: map<string, nat>)
      requires m != map[]
      requires f.Keys <= m.Keys && forall w | w in m :: w in f <==> m[w] == MaxCount(m)
      ensures f != map[] && Least(f.Keys) == Best(m)
    {
      assert f.Keys == Tops(m);
      var w :| w in m && m[w] == MaxCount(m);
      assert w in f;
    }
  }
}
