/** The natural order of Java strings (`String.compareTo`), which orders the
    keys of the corrector's `TreeMap` and the trie's word listing, and the
    facts about it that the rest of the model uses. */
module Ordering {

  /** `a` sorts strictly before `b`: the first differing character decides,
      and a proper prefix sorts before its extensions. */
  predicate Less(a: string, b: string)
  {
    if |a| == 0 then |b| > 0
    else if |b| == 0 then false
    else if a[0] == b[0] then Less(a[1..], b[1..])
    else a[0] < b[0]
  }

  lemma {:induction false} LessIrreflexive(a: string)
    ensures !Less(a, a)
  {
    if |a| > 0 {
      LessIrreflexive(a[1..]);
    }
  }

  lemma {:induction false} LessAsymmetric(a: string, b: string)
    requires Less(a, b)
    ensures !Less(b, a)
  {
    if |a| > 0 && |b| > 0 && a[0] == b[0] {
      LessAsymmetric(a[1..], b[1..]);
    }
  }

  lemma {:induction false} LessTransitive(a: string, b: string, c: string)
    requires Less(a, b) && Less(b, c)
    ensures Less(a, c)
  {
    if |a| > 0 && |b| > 0 && |c| > 0 && a[0] == b[0] && b[0] == c[0] {
      LessTransitive(a[1..], b[1..], c[1..]);
    }
  }

  lemma {:induction false} LessTotal(a: string, b: string)
    requires a != b
    ensures Less(a, b) || Less(b, a)
  {
    if |a| > 0 && |b| > 0 && a[0] == b[0] {
      assert a == [a[0]] + a[1..] && b == [b[0]] + b[1..];
      LessTotal(a[1..], b[1..]);
    }
  }

  /** Two strings that agree up to position `k` and differ there are ordered
      by the characters at `k`. */
  lemma {:induction false} LessAtFirstDifference(a: string, b: string, k: nat)
    requires k < |a| && k < |b| && a[..k] == b[..k] && a[k] < b[k]
    ensures Less(a, b)
  {
    if k > 0 {
      assert a[1..][..k - 1] == a[..k][1..] && b[1..][..k - 1] == b[..k][1..];
      LessAtFirstDifference(a[1..], b[1..], k - 1);
    }
  }

  /** A proper prefix sorts before its extensions. */
  lemma {:induction false} PrefixLess(a: string, b: string)
    requires a < b
    ensures Less(a, b)
  {
    if |a| > 0 {
      assert a[1..] < b[1..];
      PrefixLess(a[1..], b[1..]);
    }
  }

  /** The least element of a non-empty finite set of strings
      (what `TreeMap.firstKey` returns for a map with these keys). */
  ghost function Least(s: set<string>): (m: string)
    requires s != {}
    ensures m in s
    ensures forall o | o in s && o != m :: Less(m, o)
    decreases |s|
  {
    var x :| x in s;
    if s == {x} then x
    else
      var rest := Least(s - {x});
      LeastStep(s, x, rest);
      if Less(x, rest) then x else rest
  }

  lemma LeastStep(s: set<string>, x: string, rest: string)
    requires x in s && rest in s && rest != x
    requires forall o | o in s - {x} && o != rest :: Less(rest, o)
    ensures Less(x, rest) ==> forall o | o in s && o != x :: Less(x, o)
    ensures !Less(x, rest) ==> forall o | o in s && o != rest :: Less(rest, o)
  {
    if Less(x, rest) {
      forall o | o in s && o != x
        ensures Less(x, o)
      {
        if o != rest {
          assert o in s - {x};
          LessTransitive(x, rest, o);
        }
      }
    } else {
      LessTotal(x, rest);
    }
  }

  /** Any element below all others of the set is `Least` of it. */
  lemma LeastUnique(s: set<string>, m: string)
    requires m in s
    requires forall o | o in s && o != m :: Less(m, o)
    ensures m == Least(s)
  {
    var l := Least(s);
    if l != m {
      LessAsymmetric(m, l);
    }
  }

  /** Strictly increasing, hence also free of duplicates. */
  ghost predicate Sorted(ws: seq<string>) {
    forall i, j | 0 <= i < j < |ws| :: Less(ws[i], ws[j])
  }

  /** The elements of a finite set of strings in increasing order. */
  ghost function SortedListing(s: set<string>): (r: seq<string>)
    ensures Sorted(r)
    ensures forall w :: w in r <==> w in s
    ensures |r| == |s|
    decreases |s|
  {
    if s == {} then []
    else
      var m := Least(s);
      var tail := SortedListing(s - {m});
      SortedAppend([m], tail);
      [m] + tail
  }

  /** Two sorted sequences with the same elements are equal, so a sorted
      listing of a set is determined by the set. */
  lemma {:induction false} SortedUnique(xs: seq<string>, ys: seq<string>)
    requires Sorted(xs) && Sorted(ys)
    requires forall w :: w in xs <==> w in ys
    ensures xs == ys
  {
    if xs != [] {
      assert xs[0] in xs;
    }
    if ys != [] {
      assert ys[0] in ys;
    }
    if xs != [] && ys != [] {
      if xs[0] != ys[0] {
        var j :| 0 <= j < |xs| && xs[j] == ys[0];
        var k :| 0 <= k < |ys| && ys[k] == xs[0];
        LessAsymmetric(xs[0], xs[j]);
      }
      forall w
        ensures w in xs[1..] <==> w in ys[1..]
      {
        if w in xs[1..] {
          var j :| 0 <= j < |xs[1..]| && xs[1..][j] == w;
          assert xs[j + 1] == w;
          LessIrreflexive(w);
          assert w != xs[0] && w in ys;
        }
        if w in ys[1..] {
          var j :| 0 <= j < |ys[1..]| && ys[1..][j] == w;
          assert ys[j + 1] == w;
          LessIrreflexive(w);
          assert w != ys[0] && w in xs;
        }
      }
      SortedUnique(xs[1..], ys[1..]);
      assert xs == [xs[0]] + xs[1..] && ys == [ys[0]] + ys[1..];
    }
  }

  /** Concatenation keeps sortedness when every element of the first part
      sorts before every element of the second. */
  lemma SortedAppend(xs: seq<string>, ys: seq<string>)
    requires Sorted(xs) && Sorted(ys)
    requires forall a, b | a in xs && b in ys :: Less(a, b)
    ensures Sorted(xs + ys)
  {
    forall i, j | 0 <= i < j < |xs + ys|
      ensures Less((xs + ys)[i], (xs + ys)[j])
    {
      if j < |xs| {
      } else if i >= |xs| {
        assert (xs + ys)[i] == ys[i - |xs|] && (xs + ys)[j] == ys[j - |xs|];
      } else {
        assert (xs + ys)[i] in xs && (xs + ys)[j] in ys;
      }
    }
  }

  /** The words joined as `toString` writes them: each followed by a newline. */
  function Lines(ws: seq<string>): string
  {
    if ws == [] then "" else ws[0] + "\n" + Lines(ws[1..])
  }

  lemma {:induction false} LinesAppend(xs: seq<string>, ys: seq<string>)
    ensures Lines(xs + ys) == Lines(xs) + Lines(ys)
  {
    if xs != [] {
      assert (xs + ys)[1..] == xs[1..] + ys;
      LinesAppend(xs[1..], ys);
    } else {
      assert xs + ys == ys;
    }
  }

  /** Writing the lines of `ys` after those of `xs` writes the lines of
      `xs + ys`. */
  lemma LinesExtend(out: string, xs: seq<string>, ys: seq<string>)
    ensures (out + Lines(xs)) + Lines(ys) == out + Lines(xs + ys)
  {
    LinesAppend(xs, ys);
    assert (out + Lines(xs)) + Lines(ys) == out + (Lines(xs) + Lines(ys));
  }
}
