/**
 The order `cmpstr` hands to `qsort`: `strcasecmp`, comparing names character by
 character after C-locale folding. Only the sign of the comparison is modelled;
 it is all the sort reads.
 */
module Order {
  import opened Names

  /**
   Plain lexicographic order on character codes, as `strcmp` orders bytes: `x`
   is a proper prefix of `y`, or at the first position where they differ `x`
   has the smaller character.
   */
  ghost predicate LexLess(x: string, y: string) {
    exists k :: 0 <= k <= |x| && k <= |y| && x[..k] == y[..k] &&
      ((k == |x| && k < |y|) || (k < |x| && k < |y| && x[k] < y[k]))
  }

  lemma LexLessEmpty(x: string, y: string)
    requires |x| == 0 || |y| == 0
    ensures LexLess(x, y) <==> |x| == 0 && |y| > 0
  {
    if |x| == 0 && |y| > 0 {
      assert x[..0] == y[..0];
    }
  }

  lemma LexLessHeads(x: string, y: string)
    requires |x| > 0 && |y| > 0 && x[0] != y[0]
    ensures LexLess(x, y) <==> x[0] < y[0]
  {
    if x[0] < y[0] {
      assert x[..0] == y[..0];
    }
    if LexLess(x, y) {
      var k :| 0 <= k <= |x| && k <= |y| && x[..k] == y[..k] &&
        ((k == |x| && k < |y|) || (k < |x| && k < |y| && x[k] < y[k]));
    }
  }

  lemma LexLessTails(x: string, y: string)
    requires |x| > 0 && |y| > 0 && x[0] == y[0]
    ensures LexLess(x, y) <==> LexLess(x[1..], y[1..])
  {
    var x', y' := x[1..], y[1..];
    if LexLess(x, y) {
      var k :| 0 <= k <= |x| && k <= |y| && x[..k] == y[..k] &&
        ((k == |x| && k < |y|) || (k < |x| && k < |y| && x[k] < y[k]));
      assert k > 0;
      assert x'[..k - 1] == x[..k][1..] == y[..k][1..] == y'[..k - 1];
      assert (k - 1 < |x'| && k - 1 < |y'|) ==> x'[k - 1] == x[k] && y'[k - 1] == y[k];
    }
    if LexLess(x', y') {
      var k :| 0 <= k <= |x'| && k <= |y'| && x'[..k] == y'[..k] &&
        ((k == |x'| && k < |y'|) || (k < |x'| && k < |y'| && x'[k] < y'[k]));
      assert x[..k + 1] == [x[0]] + x'[..k];
      assert y[..k + 1] == [y[0]] + y'[..k];
      assert (k < |x'| && k < |y'|) ==> x[k + 1] == x'[k] && y[k + 1] == y'[k];
    }
  }

  /**
   `strcasecmp` reduced to its sign: negative exactly when the folded `a` comes
   lexicographically before the folded `b`, zero exactly when they fold alike.
   */
  function CaseCmp(a: string, b: string): (r: int)
    ensures -1 <= r <= 1
    ensures r == 0 <==> LowerStr(a) == LowerStr(b)
    ensures r < 0 <==> LexLess(LowerStr(a), LowerStr(b))
    decreases |a|
  {
    if |a| == 0 && |b| == 0 then
      LexLessEmpty(LowerStr(a), LowerStr(b));
      0
    else if |a| == 0 then
      LexLessEmpty(LowerStr(a), LowerStr(b));
      -1
    else if |b| == 0 then
      LexLessEmpty(LowerStr(a), LowerStr(b));
      1
    else if Lower(a[0]) < Lower(b[0]) then
      assert LowerStr(a)[0] != LowerStr(b)[0];
      LexLessHeads(LowerStr(a), LowerStr(b));
      -1
    else if Lower(a[0]) > Lower(b[0]) then
      assert LowerStr(a)[0] != LowerStr(b)[0];
      LexLessHeads(LowerStr(a), LowerStr(b));
      1
    else
      assert LowerStr(a[1..]) == LowerStr(a)[1..];
      assert LowerStr(b[1..]) == LowerStr(b)[1..];
      assert LowerStr(a) == [LowerStr(a)[0]] + LowerStr(a)[1..];
      assert LowerStr(b) == [LowerStr(b)[0]] + LowerStr(b)[1..];
      LexLessTails(LowerStr(a), LowerStr(b));
      CaseCmp(a[1..], b[1..])
  }

  /** `a` sorts no later than `b`. */
  predicate NoLater(a: string, b: string) {
    CaseCmp(a, b) <= 0
  }

  /** Swapping the operands flips the sign. */
  lemma {:induction false} CaseCmpFlip(a: string, b: string)
    ensures CaseCmp(a, b) == -CaseCmp(b, a)
    decreases |a|
  {
    if |a| > 0 && |b| > 0 && Lower(a[0]) == Lower(b[0]) {
      CaseCmpFlip(a[1..], b[1..]);
    }
  }

  /** Any two names are comparable. */
  lemma CaseCmpTotal(a: string, b: string)
    ensures NoLater(a, b) || NoLater(b, a)
  {
    CaseCmpFlip(a, b);
  }

  lemma {:induction false} CaseCmpTrans(a: string, b: string, c: string)
    requires NoLater(a, b) && NoLater(b, c)
    ensures NoLater(a, c)
    decreases |a|
  {
    if |a| > 0 && |b| > 0 && |c| > 0
       && Lower(a[0]) == Lower(b[0]) && Lower(b[0]) == Lower(c[0]) {
      CaseCmpTrans(a[1..], b[1..], c[1..]);
    }
  }

  /** The comparison ignores case: names that fold alike compare alike with everything. */
  lemma {:induction false} CaseCmpIgnoresCase(a: string, a': string, b: string)
    requires LowerStr(a) == LowerStr(a')
    ensures CaseCmp(a, b) == CaseCmp(a', b)
    decreases |a|
  {
    if |a| > 0 && |b| > 0 {
      assert Lower(a[0]) == LowerStr(a)[0] == LowerStr(a')[0] == Lower(a'[0]);
      assert LowerStr(a[1..]) == LowerStr(a)[1..];
      assert LowerStr(a'[1..]) == LowerStr(a')[1..];
      CaseCmpIgnoresCase(a[1..], a'[1..], b[1..]);
    }
  }

  /** Ascending under the folded comparison. */
  predicate Sorted(s: seq<string>) {
    forall i, j :: 0 <= i < j < |s| ==> NoLater(s[i], s[j])
  }

  /** Insert `x` before the first element it sorts no later than. */
  function Insert(x: string, s: seq<string>): (r: seq<string>)
    requires Sorted(s)
    ensures Sorted(r)
    ensures multiset(r) == multiset(s) + multiset{x}
  {
    if |s| == 0 then [x]
    else if NoLater(x, s[0]) then
      assert forall j :: 0 <= j < |s| ==> NoLater(s[0], s[j]) by {
        forall j | 0 <= j < |s| ensures NoLater(s[0], s[j]) {
          if j == 0 { assert LowerStr(s[0]) == LowerStr(s[0]); }
        }
      }
      assert forall j :: 0 <= j < |s| ==> NoLater(x, s[j]) by {
        forall j | 0 <= j < |s| ensures NoLater(x, s[j]) { CaseCmpTrans(x, s[0], s[j]); }
      }
      [x] + s
    else
      var rest := Insert(x, s[1..]);
      assert s == [s[0]] + s[1..];
      CaseCmpFlip(x, s[0]);
      assert forall y :: y in rest ==> NoLater(s[0], y) by {
        forall y | y in rest ensures NoLater(s[0], y) {
          assert y in multiset(rest);
          if y != x {
            assert y in multiset(s[1..]);
            var j :| 0 <= j < |s[1..]| && s[1..][j] == y;
            assert s[j + 1] == y;
          }
        }
      }
      [s[0]] + rest
  }

  /**
   Stand-in for `qsort(names, count, sizeof(char*), cmpstr)`: any sort meeting
   this contract will do, since `main` relies on nothing else.
   */
  function Sort(s: seq<string>): (r: seq<string>)
    ensures Sorted(r)
    ensures multiset(r) == multiset(s)
  {
    if |s| == 0 then []
    else
      assert s == [s[0]] + s[1..];
      Insert(s[0], Sort(s[1..]))
  }

  lemma SortedTail(s: seq<string>)
    requires Sorted(s) && |s| > 0
    ensures Sorted(s[1..])
  {
  }

  /** Dropping one element keeps a list sorted. */
  lemma SortedRemove(s: seq<string>, j: nat)
    requires Sorted(s) && j < |s|
    ensures Sorted(s[..j] + s[j + 1..])
  {
    var t := s[..j] + s[j + 1..];
    forall p, q | 0 <= p < q < |t| ensures NoLater(t[p], t[q]) {
      var p' := if p < j then p else p + 1;
      var q' := if q < j then q else q + 1;
      assert t[p] == s[p'] && t[q] == s[q'];
    }
  }

  /** The least elements of two sorted permutations of the same names fold alike. */
  lemma LeastFoldAlike(a: seq<string>, b: seq<string>)
    requires Sorted(a) && Sorted(b) && |a| > 0
    requires multiset(a) == multiset(b)
    ensures |b| > 0 && LowerStr(a[0]) == LowerStr(b[0])
  {
    assert a[0] in multiset(b);
    var j :| 0 <= j < |b| && b[j] == a[0];
    assert b[0] in multiset(a);
    var k :| 0 <= k < |a| && a[k] == b[0];
    assert NoLater(a[0], b[0]) by { if k > 0 { assert NoLater(a[0], a[k]); } }
    assert NoLater(b[0], a[0]) by { if j > 0 { assert NoLater(b[0], b[j]); } }
    CaseCmpFlip(a[0], b[0]);
  }

  /** In a sorted list, everything between two elements that fold alike folds alike too. */
  lemma SandwichFoldsAlike(b: seq<string>, j: nat)
    requires Sorted(b) && j < |b|
    requires LowerStr(b[0]) == LowerStr(b[j])
    ensures forall m :: 0 <= m <= j ==> LowerStr(b[m]) == LowerStr(b[j])
  {
    forall m | 0 < m < j ensures LowerStr(b[m]) == LowerStr(b[j]) {
      assert NoLater(b[m], b[j]);
      assert NoLater(b[0], b[m]);
      CaseCmpIgnoresCase(b[0], b[j], b[m]);
      CaseCmpFlip(b[j], b[m]);
    }
  }

  /** Removing position `j` from `b` after taking the head off `a` keeps the multisets equal. */
  lemma RemoveMatching(a: seq<string>, b: seq<string>, j: nat)
    requires |a| > 0 && j < |b| && b[j] == a[0]
    requires multiset(a) == multiset(b)
    ensures multiset(b[..j] + b[j + 1..]) == multiset(a[1..])
  {
    assert b == b[..j] + [b[j]] + b[j + 1..];
    assert multiset(b) == multiset(b[..j]) + multiset{b[j]} + multiset(b[j + 1..]);
    assert a == [a[0]] + a[1..];
    assert multiset(a) == multiset{a[0]} + multiset(a[1..]);
    assert multiset(b[..j] + b[j + 1..]) == multiset(b[..j]) + multiset(b[j + 1..]);
    assert multiset(b) - multiset{b[j]} == multiset(b[..j]) + multiset(b[j + 1..]);
    assert multiset(a) - multiset{a[0]} == multiset(a[1..]);
  }

  /**
   Sorting is idempotent up to ties: two sorted permutations of the same names
   agree position by position once case is folded. Names that differ only in
   case may come out in either order, as with the unstable `qsort`.
   */
  lemma {:induction false} SortedPermutationsAgree(a: seq<string>, b: seq<string>)
    requires Sorted(a) && Sorted(b)
    requires multiset(a) == multiset(b)
    ensures |a| == |b|
    ensures forall i :: 0 <= i < |a| ==> LowerStr(a[i]) == LowerStr(b[i])
    decreases |a|
  {
    assert |a| == |multiset(a)| == |multiset(b)| == |b|;
    if |a| > 0 {
      LeastFoldAlike(a, b);
      assert a[0] in multiset(b);
      var j :| 0 <= j < |b| && b[j] == a[0];
      SandwichFoldsAlike(b, j);
      var b' := b[..j] + b[j + 1..];
      RemoveMatching(a, b, j);
      SortedTail(a);
      SortedRemove(b, j);
      SortedPermutationsAgree(a[1..], b');
      forall i | 0 < i < |a| ensures LowerStr(a[i]) == LowerStr(b[i]) {
        assert a[i] == a[1..][i - 1];
        if i - 1 < j {
          assert b'[i - 1] == b[i - 1];
        } else {
          assert b'[i - 1] == b[i];
        }
      }
    }
  }

  /** Sorting a list that is already sorted changes nothing but the order of ties. */
  lemma SortOfSorted(s: seq<string>, r: seq<string>)
    requires Sorted(s) && Sorted(r) && multiset(r) == multiset(s)
    ensures |r| == |s|
    ensures forall i :: 0 <= i < |s| ==> CaseCmp(r[i], s[i]) == 0
  {
    SortedPermutationsAgree(r, s);
  }
}
