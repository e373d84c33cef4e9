/** The Python `str` operations that the certificate quota check relies on,
    stated over Dafny strings (`seq<char>`, one element per code point):
    ordering comparison (`<=`), substring test (`in`), `split`, `join` and
    `sorted`. Dafny's own `<` on sequences means "proper prefix", so the
    code-point ordering Python uses is defined here. */
module PyStr {

  // ---------------------------------------------------------------------------
  // Ordering: Python compares strings code point by code point; a proper
  // prefix orders before the longer string.
  // ---------------------------------------------------------------------------

  /** Python's `a <= b` on strings. */
  predicate LexLe(a: string, b: string): (r: bool)
    ensures a <= b ==> r
    ensures b == [] ==> (r <==> a == [])
  {
    if a == [] then true
    else if b == [] then false
    else if a[0] != b[0] then a[0] < b[0]
    else LexLe(a[1..], b[1..])
  }

  /** The textbook reading of `a <= b`: either `a` is a prefix of `b`, or the
      two first differ at some position where `a` has the smaller code point. */
  ghost predicate LexLeByPosition(a: string, b: string)
  {
    a <= b ||
    exists k :: 0 <= k < |a| && k < |b| && a[..k] == b[..k] && a[k] < b[k]
  }

  lemma {:induction false} LexLeMeansByPosition(a: string, b: string)
    ensures LexLe(a, b) <==> LexLeByPosition(a, b)
  {
    if a == [] || b == [] {
    } else if a[0] != b[0] {
      if a[0] < b[0] {
        assert a[..0] == b[..0];
      }
    } else {
      LexLeMeansByPosition(a[1..], b[1..]);
      if LexLeByPosition(a[1..], b[1..]) {
        if a[1..] <= b[1..] {
          assert a == [a[0]] + a[1..] && b == [b[0]] + b[1..];
        } else {
          var k :| 0 <= k < |a[1..]| && k < |b[1..]| && a[1..][..k] == b[1..][..k] && a[1..][k] < b[1..][k];
          assert a[..k+1] == [a[0]] + a[1..][..k];
          assert b[..k+1] == [b[0]] + b[1..][..k];
        }
      } else {
        forall k | 0 <= k < |a| && k < |b| && a[..k] == b[..k]
          ensures !(a[k] < b[k])
        {
          if k > 0 {
            assert a[1..][..k-1] == a[..k][1..];
            assert b[1..][..k-1] == b[..k][1..];
          }
        }
      }
    }
  }

  lemma LexLeReflexive(a: string)
    ensures LexLe(a, a)
  {
  }

  lemma {:induction false} LexLeTransitive(a: string, b: string, c: string)
    requires LexLe(a, b) && LexLe(b, c)
    ensures LexLe(a, c)
  {
    if a != [] && b != [] && c != [] && a[0] == b[0] && b[0] == c[0] {
      LexLeTransitive(a[1..], b[1..], c[1..]);
    }
  }

  lemma {:induction false} LexLeTotal(a: string, b: string)
    ensures LexLe(a, b) || LexLe(b, a)
  {
    if a != [] && b != [] && a[0] == b[0] {
      LexLeTotal(a[1..], b[1..]);
    }
  }

  lemma {:induction false} LexLeAntisymmetric(a: string, b: string)
    requires LexLe(a, b) && LexLe(b, a)
    ensures a == b
  {
    if a != [] && b != [] {
      LexLeAntisymmetric(a[1..], b[1..]);
      assert a == [a[0]] + a[1..] && b == [b[0]] + b[1..];
    }
  }

  // ---------------------------------------------------------------------------
  // Substring test: Python's `pat in s`.
  // ---------------------------------------------------------------------------

  /** Python's `pat in s` for strings: `pat` occurs at some offset of `s`. */
  predicate Contains(s: string, pat: string): (r: bool)
    ensures r ==> |pat| <= |s|
  {
    pat <= s || (s != [] && Contains(s[1..], pat))
  }

  /** `pat` occurs in `s` starting at offset `i`. */
  ghost predicate OccursAt(s: string, pat: string, i: int)
  {
    0 <= i && i + |pat| <= |s| && s[i..i + |pat|] == pat
  }

  /** An occurrence at offset `i` makes `pat in s` true. */
  lemma {:induction false} OccurrenceIsContained(s: string, pat: string, i: int)
    requires OccursAt(s, pat, i)
    ensures Contains(s, pat)
    decreases i
  {
    if i == 0 {
      assert pat == s[..|pat|];
    } else {
      assert s[1..][i - 1..i - 1 + |pat|] == s[i..i + |pat|];
      OccurrenceIsContained(s[1..], pat, i - 1);
    }
  }

  /** `pat in s` has a witness offset. */
  lemma {:induction false} ContainedHasOccurrence(s: string, pat: string)
    requires Contains(s, pat)
    ensures exists i :: OccursAt(s, pat, i)
  {
    if pat <= s {
      assert s[0..|pat|] == pat;
      assert OccursAt(s, pat, 0);
    } else {
      ContainedHasOccurrence(s[1..], pat);
      var i :| OccursAt(s[1..], pat, i);
      assert s[i + 1..i + 1 + |pat|] == s[1..][i..i + |pat|];
      assert OccursAt(s, pat, i + 1);
    }
  }

  lemma ContainsMeansOccurrence(s: string, pat: string)
    ensures Contains(s, pat) <==> exists i :: OccursAt(s, pat, i)
  {
    if Contains(s, pat) {
      ContainedHasOccurrence(s, pat);
    }
    forall i | OccursAt(s, pat, i) ensures Contains(s, pat) {
      OccurrenceIsContained(s, pat, i);
    }
  }

  /** No non-empty pattern occurs in the empty string. */
  lemma NothingInEmpty(pat: string)
    requires pat != []
    ensures !Contains("", pat)
  {
  }

  // ---------------------------------------------------------------------------
  // `sep.join(pieces)` and `s.split(sep)` for a one-character separator.
  // ---------------------------------------------------------------------------

  /** Python's `sep.join(pieces)`. */
  function Join(pieces: seq<string>, sep: string): (r: string)
    ensures |pieces| >= 1 ==> pieces[0] <= r
  {
    if |pieces| == 0 then ""
    else if |pieces| == 1 then pieces[0]
    else pieces[0] + sep + Join(pieces[1..], sep)
  }

  /** Python's `s.split(c)` for a single-character separator `c`: the pieces
      between consecutive occurrences of `c`; never an empty list. */
  function Split(s: string, c: char): (pieces: seq<string>)
    ensures |pieces| >= 1
    ensures c !in s ==> pieces == [s]
  {
    if s == [] then [""]
    else
      var rest := Split(s[1..], c);
      if s[0] == c then [""] + rest
      else
        assert c !in s ==> [s[0]] + s[1..] == s;
        [[s[0]] + rest[0]] + rest[1..]
  }

  /** No piece of a split contains the separator. */
  lemma {:induction false} SplitPiecesHaveNoSeparator(s: string, c: char)
    ensures forall p :: p in Split(s, c) ==> c !in p
  {
    if s != [] {
      SplitPiecesHaveNoSeparator(s[1..], c);
      var rest := Split(s[1..], c);
      if s[0] != c {
        assert c !in rest[0];
        assert forall p :: p in rest[1..] ==> p in rest;
      }
    }
  }

  /** Prefixing the first piece with `ch` prefixes the join with `ch`. */
  lemma JoinPrependToFirst(ch: char, pieces: seq<string>, sep: string)
    requires |pieces| >= 1
    ensures Join([[ch] + pieces[0]] + pieces[1..], sep) == [ch] + Join(pieces, sep)
  {
  }

  /** Joining the pieces of a split with the separator gives back the string. */
  lemma {:induction false} JoinSplit(s: string, c: char)
    ensures Join(Split(s, c), [c]) == s
  {
    if s != [] {
      JoinSplit(s[1..], c);
      var rest := Split(s[1..], c);
      if s[0] == c {
        assert Join([""] + rest, [c]) == "" + [c] + Join(rest, [c]);
      } else {
        JoinPrependToFirst(s[0], rest, [c]);
      }
      assert s == [s[0]] + s[1..];
    }
  }

  /** Splitting `p + [c] + rest`, where `p` holds no separator, yields `p`
      followed by the pieces of `rest`. */
  lemma {:induction false} SplitAfterPiece(p: string, c: char, rest: string)
    requires c !in p
    ensures Split(p + [c] + rest, c) == [p] + Split(rest, c)
  {
    if p == [] {
      assert p + [c] + rest == [c] + rest;
    } else {
      SplitAfterPiece(p[1..], c, rest);
      assert (p + [c] + rest)[1..] == p[1..] + [c] + rest;
      assert [p[0]] + p[1..] == p;
    }
  }

  /** Splitting a join gives back the pieces, provided no piece contains the
      separator. */
  lemma {:induction false} SplitJoin(pieces: seq<string>, c: char)
    requires |pieces| >= 1
    requires forall p :: p in pieces ==> c !in p
    ensures Split(Join(pieces, [c]), c) == pieces
  {
    if |pieces| == 1 {
    } else {
      SplitJoin(pieces[1..], c);
      SplitAfterPiece(pieces[0], c, Join(pieces[1..], [c]));
      assert pieces == [pieces[0]] + pieces[1..];
    }
  }

  // ---------------------------------------------------------------------------
  // `sorted(xs)` on a list of strings, as an insertion sort.
  // ---------------------------------------------------------------------------

  ghost predicate Sorted(xs: seq<string>)
  {
    forall i, j :: 0 <= i < j < |xs| ==> LexLe(xs[i], xs[j])
  }

  function Insert(x: string, xs: seq<string>): (r: seq<string>)
    ensures |r| == |xs| + 1
  {
    if xs == [] then [x]
    else if LexLe(x, xs[0]) then [x] + xs
    else [xs[0]] + Insert(x, xs[1..])
  }

  /** Python's `sorted(xs)` for strings. */
  function Sort(xs: seq<string>): (r: seq<string>)
    ensures |r| == |xs|
  {
    if xs == [] then [] else Insert(xs[0], Sort(xs[1..]))
  }

  lemma {:induction false} InsertPermutes(x: string, xs: seq<string>)
    ensures multiset(Insert(x, xs)) == multiset(xs) + multiset{x}
  {
    if xs != [] && !LexLe(x, xs[0]) {
      InsertPermutes(x, xs[1..]);
      assert xs == [xs[0]] + xs[1..];
    }
  }

  /** Putting in front of a sorted list an element below all of it keeps it
      sorted. */
  lemma SortedCons(h: string, tail: seq<string>)
    requires Sorted(tail)
    requires forall y :: y in tail ==> LexLe(h, y)
    ensures Sorted([h] + tail)
  {
  }

  /** Every element of a sorted list is at or above its first element. */
  lemma HeadBelowAll(xs: seq<string>)
    requires Sorted(xs) && xs != []
    ensures forall y :: y in xs ==> LexLe(xs[0], y)
  {
  }

  lemma {:induction false} InsertKeepsSorted(x: string, xs: seq<string>)
    requires Sorted(xs)
    ensures Sorted(Insert(x, xs))
  {
    if xs == [] {
    } else if LexLe(x, xs[0]) {
      HeadBelowAll(xs);
      forall y | y in xs ensures LexLe(x, y) {
        LexLeTransitive(x, xs[0], y);
      }
      SortedCons(x, xs);
    } else {
      LexLeTotal(x, xs[0]);
      HeadBelowAll(xs);
      SortedTail(xs);
      InsertKeepsSorted(x, xs[1..]);
      InsertPermutes(x, xs[1..]);
      var tail := Insert(x, xs[1..]);
      forall y | y in tail ensures LexLe(xs[0], y) {
        assert y in multiset(tail);
        if y != x {
          assert y in multiset(xs[1..]);
          assert y in xs;
        }
      }
      SortedCons(xs[0], tail);
    }
  }

  /** `sorted` returns an ordered permutation of its argument. */
  lemma {:induction false} SortSortsAndPermutes(xs: seq<string>)
    ensures Sorted(Sort(xs)) && multiset(Sort(xs)) == multiset(xs)
  {
    if xs != [] {
      SortSortsAndPermutes(xs[1..]);
      InsertKeepsSorted(xs[0], Sort(xs[1..]));
      InsertPermutes(xs[0], Sort(xs[1..]));
      assert xs == [xs[0]] + xs[1..];
    }
  }

  lemma SortedTail(xs: seq<string>)
    requires Sorted(xs) && xs != []
    ensures Sorted(xs[1..])
  {
  }

  /** Two ordered permutations of the same strings are identical: the string
      order is total and antisymmetric. */
  lemma {:induction false} SortedPermutationsEqual(xs: seq<string>, ys: seq<string>)
    requires Sorted(xs) && Sorted(ys) && multiset(xs) == multiset(ys)
    ensures xs == ys
  {
    if xs != [] {
      SortedHeadsEqual(xs, ys);
      ConsMultiset(xs);
      ConsMultiset(ys);
      SortedTail(xs);
      SortedTail(ys);
      SortedPermutationsEqual(xs[1..], ys[1..]);
      assert xs == [xs[0]] + xs[1..] && ys == [ys[0]] + ys[1..];
    }
  }

  /** Two non-empty ordered permutations start with the same string. */
  lemma SortedHeadsEqual(xs: seq<string>, ys: seq<string>)
    requires Sorted(xs) && Sorted(ys) && multiset(xs) == multiset(ys) && xs != []
    ensures ys != [] && xs[0] == ys[0]
  {
    assert xs[0] in multiset(ys);
    HeadBelowAll(xs);
    HeadBelowAll(ys);
    assert ys[0] in multiset(xs);
    LexLeAntisymmetric(xs[0], ys[0]);
  }

  lemma ConsMultiset(xs: seq<string>)
    requires xs != []
    ensures multiset(xs[1..]) == multiset(xs) - multiset{xs[0]}
  {
    assert xs == [xs[0]] + xs[1..];
  }

  /** `sorted` depends only on which strings, with their multiplicities, it is
      given, not on their order. */
  lemma SortPermutationInvariant(xs: seq<string>, ys: seq<string>)
    requires multiset(xs) == multiset(ys)
    ensures Sort(xs) == Sort(ys)
  {
    SortSortsAndPermutes(xs);
    SortSortsAndPermutes(ys);
    SortedPermutationsEqual(Sort(xs), Sort(ys));
  }
}
