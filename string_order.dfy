/** The standard-library pieces _columns_match_type relies on:
    std::string's operator< (lexicographic by character), std::sort over a
    vector of strings, and std::includes over two sorted ranges. */
module StringOrder {

  /** a < b for std::string: the first differing character decides, and a
      proper prefix is smaller. Characters compare by code point, which
      orders UTF-8 strings as std::string's unsigned byte comparison does. */
  predicate Less(a: string, b: string)
    decreases |a|
  {
    if b == [] then false
    else if a == [] then true
    else if a[0] != b[0] then a[0] < b[0]
    else Less(a[1..], b[1..])
  }

  lemma {:induction false} LessIrreflexive(a: string)
    ensures !Less(a, a)
    decreases |a|
  {
    if a != [] { LessIrreflexive(a[1..]); }
  }

  lemma {:induction false} LessTransitive(a: string, b: string, c: string)
    requires Less(a, b) && Less(b, c)
    ensures Less(a, c)
    decreases |a|
  {
    if a != [] && a[0] == b[0] && b[0] == c[0] {
      LessTransitive(a[1..], b[1..], c[1..]);
    }
  }

  lemma {:induction false} LessTrichotomy(a: string, b: string)
    ensures a == b || Less(a, b) || Less(b, a)
    decreases |a|
  {
    if a != [] && b != [] && a[0] == b[0] {
      LessTrichotomy(a[1..], b[1..]);
      if a[1..] == b[1..] {
        assert a == [a[0]] + a[1..] && b == [b[0]] + b[1..];
      }
    }
  }

  lemma LessAsymmetric(a: string, b: string)
    requires Less(a, b)
    ensures !Less(b, a)
  {
    if Less(b, a) {
      LessTransitive(a, b, a);
      LessIrreflexive(a);
    }
  }

  /** Non-decreasing under Less. */
  predicate Sorted(s: seq<string>)
  {
    forall i, j :: 0 <= i < j < |s| ==> !Less(s[j], s[i])
  }

  function InsertInOrder(x: string, s: seq<string>): (r: seq<string>)
    ensures multiset(r) == multiset(s) + multiset{x}
  {
    if s == [] then [x]
    else if Less(s[0], x) then
      assert s == [s[0]] + s[1..];
      [s[0]] + InsertInOrder(x, s[1..])
    else [x] + s
  }

  lemma {:induction false} InsertInOrderSorted(x: string, s: seq<string>)
    requires Sorted(s)
    ensures Sorted(InsertInOrder(x, s))
  {
    if s != [] && Less(s[0], x) {
      var tail := InsertInOrder(x, s[1..]);
      InsertInOrderSorted(x, s[1..]);
      forall y | y in multiset(tail) ensures !Less(y, s[0]) {
        assert y in multiset(s[1..]) + multiset{x};
        if y == x {
          LessAsymmetric(s[0], x);
        } else {
          assert y in s[1..];
        }
      }
      var r := [s[0]] + tail;
      forall i, j | 0 <= i < j < |r| ensures !Less(r[j], r[i]) {
        if i == 0 {
          assert r[j] in multiset(tail) by { assert r[j] == tail[j - 1]; }
        } else {
          assert r[i] == tail[i - 1] && r[j] == tail[j - 1];
        }
      }
    } else if s != [] {
      var r := [x] + s;
      forall i, j | 0 <= i < j < |r| ensures !Less(r[j], r[i]) {
        if i == 0 && j > 1 {
          LessTrichotomy(s[0], x);
          if Less(x, s[0]) && Less(s[j - 1], x) {
            LessTransitive(s[j - 1], x, s[0]);
          }
        }
      }
    }
  }

  /** std::sort: a sorted permutation (equal strings are identical, so
      which sorting algorithm is used does not matter). */
  function Sort(s: seq<string>): (r: seq<string>)
    ensures multiset(r) == multiset(s)
  {
    if s == [] then []
    else
      assert s == [s[0]] + s[1..];
      InsertInOrder(s[0], Sort(s[1..]))
  }

  lemma {:induction false} SortSorted(s: seq<string>)
    ensures Sorted(Sort(s))
  {
    if s != [] {
      SortSorted(s[1..]);
      InsertInOrderSorted(s[0], Sort(s[1..]));
    }
  }

  /** std::includes(a.begin(), a.end(), b.begin(), b.end()) for ranges sorted
      by Less. */
  function Includes(a: seq<string>, b: seq<string>): bool
    decreases |a|
  {
    if b == [] then true
    else if a == [] then false
    else if Less(b[0], a[0]) then false
    else if Less(a[0], b[0]) then Includes(a[1..], b)
    else Includes(a[1..], b[1..])
  }

  lemma SortedHeadIsLeast(s: seq<string>, y: string)
    requires Sorted(s) && s != [] && y in s
    ensures !Less(y, s[0])
  {
    var j :| 0 <= j < |s| && s[j] == y;
    if j == 0 { LessIrreflexive(y); }
  }

  /** Nothing below the head of a sorted range occurs in it. */
  lemma BelowHeadAbsent(s: seq<string>, y: string)
    requires Sorted(s) && s != [] && Less(y, s[0])
    ensures multiset(s)[y] == 0
  {
    if y in s {
      SortedHeadIsLeast(s, y);
    }
  }

  lemma DropUnshared(a: multiset<string>, b: multiset<string>, x: string)
    requires b[x] == 0
    ensures b <= a + multiset{x} <==> b <= a
  {
    if b <= a + multiset{x} {
      forall y ensures b[y] <= a[y] {
        if y != x { assert (a + multiset{x})[y] == a[y]; }
      }
    }
  }

  lemma CancelCommon(a: multiset<string>, b: multiset<string>, x: string)
    ensures b + multiset{x} <= a + multiset{x} <==> b <= a
  {
    if b + multiset{x} <= a + multiset{x} {
      forall y ensures b[y] <= a[y] {
        assert (b + multiset{x})[y] <= (a + multiset{x})[y];
      }
    }
  }

  /** On sorted ranges, std::includes decides multiset containment. */
  lemma {:induction false} IncludesIsSubMultiset(a: seq<string>, b: seq<string>)
    requires Sorted(a) && Sorted(b)
    ensures Includes(a, b) <==> multiset(b) <= multiset(a)
    decreases |a|
  {
    if b == [] {
    } else if a == [] {
      assert b[0] in multiset(b);
    } else {
      assert a == [a[0]] + a[1..];
      assert b == [b[0]] + b[1..];
      assert Sorted(a[1..]) && Sorted(b[1..]);
      var ma, mb := multiset(a[1..]), multiset(b[1..]);
      assert multiset(a) == ma + multiset{a[0]};
      assert multiset(b) == mb + multiset{b[0]};
      if Less(b[0], a[0]) {
        BelowHeadAbsent(a, b[0]);
        assert multiset(b)[b[0]] >= 1;
      } else if Less(a[0], b[0]) {
        IncludesIsSubMultiset(a[1..], b);
        BelowHeadAbsent(b, a[0]);
        DropUnshared(ma, multiset(b), a[0]);
      } else {
        LessTrichotomy(a[0], b[0]);
        IncludesIsSubMultiset(a[1..], b[1..]);
        CancelCommon(ma, mb, a[0]);
      }
    }
  }
}
