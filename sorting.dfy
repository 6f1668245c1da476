/** The ordering of the bag list: `sorted` on strings, which compares them
    character by character by code point, a proper prefix coming first. */
module Sorting {

  /** Python's `a <= b` on strings. */
  predicate LexLe(a: string, b: string)
    decreases |a|
  {
    a == [] || (b != [] && (a[0] < b[0] || (a[0] == b[0] && LexLe(a[1..], b[1..]))))
  }

  lemma {:induction false} LexLeRefl(a: string)
    ensures LexLe(a, a)
    decreases |a|
  {
    if a != [] {
      LexLeRefl(a[1..]);
    }
  }

  lemma {:induction false} LexLeTotal(a: string, b: string)
    ensures LexLe(a, b) || LexLe(b, a)
    decreases |a|
  {
    if a != [] && b != [] && a[0] == b[0] {
      LexLeTotal(a[1..], b[1..]);
    }
  }

  lemma {:induction false} LexLeAntisymmetric(a: string, b: string)
    requires LexLe(a, b) && LexLe(b, a)
    ensures a == b
    decreases |a|
  {
    if a != [] {
      LexLeAntisymmetric(a[1..], b[1..]);
      assert a == [a[0]] + a[1..] && b == [b[0]] + b[1..];
    }
  }

  lemma {:induction false} LexLeTransitive(a: string, b: string, c: string)
    requires LexLe(a, b) && LexLe(b, c)
    ensures LexLe(a, c)
    decreases |a|
  {
    if a != [] && a[0] == b[0] && b[0] == c[0] {
      LexLeTransitive(a[1..], b[1..], c[1..]);
    }
  }

  /** Every element is at most every later one. */
  predicate Sorted(s: seq<string>) {
    forall i, j :: 0 <= i < j < |s| ==> LexLe(s[i], s[j])
  }

  /** No name occurs twice. */
  predicate NoRepeats(s: seq<string>) {
    forall x :: x in s ==> multiset(s)[x] == 1
  }

  /** Insert `x` into a sorted list before the first element it does not exceed. */
  function Insert(x: string, s: seq<string>): seq<string>
  {
    if s == [] then [x]
    else if LexLe(x, s[0]) then [x] + s
    else [s[0]] + Insert(x, s[1..])
  }

  /** Insertion sort; any sorting of strings gives the same list (`SortedUnique`),
      so this one stands for Python's `sorted`. */
  function Sort(s: seq<string>): seq<string>
  {
    if s == [] then [] else Insert(s[0], Sort(s[1..]))
  }

  /** Inserting into a sorted list keeps it sorted and adds exactly `x`. */
  lemma {:induction false} InsertSpec(x: string, s: seq<string>)
    requires Sorted(s)
    ensures Sorted(Insert(x, s))
    ensures multiset(Insert(x, s)) == multiset(s) + multiset{x}
  {
    if s == [] {
    } else {
      assert s == [s[0]] + s[1..];
      if LexLe(x, s[0]) {
        forall k | 0 <= k < |s| ensures LexLe(x, s[k]) {
          if k > 0 {
            LexLeTransitive(x, s[0], s[k]);
          }
        }
        SortedCons(x, s);
      } else {
        var t := Insert(x, s[1..]);
        InsertSpec(x, s[1..]);
        LexLeTotal(x, s[0]);
        HeadBelowInsert(x, s, t);
        SortedCons(s[0], t);
      }
    }
  }

  /** The head of a sorted list is at most every element of the rest with a name
      it does not exceed put in. */
  lemma HeadBelowInsert(x: string, s: seq<string>, t: seq<string>)
    requires Sorted(s) && s != [] && LexLe(s[0], x)
    requires multiset(t) == multiset(s[1..]) + multiset{x}
    ensures forall k :: 0 <= k < |t| ==> LexLe(s[0], t[k])
  {
    forall k | 0 <= k < |t| ensures LexLe(s[0], t[k]) {
      assert t[k] in multiset(t);
      if t[k] != x {
        assert t[k] in multiset(s[1..]);
        var m :| 0 <= m < |s[1..]| && s[1..][m] == t[k];
        assert s[m + 1] == t[k];
      }
    }
  }

  /** A name at most every element of a sorted list can go in front of it. */
  lemma SortedCons(y: string, t: seq<string>)
    requires Sorted(t)
    requires forall k :: 0 <= k < |t| ==> LexLe(y, t[k])
    ensures Sorted([y] + t)
  {
    var r := [y] + t;
    forall i, j | 0 <= i < j < |r| ensures LexLe(r[i], r[j]) {
      assert r[j] == t[j - 1];
      if i > 0 {
        assert r[i] == t[i - 1];
      }
    }
  }

  /** The sorted list is in ascending order and holds exactly the given names. */
  lemma {:induction false} SortSpec(s: seq<string>)
    ensures Sorted(Sort(s))
    ensures multiset(Sort(s)) == multiset(s)
  {
    if s != [] {
      SortSpec(s[1..]);
      InsertSpec(s[0], Sort(s[1..]));
      assert s == [s[0]] + s[1..];
    }
  }

  /** Two ascending lists of the same names are the same list. */
  lemma {:induction false} SortedUnique(a: seq<string>, b: seq<string>)
    requires Sorted(a) && Sorted(b)
    requires multiset(a) == multiset(b)
    ensures a == b
    decreases |a|
  {
    if a != [] {
      SameHead(a, b);
      SortedUnique(a[1..], b[1..]);
      assert a == [a[0]] + a[1..] && b == [b[0]] + b[1..];
    }
  }

  /** Two ascending permutations of one non-empty list start alike and go on
      with ascending permutations of one list. */
  lemma SameHead(a: seq<string>, b: seq<string>)
    requires Sorted(a) && Sorted(b) && a != []
    requires multiset(a) == multiset(b)
    ensures b != [] && a[0] == b[0]
    ensures Sorted(a[1..]) && Sorted(b[1..]) && multiset(a[1..]) == multiset(b[1..])
  {
    assert |b| == |multiset(b)| == |multiset(a)| == |a|;
    HeadIsLeast(a, b);
    HeadIsLeast(b, a);
    LexLeAntisymmetric(a[0], b[0]);
    DropHead(a);
    DropHead(b);
  }

  /** The head of an ascending list is at most every element of a permutation of it. */
  lemma HeadIsLeast(a: seq<string>, b: seq<string>)
    requires Sorted(a) && a != [] && b != []
    requires multiset(a) == multiset(b)
    ensures LexLe(a[0], b[0])
  {
    assert b[0] in multiset(a);
    var j :| 0 <= j < |a| && a[j] == b[0];
    if j == 0 {
      LexLeRefl(a[0]);
    }
  }

  lemma DropHead(a: seq<string>)
    requires a != []
    ensures Sorted(a) ==> Sorted(a[1..])
    ensures multiset(a[1..]) == multiset(a) - multiset{a[0]}
  {
    assert a == [a[0]] + a[1..];
    if Sorted(a) {
      forall i, j | 0 <= i < j < |a| - 1 ensures LexLe(a[1..][i], a[1..][j]) {
        assert a[1..][i] == a[i + 1] && a[1..][j] == a[j + 1];
      }
    }
  }

  /** Sorting neither adds nor drops repeats. */
  lemma SortNoRepeats(s: seq<string>)
    requires NoRepeats(s)
    ensures NoRepeats(Sort(s))
  {
    SortSpec(s);
    forall x | x in Sort(s) ensures multiset(Sort(s))[x] == 1 {
      assert x in multiset(Sort(s));
    }
  }
}
