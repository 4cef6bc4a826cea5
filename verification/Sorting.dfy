/** The standard library's stable sort, as a function: what `sort_by` returns for a total preorder. */
module Sorting {

  ghost predicate TotalPreorder<T(!new)>(leq: (T, T) -> bool) {
    && (forall x, y :: leq(x, y) || leq(y, x))
    && (forall x, y, z :: leq(x, y) && leq(y, z) ==> leq(x, z))
  }

  ghost predicate Sorted<T>(s: seq<T>, leq: (T, T) -> bool) {
    forall i, j :: 0 <= i < j < |s| ==> leq(s[i], s[j])
  }

  /** Before everything it does not come strictly after. */
  function Insert<T>(x: T, s: seq<T>, leq: (T, T) -> bool): (r: seq<T>)
    ensures |r| == |s| + 1
  {
    if s == [] || leq(x, s[0]) then [x] + s else [s[0]] + Insert(x, s[1..], leq)
  }

  function Sort<T>(s: seq<T>, leq: (T, T) -> bool): (r: seq<T>)
    ensures |r| == |s|
  {
    if s == [] then [] else Insert(s[0], Sort(s[1..], leq), leq)
  }

  lemma {:induction false} InsertElements<T>(x: T, s: seq<T>, leq: (T, T) -> bool)
    ensures multiset(Insert(x, s, leq)) == multiset{x} + multiset(s)
  {
    if s != [] && !leq(x, s[0]) {
      InsertElements(x, s[1..], leq);
      assert s == [s[0]] + s[1..];
    }
  }

  lemma {:induction false} SortElements<T>(s: seq<T>, leq: (T, T) -> bool)
    ensures multiset(Sort(s, leq)) == multiset(s)
  {
    if s != [] {
      SortElements(s[1..], leq);
      InsertElements(s[0], Sort(s[1..], leq), leq);
      assert s == [s[0]] + s[1..];
    }
  }

  lemma {:induction false} InsertSorted<T(!new)>(x: T, s: seq<T>, leq: (T, T) -> bool)
    requires TotalPreorder(leq) && Sorted(s, leq)
    ensures Sorted(Insert(x, s, leq), leq)
  {
    if s != [] && !leq(x, s[0]) {
      var t := Insert(x, s[1..], leq);
      assert forall i, j :: 0 <= i < j < |s[1..]| ==> s[1..][i] == s[i + 1] && s[1..][j] == s[j + 1];
      InsertSorted(x, s[1..], leq);
      InsertElements(x, s[1..], leq);
      forall j | 0 <= j < |t|
        ensures leq(s[0], t[j])
      {
        assert t[j] in multiset(t);
        if t[j] != x {
          var k :| 0 <= k < |s[1..]| && s[1..][k] == t[j];
          assert s[k + 1] == t[j];
        }
      }
    }
  }

  lemma {:induction false} SortSorted<T(!new)>(s: seq<T>, leq: (T, T) -> bool)
    requires TotalPreorder(leq)
    ensures Sorted(Sort(s, leq), leq)
  {
    if s != [] {
      SortSorted(s[1..], leq);
      InsertSorted(s[0], Sort(s[1..], leq), leq);
    }
  }

  /** The elements tied with `x`, in order. */
  function Ties<T>(s: seq<T>, x: T, leq: (T, T) -> bool): seq<T> {
    if s == [] then []
    else (if leq(s[0], x) && leq(x, s[0]) then [s[0]] else []) + Ties(s[1..], x, leq)
  }

  function IfTied<T>(y: T, x: T, leq: (T, T) -> bool): seq<T> {
    if leq(y, x) && leq(x, y) then [y] else []
  }

  lemma TiesCons<T>(y: T, s: seq<T>, x: T, leq: (T, T) -> bool)
    ensures Ties([y] + s, x, leq) == IfTied(y, x, leq) + Ties(s, x, leq)
  {
    assert ([y] + s)[1..] == s;
  }

  lemma InsertBehind<T>(y: T, head: T, rest: seq<T>, leq: (T, T) -> bool)
    ensures Insert(y, [head] + rest, leq) == if leq(y, head) then [y] + ([head] + rest) else [head] + Insert(y, rest, leq)
  {
    assert ([head] + rest)[1..] == rest;
  }

  /** Elements that are not tied with each other are not both tied with a third. */
  lemma NotBothTied<T(!new)>(y: T, head: T, x: T, rest: seq<T>, leq: (T, T) -> bool)
    requires TotalPreorder(leq) && !leq(y, head)
    ensures IfTied(head, x, leq) + (IfTied(y, x, leq) + rest) == IfTied(y, x, leq) + (IfTied(head, x, leq) + rest)
  {
    assert IfTied(y, x, leq) == [] || IfTied(head, x, leq) == [];
  }

  lemma {:induction false} InsertStable<T(!new)>(y: T, s: seq<T>, x: T, leq: (T, T) -> bool)
    requires TotalPreorder(leq) && Sorted(s, leq)
    ensures Ties(Insert(y, s, leq), x, leq) == Ties([y] + s, x, leq)
  {
    if s == [] {
      assert Insert(y, s, leq) == [y] + s;
    } else {
      hide Insert, Ties, IfTied, TotalPreorder;
      var head, rest := s[0], s[1..];
      assert s == [head] + rest;
      InsertBehind(y, head, rest, leq);
      if !leq(y, head) {
        TailSorted(s, leq);
        InsertStable(y, rest, x, leq);
        TiesCons(head, Insert(y, rest, leq), x, leq);
        TiesCons(y, rest, x, leq);
        TiesCons(y, s, x, leq);
        TiesCons(head, rest, x, leq);
        NotBothTied(y, head, x, Ties(rest, x, leq), leq);
      }
    }
  }

  lemma TailSorted<T>(s: seq<T>, leq: (T, T) -> bool)
    requires Sorted(s, leq) && s != []
    ensures Sorted(s[1..], leq)
  {
    assert forall i :: 0 <= i < |s[1..]| ==> s[1..][i] == s[i + 1];
  }

  /** Stability: tied elements keep their order. */
  lemma {:induction false} SortStable<T(!new)>(s: seq<T>, x: T, leq: (T, T) -> bool)
    requires TotalPreorder(leq)
    ensures Ties(Sort(s, leq), x, leq) == Ties(s, x, leq)
  {
    if s != [] {
      SortStable(s[1..], x, leq);
      SortSorted(s[1..], leq);
      var t := Sort(s[1..], leq);
      InsertStable(s[0], t, x, leq);
      assert ([s[0]] + t)[1..] == t;
    }
  }

  lemma {:induction false} TiesNonempty<T(!new)>(s: seq<T>, x: T, i: nat, leq: (T, T) -> bool)
    requires i < |s| && leq(s[i], x) && leq(x, s[i])
    ensures Ties(s, x, leq) != []
  {
    if i > 0 {
      TiesNonempty(s[1..], x, i - 1, leq);
    }
  }

  lemma {:induction false} TiesAreMembers<T(!new)>(s: seq<T>, x: T, leq: (T, T) -> bool) returns (i: nat)
    requires Ties(s, x, leq) != []
    ensures i < |s| && leq(s[i], x) && leq(x, s[i])
  {
    if leq(s[0], x) && leq(x, s[0]) {
      i := 0;
    } else {
      i := TiesAreMembers(s[1..], x, leq);
      i := i + 1;
    }
  }

  /** Neither head comes strictly after the other. */
  lemma HeadIsLeast<T(!new)>(a: seq<T>, b: seq<T>, leq: (T, T) -> bool)
    requires TotalPreorder(leq) && Sorted(a, leq) && a != []
    requires forall x :: Ties(a, x, leq) == Ties(b, x, leq)
    ensures b != [] && leq(a[0], b[0])
  {
    TiesNonempty(a, a[0], 0, leq);
    assert Ties(b, a[0], leq) != [];
    var y := b[0];
    TiesNonempty(b, y, 0, leq);
    assert Ties(a, y, leq) != [];
    var i := TiesAreMembers(a, y, leq);
    assert i > 0 ==> leq(a[0], a[i]);
  }

  /** Sorted sequences with the same tied elements in the same order are equal. */
  lemma {:induction false} SortedTiesAreEqual<T(!new)>(a: seq<T>, b: seq<T>, leq: (T, T) -> bool)
    requires TotalPreorder(leq) && Sorted(a, leq) && Sorted(b, leq)
    requires forall x :: Ties(a, x, leq) == Ties(b, x, leq)
    ensures a == b
  {
    if a == [] {
      if b != [] {
        TiesNonempty(b, b[0], 0, leq);
        assert false;
      }
    } else {
      HeadIsLeast(a, b, leq);
      HeadIsLeast(b, a, leq);
      assert Ties(a, a[0], leq)[0] == a[0] && Ties(b, a[0], leq)[0] == b[0];
      assert forall i, j :: 0 <= i < j < |a[1..]| ==> a[1..][i] == a[i + 1] && a[1..][j] == a[j + 1];
      assert forall i, j :: 0 <= i < j < |b[1..]| ==> b[1..][i] == b[i + 1] && b[1..][j] == b[j + 1];
      forall x
        ensures Ties(a[1..], x, leq) == Ties(b[1..], x, leq)
      {
        assert Ties(a, x, leq) == Ties(b, x, leq);
        TiesTail(a, b, x, leq);
      }
      SortedTiesAreEqual(a[1..], b[1..], leq);
      assert a == [a[0]] + a[1..] && b == [b[0]] + b[1..];
    }
  }

  lemma TiesTail<T(!new)>(a: seq<T>, b: seq<T>, x: T, leq: (T, T) -> bool)
    requires a != [] && b != [] && a[0] == b[0] && Ties(a, x, leq) == Ties(b, x, leq)
    ensures Ties(a[1..], x, leq) == Ties(b[1..], x, leq)
  {
    var head := if leq(a[0], x) && leq(x, a[0]) then [a[0]] else [];
    assert Ties(a, x, leq)[|head|..] == Ties(a[1..], x, leq);
    assert Ties(b, x, leq)[|head|..] == Ties(b[1..], x, leq);
  }

  /** So `Sort` is what any stable sort returns: the one sorted sequence that keeps tied elements in
      order. */
  lemma StableSortIsSort<T(!new)>(s: seq<T>, t: seq<T>, leq: (T, T) -> bool)
    requires TotalPreorder(leq) && Sorted(t, leq)
    requires forall x :: Ties(t, x, leq) == Ties(s, x, leq)
    ensures t == Sort(s, leq)
  {
    SortSorted(s, leq);
    forall x
      ensures Ties(t, x, leq) == Ties(Sort(s, leq), x, leq)
    {
      SortStable(s, x, leq);
    }
    SortedTiesAreEqual(t, Sort(s, leq), leq);
  }

  predicate NoDuplicates<T(==)>(s: seq<T>) {
    forall i, j :: 0 <= i < j < |s| ==> s[i] != s[j]
  }

  lemma {:induction false} NoDuplicatesCounts<T>(s: seq<T>)
    ensures NoDuplicates(s) <==> forall x :: multiset(s)[x] <= 1
  {
    if s != [] {
      NoDuplicatesCounts(s[1..]);
      assert s == [s[0]] + s[1..];
      assert multiset(s) == multiset{s[0]} + multiset(s[1..]);
      if NoDuplicates(s) {
        assert forall i, j :: 0 <= i < j < |s[1..]| ==> s[1..][i] == s[i + 1] && s[1..][j] == s[j + 1];
        assert s[0] !in s[1..];
      }
      if forall x :: multiset(s)[x] <= 1 {
        assert multiset(s)[s[0]] <= 1;
        assert s[0] !in multiset(s[1..]);
        assert forall x :: multiset(s[1..])[x] <= multiset(s)[x];
        forall i, j | 0 <= i < j < |s|
          ensures s[i] != s[j]
        {
          assert s[j] == s[1..][j - 1] && s[j] in s[1..];
          assert i > 0 ==> s[i] == s[1..][i - 1];
        }
      }
    }
  }

  /** Sorting neither adds, drops nor repeats elements. */
  lemma SortSameElements<T>(s: seq<T>, leq: (T, T) -> bool)
    ensures forall x :: x in Sort(s, leq) <==> x in s
    ensures NoDuplicates(s) ==> NoDuplicates(Sort(s, leq))
  {
    SortElements(s, leq);
    NoDuplicatesCounts(s);
    NoDuplicatesCounts(Sort(s, leq));
    assert forall x :: x in Sort(s, leq) <==> x in multiset(Sort(s, leq));
    assert forall x :: x in s <==> x in multiset(s);
  }

  /** A duplicate-free sequence in the order of an asymmetric relation is determined by its elements. */
  lemma {:induction false} StrictOrderUnique<T>(a: seq<T>, b: seq<T>, less: (T, T) -> bool)
    requires forall x, y :: x in a && y in a && less(x, y) ==> !less(y, x)
    requires forall i, j :: 0 <= i < j < |a| ==> less(a[i], a[j])
    requires forall i, j :: 0 <= i < j < |b| ==> less(b[i], b[j])
    requires forall x :: x in a <==> x in b
    ensures a == b
  {
    if a == [] {
      assert forall i :: 0 <= i < |b| ==> b[i] in a;
    } else {
      assert a[0] in a;
      var j :| 0 <= j < |b| && b[j] == a[0];
      assert b[0] in b;
      var i :| 0 <= i < |a| && a[i] == b[0];
      assert i == 0 && j == 0;
      forall x
        ensures x in a[1..] <==> x in b[1..]
      {
        TailHas(a, b, x, less);
        TailHas(b, a, x, less);
      }
      StrictOrderUnique(a[1..], b[1..], less);
    }
  }

  lemma TailHas<T>(a: seq<T>, b: seq<T>, x: T, less: (T, T) -> bool)
    requires a != [] && b != [] && a[0] == b[0]
    requires forall x, y :: x in a && y in a && less(x, y) ==> !less(y, x)
    requires forall i, j :: 0 <= i < j < |a| ==> less(a[i], a[j])
    requires x in a ==> x in b
    ensures x in a[1..] ==> x in b[1..]
  {
    if x in a[1..] {
      var i :| 0 <= i < |a[1..]| && a[1..][i] == x;
      assert less(a[0], a[i + 1]);
      var j :| 0 <= j < |b| && b[j] == x;
      assert j != 0;
      assert b[1..][j - 1] == x;
    }
  }

  // ---------------------------------------------------------------------------------------------
  // Strings

  /** Lexicographic order. */
  predicate LexLeq(a: string, b: string) {
    a == "" || (b != "" && (a[0] < b[0] || (a[0] == b[0] && LexLeq(a[1..], b[1..]))))
  }

  /** Dictionary order: the shorter of two texts that agree as far as it goes, or else the one with the
      smaller character where they first differ. */
  lemma {:induction false} LexIsDictionaryOrder(a: string, b: string)
    ensures LexLeq(a, b) <==> a <= b || exists i :: 0 <= i < |a| && i < |b| && a[..i] == b[..i] && a[i] < b[i]
  {
    if a != "" && b != "" && a[0] == b[0] {
      var a', b' := a[1..], b[1..];
      assert a == [a[0]] + a' && b == [b[0]] + b';
      LexIsDictionaryOrder(a', b');
      if i :| 0 <= i < |a'| && i < |b'| && a'[..i] == b'[..i] && a'[i] < b'[i] {
        assert a[..i + 1] == [a[0]] + a'[..i] && b[..i + 1] == [a[0]] + b'[..i];
        assert a[i + 1] < b[i + 1];
      }
      if i :| 0 <= i < |a| && i < |b| && a[..i] == b[..i] && a[i] < b[i] {
        assert i > 0;
        assert a'[..i - 1] == a[..i][1..] && b'[..i - 1] == b[..i][1..];
        assert a'[i - 1] < b'[i - 1];
      }
    } else if a != "" && b != "" {
      assert a[0] < b[0] ==> a[..0] == b[..0];
      assert forall i :: 0 < i < |a| && i < |b| && a[..i] == b[..i] ==> a[..i][0] == b[..i][0];
    }
  }

  lemma {:induction false} LexConnected(a: string, b: string)
    ensures LexLeq(a, b) || LexLeq(b, a)
    ensures LexLeq(a, b) && LexLeq(b, a) ==> a == b
  {
    if a != "" && b != "" {
      LexConnected(a[1..], b[1..]);
      assert a == [a[0]] + a[1..] && b == [b[0]] + b[1..];
    }
  }

  lemma {:induction false} LexTransitive(a: string, b: string, c: string)
    requires LexLeq(a, b) && LexLeq(b, c)
    ensures LexLeq(a, c)
  {
    if a != "" && a[0] == b[0] && b[0] == c[0] {
      LexTransitive(a[1..], b[1..], c[1..]);
    }
  }

  lemma LexIsTotal()
    ensures TotalPreorder(LexLeq)
  {
    forall a, b
      ensures LexLeq(a, b) || LexLeq(b, a)
    {
      LexConnected(a, b);
    }
    forall a, b, c | LexLeq(a, b) && LexLeq(b, c)
      ensures LexLeq(a, c)
    {
      LexTransitive(a, b, c);
    }
  }
}
