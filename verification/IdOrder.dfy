/** The orders tasks are sorted by: task ids in code-point order, and a rank with ties broken by id. */
module IdOrder {

  predicate StringLess(a: string, b: string) {
    b != "" && (a == "" || a[0] < b[0] || (a[0] == b[0] && StringLess(a[1..], b[1..])))
  }

  lemma {:induction false} StringOrderIsTotal(a: string, b: string)
    ensures StringLess(a, b) || a == b || StringLess(b, a)
    ensures !(StringLess(a, b) && StringLess(b, a))
    ensures a == b ==> !StringLess(a, b)
  {
    if a != "" && b != "" {
      StringOrderIsTotal(a[1..], b[1..]);
      if a[0] == b[0] && a[1..] == b[1..] {
        assert a == [a[0]] + a[1..] == [b[0]] + b[1..] == b;
      }
    }
  }

  lemma {:induction false} StringLessTransitive(a: string, b: string, c: string)
    requires StringLess(a, b) && StringLess(b, c)
    ensures StringLess(a, c)
  {
    if a != "" && a[0] == b[0] && b[0] == c[0] {
      StringLessTransitive(a[1..], b[1..], c[1..]);
    }
  }

  /** The key (rank(id), id), compared lexicographically. */
  predicate Before(rank: string -> nat, a: string, b: string) {
    rank(a) < rank(b) || (rank(a) == rank(b) && StringLess(a, b))
  }

  /** The rank of a plain sort by id. */
  function NoRank(id: string): nat {
    0
  }

  lemma BeforeIsTotal(rank: string -> nat, a: string, b: string)
    ensures Before(rank, a, b) || a == b || Before(rank, b, a)
    ensures !(Before(rank, a, b) && Before(rank, b, a))
    ensures a == b ==> !Before(rank, a, b)
  {
    StringOrderIsTotal(a, b);
  }

  lemma BeforeTransitive(rank: string -> nat, a: string, b: string, c: string)
    requires Before(rank, a, b) && Before(rank, b, c)
    ensures Before(rank, a, c)
  {
    if rank(a) == rank(b) == rank(c) {
      StringLessTransitive(a, b, c);
    }
  }

  // ----- sorting ------------------------------------------------------------

  ghost predicate Sorted(rank: string -> nat, s: seq<string>) {
    forall i, j :: 0 <= i < j < |s| ==> !Before(rank, s[j], s[i])
  }

  function Insert(rank: string -> nat, x: string, s: seq<string>): seq<string> {
    if s == [] || !Before(rank, s[0], x) then [x] + s else [s[0]] + Insert(rank, x, s[1..])
  }

  /** sorted(ids, key=...). */
  function SortIds(rank: string -> nat, s: seq<string>): seq<string> {
    if s == [] then [] else Insert(rank, s[0], SortIds(rank, s[1..]))
  }

  lemma {:induction false} InsertAdds(rank: string -> nat, x: string, s: seq<string>)
    ensures multiset(Insert(rank, x, s)) == multiset(s) + multiset{x}
  {
    if s != [] && Before(rank, s[0], x) {
      InsertAdds(rank, x, s[1..]);
      assert s == [s[0]] + s[1..];
    }
  }

  lemma SmallestFirst(rank: string -> nat, x: string, s: seq<string>)
    requires Sorted(rank, s) && forall y :: y in s ==> !Before(rank, y, x)
    ensures Sorted(rank, [x] + s)
  {
  }

  lemma {:induction false} InsertKeepsSorted(rank: string -> nat, x: string, s: seq<string>)
    requires Sorted(rank, s)
    ensures Sorted(rank, Insert(rank, x, s))
  {
    if s == [] {
    } else if !Before(rank, s[0], x) {
      forall y | y in s ensures !Before(rank, y, x) {
        BeforeIsTotal(rank, s[0], x);
        if Before(rank, y, x) && x != s[0] {
          BeforeTransitive(rank, y, x, s[0]);
        }
      }
      SmallestFirst(rank, x, s);
    } else {
      InsertKeepsSorted(rank, x, s[1..]);
      InsertAdds(rank, x, s[1..]);
      BeforeIsTotal(rank, s[0], x);
      forall y | y in Insert(rank, x, s[1..]) ensures !Before(rank, y, s[0]) {
        assert y in multiset(Insert(rank, x, s[1..]));
        assert y == x || y in s[1..];
      }
      SmallestFirst(rank, s[0], Insert(rank, x, s[1..]));
    }
  }

  /** Sorting rearranges the ids into ascending order. */
  lemma {:induction false} SortIdsSorts(rank: string -> nat, s: seq<string>)
    ensures multiset(SortIds(rank, s)) == multiset(s)
    ensures Sorted(rank, SortIds(rank, s))
  {
    if s != [] {
      SortIdsSorts(rank, s[1..]);
      InsertKeepsSorted(rank, s[0], SortIds(rank, s[1..]));
      InsertAdds(rank, s[0], SortIds(rank, s[1..]));
      assert s == [s[0]] + s[1..];
    }
  }

  ghost predicate Distinct(s: seq<string>) {
    forall i, j :: 0 <= i < j < |s| ==> s[i] != s[j]
  }

  // ----- what the order of ids is -------------------------------------------

  /** The strings agree before position k, where a ends or has the smaller character. */
  ghost predicate SmallerFrom(a: string, b: string, k: nat) {
    && k <= |a| && k < |b| && a[..k] == b[..k]
    && (k < |a| ==> a[k] < b[k])
  }

  /** An id precedes another exactly when it is a proper prefix of it or has the smaller character
      where they first differ. */
  lemma {:induction false} StringLessMeans(a: string, b: string)
    ensures StringLess(a, b) <==> exists k: nat :: SmallerFrom(a, b, k)
  {
    forall k: nat | SmallerFrom(a, b, k) && k > 0 ensures a != "" && b != "" && a[0] == b[0] {
      assert a[..k][0] == b[..k][0];
    }
    if a == "" || b == "" || a[0] != b[0] {
      assert StringLess(a, b) ==> SmallerFrom(a, b, 0);
    } else {
      StringLessMeans(a[1..], b[1..]);
      if StringLess(a, b) {
        var k: nat :| SmallerFrom(a[1..], b[1..], k);
        assert a[..k + 1] == [a[0]] + a[1..][..k] && b[..k + 1] == [b[0]] + b[1..][..k];
        assert SmallerFrom(a, b, k + 1);
      }
      if k: nat :| SmallerFrom(a, b, k) {
        assert k > 0;
        assert a[1..][..k - 1] == a[..k][1..] && b[1..][..k - 1] == b[..k][1..];
        assert SmallerFrom(a[1..], b[1..], k - 1);
      }
    }
  }
}
