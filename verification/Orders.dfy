/** Python's `sorted` on sets of integers and of strings. */
module Orders {
  ghost predicate StrictTotal<T(!new)>(less: (T, T) -> bool) {
    && (forall a :: !less(a, a))
    && (forall a, b :: less(a, b) || less(b, a) || a == b)
    && (forall a, b, c :: less(a, b) && less(b, c) ==> less(a, c))
  }

  ghost predicate Ascending<T>(s: seq<T>, less: (T, T) -> bool) {
    forall i, j :: 0 <= i < j < |s| ==> less(s[i], s[j])
  }

  predicate IntLess(a: int, b: int) {
    a < b
  }

  /** Strings compare by code points, a proper prefix being smaller. */
  predicate StringLess(a: string, b: string) {
    b != "" && (a == "" || a[0] < b[0] || (a[0] == b[0] && StringLess(a[1..], b[1..])))
  }

  /** The first place where they differ decides, or else the length. */
  ghost predicate DifferAt(a: string, b: string, i: nat) {
    i < |a| && i < |b| && a[..i] == b[..i] && a[i] < b[i]
  }

  lemma {:induction false} StringLessIs(a: string, b: string)
    ensures StringLess(a, b) <==> a < b || exists i: nat :: DifferAt(a, b, i)
  {
    if a != "" && b != "" && a[0] == b[0] {
      StringLessIs(a[1..], b[1..]);
      assert a < b <==> a[1..] < b[1..] by {
        assert a == [a[0]] + a[1..] && b == [b[0]] + b[1..];
      }
      if i: nat :| DifferAt(a[1..], b[1..], i) {
        assert a[..i + 1] == [a[0]] + a[1..][..i] && b[..i + 1] == [b[0]] + b[1..][..i];
        assert DifferAt(a, b, i + 1);
      }
      if i: nat :| DifferAt(a, b, i) {
        assert i > 0;
        assert a[1..][..i - 1] == a[..i][1..] && b[1..][..i - 1] == b[..i][1..];
        assert DifferAt(a[1..], b[1..], i - 1);
      }
    } else if a != "" && b != "" {
      assert DifferAt(a, b, 0) <==> a[0] < b[0];
      forall i: nat | DifferAt(a, b, i) ensures i == 0 {
        SameHead(a, b, i);
      }
    }
  }

  lemma SameHead(a: string, b: string, i: nat)
    requires DifferAt(a, b, i)
    ensures i > 0 ==> a[0] == b[0]
  {
    if i > 0 {
      assert a[0] == a[..i][0] && b[0] == b[..i][0];
    }
  }

  lemma {:induction false} StringLessTrichotomy(a: string, b: string)
    ensures !StringLess(a, a)
    ensures StringLess(a, b) || StringLess(b, a) || a == b
  {
    if a != "" {
      StringLessTrichotomy(a[1..], if b == "" then "" else b[1..]);
      assert b != "" && a[0] == b[0] && a[1..] == b[1..] ==> a == [a[0]] + a[1..] == b;
    }
  }

  lemma {:induction false} StringLessTransitive(a: string, b: string, c: string)
    requires StringLess(a, b) && StringLess(b, c)
    ensures StringLess(a, c)
  {
    if a != "" && a[0] == b[0] == c[0] {
      StringLessTransitive(a[1..], b[1..], c[1..]);
    }
  }

  lemma OrdersAreTotal()
    ensures StrictTotal(IntLess) && StrictTotal(StringLess)
  {
    forall a, b ensures !StringLess(a, a) && (StringLess(a, b) || StringLess(b, a) || a == b) {
      StringLessTrichotomy(a, b);
    }
    forall a, b, c | StringLess(a, b) && StringLess(b, c) ensures StringLess(a, c) {
      StringLessTransitive(a, b, c);
    }
  }

  method Least<T(!new, ==)>(s: set<T>, less: (T, T) -> bool) returns (least: T)
    requires StrictTotal(less) && s != {}
    ensures least in s && forall x :: x in s && x != least ==> less(least, x)
  {
    least :| least in s;
    var others := s - {least};
    while others != {}
      invariant others <= s && least in s && least !in others
      invariant forall x :: x in s && x !in others && x != least ==> less(least, x)
      decreases others
    {
      var y :| y in others;
      ghost var before, m := others, least;
      others := others - {y};
      assert less(y, least) || less(least, y);
      if less(y, least) {
        least := y;
        forall x | x in s && x !in others && x != least ensures less(least, x) {
          assert x != m ==> x !in before && less(m, x);
        }
      }
    }
  }

  method Sorted<T(!new, ==)>(s: set<T>, less: (T, T) -> bool) returns (r: seq<T>)
    requires StrictTotal(less)
    ensures Ascending(r, less)
    ensures forall x :: x in r <==> x in s
  {
    r := [];
    var rest := s;
    while rest != {}
      invariant rest <= s && Ascending(r, less)
      invariant forall x :: x in s <==> x in r || x in rest
      invariant forall x, y :: x in r && y in rest ==> less(x, y)
      decreases rest
    {
      var least := Least(rest, less);
      r := r + [least];
      rest := rest - {least};
    }
  }

  /** There is only one ascending list of a set. */
  lemma {:induction false} SortedIsUnique<T(!new)>(a: seq<T>, b: seq<T>, less: (T, T) -> bool)
    requires StrictTotal(less) && Ascending(a, less) && Ascending(b, less)
    requires forall x :: x in a <==> x in b
    ensures a == b
  {
    assert |a| > 0 ==> a[0] in b;
    assert |b| > 0 ==> b[0] in a;
    if a != [] {
      assert a[0] == b[0];
      forall x ensures x in a[1..] <==> x in b[1..] {
        assert x in a <==> x == a[0] || x in a[1..];
        assert x in b <==> x == b[0] || x in b[1..];
      }
      SortedIsUnique(a[1..], b[1..], less);
      assert a == [a[0]] + a[1..] && b == [b[0]] + b[1..];
    }
  }
}
