/** The Python list built-ins the hill climber relies on: `sum`, `x in s` and
    `list.remove`, over lists of integers. */
module Lists {

  /** `sum(s)`: adds the values from left to right, starting at 0. */
  function Sum(s: seq<int>): int
  {
    if s == [] then 0 else Sum(s[..|s| - 1]) + s[|s| - 1]
  }

  /** The sum of a concatenation is the sum of its parts. */
  lemma {:induction false} SumConcat(a: seq<int>, b: seq<int>)
    ensures Sum(a + b) == Sum(a) + Sum(b)
  {
    if b == [] {
      assert a + b == a;
    } else {
      var c := b[..|b| - 1];
      assert (a + b)[..|a + b| - 1] == a + c;
      SumConcat(a, c);
    }
  }

  /** The position `list.remove(x)` deletes: the first occurrence of `x`. */
  function FirstIndex(s: seq<int>, x: int): (i: nat)
    requires x in s
    ensures i < |s| && s[i] == x && x !in s[..i]
  {
    if s[0] == x then 0
    else
      var j := FirstIndex(s[1..], x);
      assert s[..j + 1] == [s[0]] + s[1..][..j];
      j + 1
  }

  /** `s.remove(x)` applied to a copy of `s`: Python scans from the front and
      deletes the first element equal to `x` (it raises when there is none). */
  function RemoveFirst(s: seq<int>, x: int): (r: seq<int>)
    requires x in s
    ensures r == s[..FirstIndex(s, x)] + s[FirstIndex(s, x) + 1..]
  {
    if s[0] == x then s[1..]
    else
      var t := s[1..];
      var j := FirstIndex(t, x);
      assert s[..j + 1] == [s[0]] + t[..j];
      assert s[j + 2..] == t[j + 1..];
      [s[0]] + RemoveFirst(t, x)
  }

  /** Removing one occurrence shortens the list by one, takes exactly one
      copy of `x` out of its multiset of values and lowers its sum by `x`. */
  lemma RemoveFirstContents(s: seq<int>, x: int)
    requires x in s
    ensures |RemoveFirst(s, x)| == |s| - 1
    ensures multiset(RemoveFirst(s, x)) == multiset(s) - multiset{x}
    ensures Sum(RemoveFirst(s, x)) == Sum(s) - x
  {
    var i := FirstIndex(s, x);
    var a, b := s[..i], s[i + 1..];
    assert s == (a + [x]) + b;
    assert multiset(s) == multiset(a) + multiset{x} + multiset(b);
    assert Sum(s) == Sum(a) + x + Sum(b) by {
      SumConcat(a, [x]);
      SumConcat(a + [x], b);
    }
    SumConcat(a, b);
  }

  /** Removing a value that was just appended to a list without it gives
      the list back. */
  lemma RemoveAppended(s: seq<int>, x: int)
    requires x !in s
    ensures RemoveFirst(s + [x], x) == s
  {
    var t := s + [x];
    assert t[..|s|] == s;
  }

  /** No value occurs twice in `s`. */
  ghost predicate NoDup(s: seq<int>)
  {
    forall x :: multiset(s)[x] <= 1
  }

  /** A list drawn without replacement from a list without repeats has none. */
  lemma NoDupSubMultiset(s: seq<int>, t: seq<int>)
    requires multiset(s) <= multiset(t) && NoDup(t)
    ensures NoDup(s)
  {
    forall x ensures multiset(s)[x] <= 1 {
      assert multiset(s)[x] <= multiset(t)[x];
    }
  }

  /** Removing a value from a list without repeats leaves no copy of it and
      keeps every other value, still without repeats. */
  lemma NoDupRemove(s: seq<int>, x: int)
    requires NoDup(s) && x in s
    ensures NoDup(RemoveFirst(s, x))
    ensures x !in RemoveFirst(s, x)
    ensures forall y :: y != x ==> (y in RemoveFirst(s, x) <==> y in s)
  {
    var r := RemoveFirst(s, x);
    RemoveFirstContents(s, x);
    assert multiset(s)[x] == 1;
    assert multiset(r)[x] == 0;
    forall y ensures multiset(r)[y] <= 1 && (y != x ==> (y in r <==> y in s)) {
      assert y in r <==> y in multiset(r);
      assert y in s <==> y in multiset(s);
    }
  }

  /** Appending a value that is absent from a list without repeats keeps it
      without repeats. */
  lemma NoDupAppend(s: seq<int>, x: int)
    requires NoDup(s) && x !in s
    ensures NoDup(s + [x])
  {
    assert multiset(s + [x]) == multiset(s) + multiset{x};
    assert multiset(s)[x] == 0;
  }
}
