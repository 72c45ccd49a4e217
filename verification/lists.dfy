/**
 The two removal operations of the source's `List<T>` that the algorithms use,
 on sequences.
 */
module Lists {

  /** Every element occurs at most once. */
  ghost predicate NoDuplicates<T(!new)>(s: seq<T>) {
    forall x :: multiset(s)[x] <= 1
  }

  /** `List.RemoveAt`: the list with the entry at index `i` taken out. */
  function RemoveAt<T>(s: seq<T>, i: int): (r: seq<T>)
    requires 0 <= i < |s|
    ensures multiset(r) + multiset{s[i]} == multiset(s)
    ensures forall x :: x in r ==> x in s
    ensures forall x :: x in s ==> x in r || x == s[i]
  {
    assert s == s[..i] + [s[i]] + s[i + 1..];
    s[..i] + s[i + 1..]
  }

  /** The index of the first occurrence of `x`, as `List.IndexOf` reports it. */
  function IndexOf<T(==)>(s: seq<T>, x: T): (k: int)
    requires x in s
    ensures 0 <= k < |s| && s[k] == x && x !in s[..k]
  {
    if s[0] == x then 0
    else
      assert x in s[1..];
      var k := IndexOf(s[1..], x);
      assert s[..k + 1] == [s[0]] + s[1..][..k];
      k + 1
  }

  /** `List.Remove`: the list with the first occurrence of `x`, if any, taken out. */
  function Remove<T(==)>(s: seq<T>, x: T): (r: seq<T>)
    ensures x in s ==> r == s[..IndexOf(s, x)] + s[IndexOf(s, x) + 1..]
    ensures x in s ==> multiset(r) + multiset{x} == multiset(s)
    ensures x !in s ==> r == s
  {
    if s == [] then []
    else if s[0] == x then
      assert s == [s[0]] + s[1..];
      assert s[..0] + s[1..] == s[1..];
      s[1..]
    else
      assert s == [s[0]] + s[1..];
      var rest := Remove(s[1..], x);
      assert x in s ==> [s[0]] + rest == s[..IndexOf(s, x)] + s[IndexOf(s, x) + 1..] by {
        if x in s {
          ShiftSplit(s, IndexOf(s[1..], x));
        }
      }
      [s[0]] + rest
  }

  /** Splitting the tail around index `k` splits the whole list around `k + 1`. */
  lemma ShiftSplit<T>(s: seq<T>, k: int)
    requires 0 <= k < |s| - 1
    ensures [s[0]] + (s[1..][..k] + s[1..][k + 1..]) == s[..k + 1] + s[k + 2..]
  {
    assert s[..k + 1] == [s[0]] + s[1..][..k];
    assert s[k + 2..] == s[1..][k + 1..];
  }

  /** Removing an element from a list without duplicates removes every trace of it and nothing else. */
  lemma RemoveFromDistinct<T(!new)>(s: seq<T>, x: T)
    requires NoDuplicates(s) && x in s
    ensures NoDuplicates(Remove(s, x))
    ensures x !in Remove(s, x)
    ensures forall y :: y in Remove(s, x) <==> y in s && y != x
  {
    var r := Remove(s, x);
    assert multiset(r)[x] == 0;
    forall y
      ensures multiset(r)[y] <= 1
      ensures y in r <==> y in s && y != x
    {
      assert multiset(r)[y] + (if y == x then 1 else 0) == multiset(s)[y];
    }
  }

  /** Appending an element the list lacks keeps it free of duplicates. */
  lemma AppendFresh<T(!new)>(s: seq<T>, x: T)
    requires NoDuplicates(s) && x !in s
    ensures NoDuplicates(s + [x])
  {
    forall y
      ensures multiset(s + [x])[y] <= 1
    {
      assert multiset(s + [x]) == multiset(s) + multiset{x};
    }
  }
}
