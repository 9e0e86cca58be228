/** The two orderings the library asks LINQ for: `OrderBy(x => x)` on a
    sample and `OrderByDescending(key)` on groups or table rows. Both are
    modelled as insertion sorts; what the rest of the model relies on is
    that the result is ordered and is a permutation of the input. */
module Ordering {

  predicate Ascending(s: seq<real>)
  {
    forall i, j :: 0 <= i < j < |s| ==> s[i] <= s[j]
  }

  predicate DescendingBy<T>(s: seq<T>, key: T -> int)
  {
    forall i, j :: 0 <= i < j < |s| ==> key(s[i]) >= key(s[j])
  }

  /** Position i holds the only element with the largest key. */
  predicate UniqueTop<T>(s: seq<T>, key: T -> int, i: int)
  {
    0 <= i < |s| && forall j :: 0 <= j < |s| && j != i ==> key(s[j]) < key(s[i])
  }

  function InsertAscending(x: real, s: seq<real>): (r: seq<real>)
    requires Ascending(s)
    ensures |r| == |s| + 1
    ensures multiset(r) == multiset(s) + multiset{x}
    ensures Ascending(r)
  {
    if |s| == 0 then [x]
    else if x <= s[0] then [x] + s
    else
      var rest := InsertAscending(x, s[1..]);
      assert s == [s[0]] + s[1..];
      HeadLeads(s[0], s[1..], x, rest);
      [s[0]] + rest
  }

  /** The step of InsertAscending: a head no larger than the tail and than x
      stays in front of the merged tail. */
  lemma HeadLeads(h: real, tail: seq<real>, x: real, rest: seq<real>)
    requires Ascending([h] + tail) && h < x
    requires multiset(rest) == multiset(tail) + multiset{x} && Ascending(rest)
    ensures Ascending([h] + rest)
  {
    forall k | 0 <= k < |rest|
      ensures h <= rest[k]
    {
      assert rest[k] in multiset(rest);
      if rest[k] != x {
        assert rest[k] in multiset(tail);
        var m :| 0 <= m < |tail| && tail[m] == rest[k];
        assert ([h] + tail)[0] == h && ([h] + tail)[m + 1] == tail[m];
      }
    }
    forall i, j | 0 <= i < j < |[h] + rest|
      ensures ([h] + rest)[i] <= ([h] + rest)[j]
    {
      if i == 0 {
        assert ([h] + rest)[j] == rest[j - 1];
      } else {
        assert ([h] + rest)[i] == rest[i - 1];
        assert ([h] + rest)[j] == rest[j - 1];
      }
    }
  }

  /** `OrderBy(x => x)`: the sample in ascending order. */
  function SortAscending(s: seq<real>): (r: seq<real>)
    ensures |r| == |s|
    ensures multiset(r) == multiset(s)
    ensures Ascending(r)
  {
    if |s| == 0 then []
    else
      assert s == [s[0]] + s[1..];
      InsertAscending(s[0], SortAscending(s[1..]))
  }

  /** A sample already in ascending order is its own sorted copy. */
  lemma {:induction false} SortAscendingSorted(s: seq<real>)
    requires Ascending(s)
    ensures SortAscending(s) == s
    decreases |s|
  {
    if |s| > 0 {
      SortAscendingSorted(s[1..]);
      assert s == [s[0]] + s[1..];
    }
  }

  /** The sorted copy holds the same values as the sample. */
  lemma SortedMembers(s: seq<real>)
    ensures forall x :: x in SortAscending(s) <==> x in s
  {
    forall x ensures x in SortAscending(s) <==> x in s {
      assert x in SortAscending(s) <==> x in multiset(SortAscending(s));
    }
  }

  function InsertDescendingBy<T>(x: T, s: seq<T>, key: T -> int): (r: seq<T>)
    requires DescendingBy(s, key)
    ensures |r| == |s| + 1
    ensures multiset(r) == multiset(s) + multiset{x}
    ensures DescendingBy(r, key)
  {
    if |s| == 0 then [x]
    else if key(x) >= key(s[0]) then [x] + s
    else
      var rest := InsertDescendingBy(x, s[1..], key);
      assert s == [s[0]] + s[1..];
      HeadDominates(s[0], s[1..], x, rest, key);
      [s[0]] + rest
  }

  /** The step of InsertDescendingBy: a head whose key is at least every key
      of the tail and of x keeps the order in front of the merged tail. */
  lemma HeadDominates<T>(h: T, tail: seq<T>, x: T, rest: seq<T>, key: T -> int)
    requires DescendingBy([h] + tail, key) && key(x) < key(h)
    requires multiset(rest) == multiset(tail) + multiset{x} && DescendingBy(rest, key)
    ensures DescendingBy([h] + rest, key)
  {
    forall k | 0 <= k < |rest|
      ensures key(h) >= key(rest[k])
    {
      assert rest[k] in multiset(rest);
      if rest[k] != x {
        assert rest[k] in multiset(tail);
        var m :| 0 <= m < |tail| && tail[m] == rest[k];
        assert ([h] + tail)[0] == h && ([h] + tail)[m + 1] == tail[m];
        assert key(([h] + tail)[0]) >= key(([h] + tail)[m + 1]);
      }
    }
    forall i, j | 0 <= i < j < |[h] + rest|
      ensures key(([h] + rest)[i]) >= key(([h] + rest)[j])
    {
      if i == 0 {
        assert ([h] + rest)[j] == rest[j - 1];
      } else {
        assert ([h] + rest)[i] == rest[i - 1];
        assert ([h] + rest)[j] == rest[j - 1];
      }
    }
  }

  /** `OrderByDescending(key)`: the elements, largest key first. */
  function SortDescendingBy<T>(s: seq<T>, key: T -> int): (r: seq<T>)
    ensures |r| == |s|
    ensures multiset(r) == multiset(s)
    ensures DescendingBy(r, key)
  {
    if |s| == 0 then []
    else
      assert s == [s[0]] + s[1..];
      InsertDescendingBy(s[0], SortDescendingBy(s[1..], key), key)
  }

  /** Two positions holding one value give it multiplicity two. */
  lemma TwoCopies<T>(s: seq<T>, i: int, j: int)
    requires 0 <= i < j < |s| && s[i] == s[j]
    ensures multiset(s)[s[i]] >= 2
  {
    assert s == s[..i] + [s[i]] + s[i + 1..j] + [s[j]] + s[j + 1..];
  }

  /** A value of multiplicity two at position i occurs at another position too. */
  lemma OtherCopy<T>(s: seq<T>, i: int) returns (j: int)
    requires 0 <= i < |s| && multiset(s)[s[i]] >= 2
    ensures 0 <= j < |s| && j != i && s[j] == s[i]
  {
    assert s == s[..i] + [s[i]] + s[i + 1..];
    var others := s[..i] + s[i + 1..];
    assert multiset(others)[s[i]] >= 1;
    assert s[i] in others;
    var k :| 0 <= k < |others| && others[k] == s[i];
    if k < i {
      j := k;
    } else {
      j := k + 1;
    }
  }

  /** Every element of a permutation has a position in the other sequence. */
  lemma Position<T>(s: seq<T>, r: seq<T>, x: T) returns (a: int)
    requires multiset(r) == multiset(s) && x in r
    ensures 0 <= a < |s| && s[a] == x
  {
    assert x in multiset(r);
    assert x in s;
    a :| 0 <= a < |s| && s[a] == x;
  }

  /** After sorting by a descending key, the first two keys differ exactly
      when the input has an element whose key beats every other's; that
      element is then the first of the sorted sequence. */
  lemma TopOfDescending<T>(s: seq<T>, key: T -> int)
    requires |s| >= 2
    ensures key(SortDescendingBy(s, key)[0]) > key(SortDescendingBy(s, key)[1])
            <==> exists i :: UniqueTop(s, key, i)
    ensures forall i :: UniqueTop(s, key, i) ==> SortDescendingBy(s, key)[0] == s[i]
  {
    var r := SortDescendingBy(s, key);
    if key(r[0]) > key(r[1]) {
      var a := LeaderIsUnique(s, key);
    }
    forall i | UniqueTop(s, key, i)
      ensures r[0] == s[i] && key(r[0]) > key(r[1])
    {
      UniqueLeads(s, key, i);
    }
  }

  /** A strict gap after the first sorted key makes its element the unique top. */
  lemma LeaderIsUnique<T>(s: seq<T>, key: T -> int) returns (a: int)
    requires |s| >= 2
    requires key(SortDescendingBy(s, key)[0]) > key(SortDescendingBy(s, key)[1])
    ensures UniqueTop(s, key, a)
  {
    var r := SortDescendingBy(s, key);
    a := Position(s, r, r[0]);
    forall j | 0 <= j < |s| && j != a
      ensures key(s[j]) < key(s[a])
    {
      var k := Position(r, s, s[j]);
      if k == 0 {
        if j < a { TwoCopies(s, j, a); } else { TwoCopies(s, a, j); }
        var k' := OtherCopy(r, 0);
        assert false;
      } else {
        assert key(r[k]) <= key(r[1]);
      }
    }
  }

  /** The unique top comes first and strictly ahead of the second. */
  lemma UniqueLeads<T>(s: seq<T>, key: T -> int, i: int)
    requires |s| >= 2 && UniqueTop(s, key, i)
    ensures SortDescendingBy(s, key)[0] == s[i]
    ensures key(SortDescendingBy(s, key)[0]) > key(SortDescendingBy(s, key)[1])
  {
    var r := SortDescendingBy(s, key);
    var a := Position(s, r, r[0]);
    var k := Position(r, s, s[i]);
    assert key(r[k]) <= key(r[0]);
    assert a == i;
    var b := Position(s, r, r[1]);
    if b == i {
      TwoCopies(r, 0, 1);
      var c := OtherCopy(s, i);
      assert false;
    }
  }
}
