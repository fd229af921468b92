/**
 * The order of the manifest's entries: ascending by URL under Go's string
 * `<`, established by sorting the flattened entries in place.
 */
module ArchOrder {
  import opened Strings
  import opened Manifest

  /** Every entry's URL is at most the next one's. */
  predicate SortedByURL(s: seq<Arch>) {
    forall i :: 0 < i < |s| ==> LessEq(s[i - 1].url, s[i].url)
  }

  /**
   * sort.Slice(arches, func(i, j) { arches[i].URL < arches[j].URL }): reorders
   * the entries in place so that URLs ascend. Entries with equal URLs may end
   * up in any order.
   */
  method SortByURL(a: array<Arch>)
    modifies a
    ensures SortedByURL(a[..])
    ensures multiset(a[..]) == old(multiset(a[..]))
  {
    var i := 0;
    while i < a.Length
      invariant 0 <= i <= a.Length
      invariant SortedByURL(a[..i])
      invariant multiset(a[..]) == old(multiset(a[..]))
    {
      InsertDown(a, i);
      i := i + 1;
    }
    assert a[..a.Length] == a[..];
  }

  /** One insertion step: moves a[i] down past every larger URL, extending the sorted prefix by one. */
  method InsertDown(a: array<Arch>, i: nat)
    requires i < a.Length && SortedByURL(a[..i])
    modifies a
    ensures SortedByURL(a[..i + 1])
    ensures multiset(a[..]) == old(multiset(a[..]))
  {
    var j := i;
    while j > 0 && Less(a[j].url, a[j - 1].url)
      invariant 0 <= j <= i
      invariant SortedByURL(a[..j])
      invariant SortedByURL(a[j..i + 1])
      invariant 0 < j < i ==> LessEq(a[j - 1].url, a[j + 1].url)
      invariant multiset(a[..]) == old(multiset(a[..]))
    {
      ghost var before := a[..];
      Swap(a, j - 1, j);
      SwapDown(before, a[..], i, j);
      j := j - 1;
    }
    Joined(a[..], i, j);
  }

  /** Exchanges two elements of the array. */
  method Swap(a: array<Arch>, i: nat, j: nat)
    requires i < j < a.Length
    modifies a
    ensures a[..] == old(a[..])[i := old(a[j])][j := old(a[i])]
    ensures multiset(a[..]) == old(multiset(a[..]))
  {
    a[i], a[j] := a[j], a[i];
  }

  /** Moving the inserted element one place down keeps both sorted runs and the bridge between them. */
  lemma SwapDown(s: seq<Arch>, t: seq<Arch>, i: nat, j: nat)
    requires 0 < j <= i < |s| && Less(s[j].url, s[j - 1].url)
    requires SortedByURL(s[..j]) && SortedByURL(s[j..i + 1])
    requires 0 < j < i ==> LessEq(s[j - 1].url, s[j + 1].url)
    requires t == s[j - 1 := s[j]][j := s[j - 1]]
    ensures SortedByURL(t[..j - 1]) && SortedByURL(t[j - 1..i + 1])
    ensures 0 < j - 1 < i ==> LessEq(t[j - 2].url, t[j].url)
  {
    LessAsymmetric(s[j].url, s[j - 1].url);
    assert t[..j - 1] == s[..j - 1];
    var u, v := t[j - 1..i + 1], s[j..i + 1];
    forall k | 0 < k < |u|
      ensures LessEq(u[k - 1].url, u[k].url)
    {
      if k > 2 {
        assert u[k - 1] == v[k - 2] && u[k] == v[k - 1];
      }
    }
    if 0 < j - 1 {
      assert s[..j][j - 2] == s[j - 2] && s[..j][j - 1] == s[j - 1];
    }
  }

  /** Once the inserted element has stopped, the two sorted runs make one. */
  lemma Joined(s: seq<Arch>, i: nat, j: nat)
    requires j <= i < |s|
    requires SortedByURL(s[..j]) && SortedByURL(s[j..i + 1])
    requires j > 0 ==> LessEq(s[j - 1].url, s[j].url)
    ensures SortedByURL(s[..i + 1])
  {
    var u := s[..i + 1];
    forall k | 0 < k < |u|
      ensures LessEq(u[k - 1].url, u[k].url)
    {
      if k < j {
        assert s[..j][k - 1] == s[k - 1] && s[..j][k] == s[k];
      } else if k > j {
        assert s[j..i + 1][k - 1 - j] == s[k - 1] && s[j..i + 1][k - j] == s[k];
      }
    }
  }

  /** Sorted means every earlier URL is at most every later one. */
  lemma {:induction false} SortedIsOrdered(s: seq<Arch>, i: nat, j: nat)
    requires SortedByURL(s)
    requires i <= j < |s|
    ensures LessEq(s[i].url, s[j].url)
    decreases j - i
  {
    if i == j {
      LessIrreflexive(s[i].url);
    } else {
      SortedIsOrdered(s, i + 1, j);
      LessEqTransitive(s[i].url, s[i + 1].url, s[j].url);
    }
  }

  /**
   * Entries without a URL (checksums whose archive is missing) come first:
   * nothing with a URL precedes one without.
   */
  lemma EmptyURLsFirst(s: seq<Arch>, i: nat, j: nat)
    requires SortedByURL(s)
    requires i < j < |s| && s[j].url == ""
    ensures s[i].url == ""
  {
    SortedIsOrdered(s, i, j);
    EmptyIsLeast(s[i].url);
  }

  /** Two URLs each at most the other are the same URL. */
  lemma LessEqAntisymmetric(a: string, b: string)
    requires LessEq(a, b) && LessEq(b, a)
    ensures a == b
  {
    LessTotal(a, b);
  }

  /** No two different entries share a URL. */
  predicate URLsIdentify(s: seq<Arch>) {
    forall i, j :: 0 <= i < |s| && 0 <= j < |s| && s[i].url == s[j].url ==> s[i] == s[j]
  }

  /**
   * When no two different entries share a URL, sorting leaves no choice: any
   * two sorted arrangements of the same entries are equal.
   */
  lemma {:induction false} SortedUnique(s: seq<Arch>, t: seq<Arch>)
    requires SortedByURL(s) && SortedByURL(t)
    requires multiset(s) == multiset(t)
    requires URLsIdentify(s)
    ensures s == t
    decreases |s|
  {
    assert |s| == |multiset(s)| == |multiset(t)| == |t|;
    if |s| > 0 {
      SmallestFirst(s, t);
      TailsAlike(s, t);
      SortedUnique(s[1..], t[1..]);
      assert s == [s[0]] + s[1..] && t == [t[0]] + t[1..];
    }
  }

  /** Both arrangements start with the entry of the least URL. */
  lemma SmallestFirst(s: seq<Arch>, t: seq<Arch>)
    requires SortedByURL(s) && SortedByURL(t)
    requires multiset(s) == multiset(t) && |s| > 0
    requires URLsIdentify(s)
    ensures |t| > 0 && s[0] == t[0]
  {
    assert s[0] in multiset(t) && t[0] in multiset(s);
    var k :| 0 <= k < |t| && t[k] == s[0];
    var l :| 0 <= l < |s| && s[l] == t[0];
    SortedIsOrdered(t, 0, k);
    SortedIsOrdered(s, 0, l);
    LessEqAntisymmetric(s[0].url, s[l].url);
  }

  /** Taking off the same first entry leaves the same multiset, and sorted tails whose URLs still identify their entries. */
  lemma TailsAlike(s: seq<Arch>, t: seq<Arch>)
    requires SortedByURL(s) && SortedByURL(t)
    requires multiset(s) == multiset(t) && |s| > 0 && |t| > 0 && s[0] == t[0]
    requires URLsIdentify(s)
    ensures multiset(s[1..]) == multiset(t[1..])
    ensures SortedByURL(s[1..]) && SortedByURL(t[1..])
    ensures URLsIdentify(s[1..])
  {
    MultisetTail(s, t);
    SortedTail(s);
    SortedTail(t);
    var u := s[1..];
    assert forall i :: 0 <= i < |u| ==> u[i] == s[i + 1];
  }

  lemma MultisetTail(s: seq<Arch>, t: seq<Arch>)
    requires multiset(s) == multiset(t) && |s| > 0 && |t| > 0 && s[0] == t[0]
    ensures multiset(s[1..]) == multiset(t[1..])
  {
    assert s == [s[0]] + s[1..] && t == [t[0]] + t[1..];
    assert multiset(s) == multiset{s[0]} + multiset(s[1..]);
    assert multiset(t) == multiset{s[0]} + multiset(t[1..]);
    forall x
      ensures multiset(s[1..])[x] == multiset(t[1..])[x]
    {
      assert multiset(s)[x] == multiset{s[0]}[x] + multiset(s[1..])[x];
      assert multiset(t)[x] == multiset{s[0]}[x] + multiset(t[1..])[x];
    }
  }

  lemma SortedTail(s: seq<Arch>)
    requires SortedByURL(s) && |s| > 0
    ensures SortedByURL(s[1..])
  {
    var u := s[1..];
    assert forall i :: 0 <= i < |u| ==> u[i] == s[i + 1];
  }

  /**
   * With equal URLs the order is open: two entries without a URL (checksum
   * files whose archives are missing) are sorted whichever way round they come.
   */
  lemma EqualURLsLeaveOrderOpen(x: Arch, y: Arch)
    requires x.url == y.url && x != y
    ensures SortedByURL([x, y]) && SortedByURL([y, x])
    ensures multiset([x, y]) == multiset([y, x]) && [x, y] != [y, x]
  {
    LessIrreflexive(x.url);
  }
}
