/**
 * Scan candidates (`Pem`: an address with the bytes read there and the scan
 * type it was found under) and `MemList::sortByAddress`.
 */
module MemList {
  import opened ByteBlocks

  /** One located candidate value. */
  datatype Pem = Pem(address: Address, data: seq<byte>, scanType: string)

  /** The set of addresses a candidate list reports. */
  function AddressesOf(s: seq<Pem>): set<Address> {
    set i | 0 <= i < |s| :: s[i].address
  }

  lemma AddressesOfConcat(a: seq<Pem>, b: seq<Pem>)
    ensures AddressesOf(a + b) == AddressesOf(a) + AddressesOf(b)
  {
    var ab := a + b;
    forall x | x in AddressesOf(ab)
      ensures x in AddressesOf(a) + AddressesOf(b)
    {
      var i :| 0 <= i < |ab| && ab[i].address == x;
      if i >= |a| {
        assert b[i - |a|] == ab[i];
      }
    }
    forall x | x in AddressesOf(a) + AddressesOf(b)
      ensures x in AddressesOf(ab)
    {
      if x in AddressesOf(a) {
        var i :| 0 <= i < |a| && a[i].address == x;
        assert ab[i] == a[i];
      } else {
        var i :| 0 <= i < |b| && b[i].address == x;
        assert ab[|a| + i] == b[i];
      }
    }
  }

  /** The empty list reports nothing, and a one-element list reports its address. */
  lemma AddressesOfSmall(p: Pem)
    ensures AddressesOf([]) == {}
    ensures AddressesOf([p]) == {p.address}
  {
    assert [p][0] == p;
  }

  /** Lists holding the same candidates report the same addresses. */
  lemma AddressesOfPermutation(a: seq<Pem>, b: seq<Pem>)
    requires multiset(a) == multiset(b)
    ensures AddressesOf(a) == AddressesOf(b)
  {
    forall x | x in AddressesOf(a)
      ensures x in AddressesOf(b)
    {
      var i :| 0 <= i < |a| && a[i].address == x;
      assert a[i] in multiset(b);
      var j :| 0 <= j < |b| && b[j] == a[i];
    }
    forall x | x in AddressesOf(b)
      ensures x in AddressesOf(a)
    {
      var j :| 0 <= j < |b| && b[j].address == x;
      assert b[j] in multiset(a);
      var i :| 0 <= i < |a| && a[i] == b[j];
    }
  }

  /** Joining two lists without repeats whose addresses do not meet gives a list without repeats. */
  lemma DistinctConcat(a: seq<Pem>, b: seq<Pem>)
    requires DistinctAddresses(a) && DistinctAddresses(b)
    requires AddressesOf(a) !! AddressesOf(b)
    ensures DistinctAddresses(a + b)
  {
    var ab := a + b;
    forall i, j | 0 <= i < |ab| && 0 <= j < |ab| && i != j
      ensures ab[i].address != ab[j].address
    {
      if i < |a| && j >= |a| {
        assert ab[i].address in AddressesOf(a);
        assert ab[j] == b[j - |a|];
        assert ab[j].address in AddressesOf(b);
      } else if i >= |a| && j < |a| {
        assert ab[j].address in AddressesOf(a);
        assert ab[i] == b[i - |a|];
        assert ab[i].address in AddressesOf(b);
      } else if i >= |a| {
        assert ab[i] == b[i - |a|] && ab[j] == b[j - |a|];
      }
    }
  }

  predicate SortedByAddress(s: seq<Pem>) {
    forall i, j :: 0 <= i < j < |s| ==> s[i].address <= s[j].address
  }

  predicate StrictlyIncreasing(s: seq<Pem>) {
    forall i, j :: 0 <= i < j < |s| ==> s[i].address < s[j].address
  }

  /** No address is reported twice. */
  predicate DistinctAddresses(s: seq<Pem>) {
    forall i, j :: 0 <= i < |s| && 0 <= j < |s| && i != j ==> s[i].address != s[j].address
  }

  /** Inserts `p` before the first element whose address is not smaller. */
  function Insert(p: Pem, s: seq<Pem>): (r: seq<Pem>)
    requires SortedByAddress(s)
    ensures SortedByAddress(r)
    ensures multiset(r) == multiset(s) + multiset{p}
    ensures |r| > 0 && (r[0] == p || (|s| > 0 && r[0] == s[0]))
  {
    if |s| == 0 then [p]
    else if p.address <= s[0].address then
      SortedCons(p, s);
      [p] + s
    else
      var rest := Insert(p, s[1..]);
      assert s == [s[0]] + s[1..];
      SortedCons(s[0], rest);
      [s[0]] + rest
  }

  /** Putting an element no larger than the head in front of a sorted list keeps it sorted. */
  lemma SortedCons(x: Pem, t: seq<Pem>)
    requires SortedByAddress(t)
    requires |t| > 0 ==> x.address <= t[0].address
    ensures SortedByAddress([x] + t)
  {
    var xt := [x] + t;
    forall i, j | 0 <= i < j < |xt|
      ensures xt[i].address <= xt[j].address
    {
      if i == 0 {
        assert xt[j] == t[j - 1];
      } else {
        assert xt[i] == t[i - 1] && xt[j] == t[j - 1];
      }
    }
  }

  /** `MemList::sortByAddress`: the same candidates, ascending by address. */
  function SortByAddress(s: seq<Pem>): (r: seq<Pem>)
    ensures SortedByAddress(r)
    ensures multiset(r) == multiset(s)
    ensures |r| == |s|
  {
    if |s| == 0 then []
    else
      assert s == [s[0]] + s[1..];
      Insert(s[0], SortByAddress(s[1..]))
  }

  /** Inserting an address not yet present into a strictly increasing list keeps it strictly increasing. */
  lemma {:induction false} InsertStrict(p: Pem, s: seq<Pem>)
    requires StrictlyIncreasing(s)
    requires forall k :: 0 <= k < |s| ==> s[k].address != p.address
    ensures StrictlyIncreasing(Insert(p, s))
    decreases |s|
  {
    if |s| > 0 && p.address > s[0].address {
      InsertStrict(p, s[1..]);
      var rest := Insert(p, s[1..]);
      assert s[0].address < rest[0].address;
    }
  }

  /** Dropping the head of a list without repeats leaves a list without repeats. */
  lemma DistinctTail(s: seq<Pem>)
    requires |s| > 0 && DistinctAddresses(s)
    ensures DistinctAddresses(s[1..])
    ensures forall k :: 0 <= k < |s| - 1 ==> s[1..][k].address != s[0].address
  {
    var t := s[1..];
    forall i, j | 0 <= i < |t| && 0 <= j < |t| && i != j
      ensures t[i].address != t[j].address
    {
      assert t[i] == s[i + 1] && t[j] == s[j + 1];
    }
    forall k | 0 <= k < |t|
      ensures t[k].address != s[0].address
    {
      assert t[k] == s[k + 1];
    }
  }

  /** An address absent from a list is absent from any rearrangement of it. */
  lemma AbsentFromPermutation(a: Address, t: seq<Pem>, u: seq<Pem>)
    requires multiset(t) == multiset(u)
    requires forall k :: 0 <= k < |t| ==> t[k].address != a
    ensures forall k :: 0 <= k < |u| ==> u[k].address != a
  {
    forall k | 0 <= k < |u|
      ensures u[k].address != a
    {
      assert u[k] in multiset(t);
      var m :| 0 <= m < |t| && t[m] == u[k];
    }
  }

  /** Sorting a list in which no address repeats yields a strictly increasing list. */
  lemma {:induction false} SortStrict(s: seq<Pem>)
    requires DistinctAddresses(s)
    ensures StrictlyIncreasing(SortByAddress(s))
    decreases |s|
  {
    if |s| > 0 {
      var t := s[1..];
      DistinctTail(s);
      SortStrict(t);
      var st := SortByAddress(t);
      AbsentFromPermutation(s[0].address, t, st);
      InsertStrict(s[0], st);
    }
  }

  /** Sorting a list that is already in address order changes nothing. */
  lemma {:induction false} SortIdempotent(s: seq<Pem>)
    requires SortedByAddress(s)
    ensures SortByAddress(s) == s
  {
    if |s| > 0 {
      SortIdempotent(s[1..]);
      assert s == [s[0]] + s[1..];
    }
  }

  /** Removing the same first element from two equal multisets leaves equal multisets. */
  lemma TailsSameElements(x: seq<Pem>, y: seq<Pem>)
    requires |x| > 0 && |y| > 0 && x[0] == y[0]
    requires multiset(x) == multiset(y)
    ensures multiset(x[1..]) == multiset(y[1..])
  {
    assert x == [x[0]] + x[1..];
    assert y == [y[0]] + y[1..];
    assert multiset(x[1..]) == multiset(x) - multiset{x[0]};
    assert multiset(y[1..]) == multiset(y) - multiset{y[0]};
  }

  /** A strictly increasing list and a sorted list with the same elements start with the same element. */
  lemma HeadsEqual(x: seq<Pem>, y: seq<Pem>)
    requires StrictlyIncreasing(x) && SortedByAddress(y)
    requires |x| > 0 && multiset(x) == multiset(y)
    ensures |y| > 0 && x[0] == y[0]
  {
    assert x[0] in multiset(y);
    var k :| 0 <= k < |y| && y[k] == x[0];
    assert y[0] in multiset(x);
    var k' :| 0 <= k' < |x| && x[k'] == y[0];
    assert x[k'].address <= x[0].address;
    assert k' == 0;
  }

  /** A strictly increasing list and a sorted list with the same elements are equal. */
  lemma {:induction false} SortedUnique(x: seq<Pem>, y: seq<Pem>)
    requires StrictlyIncreasing(x) && SortedByAddress(y)
    requires multiset(x) == multiset(y)
    ensures x == y
    decreases |x|
  {
    assert |x| == |multiset(x)| == |multiset(y)| == |y|;
    if |x| > 0 {
      HeadsEqual(x, y);
      TailsSameElements(x, y);
      SortedUnique(x[1..], y[1..]);
      assert x == [x[0]] + x[1..];
      assert y == [y[0]] + y[1..];
    }
  }

  /**
   * When no address repeats, the sorted result depends only on which
   * candidates were found, not on the order they were appended in.
   */
  lemma SortCanonical(a: seq<Pem>, b: seq<Pem>)
    requires multiset(a) == multiset(b)
    requires DistinctAddresses(a)
    ensures SortByAddress(a) == SortByAddress(b)
  {
    SortStrict(a);
    SortedUnique(SortByAddress(a), SortByAddress(b));
  }
}
