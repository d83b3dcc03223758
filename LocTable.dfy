/** The locomotive table as a sequence of records: lookup by address,
    deletion of one slot, and the order and stability the sort promises. */
module LocTable {
  import opened LocRecord

  /** The index of the first record carrying `address`, or `|s|` when there
      is none. */
  function FindLoc(s: seq<LocLibData>, address: Word): (r: nat)
    ensures r <= |s|
    ensures r < |s| ==> s[r].Addres == address
    ensures forall k :: 0 <= k < r ==> s[k].Addres != address
  {
    if s == [] then 0
    else if s[0].Addres == address then 0
    else 1 + FindLoc(s[1..], address)
  }

  /** `CheckLoc`'s answer: the index of the first match, or the sentinel 255
      when no record carries the address. */
  function LocIndex(s: seq<LocLibData>, address: Word): (r: Byte)
    requires |s| < 255
    ensures r == 255 <==> forall k :: 0 <= k < |s| ==> s[k].Addres != address
    ensures r != 255 ==> r < |s| && s[r].Addres == address
  {
    var i := FindLoc(s, address);
    if i < |s| then i else 255
  }

  /** The first match is the only index that matches with no match before it. */
  lemma {:induction false} FindLocUnique(s: seq<LocLibData>, address: Word, i: nat)
    requires i <= |s|
    requires i < |s| ==> s[i].Addres == address
    requires forall k :: 0 <= k < i ==> s[k].Addres != address
    ensures FindLoc(s, address) == i
  {
    if s != [] && s[0].Addres != address {
      FindLocUnique(s[1..], address, i - 1);
    }
  }

  /** Lookup sees only the addresses: two tables with the same address in
      every slot give the same answer. */
  lemma FindLocAddressesOnly(s: seq<LocLibData>, t: seq<LocLibData>, address: Word)
    requires |s| == |t| && forall k :: 0 <= k < |s| ==> s[k].Addres == t[k].Addres
    ensures FindLoc(s, address) == FindLoc(t, address)
  {
    FindLocUnique(t, address, FindLoc(s, address));
  }

  /** A record appended for an address the table lacks is found where it
      was appended. */
  lemma FindLocAppended(s: seq<LocLibData>, r: LocLibData)
    requires FindLoc(s, r.Addres) == |s|
    ensures FindLoc(s + [r], r.Addres) == |s|
  {
    FindLocUnique(s + [r], r.Addres, |s|);
  }

  /** No address occurs twice in the table. */
  predicate DistinctAddresses(s: seq<LocLibData>)
  {
    forall i, j :: 0 <= i < j < |s| ==> s[i].Addres != s[j].Addres
  }

  /** The table with slot `i` removed and the later slots moved down by one. */
  function Deleted(s: seq<LocLibData>, i: nat): (r: seq<LocLibData>)
    requires i < |s|
    ensures |r| == |s| - 1
    ensures forall k :: 0 <= k < i ==> r[k] == s[k]
    ensures forall k :: i <= k < |r| ==> r[k] == s[k + 1]
  {
    s[..i] + s[i + 1..]
  }

  /** Deleting a slot removes exactly that record from the table's contents. */
  lemma DeletedMultiset(s: seq<LocLibData>, i: nat)
    requires i < |s|
    ensures multiset(Deleted(s, i)) + multiset{s[i]} == multiset(s)
  {
    assert s == s[..i] + [s[i]] + s[i + 1..];
  }

  /** Deleting a slot keeps the addresses distinct. */
  lemma DeletedDistinct(s: seq<LocLibData>, i: nat)
    requires i < |s| && DistinctAddresses(s)
    ensures DistinctAddresses(Deleted(s, i))
  {
  }

  /** Forgetting the tail of a table keeps the addresses distinct. */
  lemma PrefixDistinct(s: seq<LocLibData>, n: nat)
    requires n <= |s| && DistinctAddresses(s)
    ensures DistinctAddresses(s[..n])
  {
  }

  /** Appending a record for an address the table lacks keeps the
      addresses distinct. */
  lemma AppendedDistinct(s: seq<LocLibData>, r: LocLibData)
    requires DistinctAddresses(s) && FindLoc(s, r.Addres) == |s|
    ensures DistinctAddresses(s + [r])
  {
  }

  /** Giving a record a new function assignment keeps the addresses
      distinct. */
  lemma ReassignedDistinct(s: seq<LocLibData>, i: nat, assignment: Assignment)
    requires DistinctAddresses(s) && i < |s|
    ensures DistinctAddresses(s[i := s[i].(FunctionAssignment := assignment)])
  {
  }

  /** Addresses never decrease along the table. */
  predicate SortedByAddress(s: seq<LocLibData>)
  {
    forall i, j :: 0 <= i < j < |s| ==> s[i].Addres <= s[j].Addres
  }

  /** The records of `s` that carry `address`, in table order. The sort is
      stable exactly when it keeps this sequence for every address. */
  function WithAddress(s: seq<LocLibData>, address: Word): (r: seq<LocLibData>)
    ensures |r| <= |s|
    ensures forall k :: 0 <= k < |r| ==> r[k].Addres == address
  {
    if s == [] then []
    else if s[0].Addres == address then [s[0]] + WithAddress(s[1..], address)
    else WithAddress(s[1..], address)
  }

  lemma {:induction false} WithAddressAppend(s: seq<LocLibData>, t: seq<LocLibData>, address: Word)
    ensures WithAddress(s + t, address) == WithAddress(s, address) + WithAddress(t, address)
  {
    if s != [] {
      assert (s + t)[1..] == s[1..] + t;
      WithAddressAppend(s[1..], t, address);
    } else {
      assert s + t == t;
    }
  }

  /** The table with the adjacent slots `j` and `j + 1` exchanged. */
  function Swapped(s: seq<LocLibData>, j: nat): (r: seq<LocLibData>)
    requires j + 1 < |s|
    ensures |r| == |s| && r[j] == s[j + 1] && r[j + 1] == s[j]
    ensures forall k :: 0 <= k < |s| && k != j && k != j + 1 ==> r[k] == s[k]
    ensures multiset(r) == multiset(s)
  {
    s[j := s[j + 1]][j + 1 := s[j]]
  }

  /** Exchanging two neighbours with different addresses keeps the order of
      the records of every address. */
  lemma SwappedWithAddress(s: seq<LocLibData>, j: nat, address: Word)
    requires j + 1 < |s| && s[j].Addres != s[j + 1].Addres
    ensures WithAddress(Swapped(s, j), address) == WithAddress(s, address)
  {
    var pre, x, y, post := s[..j], s[j], s[j + 1], s[j + 2..];
    assert s == pre + ([x, y] + post);
    assert Swapped(s, j) == pre + ([y, x] + post);
    WithAddressAppend(pre, [x, y] + post, address);
    WithAddressAppend(pre, [y, x] + post, address);
    WithAddressAppend([x, y], post, address);
    WithAddressAppend([y, x], post, address);
    assert [x, y][1..] == [y] && [y, x][1..] == [x];
  }
}
