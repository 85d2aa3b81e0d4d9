/**
 * `SimpleGenomeAssemblyStrategy`: the reads still to be assembled, kept in
 * a list that `init` sorts by non-increasing length and that `readUsed`
 * shrinks. The list is the caller's own object, so it is a class whose
 * contents the strategy changes in place.
 */
module GenomeAssembly {
  import opened JavaLang

  /** `GenomeRead`: a container for one read. It does not override `equals`, so two reads are equal only when they are the same object. */
  class GenomeRead {
    const read: seq<char>

    constructor (read: seq<char>)
      ensures this.read == read
    {
      this.read := read;
    }
  }

  /** A `List<GenomeRead>` object, shared by whoever holds a reference to it. */
  class ReadList {
    var elems: seq<GenomeRead>

    constructor (elems: seq<GenomeRead>)
      ensures this.elems == elems
    {
      this.elems := elems;
    }
  }

  /** `getRead().size()`. */
  function Length(r: GenomeRead): nat {
    |r.read|
  }

  /** The comparator `init` sorts with: longer reads first, reads of equal length tied. */
  function Compare(o1: GenomeRead, o2: GenomeRead): (c: int)
    ensures c < 0 <==> Length(o1) > Length(o2)
    ensures c == 0 <==> Length(o1) == Length(o2)
    ensures c > 0 <==> Length(o1) < Length(o2)
  {
    if Length(o1) > Length(o2) then -1
    else if Length(o1) == Length(o2) then 0
    else 1
  }

  /** The comparator obeys the contract `Collections.sort` relies on: the sign flips with the arguments, and order and ties are transitive. */
  lemma CompareIsComparator(x: GenomeRead, y: GenomeRead, z: GenomeRead)
    ensures Compare(x, y) == -Compare(y, x)
    ensures Compare(x, y) > 0 && Compare(y, z) > 0 ==> Compare(x, z) > 0
    ensures Compare(x, y) == 0 ==> Compare(x, z) == Compare(y, z)
  {
  }

  /** Ordered by the comparator: no read is followed by a longer one. */
  ghost predicate Sorted(s: seq<GenomeRead>) {
    forall i, j :: 0 <= i < j < |s| ==> Length(s[i]) >= Length(s[j])
  }

  /** No read of s is longer than n. */
  ghost predicate AtMost(s: seq<GenomeRead>, n: nat) {
    forall y :: y in s ==> Length(y) <= n
  }

  /** A list headed by h is sorted when its tail is and nothing in the tail is longer than h. */
  lemma SortedCons(h: GenomeRead, s: seq<GenomeRead>)
    ensures Sorted([h] + s) <==> Sorted(s) && AtMost(s, Length(h))
  {
    var r := [h] + s;
    if Sorted(s) && AtMost(s, Length(h)) {
      forall i, j | 0 <= i < j < |r| ensures Length(r[i]) >= Length(r[j]) {
        assert r[j] == s[j - 1] && r[j] in s;
        if i > 0 {
          assert r[i] == s[i - 1];
        }
      }
    }
    if Sorted(r) {
      forall y | y in s ensures Length(y) <= Length(h) {
        var j :| 0 <= j < |s| && s[j] == y;
        assert r[0] == h && r[j + 1] == y;
        assert Length(r[0]) >= Length(r[j + 1]);
      }
      forall i, j | 0 <= i < j < |s| ensures Length(s[i]) >= Length(s[j]) {
        assert r[i + 1] == s[i] && r[j + 1] == s[j];
      }
    }
  }

  /** The reads of s that have length n, in their order in s. */
  function OfLength(s: seq<GenomeRead>, n: nat): seq<GenomeRead>
    decreases |s|
  {
    if |s| == 0 then []
    else (if Length(s[0]) == n then [s[0]] else []) + OfLength(s[1..], n)
  }

  /** Insert x into t before the first read that does not sort strictly before it. */
  function Insert(x: GenomeRead, t: seq<GenomeRead>): seq<GenomeRead>
    decreases |t|
  {
    if |t| == 0 || Compare(t[0], x) >= 0 then [x] + t
    else [t[0]] + Insert(x, t[1..])
  }

  /**
   * What `Collections.sort(reads, comparator)` leaves in the list: a stable
   * sort by the comparator, written as an insertion sort.
   */
  function SortByLength(s: seq<GenomeRead>): seq<GenomeRead>
    decreases |s|
  {
    if |s| == 0 then [] else Insert(s[0], SortByLength(s[1..]))
  }

  lemma {:induction false} InsertPermutes(x: GenomeRead, t: seq<GenomeRead>)
    ensures multiset(Insert(x, t)) == multiset(t) + multiset{x}
    decreases |t|
  {
    if |t| > 0 && Compare(t[0], x) < 0 {
      InsertPermutes(x, t[1..]);
      assert t == [t[0]] + t[1..];
    }
  }

  lemma {:induction false} InsertAtMost(x: GenomeRead, t: seq<GenomeRead>, n: nat)
    requires AtMost(t, n) && Length(x) <= n
    ensures AtMost(Insert(x, t), n)
  {
    InsertPermutes(x, t);
    forall y | y in Insert(x, t) ensures Length(y) <= n {
      assert y in multiset(Insert(x, t));
    }
  }

  lemma {:induction false} InsertSorted(x: GenomeRead, t: seq<GenomeRead>)
    requires Sorted(t)
    ensures Sorted(Insert(x, t))
    decreases |t|
  {
    if |t| > 0 {
      assert t == [t[0]] + t[1..];
      SortedCons(t[0], t[1..]);
      if Compare(t[0], x) >= 0 {
        forall y | y in t ensures Length(y) <= Length(x) {
          if y != t[0] {
            assert y in t[1..];
          }
        }
        SortedCons(x, t);
      } else {
        InsertSorted(x, t[1..]);
        InsertAtMost(x, t[1..], Length(t[0]));
        SortedCons(t[0], Insert(x, t[1..]));
      }
    }
  }

  lemma {:induction false} InsertOfLength(x: GenomeRead, t: seq<GenomeRead>, n: nat)
    ensures OfLength(Insert(x, t), n) == (if Length(x) == n then [x] else []) + OfLength(t, n)
    decreases |t|
  {
    if |t| == 0 || Compare(t[0], x) >= 0 {
      assert ([x] + t)[1..] == t;
    } else {
      InsertOfLength(x, t[1..], n);
      assert ([t[0]] + Insert(x, t[1..]))[1..] == Insert(x, t[1..]);
    }
  }

  /** `Collections.sort` is a permutation that orders the reads by the comparator. */
  lemma {:induction false} SortByLengthSortedPermutation(s: seq<GenomeRead>)
    ensures Sorted(SortByLength(s))
    ensures multiset(SortByLength(s)) == multiset(s)
    decreases |s|
  {
    if |s| > 0 {
      SortByLengthSortedPermutation(s[1..]);
      InsertSorted(s[0], SortByLength(s[1..]));
      InsertPermutes(s[0], SortByLength(s[1..]));
      assert s == [s[0]] + s[1..];
    }
  }

  /** The sort is stable: the reads of any one length keep their relative order. */
  lemma {:induction false} SortByLengthStable(s: seq<GenomeRead>, n: nat)
    ensures OfLength(SortByLength(s), n) == OfLength(s, n)
    decreases |s|
  {
    if |s| > 0 {
      SortByLengthStable(s[1..], n);
      InsertOfLength(s[0], SortByLength(s[1..]), n);
    }
  }

  lemma {:induction false} OfLengthMembers(s: seq<GenomeRead>, n: nat)
    ensures forall y :: y in OfLength(s, n) <==> y in s && Length(y) == n
    decreases |s|
  {
    if |s| > 0 {
      OfLengthMembers(s[1..], n);
      assert s == [s[0]] + s[1..];
    }
  }

  lemma OfLengthCons(h: GenomeRead, s: seq<GenomeRead>, n: nat)
    ensures OfLength([h] + s, n) == (if Length(h) == n then [h] else []) + OfLength(s, n)
  {
    assert ([h] + s)[1..] == s;
  }

  /** The head of a sorted list is one of its longest reads. */
  lemma HeadLongest(s: seq<GenomeRead>)
    requires Sorted(s) && |s| > 0
    ensures forall y :: y in s ==> Length(y) <= Length(s[0])
  {
    assert s == [s[0]] + s[1..];
    SortedCons(s[0], s[1..]);
  }

  /** Two sorted lists whose reads of each length come in the same order are the same list. */
  lemma {:induction false} SortedUnique(t: seq<GenomeRead>, u: seq<GenomeRead>)
    requires Sorted(t) && Sorted(u)
    requires forall n: nat :: OfLength(t, n) == OfLength(u, n)
    ensures t == u
    decreases |t|
  {
    if |t| == 0 || |u| == 0 {
      if |u| > 0 {
        assert u == [u[0]] + u[1..];
        OfLengthCons(u[0], u[1..], Length(u[0]));
      } else if |t| > 0 {
        assert t == [t[0]] + t[1..];
        OfLengthCons(t[0], t[1..], Length(t[0]));
      }
    } else {
      var t0, t', u0, u' := t[0], t[1..], u[0], u[1..];
      var L, M := Length(t0), Length(u0);
      assert t == [t0] + t' && u == [u0] + u';
      HeadLongest(t);
      HeadLongest(u);
      OfLengthMembers(t, L);
      OfLengthMembers(u, L);
      OfLengthMembers(t, M);
      OfLengthMembers(u, M);
      OfLengthCons(t0, t', L);
      OfLengthCons(u0, u', M);
      assert t0 in OfLength(t, L);
      assert u0 in OfLength(u, M);
      assert L == M;
      OfLengthCons(u0, u', L);
      assert t0 == u0 by {
        assert OfLength(t, L)[0] == OfLength(u, L)[0];
      }
      forall n: nat ensures OfLength(t', n) == OfLength(u', n) {
        var h := if L == n then [t0] else [];
        OfLengthCons(t0, t', n);
        OfLengthCons(u0, u', n);
        assert h + OfLength(t', n) == h + OfLength(u', n);
        assert (h + OfLength(t', n))[|h|..] == OfLength(t', n);
        assert (h + OfLength(u', n))[|h|..] == OfLength(u', n);
      }
      assert Sorted(t') && Sorted(u') by {
        SortedCons(t0, t');
        SortedCons(u0, u');
      }
      SortedUnique(t', u');
    }
  }

  /** The insertion sort is the only stable sort by length: any sorted list with the same reads of each length, in the same order, is it. */
  lemma SortByLengthUnique(s: seq<GenomeRead>, t: seq<GenomeRead>)
    requires Sorted(t) && forall n: nat :: OfLength(t, n) == OfLength(s, n)
    ensures t == SortByLength(s)
  {
    SortByLengthSortedPermutation(s);
    forall n: nat ensures OfLength(t, n) == OfLength(SortByLength(s), n) {
      SortByLengthStable(s, n);
    }
    SortedUnique(t, SortByLength(s));
  }

  /** `list.remove(read)`: drop the first element that is `read` itself; a list without it is left as it is. */
  function RemoveFirst(s: seq<GenomeRead>, read: GenomeRead?): seq<GenomeRead>
    decreases |s|
  {
    if |s| == 0 then []
    else if s[0] == read then s[1..]
    else [s[0]] + RemoveFirst(s[1..], read)
  }

  /** A list that does not hold `read` is left as it is. */
  lemma {:induction false} RemoveFirstAbsent(s: seq<GenomeRead>, read: GenomeRead?)
    requires read !in s
    ensures RemoveFirst(s, read) == s
    decreases |s|
  {
    if |s| > 0 {
      assert s == [s[0]] + s[1..];
      RemoveFirstAbsent(s[1..], read);
    }
  }

  /** When `read` first occurs at index i, exactly that element goes and the rest keep their order. */
  lemma {:induction false} RemoveFirstAt(s: seq<GenomeRead>, read: GenomeRead?, i: nat)
    requires i < |s| && s[i] == read && read !in s[..i]
    ensures RemoveFirst(s, read) == s[..i] + s[i + 1..]
    decreases i
  {
    if i == 0 {
      assert s[..0] == [];
    } else {
      assert s[0] in s[..i];
      assert s[1..][..i - 1] == s[1..i];
      RemoveFirstAt(s[1..], read, i - 1);
      assert s[..i] == [s[0]] + s[1..i];
      assert s[1..][i..] == s[i + 1..];
    }
  }

  /** `remove` takes one copy of a non-null `read` out of the list, if there is one. */
  lemma {:induction false} RemoveFirstPermutes(s: seq<GenomeRead>, read: GenomeRead?)
    requires read != null
    ensures multiset(RemoveFirst(s, read)) == multiset(s) - multiset{read}
    decreases |s|
  {
    if |s| > 0 {
      assert s == [s[0]] + s[1..];
      if s[0] != read {
        RemoveFirstPermutes(s[1..], read);
      }
    }
  }

  /** Removing a read keeps the list sorted. */
  lemma {:induction false} RemoveFirstSorted(s: seq<GenomeRead>, read: GenomeRead?)
    requires Sorted(s)
    ensures Sorted(RemoveFirst(s, read))
    decreases |s|
  {
    if |s| > 0 {
      assert s == [s[0]] + s[1..];
      SortedCons(s[0], s[1..]);
      if s[0] != read {
        RemoveFirstSorted(s[1..], read);
        RemoveFirstSubset(s[1..], read);
        SortedCons(s[0], RemoveFirst(s[1..], read));
      }
    }
  }

  lemma {:induction false} RemoveFirstSubset(s: seq<GenomeRead>, read: GenomeRead?)
    ensures forall y :: y in RemoveFirst(s, read) ==> y in s
    decreases |s|
  {
    if |s| > 0 && s[0] != read {
      RemoveFirstSubset(s[1..], read);
    }
  }

  /** `SimpleGenomeAssemblyStrategy`; `readList` is the Java field `reads` (`reads` is a Dafny keyword). */
  class SimpleGenomeAssemblyStrategy {
    var readList: ReadList?

    /** The implicit constructor: no list yet. */
    constructor ()
      ensures readList == null
    {
      readList := null;
    }

    /** `init`: keep the caller's list and sort it in place; sorting a null list throws. */
    method Init(list: ReadList?) returns (r: Result<()>)
      modifies this, list
      ensures readList == list
      ensures list == null ==> r == Failure(NullPointer)
      ensures list != null ==> r == Success(()) && list.elems == SortByLength(old(list.elems))
      ensures list != null ==> Sorted(list.elems) && multiset(list.elems) == multiset(old(list.elems))
      ensures list != null ==> forall n: nat :: OfLength(list.elems, n) == OfLength(old(list.elems), n)
    {
      readList := list;
      if list == null {
        return Failure(NullPointer);
      }
      SortByLengthSortedPermutation(list.elems);
      forall n: nat ensures OfLength(SortByLength(list.elems), n) == OfLength(list.elems, n) {
        SortByLengthStable(list.elems, n);
      }
      list.elems := SortByLength(list.elems);
      r := Success(());
    }

    /** `getFirstRead`: `reads.get(0)`. */
    function GetFirstRead(): (r: Result<GenomeRead>)
      reads this, readList
      ensures readList == null ==> r == Failure(NullPointer)
      ensures readList != null ==> (r.Success? <==> |readList.elems| > 0)
      ensures readList != null && |readList.elems| == 0 ==> r == Failure(IndexOutOfBounds)
      ensures r.Failure? ==> r.error == NullPointer || r.error == IndexOutOfBounds
      ensures r.Success? ==> r.value == readList.elems[0]
      ensures r.Success? && Sorted(readList.elems) ==> forall x :: x in readList.elems ==> Length(x) <= Length(r.value)
    {
      if readList == null then Failure(NullPointer)
      else if |readList.elems| == 0 then Failure(IndexOutOfBounds)
      else Success(readList.elems[0])
    }

    /** `getRemainingReads`: the list object itself, not a copy. */
    function GetRemainingReads(): (r: ReadList?)
      reads this
      ensures r == readList
    {
      readList
    }

    /** `hasMoreReads`: the list is not empty. */
    function HasMoreReads(): (r: Result<bool>)
      reads this, readList
      ensures readList == null <==> r == Failure(NullPointer)
      ensures readList != null ==> r.Success?
      ensures r.Success? ==> (r.value <==> |readList.elems| > 0)
    {
      if readList == null then Failure(NullPointer) else Success(|readList.elems| != 0)
    }

    /** `readUsed`: remove the read from the list in place. */
    method ReadUsed(read: GenomeRead?) returns (r: Result<()>)
      modifies readList
      ensures readList == null <==> r == Failure(NullPointer)
      ensures readList != null ==> r == Success(())
      ensures readList != null ==> readList.elems == RemoveFirst(old(readList.elems), read)
      ensures readList != null && Sorted(old(readList.elems)) ==> Sorted(readList.elems)
    {
      if readList == null {
        return Failure(NullPointer);
      }
      if Sorted(readList.elems) {
        RemoveFirstSorted(readList.elems, read);
      }
      readList.elems := RemoveFirst(readList.elems, read);
      r := Success(());
    }
  }
}
