/**
 * MasterData: the reference list of university names. buildList fills it with
 * the normalised name of every record of the master payload and sorts it by
 * compareToIgnoreCase; compareName normalises a candidate name and looks it up
 * with a binary search in natural (compareTo) order.
 */
module Master {
  import opened Wrappers
  import opened JavaString
  import opened NameNormalizer

  /** One record of the master payload: a JSON object with a "name" key. */
  datatype University = University(name: string)

  /** The normalised names of the records, one per record, in payload order. */
  function NormalizeAll(records: seq<University>): (names: seq<string>)
    ensures |names| == |records|
  {
    seq(|records|, i requires 0 <= i < |records| => Normalize(records[i].name))
  }

  /** Every normalised name is canonical. */
  lemma NormalizeAllCanonical(records: seq<University>)
    ensures forall i :: 0 <= i < |records| ==> IsCanonical(NormalizeAll(records)[i])
  {
    forall i | 0 <= i < |records| ensures IsCanonical(NormalizeAll(records)[i]) {
      NormalizeIsCanonical(records[i].name);
    }
  }

  /**
   * A record whose name normalises to the empty string (one made only of
   * spaces and punctuation) puts the empty key into the list, so a search for
   * the empty key succeeds: searchData treats it like any other key.
   */
  lemma BlankRecordListsEmptyKey(records: seq<University>, i: nat)
    requires i < |records|
    requires forall k :: 0 <= k < |records[i].name| ==> records[i].name[k] == ' ' || !Allowed(records[i].name[k])
    ensures "" in NormalizeAll(records)
  {
    BlankNormalizesToEmpty(records[i].name);
    assert NormalizeAll(records)[i] == "";
  }

  /** Ascending by compareToIgnoreCase, the order List.sort(String::compareToIgnoreCase) produces. */
  predicate SortedIgnoreCase(s: seq<string>) {
    SortedPrefix(s, |s|)
  }

  /** Ascending by compareTo, the order Collections.binarySearch requires. */
  predicate SortedNatural(s: seq<string>) {
    forall i, j :: 0 <= i < j < |s| ==> CompareTo(s[i], s[j]) <= 0
  }

  /**
   * A list of normalised names sorted ignoring case is also sorted in natural
   * order, so binarySearch may be used on it.
   */
  lemma CanonicalSortedIsNaturallySorted(s: seq<string>)
    requires forall i :: 0 <= i < |s| ==> IsCanonical(s[i])
    requires SortedIgnoreCase(s)
    ensures SortedNatural(s)
  {
    forall i, j | 0 <= i < j < |s| ensures CompareTo(s[i], s[j]) <= 0 {
      IgnoreCaseIsNaturalWithoutUpper(s[i], s[j]);
    }
  }

  /**
   * Collections.binarySearch(list, key) >= 0, over a list sorted in natural
   * order: the same probes (low, high inclusive, mid rounded down), and true
   * exactly when the key is an element of the list.
   */
  method BinarySearch(a: array<string>, key: string) returns (found: bool)
    requires SortedNatural(a[..])
    ensures found <==> key in a[..]
  {
    var low, high := 0, a.Length - 1;
    while low <= high
      invariant 0 <= low <= high + 1 <= a.Length
      invariant forall k :: 0 <= k < low ==> CompareTo(a[k], key) < 0
      invariant forall k :: high < k < a.Length ==> CompareTo(a[k], key) > 0
    {
      var mid := (low + high) / 2;
      var cmp := CompareTo(a[mid], key);
      if cmp < 0 {
        forall k | 0 <= k <= mid ensures CompareTo(a[k], key) < 0 {
          CompareToTransitive(a[k], a[mid], key);
        }
        low := mid + 1;
      } else if cmp > 0 {
        forall k | mid <= k < a.Length ensures CompareTo(a[k], key) > 0 {
          CompareToAntisymmetric(a[mid], key);
          CompareToTransitive(key, a[mid], a[k]);
          CompareToAntisymmetric(key, a[k]);
        }
        high := mid - 1;
      } else {
        CompareToZeroIff(a[mid], key);
        return true;
      }
    }
    forall k | 0 <= k < a.Length ensures a[k] != key {
      CompareToZeroIff(a[k], key);
    }
    return false;
  }

  /** The first n names are in compareToIgnoreCase order; the whole list is sorted when n is its length. */
  predicate SortedPrefix(s: seq<string>, n: nat)
    requires n <= |s|
  {
    forall k, l :: 0 <= k < l < n ==> CompareToIgnoreCase(s[k], s[l]) <= 0
  }

  /**
   * Insertion of s[j] into the sorted prefix s[..i + 1] is under way: leaving
   * out position j, that prefix is sorted, and s[j] is at most every name
   * after it.
   */
  predicate Inserting(s: seq<string>, i: nat, j: nat)
  {
    && j <= i < |s|
    && (forall k, l :: 0 <= k < l <= i && k != j && l != j ==> CompareToIgnoreCase(s[k], s[l]) <= 0)
    && (forall l :: j < l <= i ==> CompareToIgnoreCase(s[j], s[l]) <= 0)
  }

  lemma InsertionStart(s: seq<string>, i: nat)
    requires i < |s| && SortedPrefix(s, i)
    ensures Inserting(s, i, i)
  {
  }

  /** Swapping s[j] with a larger left neighbour moves the insertion one place left. */
  lemma InsertionStep(s: seq<string>, i: nat, j: nat)
    requires Inserting(s, i, j) && 0 < j
    requires CompareToIgnoreCase(s[j - 1], s[j]) > 0
    ensures Inserting(s[j - 1 := s[j]][j := s[j - 1]], i, j - 1)
    ensures multiset(s[j - 1 := s[j]][j := s[j - 1]]) == multiset(s)
  {
    IgnoreCaseAntisymmetric(s[j - 1], s[j]);
  }

  /** Once s[j] is not smaller than its left neighbour, the prefix s[..i + 1] is sorted. */
  lemma InsertionDone(s: seq<string>, i: nat, j: nat)
    requires Inserting(s, i, j)
    requires j == 0 || CompareToIgnoreCase(s[j - 1], s[j]) <= 0
    ensures SortedPrefix(s, i + 1)
  {
    forall k | 0 <= k < j - 1 ensures CompareToIgnoreCase(s[k], s[j]) <= 0 {
      IgnoreCaseTransitive(s[k], s[j - 1], s[j]);
    }
  }

  /** Two lists holding the same multiset of entries have the same members. */
  lemma SameMultisetSameMembers(a: seq<string>, b: seq<string>)
    requires multiset(a) == multiset(b)
    ensures forall x :: x in a <==> x in b
  {
    forall x ensures x in a <==> x in b {
      assert x in a <==> x in multiset(a);
      assert x in b <==> x in multiset(b);
    }
  }

  class MasterData {
    /** The sorted list of normalised master names; null until buildList has run. */
    var universities: array?<string>

    /** Once built, the list holds normalised names sorted by compareToIgnoreCase. */
    ghost predicate Valid()
      reads this, universities
    {
      universities != null ==>
        && (forall i :: 0 <= i < universities.Length ==> IsCanonical(universities[i]))
        && SortedIgnoreCase(universities[..])
    }

    constructor ()
      ensures Valid() && universities == null
    {
      universities := null;
    }

    /**
     * buildList: the names of the parsed payload, normalised and sorted. A
     * payload that failed to parse (None) leaves no list, as the null that
     * putIntoList returns does.
     */
    method BuildList(payload: Option<seq<University>>)
      modifies this
      ensures Valid()
      ensures universities != null <==> payload.Some?
      ensures payload.Some? ==> fresh(universities)
      ensures payload.Some? ==> multiset(universities[..]) == multiset(NormalizeAll(payload.value))
    {
      if payload.None? {
        universities := null;
        return;
      }
      var list := PutIntoList(payload.value);
      ghost var unsorted := list[..];
      NormalizeAllCanonical(payload.value);
      SortList(list);
      forall i | 0 <= i < list.Length ensures IsCanonical(list[i]) {
        assert list[i] in multiset(list[..]);
        assert list[i] in unsorted;
      }
      universities := list;
    }

    /** putIntoList: one normalised name per record, in record order. */
    method PutIntoList(records: seq<University>) returns (list: array<string>)
      ensures fresh(list)
      ensures list[..] == NormalizeAll(records)
    {
      list := new string[|records|];
      var i := 0;
      while i < |records|
        invariant 0 <= i <= |records|
        invariant forall k :: 0 <= k < i ==> list[k] == Normalize(records[k].name)
      {
        list[i] := Normalize(records[i].name);
        i := i + 1;
      }
    }

    /**
     * sortList: sorts in place by compareToIgnoreCase; the result is a
     * permutation of the input. The library's stable merge sort is modelled by
     * an insertion sort, which is stable too.
     */
    method SortList(arr: array<string>)
      modifies arr
      ensures SortedIgnoreCase(arr[..])
      ensures multiset(arr[..]) == old(multiset(arr[..]))
    {
      var i := 0;
      while i < arr.Length
        invariant 0 <= i <= arr.Length
        invariant SortedPrefix(arr[..], i)
        invariant multiset(arr[..]) == old(multiset(arr[..]))
      {
        Insert(arr, i);
        i := i + 1;
      }
      assert arr[..] == arr[..arr.Length];
    }

    /** One pass of the insertion sort: moves arr[i] left into the sorted prefix arr[..i]. */
    static method Insert(arr: array<string>, i: nat)
      requires i < arr.Length && SortedPrefix(arr[..], i)
      modifies arr
      ensures SortedPrefix(arr[..], i + 1)
      ensures multiset(arr[..]) == old(multiset(arr[..]))
      ensures arr[i + 1..] == old(arr[i + 1..])
    {
      InsertionStart(arr[..], i);
      var j := i;
      while j > 0 && CompareToIgnoreCase(arr[j - 1], arr[j]) > 0
        invariant 0 <= j <= i
        invariant Inserting(arr[..], i, j)
        invariant multiset(arr[..]) == old(multiset(arr[..]))
        invariant arr[i + 1..] == old(arr[i + 1..])
      {
        ghost var before := arr[..];
        InsertionStep(before, i, j);
        arr[j - 1], arr[j] := arr[j], arr[j - 1];
        assert arr[..] == before[j - 1 := before[j]][j := before[j - 1]];
        j := j - 1;
      }
      InsertionDone(arr[..], i, j);
    }

    /** searchData: false for a null name; otherwise true exactly when the name is in the list. */
    method SearchData(name: Option<string>) returns (found: bool)
      requires Valid() && universities != null
      ensures found <==> name.Some? && name.value in universities[..]
    {
      if name.None? {
        return false;
      }
      CanonicalSortedIsNaturallySorted(universities[..]);
      found := BinarySearch(universities, name.value);
    }

    /** compareName: true exactly when the normalised form of the name is in the list. */
    method CompareName(str: string) returns (found: bool)
      requires Valid() && universities != null
      ensures found <==> Normalize(str) in universities[..]
    {
      found := SearchData(Some(Normalize(str)));
    }
  }
}
