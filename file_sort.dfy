/**
 * `sortFiles` of the file manager: a stable sort of the listing by name under
 * the locale collator, then a stable sort that puts directories before files,
 * then dropping every entry whose name is the same string as the name of the
 * entry right before it.
 *
 * The collator (`Intl.Collator` with `numeric: true, sensitivity: 'base'`,
 * ECMA-402 section 10) is a parameter: any three-way comparison on names. The
 * lemmas that need it to be consistent require `TotalPreorder(collator)`.
 */
module FileSort {

  import opened StableSort
  import opened FileObjects

  /** The first sort's comparator: the collator applied to the two names. */
  function ByName(collator: (string, string) -> int): (cmp: (FileObject, FileObject) -> int)
    ensures forall a: FileObject, b: FileObject, a': FileObject, b': FileObject :: a.name == a'.name && b.name == b'.name ==> cmp(a, b) == cmp(a', b')
  {
    (a: FileObject, b: FileObject) => collator(a.name, b.name)
  }

  /** The second sort's comparator: directories rank below files, entries of one kind tie. */
  function ByKind(a: FileObject, b: FileObject): (order: int)
    ensures order < 0 <==> !a.isFile && b.isFile
    ensures order > 0 <==> a.isFile && !b.isFile
    ensures order == 0 <==> a.isFile == b.isFile
  {
    if a.isFile == b.isFile then 0 else if a.isFile then 1 else -1
  }

  /** The array as it stands after both calls to `.sort`. */
  function TwoPassSort(files: seq<FileObject>, collator: (string, string) -> int): (sorted: seq<FileObject>)
    ensures |sorted| == |files|
  {
    SortBy(SortBy(files, ByName(collator)), ByKind)
  }

  /**
   * `sorted.filter((file, index) => index === 0 || file.name !== sorted[index - 1].name)`:
   * each entry is compared with its predecessor in `sorted`, not with the last entry kept.
   */
  function DropRepeatedNames(sorted: seq<FileObject>): (kept: seq<FileObject>)
    ensures |kept| <= |sorted|
    ensures kept == [] <==> sorted == []
  {
    if |sorted| <= 1 then sorted
    else
      var n := |sorted|;
      assert sorted == sorted[..n - 1] + [sorted[n - 1]];
      DropRepeatedNames(sorted[..n - 1])
        + (if sorted[n - 1].name == sorted[n - 2].name then [] else [sorted[n - 1]])
  }

  /** What `sortFiles(files)` returns. */
  function SortedFiles(files: seq<FileObject>, collator: (string, string) -> int): (result: seq<FileObject>)
    ensures |result| <= |files|
    ensures result == [] <==> files == []
  {
    DropRepeatedNames(TwoPassSort(files, collator))
  }

  /**
   * `sortFiles`: sorts the array it is given in place (both `.sort` calls
   * reorder that array) and returns the filtered copy.
   */
  method SortFiles(files: array<FileObject>, collator: (string, string) -> int) returns (result: seq<FileObject>)
    modifies files
    ensures files[..] == TwoPassSort(old(files[..]), collator)
    ensures result == SortedFiles(old(files[..]), collator)
  {
    SortInPlace(files, ByName(collator));
    SortInPlace(files, ByKind);
    result := DropRepeatedNames(files[..]);
  }

  lemma ByKindTotalPreorder()
    ensures TotalPreorder(ByKind)
  {
    forall a, b, c | Chain(ByKind, a, b, c)
      ensures ByKind(a, c) <= 0
    {
    }
  }

  lemma ByNameTotalPreorder(collator: (string, string) -> int)
    requires TotalPreorder(collator)
    ensures TotalPreorder(ByName(collator))
  {
    var byName := ByName(collator);
    forall a, b
      ensures byName(a, b) < 0 <==> byName(b, a) > 0
    {
      TotalPreorderFacts(collator, a.name, b.name);
    }
    forall a, b, c | Chain(byName, a, b, c)
      ensures byName(a, c) <= 0
    {
      Transitive(collator, a.name, b.name, c.name);
    }
  }

  /** The order of the listing: kind first (directories, then files), then the collator on names. */
  function ListingOrder(collator: (string, string) -> int): (FileObject, FileObject) -> int {
    Lexicographic(ByKind, ByName(collator))
  }

  /**
   * The two chained stable sorts are one stable sort by kind and then name:
   * the array holds exactly `SortBy(files, ListingOrder(collator))`.
   */
  lemma TwoPassSortIsListingOrder(files: seq<FileObject>, collator: (string, string) -> int)
    requires TotalPreorder(collator)
    ensures TwoPassSort(files, collator) == SortBy(files, ListingOrder(collator))
  {
    ByKindTotalPreorder();
    ByNameTotalPreorder(collator);
    SortTwiceIsLexicographic(files, ByKind, ByName(collator));
  }

  /**
   * After both sorts the array is a permutation of the input, ordered by kind
   * and name, and entries of one kind whose names the collator ranks equal are
   * in their input order.
   */
  lemma TwoPassSortSpec(files: seq<FileObject>, collator: (string, string) -> int, y: FileObject)
    requires TotalPreorder(collator)
    ensures multiset(TwoPassSort(files, collator)) == multiset(files)
    ensures IsSortedBy(TwoPassSort(files, collator), ListingOrder(collator))
    ensures Ties(TwoPassSort(files, collator), y, ListingOrder(collator)) == Ties(files, y, ListingOrder(collator))
  {
    TwoPassSortIsListingOrder(files, collator);
    ByKindTotalPreorder();
    ByNameTotalPreorder(collator);
    LexicographicTotalPreorder(ByKind, ByName(collator));
    SortBySorted(files, ListingOrder(collator));
    SortByStable(files, y, ListingOrder(collator));
    TwoPassSortPermutes(files, collator);
  }

  /** Both sorts only reorder: the array holds the same entries as before, whatever the collator. */
  lemma TwoPassSortPermutes(files: seq<FileObject>, collator: (string, string) -> int)
    ensures multiset(TwoPassSort(files, collator)) == multiset(files)
  {
    SortByPermutes(files, ByName(collator));
    SortByPermutes(SortBy(files, ByName(collator)), ByKind);
  }

  lemma DropRepeatedNamesStep(sorted: seq<FileObject>)
    requires |sorted| > 1
    ensures DropRepeatedNames(sorted) == DropRepeatedNames(sorted[..|sorted| - 1]) +
      (if sorted[|sorted| - 1].name == sorted[|sorted| - 2].name then [] else [sorted[|sorted| - 1]])
  {
  }

  /** Keeping or dropping the last entry keeps a sub-multiset of the rest a sub-multiset of the whole. */
  lemma SubMultisetSnoc(whole: seq<FileObject>, kept: seq<FileObject>, kept': seq<FileObject>)
    requires whole != []
    requires multiset(kept) <= multiset(whole[..|whole| - 1])
    requires kept' == kept || kept' == kept + [whole[|whole| - 1]]
    ensures multiset(kept') <= multiset(whole)
  {
    MultisetLast(whole);
    if kept' != kept {
      assert multiset(kept') == multiset(kept) + multiset{whole[|whole| - 1]};
    }
  }

  /** Deduplication only removes entries. */
  lemma {:induction false} DropRepeatedNamesSubMultiset(sorted: seq<FileObject>)
    ensures multiset(DropRepeatedNames(sorted)) <= multiset(sorted)
  {
    if |sorted| > 1 {
      DropRepeatedNamesSubMultiset(sorted[..|sorted| - 1]);
      DropRepeatedNamesStep(sorted);
      SubMultisetSnoc(sorted, DropRepeatedNames(sorted[..|sorted| - 1]), DropRepeatedNames(sorted));
    }
  }

  /** Position `k` of `sorted` is the first one or holds a name other than the one before it. */
  ghost predicate StartsNewName(sorted: seq<FileObject>, k: int) {
    k == 0 || (0 < k < |sorted| && sorted[k].name != sorted[k - 1].name)
  }

  /** The positions of `sorted` that start a new name, in increasing order. */
  ghost function NewNamePositions(sorted: seq<FileObject>): (positions: seq<nat>)
    ensures forall i :: 0 <= i < |positions| ==> positions[i] < |sorted|
  {
    if sorted == [] then []
    else
      var n := |sorted|;
      NewNamePositions(sorted[..n - 1]) + (if StartsNewName(sorted, n - 1) then [n - 1] else [])
  }

  /** `NewNamePositions` lists every position that starts a new name, and no other, in increasing order. */
  lemma {:induction false} NewNamePositionsExactly(sorted: seq<FileObject>)
    ensures var positions := NewNamePositions(sorted);
      (forall i, j :: 0 <= i < j < |positions| ==> positions[i] < positions[j]) &&
      (forall k :: 0 <= k < |sorted| ==> (k in positions <==> StartsNewName(sorted, k)))
  {
    if sorted != [] {
      var n := |sorted|;
      var init := sorted[..n - 1];
      NewNamePositionsExactly(init);
      var earlier := NewNamePositions(init);
      var extra: seq<nat> := if StartsNewName(sorted, n - 1) then [n - 1] else [];
      assert NewNamePositions(sorted) == earlier + extra;
      AppendLastPosition(earlier, n - 1, extra);
      forall k | 0 <= k < n - 1
        ensures StartsNewName(init, k) == StartsNewName(sorted, k)
      {
        if k > 0 {
          assert init[k] == sorted[k] && init[k - 1] == sorted[k - 1];
        }
      }
    }
  }

  /**
   * The survivors are exactly the entries at the positions that start a new
   * name: an entry is dropped only when its name is the same string (not
   * merely collator-equal) as the name right before it in `sorted`.
   */
  lemma {:induction false} DropRepeatedNamesPicksNewNames(sorted: seq<FileObject>)
    ensures var positions := NewNamePositions(sorted);
      |DropRepeatedNames(sorted)| == |positions| &&
      forall i :: 0 <= i < |positions| ==> DropRepeatedNames(sorted)[i] == sorted[positions[i]]
  {
    var n := |sorted|;
    if n == 1 {
      assert NewNamePositions(sorted) == [] + [0];
    } else if n > 1 {
      var init := sorted[..n - 1];
      DropRepeatedNamesPicksNewNames(init);
      DropRepeatedNamesStep(sorted);
      var earlier := NewNamePositions(init);
      var positions := NewNamePositions(sorted);
      forall i | 0 <= i < |positions|
        ensures DropRepeatedNames(sorted)[i] == sorted[positions[i]]
      {
        if i < |earlier| {
          assert positions[i] == earlier[i] && init[earlier[i]] == sorted[earlier[i]];
        }
      }
    }
  }

  /** The survivors are a subsequence: any relation between each entry and every later one still holds. */
  lemma DropRepeatedNamesKeepsOrder(sorted: seq<FileObject>, r: (FileObject, FileObject) -> bool)
    requires OrderedBy(sorted, r)
    ensures OrderedBy(DropRepeatedNames(sorted), r)
  {
    var positions := NewNamePositions(sorted);
    var result := DropRepeatedNames(sorted);
    NewNamePositionsExactly(sorted);
    DropRepeatedNamesPicksNewNames(sorted);
    forall i, j | 0 <= i < j < |result|
      ensures r(result[i], result[j])
    {
      assert result[i] == sorted[positions[i]] && result[j] == sorted[positions[j]];
      assert positions[i] < positions[j];
    }
  }

  lemma {:induction false} DropRepeatedNamesLast(sorted: seq<FileObject>)
    requires sorted != []
    ensures DropRepeatedNames(sorted) != []
    ensures DropRepeatedNames(sorted)[|DropRepeatedNames(sorted)| - 1].name == sorted[|sorted| - 1].name
  {
    if |sorted| > 1 {
      DropRepeatedNamesLast(sorted[..|sorted| - 1]);
    }
  }

  /** The first entry always survives, and no surviving entry has its predecessor's name. */
  lemma {:induction false} DropRepeatedNamesNoRepeats(sorted: seq<FileObject>)
    ensures sorted != [] ==> DropRepeatedNames(sorted) != [] && DropRepeatedNames(sorted)[0] == sorted[0]
    ensures NoAdjacentRepeats(DropRepeatedNames(sorted))
  {
    if |sorted| > 1 {
      var n := |sorted|;
      var init := sorted[..n - 1];
      DropRepeatedNamesNoRepeats(init);
      DropRepeatedNamesLast(init);
    }
  }

  /** Every name of the input is still present: a dropped entry's name is its predecessor's. */
  lemma {:induction false} DropRepeatedNamesKeepsNames(sorted: seq<FileObject>, name: string)
    ensures name in Names(DropRepeatedNames(sorted)) <==> name in Names(sorted)
  {
    if |sorted| > 1 {
      var n := |sorted|;
      var init := sorted[..n - 1];
      DropRepeatedNamesKeepsNames(init, name);
      assert Names(sorted) == Names(init) + [sorted[n - 1].name];
      var kept := DropRepeatedNames(init);
      var tail := if sorted[n - 1].name == sorted[n - 2].name then [] else [sorted[n - 1]];
      assert Names(kept + tail) == Names(kept) + Names(tail);
      if sorted[n - 1].name == sorted[n - 2].name {
        assert Names(init)[n - 2] == sorted[n - 2].name;
      }
    }
  }

  lemma {:induction false} DropRepeatedNamesShortens(sorted: seq<FileObject>, j: nat)
    requires 0 < j < |sorted| && sorted[j - 1].name == sorted[j].name
    ensures |DropRepeatedNames(sorted)| < |sorted|
  {
    var n := |sorted|;
    DropRepeatedNamesStep(sorted);
    if j < n - 1 {
      DropRepeatedNamesShortens(sorted[..n - 1], j);
    }
  }

  /** Dropping the last entry keeps a listing free of adjacent repeated names. */
  lemma NoAdjacentRepeatsInit(sorted: seq<FileObject>)
    requires sorted != [] && NoAdjacentRepeats(sorted)
    ensures NoAdjacentRepeats(sorted[..|sorted| - 1])
  {
    var init := sorted[..|sorted| - 1];
    forall i, j | 0 <= i < j < |init| && j == i + 1
      ensures init[i].name != init[j].name
    {
      assert init[i] == sorted[i] && init[j] == sorted[j];
    }
  }

  lemma {:induction false} DropRepeatedNamesNothingToDrop(sorted: seq<FileObject>)
    requires NoAdjacentRepeats(sorted)
    ensures DropRepeatedNames(sorted) == sorted
  {
    var n := |sorted|;
    if n > 1 {
      var init := sorted[..n - 1];
      NoAdjacentRepeatsInit(sorted);
      DropRepeatedNamesNothingToDrop(init);
      DropRepeatedNamesStep(sorted);
      assert sorted[n - 2].name != sorted[n - 1].name;
      InitLast(sorted);
    }
  }

  /** Nothing is dropped exactly when no entry repeats the name of the entry before it. */
  lemma DropRepeatedNamesIdentity(sorted: seq<FileObject>)
    ensures DropRepeatedNames(sorted) == sorted <==> NoAdjacentRepeats(sorted)
  {
    if NoAdjacentRepeats(sorted) {
      DropRepeatedNamesNothingToDrop(sorted);
    } else {
      var i, j :| 0 <= i < j < |sorted| && j == i + 1 && sorted[i].name == sorted[j].name;
      DropRepeatedNamesShortens(sorted, j);
    }
  }

  /** In the result of `sortFiles`, no directory comes after a file. */
  lemma SortedFilesDirectoriesFirst(files: seq<FileObject>, collator: (string, string) -> int)
    ensures var result := SortedFiles(files, collator);
      forall i, j :: 0 <= i < j < |result| && result[i].isFile ==> result[j].isFile
  {
    var sorted := TwoPassSort(files, collator);
    ByKindTotalPreorder();
    SortBySorted(SortBy(files, ByName(collator)), ByKind);
    var directoriesFirst := (a: FileObject, b: FileObject) => a.isFile ==> b.isFile;
    assert OrderedBy(sorted, directoriesFirst) by {
      forall i, j | 0 <= i < j < |sorted|
        ensures directoriesFirst(sorted[i], sorted[j])
      {
        assert ByKind(sorted[i], sorted[j]) <= 0;
      }
    }
    DropRepeatedNamesKeepsOrder(sorted, directoriesFirst);
    var result := SortedFiles(files, collator);
    forall i, j | 0 <= i < j < |result| && result[i].isFile
      ensures result[j].isFile
    {
      assert directoriesFirst(result[i], result[j]);
    }
  }

  /** `a` and `b` are of different kinds, or their names are in collator order. */
  function NameOrderWithinKind(collator: (string, string) -> int): (FileObject, FileObject) -> bool {
    (a: FileObject, b: FileObject) => a.isFile == b.isFile ==> collator(a.name, b.name) <= 0
  }

  lemma TwoPassSortNamesInOrder(files: seq<FileObject>, collator: (string, string) -> int)
    requires TotalPreorder(collator)
    ensures OrderedBy(TwoPassSort(files, collator), NameOrderWithinKind(collator))
  {
    var order := ListingOrder(collator);
    TwoPassSortIsListingOrder(files, collator);
    ByKindTotalPreorder();
    ByNameTotalPreorder(collator);
    LexicographicTotalPreorder(ByKind, ByName(collator));
    SortBySorted(files, order);
    var sorted := TwoPassSort(files, collator);
    forall i, j | 0 <= i < j < |sorted|
      ensures NameOrderWithinKind(collator)(sorted[i], sorted[j])
    {
      assert order(sorted[i], sorted[j]) <= 0;
    }
  }

  /** Among the directories, and among the files, names are in collator order. */
  lemma SortedFilesNamesInOrder(files: seq<FileObject>, collator: (string, string) -> int)
    requires TotalPreorder(collator)
    ensures var result := SortedFiles(files, collator);
      forall i, j :: 0 <= i < j < |result| && result[i].isFile == result[j].isFile ==>
        collator(result[i].name, result[j].name) <= 0
  {
    TwoPassSortNamesInOrder(files, collator);
    DropRepeatedNamesKeepsOrder(TwoPassSort(files, collator), NameOrderWithinKind(collator));
    var result := SortedFiles(files, collator);
    forall i, j | 0 <= i < j < |result| && result[i].isFile == result[j].isFile
      ensures collator(result[i].name, result[j].name) <= 0
    {
      assert NameOrderWithinKind(collator)(result[i], result[j]);
    }
  }

  /** When the listing has no two entries with the same name, `sortFiles` drops nothing: a permutation. */
  lemma SortedFilesPermutation(files: seq<FileObject>, collator: (string, string) -> int)
    requires DistinctNames(files)
    ensures SortedFiles(files, collator) == TwoPassSort(files, collator)
    ensures multiset(SortedFiles(files, collator)) == multiset(files)
  {
    var differentNames := (a: FileObject, b: FileObject) => a.name != b.name;
    assert AllPairs(files, differentNames);
    SortByKeepsAllPairs(files, ByName(collator), differentNames);
    var once := SortBy(files, ByName(collator));
    SortByKeepsAllPairs(once, ByKind, differentNames);
    var sorted := TwoPassSort(files, collator);
    assert NoAdjacentRepeats(sorted) by {
      forall i, j | 0 <= i < j < |sorted| && j == i + 1
        ensures sorted[i].name != sorted[j].name
      {
        assert differentNames(sorted[i], sorted[j]);
      }
    }
    DropRepeatedNamesIdentity(sorted);
    TwoPassSortPermutes(files, collator);
  }
}
