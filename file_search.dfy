/**
 * The file manager's search box: `files.filter(file => file.name.includes(searchTerm))`.
 * The match is `String.prototype.includes`: a case-sensitive substring test,
 * in which the empty term occurs in every name.
 */
module FileSearch {

  import opened StableSort
  import opened FileObjects

  /** `s.includes(t)`: scans the start positions of `s` from the left. */
  function Includes(s: string, t: string): (found: bool)
    ensures found ==> |t| <= |s|
    ensures |t| <= |s| && s[..|t|] == t ==> found
  {
    if |s| < |t| then false
    else if s[..|t|] == t then true
    else Includes(s[1..], t)
  }

  /** `t` occurs in `s` at position `i`. */
  ghost predicate OccursAt(s: string, t: string, i: int) {
    0 <= i && i + |t| <= |s| && s[i..i + |t|] == t
  }

  /** `Includes` holds exactly when the term occurs somewhere in the name. */
  lemma {:induction false} IncludesIffOccurs(s: string, t: string)
    ensures Includes(s, t) <==> exists i :: OccursAt(s, t, i)
  {
    if |s| < |t| {
    } else if s[..|t|] == t {
      assert OccursAt(s, t, 0);
    } else {
      IncludesIffOccurs(s[1..], t);
      if exists i :: OccursAt(s[1..], t, i) {
        var i :| OccursAt(s[1..], t, i);
        assert s[1..][i..i + |t|] == s[i + 1..i + 1 + |t|];
        assert OccursAt(s, t, i + 1);
      }
      if exists i :: OccursAt(s, t, i) {
        var i :| OccursAt(s, t, i);
        assert i != 0;
        assert s[1..][i - 1..i - 1 + |t|] == s[i..i + |t|];
        assert OccursAt(s[1..], t, i - 1);
      }
    }
  }

  /** The empty term is in every name. */
  lemma EmptyTermIncluded(s: string)
    ensures Includes(s, "")
  {
  }

  /** `files.filter(file => file.name.includes(term))` */
  function SearchFilter(files: seq<FileObject>, term: string): (found: seq<FileObject>)
    ensures |found| <= |files|
  {
    if files == [] then []
    else
      var last := files[|files| - 1];
      SearchFilter(files[..|files| - 1], term) + (if Includes(last.name, term) then [last] else [])
  }

  lemma SearchFilterStep(files: seq<FileObject>, term: string)
    requires files != []
    ensures SearchFilter(files, term) == SearchFilter(files[..|files| - 1], term) +
      (if Includes(files[|files| - 1].name, term) then [files[|files| - 1]] else [])
  {
  }

  /** Each entry occurs in the result as often as in the listing if its name contains the term, else not at all. */
  lemma {:induction false} SearchFilterCounts(files: seq<FileObject>, term: string, f: FileObject)
    ensures multiset(SearchFilter(files, term))[f] == if Includes(f.name, term) then multiset(files)[f] else 0
  {
    if files != [] {
      var init, last := files[..|files| - 1], files[|files| - 1];
      SearchFilterCounts(init, term, f);
      SearchFilterStep(files, term);
      MultisetLast(files);
      if Includes(last.name, term) {
        assert multiset(SearchFilter(files, term)) == multiset(SearchFilter(init, term)) + multiset{last};
      } else {
        assert SearchFilter(files, term) == SearchFilter(init, term);
      }
    }
  }

  /** The result keeps the listing's order: a relation between each entry and every later one still holds. */
  lemma {:induction false} SearchFilterKeepsOrder(files: seq<FileObject>, term: string, r: (FileObject, FileObject) -> bool)
    requires OrderedBy(files, r)
    ensures OrderedBy(SearchFilter(files, term), r)
  {
    if files != [] {
      var n := |files|;
      var init := files[..n - 1];
      SearchFilterKeepsOrder(init, term, r);
      SearchFilterStep(files, term);
      var found := SearchFilter(init, term);
      var result := SearchFilter(files, term);
      forall i, j | 0 <= i < j < |result|
        ensures r(result[i], result[j])
      {
        if j < |found| {
          assert result[i] == found[i] && result[j] == found[j];
        } else {
          assert result[i] == found[i] && result[j] == files[n - 1];
          SearchFilterCounts(init, term, found[i]);
          assert found[i] in multiset(found);
          var k := InSeqAt(init, found[i]);
          assert files[k] == found[i];
        }
      }
    }
  }

  /** The positions of `files` whose name contains the term, in increasing order. */
  ghost function MatchPositions(files: seq<FileObject>, term: string): (positions: seq<nat>)
    ensures forall i :: 0 <= i < |positions| ==> positions[i] < |files|
  {
    if files == [] then []
    else
      var n := |files|;
      MatchPositions(files[..n - 1], term) + (if Includes(files[n - 1].name, term) then [n - 1] else [])
  }

  /** `MatchPositions` lists every position whose name contains the term, and no other, in increasing order. */
  lemma {:induction false} MatchPositionsExactly(files: seq<FileObject>, term: string)
    ensures var positions := MatchPositions(files, term);
      (forall i, j :: 0 <= i < j < |positions| ==> positions[i] < positions[j]) &&
      (forall k :: 0 <= k < |files| ==> (k in positions <==> Includes(files[k].name, term)))
  {
    if files != [] {
      var n := |files|;
      var init := files[..n - 1];
      MatchPositionsExactly(init, term);
      var earlier := MatchPositions(init, term);
      var extra: seq<nat> := if Includes(files[n - 1].name, term) then [n - 1] else [];
      assert MatchPositions(files, term) == earlier + extra;
      AppendLastPosition(earlier, n - 1, extra);
      forall k | 0 <= k < n - 1
        ensures files[k] == init[k]
      {
      }
    }
  }

  /**
   * The result is exactly the entries at the matching positions, in listing
   * order: equal entries at different positions are kept apart.
   */
  lemma {:induction false} SearchFilterPicksMatches(files: seq<FileObject>, term: string)
    ensures var positions := MatchPositions(files, term);
      |SearchFilter(files, term)| == |positions| &&
      forall i :: 0 <= i < |positions| ==> SearchFilter(files, term)[i] == files[positions[i]]
  {
    if files != [] {
      var n := |files|;
      var init := files[..n - 1];
      SearchFilterPicksMatches(init, term);
      SearchFilterStep(files, term);
      var earlier := MatchPositions(init, term);
      var positions := MatchPositions(files, term);
      forall i | 0 <= i < |positions|
        ensures SearchFilter(files, term)[i] == files[positions[i]]
      {
        if i < |earlier| {
          assert positions[i] == earlier[i] && init[earlier[i]] == files[earlier[i]];
        }
      }
    }
  }

  /** Every name in the listing contains the term. */
  ghost predicate AllMatch(files: seq<FileObject>, term: string) {
    forall i :: 0 <= i < |files| ==> Includes(files[i].name, term)
  }

  lemma AllMatchStep(files: seq<FileObject>, term: string)
    requires files != []
    ensures AllMatch(files, term) <==>
      AllMatch(files[..|files| - 1], term) && Includes(files[|files| - 1].name, term)
  {
    var init := files[..|files| - 1];
    if AllMatch(init, term) && Includes(files[|files| - 1].name, term) {
      forall i | 0 <= i < |files|
        ensures Includes(files[i].name, term)
      {
        if i < |init| {
          assert files[i] == init[i];
        }
      }
    }
  }

  /** The result is as long as the listing exactly when every name contains the term. */
  lemma {:induction false} SearchFilterFullIffAllMatch(files: seq<FileObject>, term: string)
    ensures |SearchFilter(files, term)| == |files| <==> AllMatch(files, term)
  {
    if files != [] {
      SearchFilterFullIffAllMatch(files[..|files| - 1], term);
      SearchFilterStep(files, term);
      AllMatchStep(files, term);
    }
  }

  /** When every name contains the term, the search keeps the whole listing. */
  lemma {:induction false} SearchFilterKeepsMatching(files: seq<FileObject>, term: string)
    requires AllMatch(files, term)
    ensures SearchFilter(files, term) == files
  {
    if files != [] {
      var init := files[..|files| - 1];
      AllMatchStep(files, term);
      SearchFilterKeepsMatching(init, term);
      SearchFilterStep(files, term);
      InitLast(files);
    }
  }

  /** The result is the whole listing exactly when every name contains the term; the empty term hides nothing. */
  lemma SearchFilterKeepsAll(files: seq<FileObject>, term: string)
    ensures SearchFilter(files, term) == files <==> forall i :: 0 <= i < |files| ==> Includes(files[i].name, term)
    ensures |SearchFilter(files, term)| == |files| <==> SearchFilter(files, term) == files
    ensures SearchFilter(files, "") == files
  {
    SearchFilterFullIffAllMatch(files, term);
    if AllMatch(files, term) {
      SearchFilterKeepsMatching(files, term);
    }
    forall i | 0 <= i < |files|
      ensures Includes(files[i].name, "")
    {
      EmptyTermIncluded(files[i].name);
    }
    SearchFilterKeepsMatching(files, "");
  }

  /** Searching again for the same term changes nothing. */
  lemma {:induction false} SearchFilterIdempotent(files: seq<FileObject>, term: string)
    ensures SearchFilter(SearchFilter(files, term), term) == SearchFilter(files, term)
  {
    if files != [] {
      var init := files[..|files| - 1];
      var last := files[|files| - 1];
      SearchFilterIdempotent(init, term);
      SearchFilterStep(files, term);
      if Includes(last.name, term) {
        var found := SearchFilter(init, term) + [last];
        assert SearchFilter(files, term) == found;
        SearchFilterStep(found, term);
        assert found[..|found| - 1] == SearchFilter(init, term);
        assert found[|found| - 1] == last;
        assert SearchFilter(found, term) == SearchFilter(SearchFilter(init, term), term) + [last];
      } else {
        assert SearchFilter(files, term) == SearchFilter(init, term);
      }
    }
  }
}
