/** The location-directory handlers `handleAddLocation`,
    `handleUpdateLocation` and `handleDeleteLocation`.

    The source finds the entry to update or delete by object identity; here
    the entry is named by its index in the directory. An index past the end
    plays the part of an object that is no longer in the list. The alert
    after a blank name becomes a `Failure`, and the caller keeps its
    directory. */
module Directory {
  import opened Records
  import opened Results
  import opened Text
  import opened Sorting
  import opened Lists

  datatype EditError = BlankName

  /** `handleAddLocation`: a name that is blank after trimming is refused;
      otherwise the candidate is appended as entered (untrimmed, with no
      duplicate check) and the directory is re-sorted. */
  function AddLocation(dir: seq<Location>, candidate: Location): (r: Result<seq<Location>, EditError>)
    ensures r.Failure? <==> IsBlank(candidate.name)
    ensures r.Success? ==> IsSortedDirectory(r.value)
    ensures r.Success? ==> multiset(r.value) == multiset(dir) + multiset{candidate}
    ensures r.Success? ==> |r.value| == |dir| + 1
  {
    if IsBlank(candidate.name) then Failure(BlankName)
    else
      var d := dir + [candidate];
      SortLocationsSorted(d);
      SortLocationsPermutes(d);
      Success(SortLocations(d))
  }

  /** `handleUpdateLocation`: a blank name is refused; otherwise the target
      entry is replaced by the edited copy and the directory is re-sorted.
      When the target is not in the directory, the directory is only
      re-sorted. */
  function UpdateLocation(dir: seq<Location>, target: nat, updated: Location): (r: Result<seq<Location>, EditError>)
    ensures r.Failure? <==> IsBlank(updated.name)
    ensures r.Success? ==> IsSortedDirectory(r.value) && |r.value| == |dir|
    ensures r.Success? && target < |dir| ==>
              multiset(r.value) + multiset{dir[target]} == multiset(dir) + multiset{updated}
    ensures r.Success? && target >= |dir| ==> multiset(r.value) == multiset(dir)
  {
    if IsBlank(updated.name) then Failure(BlankName)
    else
      var d := ReplaceAt(dir, target, updated);
      ReplaceAtMultiset(dir, target, updated);
      SortLocationsSorted(d);
      SortLocationsPermutes(d);
      Success(SortLocations(d))
  }

  /** `handleDeleteLocation`: once confirmed, removes the target entry and
      keeps the others in order; the directory is not re-sorted. Declining
      the confirmation leaves the directory as it is. */
  function DeleteLocation(dir: seq<Location>, target: nat, confirmed: bool): (r: seq<Location>)
    ensures !confirmed || target >= |dir| ==> r == dir
    ensures confirmed && target < |dir| ==>
              |r| == |dir| - 1
              && (forall j :: 0 <= j < target ==> r[j] == dir[j])
              && (forall j :: target <= j < |r| ==> r[j] == dir[j + 1])
  {
    if confirmed then RemoveAt(dir, target) else dir
  }

  /** Manual add performs no duplicate check: adding an entry that is
      already present keeps both copies. */
  lemma AddKeepsDuplicates(dir: seq<Location>, candidate: Location)
    requires candidate in dir && !IsBlank(candidate.name)
    ensures AddLocation(dir, candidate).Success?
    ensures multiset(AddLocation(dir, candidate).value)[candidate] >= 2
  {
  }

  /** Adding an entry to a sorted directory and then deleting that entry
      (at the index where the add placed it) gives back the directory. */
  lemma AddThenDeleteRestores(dir: seq<Location>, candidate: Location)
    requires IsSortedDirectory(dir) && !IsBlank(candidate.name)
    ensures AddLocation(dir, candidate).Success?
    ensures var k := InsertPos(Collation.Leq, candidate, dir);
            var added := AddLocation(dir, candidate).value;
            && k < |added| && added[k] == candidate
            && DeleteLocation(added, k, true) == dir
  {
    var k := InsertPos(Collation.Leq, candidate, dir);
    SortAfterAppend(dir, candidate);
    RemoveInserted(dir[..k], candidate, dir[k..]);
    assert dir[..k] + dir[k..] == dir;
  }

  /** The scenario of the location-management script: sort the defaults,
      add one location and re-sort, replace the first entry by an edited
      copy, then delete that copy. The count goes up by one and comes back. */
  lemma AddUpdateDeleteScenario(defaults: seq<Location>, added: Location, comments: string)
    ensures var sorted := SortLocations(defaults);
            var withNew := SortLocations(sorted + [added]);
            var edited := withNew[0].(comments := comments);
            var afterUpdate := ReplaceAt(withNew, 0, edited);
            var afterDelete := RemoveAt(afterUpdate, 0);
            && |sorted| == |defaults|
            && |withNew| == |defaults| + 1
            && |afterUpdate| == |withNew| && afterUpdate[0] == edited
            && (forall j :: 0 < j < |withNew| ==> afterUpdate[j] == withNew[j])
            && |afterDelete| == |defaults|
  {
  }
}
