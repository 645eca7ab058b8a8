/** The second half of `handleImportExcel`: folding the imported records into
    the directory, either replacing it or merging into it. The confirm dialog
    that chooses between the two is the `mode` parameter. */
module Reconcile {
  import opened Records
  import opened Results
  import opened Text
  import opened Dedup
  import opened Sorting
  import opened Lists
  import SheetImport

  datatype Mode = Replace | Merge

  /** The directory after the import, with the counts the merge reports. */
  datatype Outcome =
    | Replaced(directory: seq<Location>)
    | Merged(directory: seq<Location>, added: nat, skipped: nat)

  /** The merge key: `location.toLowerCase().trim()`, on both sides. */
  function MergeKey(loc: Location): string
  {
    Trim(Lower(loc.name))
  }

  /** `importedLocations.filter(loc => !existingNames.has(...))`. */
  function NewLocations(imported: seq<Location>, existing: set<string>): (r: seq<Location>)
    ensures |r| <= |imported|
    ensures forall x :: x in r <==> x in imported && MergeKey(x) !in existing
  {
    if |imported| == 0 then []
    else
      var n := |imported| - 1;
      NewLocations(imported[..n], existing)
      + (if MergeKey(imported[n]) in existing then [] else [imported[n]])
  }

  /** The test `NewLocations` filters by: the record's key is not present. */
  function IsNew(existing: set<string>): Location -> bool
  {
    loc => MergeKey(loc) !in existing
  }

  /** `NewLocations` is the import filtered by `IsNew`. */
  lemma {:induction false} NewLocationsIsFilter(imported: seq<Location>, existing: set<string>)
    ensures NewLocations(imported, existing) == Filter(imported, IsNew(existing))
    decreases |imported|
  {
    if |imported| > 0 {
      NewLocationsIsFilter(imported[..|imported| - 1], existing);
    }
  }

  /** `NewLocations` keeps every record whose key is not present, once each
      and in the import's order, and nothing else. */
  lemma NewLocationsFilters(imported: seq<Location>, existing: set<string>) returns (idx: seq<nat>)
    ensures FilterOf(NewLocations(imported, existing), imported, IsNew(existing), idx)
  {
    NewLocationsIsFilter(imported, existing);
    idx := FilterPicks(imported, IsNew(existing));
  }

  /** Folding a non-empty import into `existing`. An empty import is refused
      and leaves the directory as it was. */
  function Reconcile(existing: seq<Location>, imported: seq<Location>, mode: Mode)
    : (r: Result<Outcome, SheetImport.ImportError>)
    ensures |imported| == 0 <==> r == Failure(SheetImport.NoValidLocations)
    ensures |imported| > 0 ==> r.Success?
    ensures r.Success? && mode == Replace ==>
              r.value.Replaced?
              && |r.value.directory| == |imported|
              && multiset(r.value.directory) == multiset(imported)
    ensures r.Success? && mode == Merge ==>
              var newLocs := NewLocations(imported, KeysOf(existing, MergeKey));
              && r.value.Merged?
              && multiset(r.value.directory) == multiset(existing) + multiset(newLocs)
              && r.value.added == |newLocs|
              && r.value.added + r.value.skipped == |imported|
  {
    if |imported| == 0 then Failure(SheetImport.NoValidLocations)
    else match mode
      case Replace =>
        SortLocationsPermutes(imported);
        Success(Replaced(SortLocations(imported)))
      case Merge => Success(MergeInto(existing, imported))
  }

  /** The merge branch: the records whose key is new are appended, the
      directory is re-sorted, and the rest of the import is counted as
      skipped. */
  function MergeInto(existing: seq<Location>, imported: seq<Location>): (r: Outcome)
    ensures var newLocs := NewLocations(imported, KeysOf(existing, MergeKey));
            && r.Merged?
            && multiset(r.directory) == multiset(existing) + multiset(newLocs)
            && r.added == |newLocs|
            && r.added + r.skipped == |imported|
  {
    var newLocs := NewLocations(imported, KeysOf(existing, MergeKey));
    SortLocationsPermutes(existing + newLocs);
    Merged(SortLocations(existing + newLocs), |newLocs|, |imported| - |newLocs|)
  }

  /** The whole import: parse the sheet, then reconcile. */
  function ImportSheet(existing: seq<Location>, sheet: SheetImport.Sheet, mode: Mode)
    : (r: Result<Outcome, SheetImport.ImportError>)
    ensures |sheet| == 0 ==> r == Failure(SheetImport.Unreadable)
    ensures |sheet| > 0 && |SheetImport.Imported(sheet)| == 0 ==> r == Failure(SheetImport.NoValidLocations)
    ensures |sheet| > 0 ==> r == Reconcile(existing, SheetImport.Imported(sheet), mode)
    ensures r.Success? <==> |sheet| > 0 && |SheetImport.Imported(sheet)| > 0
  {
    if |sheet| == 0 then Failure(SheetImport.Unreadable)
    else Reconcile(existing, SheetImport.Imported(sheet), mode)
  }

  /** Whichever mode is chosen, the directory stored is re-sorted. */
  lemma ReconcileSorted(existing: seq<Location>, imported: seq<Location>, mode: Mode)
    ensures var r := Reconcile(existing, imported, mode);
            r.Success? ==> IsSortedDirectory(r.value.directory)
  {
    if |imported| > 0 {
      match mode
      case Replace => SortLocationsSorted(imported);
      case Merge =>
        SortLocationsSorted(existing + NewLocations(imported, KeysOf(existing, MergeKey)));
    }
  }

  /** The merge key and the de-duplication key of the parse agree: trimming
      and ASCII lower-casing commute. */
  lemma MergeKeyIsNameKey(loc: Location)
    ensures MergeKey(loc) == SheetImport.LocationKey(loc)
  {
    LowerTrimCommute(loc.name);
  }

  /** Keys depend only on which records are present. */
  lemma KeysOfPermutation(a: seq<Location>, b: seq<Location>, key: Location -> string)
    requires multiset(a) == multiset(b)
    ensures KeysOf(a, key) == KeysOf(b, key)
  {
    forall k | k in KeysOf(a, key)
      ensures k in KeysOf(b, key)
    {
      var i := KeysOfWitness(a, key, k);
      assert a[i] in multiset(b);
      var j :| 0 <= j < |b| && b[j] == a[i];
      KeysOfHas(b, key, j);
    }
    forall k | k in KeysOf(b, key)
      ensures k in KeysOf(a, key)
    {
      var j := KeysOfWitness(b, key, k);
      assert b[j] in multiset(a);
      var i :| 0 <= i < |a| && a[i] == b[j];
      KeysOfHas(a, key, i);
    }
  }

  lemma {:induction false} KeysOfConcat(a: seq<Location>, b: seq<Location>, key: Location -> string)
    ensures KeysOf(a + b, key) == KeysOf(a, key) + KeysOf(b, key)
    decreases |b|
  {
    if |b| == 0 {
      assert a + b == a;
    } else {
      var n := |b| - 1;
      KeysOfConcat(a, b[..n], key);
      assert (a + b)[..|a| + n] == a + b[..n];
    }
  }

  /** After a merge every imported key is present in the directory. */
  lemma {:induction false} MergeCoversImport(imported: seq<Location>, existing: set<string>)
    ensures KeysOf(imported, MergeKey) <= existing + KeysOf(NewLocations(imported, existing), MergeKey)
    decreases |imported|
  {
    if |imported| > 0 {
      var n := |imported| - 1;
      MergeCoversImport(imported[..n], existing);
      if MergeKey(imported[n]) !in existing {
        KeysOfAppend(NewLocations(imported[..n], existing), MergeKey, imported[n]);
      } else {
        assert NewLocations(imported, existing) == NewLocations(imported[..n], existing);
      }
    }
  }

  lemma {:induction false} NewLocationsDistinct(imported: seq<Location>, existing: set<string>)
    requires DistinctKeys(imported, MergeKey)
    ensures DistinctKeys(NewLocations(imported, existing), MergeKey)
    decreases |imported|
  {
    if |imported| > 0 {
      var n := |imported| - 1;
      var init := imported[..n];
      assert forall i :: 0 <= i < n ==> init[i] == imported[i];
      NewLocationsDistinct(init, existing);
      var prev := NewLocations(init, existing);
      if MergeKey(imported[n]) !in existing {
        forall k | 0 <= k < |prev|
          ensures MergeKey(prev[k]) != MergeKey(imported[n])
        {
          assert prev[k] in init;
          var i :| 0 <= i < n && init[i] == prev[k];
        }
        assert NewLocations(imported, existing) == prev + [imported[n]];
      } else {
        assert NewLocations(imported, existing) == prev;
      }
    }
  }

  /** A merge brings in no second record for a name the directory already
      has, and none twice from the import: when the directory and the import
      each have distinct names, so does the merged list. */
  lemma MergeKeepsKeysDistinct(existing: seq<Location>, imported: seq<Location>)
    requires DistinctKeys(existing, MergeKey) && DistinctKeys(imported, MergeKey)
    ensures DistinctKeys(existing + NewLocations(imported, KeysOf(existing, MergeKey)), MergeKey)
  {
    var keys := KeysOf(existing, MergeKey);
    var newLocs := NewLocations(imported, keys);
    NewLocationsDistinct(imported, keys);
    var all := existing + newLocs;
    forall i, j | 0 <= i < j < |all|
      ensures MergeKey(all[i]) != MergeKey(all[j])
    {
      if j >= |existing| && i < |existing| {
        KeysOfHas(existing, MergeKey, i);
        assert all[j] in newLocs;
      } else if i >= |existing| {
        assert all[i] == newLocs[i - |existing|] && all[j] == newLocs[j - |existing|];
      }
    }
  }

  /** An import whose every key is already present has nothing new. */
  lemma NothingNew(imported: seq<Location>, keys: set<string>)
    requires KeysOf(imported, MergeKey) <= keys
    ensures NewLocations(imported, keys) == []
  {
    var r := NewLocations(imported, keys);
    if |r| > 0 {
      assert r[0] in r;
      var i :| 0 <= i < |imported| && imported[i] == r[0];
      KeysOfHas(imported, MergeKey, i);
    }
  }

  /** After a merge the directory holds every imported key. */
  lemma MergedHoldsImport(existing: seq<Location>, imported: seq<Location>)
    ensures var newLocs := NewLocations(imported, KeysOf(existing, MergeKey));
      KeysOf(imported, MergeKey) <= KeysOf(SortLocations(existing + newLocs), MergeKey)
  {
    var keys := KeysOf(existing, MergeKey);
    var newLocs := NewLocations(imported, keys);
    SortLocationsPermutes(existing + newLocs);
    KeysOfPermutation(SortLocations(existing + newLocs), existing + newLocs, MergeKey);
    KeysOfConcat(existing, newLocs, MergeKey);
    MergeCoversImport(imported, keys);
  }

  /** Merging the same import a second time adds nothing and skips it all. */
  lemma MergeTwiceAddsNothing(existing: seq<Location>, imported: seq<Location>)
    requires |imported| > 0
    ensures var once := Reconcile(existing, imported, Merge).value.directory;
            Reconcile(once, imported, Merge) == Success(Merged(once, 0, |imported|))
  {
    var newLocs := NewLocations(imported, KeysOf(existing, MergeKey));
    var once := SortLocations(existing + newLocs);
    ReconcileMerge(existing, imported);
    MergeOutcome(existing, imported);
    MergedHoldsImport(existing, imported);
    SortIdempotent(existing + newLocs);
    MergeHeld(once, imported);
    ReconcileMerge(once, imported);
  }

  /** Merging into a sorted directory that already holds every imported key
      adds nothing and leaves the directory as it is. */
  lemma MergeHeld(dir: seq<Location>, imported: seq<Location>)
    requires KeysOf(imported, MergeKey) <= KeysOf(dir, MergeKey)
    requires SortLocations(dir) == dir
    ensures MergeInto(dir, imported) == Merged(dir, 0, |imported|)
  {
    NothingNew(imported, KeysOf(dir, MergeKey));
    MergeOutcome(dir, imported);
    assert dir + [] == dir;
  }

  lemma ReconcileMerge(existing: seq<Location>, imported: seq<Location>)
    requires |imported| > 0
    ensures Reconcile(existing, imported, Merge) == Success(MergeInto(existing, imported))
  {
  }

  /** The two-location merge: `[A, B]` merged with `[B', C]`, where `B'`
      names the same place as `B` and `C` is new, stores `A`, `B` and `C`
      and reports one added and one skipped. */
  lemma MergeScenario(a: Location, b: Location, b2: Location, c: Location)
    requires MergeKey(b2) == MergeKey(b)
    requires MergeKey(c) != MergeKey(a) && MergeKey(c) != MergeKey(b)
    ensures Reconcile([a, b], [b2, c], Merge) == Success(Merged(SortLocations([a, b, c]), 1, 1))
  {
    ScenarioNewLocations(a, b, b2, c);
    MergeOutcome([a, b], [b2, c]);
    AppendToPair(a, b, c);
  }

  lemma ScenarioNewLocations(a: Location, b: Location, b2: Location, c: Location)
    requires MergeKey(b2) == MergeKey(b)
    requires MergeKey(c) != MergeKey(a) && MergeKey(c) != MergeKey(b)
    ensures NewLocations([b2, c], KeysOf([a, b], MergeKey)) == [c]
  {
    KeysOfPair(a, b);
    NewLocationsPair(b2, c, KeysOf([a, b], MergeKey));
  }

  lemma MergeOutcome(existing: seq<Location>, imported: seq<Location>)
    ensures var newLocs := NewLocations(imported, KeysOf(existing, MergeKey));
      MergeInto(existing, imported)
      == Merged(SortLocations(existing + newLocs), |newLocs|, |imported| - |newLocs|)
  {
  }

  lemma AppendToPair<T>(a: T, b: T, c: T)
    ensures [a, b] + [c] == [a, b, c]
  {
  }

  lemma KeysOfPair(a: Location, b: Location)
    ensures KeysOf([a, b], MergeKey) == {MergeKey(a), MergeKey(b)}
  {
    KeysOfAppend([], MergeKey, a);
    KeysOfAppend([a], MergeKey, b);
    assert [] + [a] == [a] && [a] + [b] == [a, b];
  }

  lemma NewLocationsPair(x: Location, y: Location, keys: set<string>)
    ensures NewLocations([x, y], keys)
         == (if MergeKey(x) in keys then [] else [x]) + (if MergeKey(y) in keys then [] else [y])
  {
    assert [x, y][..1] == [x];
    assert [x][..0] == [];
  }

  /** Replacing with a single record stores just that record. */
  lemma ReplaceScenario(a: Location, b: Location, c: Location)
    ensures Reconcile([a, b], [c], Replace) == Success(Replaced([c]))
  {
  }
}
