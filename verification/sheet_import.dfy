/** The parsing half of `handleImportExcel`: from the row matrix that
    `XLSX.utils.sheet_to_json(worksheet, { header: 1 })` returns to the list
    of imported locations. Reading the file and decoding the workbook are
    not part of this model; the model starts from the row matrix. */
module SheetImport {
  import opened Records
  import opened Results
  import opened Text
  import opened Dedup

  /** One cell of the row matrix. `Str` is a string value; `Other` is any
      other truthy value (a number, a date) together with the text its
      `toString()` gives; `Missing` is an absent cell or a falsy non-string
      value (`undefined`, `null`, `0`, `false`), all of which `|| ''` turns
      into the empty string. */
  datatype Cell = Str(s: string) | Other(text: string) | Missing

  type Row = seq<Cell>

  /** Row 0 is the header row; the others are data rows. */
  type Sheet = seq<Row>

  datatype ImportError =
    | Unreadable          // the sheet has no row 0: reading the header throws
    | NoValidLocations    // no data row survived the filters

  /** The field a header column feeds. */
  datatype Role = NameColumn | AddressColumn | TownColumn | MeetingNotesColumn | CommentsColumn | Ignored

  /** `(cell || '').toString()`. */
  function CellText(c: Cell): string
  {
    match c
    case Str(s) => s
    case Other(t) => t
    case Missing => ""
  }

  /** The role of one header cell, after lower-casing and trimming its text. */
  function HeaderRole(c: Cell): (role: Role)
    ensures var h := Trim(Lower(CellText(c)));
      && (role == NameColumn <==> h == "location")
      && (role == AddressColumn <==> h == "street address" || h == "address")
      && (role == TownColumn <==> h == "town")
      && (role == MeetingNotesColumn <==>
            h != "location" && h != "street address" && h != "address" && h != "town"
            && Contains(h, "meeting") && Contains(h, "notes"))
      && (role == CommentsColumn <==>
            h == "comments" && !(Contains(h, "meeting") && Contains(h, "notes")))
  {
    var h := Trim(Lower(CellText(c)));
    if h == "location" then NameColumn
    else if h == "street address" || h == "address" then AddressColumn
    else if h == "town" then TownColumn
    else if Contains(h, "meeting") && Contains(h, "notes") then MeetingNotesColumn
    else if h == "comments" then CommentsColumn
    else Ignored
  }

  /** `columnMap`: the column index of each field, if the header names one. */
  datatype ColumnMap = ColumnMap(
    name: Option<nat>,
    address: Option<nat>,
    town: Option<nat>,
    meetingNotes: Option<nat>,
    comments: Option<nat>)

  const EmptyColumnMap := ColumnMap(None, None, None, None, None)

  function Column(m: ColumnMap, role: Role): Option<nat>
  {
    match role
    case NameColumn => m.name
    case AddressColumn => m.address
    case TownColumn => m.town
    case MeetingNotesColumn => m.meetingNotes
    case CommentsColumn => m.comments
    case Ignored => None
  }

  function Assign(m: ColumnMap, role: Role, index: nat): (r: ColumnMap)
    ensures forall other :: other != role ==> Column(r, other) == Column(m, other)
    ensures role != Ignored ==> Column(r, role) == Some(index)
  {
    match role
    case NameColumn => m.(name := Some(index))
    case AddressColumn => m.(address := Some(index))
    case TownColumn => m.(town := Some(index))
    case MeetingNotesColumn => m.(meetingNotes := Some(index))
    case CommentsColumn => m.(comments := Some(index))
    case Ignored => m
  }

  /** The role of every header cell, in column order. */
  function HeaderRoles(header: Row): seq<Role>
  {
    seq(|header|, i requires 0 <= i < |header| => HeaderRole(header[i]))
  }

  /** `column` is where the header scan must put `role`: the last column
      with that role, or nothing when no column has it. */
  predicate ColumnFor(roles: seq<Role>, role: Role, column: Option<nat>)
  {
    match column
    case Some(i) =>
      && i < |roles| && roles[i] == role
      && forall j :: i < j < |roles| ==> roles[j] != role
    case None => forall j :: 0 <= j < |roles| ==> roles[j] != role
  }

  /** `headerRow.forEach((header, index) => ...)`: each column, left to
      right, assigns its index to its role, so a later column wins. */
  function MapRoles(roles: seq<Role>): ColumnMap
  {
    if |roles| == 0 then EmptyColumnMap
    else
      var n := |roles| - 1;
      Assign(MapRoles(roles[..n]), roles[n], n)
  }

  function MapHeader(header: Row): ColumnMap
  {
    MapRoles(HeaderRoles(header))
  }

  lemma AssignKeepsColumnFor(roles: seq<Role>, prev: ColumnMap, role: Role)
    requires |roles| > 0 && role != Ignored
    requires ColumnFor(roles[..|roles| - 1], role, Column(prev, role))
    ensures ColumnFor(roles, role, Column(Assign(prev, roles[|roles| - 1], |roles| - 1), role))
  {
    var n := |roles| - 1;
    assert forall j :: 0 <= j < n ==> roles[..n][j] == roles[j];
  }

  lemma {:induction false} MapRolesCorrect(roles: seq<Role>)
    ensures forall role :: role != Ignored ==> ColumnFor(roles, role, Column(MapRoles(roles), role))
    decreases |roles|
  {
    if |roles| > 0 {
      var n := |roles| - 1;
      MapRolesCorrect(roles[..n]);
      forall role | role != Ignored
        ensures ColumnFor(roles, role, Column(MapRoles(roles), role))
      {
        AssignKeepsColumnFor(roles, MapRoles(roles[..n]), role);
      }
    }
  }

  /** Every field is mapped to the last header column with its role, and a
      field no header names stays unmapped. */
  lemma MapHeaderCorrect(header: Row)
    ensures forall role :: role != Ignored ==>
              ColumnFor(HeaderRoles(header), role, Column(MapHeader(header), role))
    ensures forall i :: 0 <= i < |header| ==> HeaderRoles(header)[i] == HeaderRole(header[i])
  {
    MapRolesCorrect(HeaderRoles(header));
  }

  /** `row[columnMap.field]`: an unmapped column or an index past the end of
      the row reads as an absent cell. */
  function CellAt(row: Row, column: Option<nat>): Cell
  {
    match column
    case Some(i) => if i < |row| then row[i] else Missing
    case None => Missing
  }

  /** `(row[columnMap.field] || '').toString().trim()`. */
  function FieldText(row: Row, column: Option<nat>): string
  {
    Trim(CellText(CellAt(row, column)))
  }

  /** The de-duplication key: `name.trim().toLowerCase()`. */
  function NameKey(name: string): string
  {
    Lower(Trim(name))
  }

  function LocationKey(loc: Location): string
  {
    NameKey(loc.name)
  }

  /** Rows whose trimmed, lower-cased name starts with "olli " are section
      banners ("OLLI WALKS"); a name equal to "location" is a repeated header. */
  predicate IsBannerOrHeader(nameLower: string)
  {
    StartsWith(nameLower, "olli ") || nameLower == "location"
  }

  /** The record a data row yields before de-duplication, or `None` when the
      row is skipped: an empty row, a name cell that is not a string or is
      blank, or a banner or header-like name. Every field is trimmed. */
  function RowCandidate(row: Row, cols: ColumnMap): Option<Location>
  {
    if |row| == 0 then None
    else match CellAt(row, cols.name)
      case Str(s) =>
        if IsBlank(s) || IsBannerOrHeader(Trim(Lower(s))) then None
        else Some(Location(
          Trim(s),
          FieldText(row, cols.address),
          FieldText(row, cols.town),
          FieldText(row, cols.comments),
          FieldText(row, cols.meetingNotes)))
      case _ => None
  }

  /** The candidates of the data rows, in row order. */
  function Candidates(rows: seq<Row>, cols: ColumnMap): seq<Location>
  {
    if |rows| == 0 then []
    else Candidates(rows[..|rows| - 1], cols) + RowCandidates(rows[|rows| - 1], cols)
  }

  /** What the import produces from a sheet that has a header row. */
  function Imported(sheet: Sheet): seq<Location>
    requires |sheet| > 0
  {
    FirstOccurrences(Candidates(sheet[1..], MapHeader(sheet[0])), LocationKey)
  }

  function RowCandidates(row: Row, cols: ColumnMap): seq<Location>
  {
    match RowCandidate(row, cols)
    case Some(l) => [l]
    case None => []
  }

  /** One row of the import loop: keeping a candidate exactly when its key
      has not been seen extends the first occurrences of the candidates so
      far to those of one more candidate. */
  lemma AbsorbStep(c: seq<Location>, candidate: Option<Location>, extra: seq<Location>,
                   imported: seq<Location>, seen: set<string>)
    requires extra == if candidate.Some? then [candidate.value] else []
    requires imported == FirstOccurrences(c, LocationKey)
    requires seen == KeysOf(imported, LocationKey)
    ensures var next := Absorb(imported, seen, candidate);
      && next.0 == FirstOccurrences(c + extra, LocationKey)
      && next.1 == KeysOf(next.0, LocationKey)
  {
    match candidate
    case None =>
      assert c + extra == c;
    case Some(loc) =>
      AbsorbKept(c, loc, imported, seen);
  }

  /** A row with a candidate: the candidate is kept exactly when its key is
      new, and the kept records stay the first occurrences. */
  lemma AbsorbKept(c: seq<Location>, loc: Location, imported: seq<Location>, seen: set<string>)
    requires imported == FirstOccurrences(c, LocationKey)
    requires seen == KeysOf(imported, LocationKey)
    ensures var next := Absorb(imported, seen, Some(loc));
      && next.0 == FirstOccurrences(c + [loc], LocationKey)
      && next.1 == KeysOf(next.0, LocationKey)
  {
    assert LocationKey(loc) == NameKey(loc.name);
    KeepIfUnseen(c, LocationKey, loc, imported, seen);
  }

  lemma CandidatesPrefixStep(rows: seq<Row>, j: nat, cols: ColumnMap)
    requires j < |rows|
    ensures Candidates(rows[..j + 1], cols) == Candidates(rows[..j], cols) + RowCandidates(rows[j], cols)
  {
    assert rows[..j + 1][..j] == rows[..j];
  }

  /** The state of the row loop after the first `j` data rows: the records
      kept so far and the set of their keys. */
  predicate Scanned(rows: seq<Row>, j: nat, cols: ColumnMap, imported: seq<Location>, seen: set<string>)
    requires j <= |rows|
  {
    imported == FirstOccurrences(Candidates(rows[..j], cols), LocationKey)
    && seen == KeysOf(imported, LocationKey)
  }

  /** One turn of the row loop: a candidate whose key is new is kept and
      its key recorded; anything else leaves the state alone. */
  function Absorb(imported: seq<Location>, seen: set<string>, candidate: Option<Location>)
    : (seq<Location>, set<string>)
  {
    if candidate.Some? && NameKey(candidate.value.name) !in seen
    then (imported + [candidate.value], seen + {NameKey(candidate.value.name)})
    else (imported, seen)
  }

  lemma ScanStep(rows: seq<Row>, j: nat, cols: ColumnMap, imported: seq<Location>, seen: set<string>)
    requires j < |rows| && Scanned(rows, j, cols, imported, seen)
    ensures var next := Absorb(imported, seen, RowCandidate(rows[j], cols));
      Scanned(rows, j + 1, cols, next.0, next.1)
  {
    CandidatesPrefixStep(rows, j, cols);
    AbsorbStep(Candidates(rows[..j], cols), RowCandidate(rows[j], cols), RowCandidates(rows[j], cols),
               imported, seen);
  }

  lemma ScanDone(sheet: Sheet, imported: seq<Location>, seen: set<string>)
    requires |sheet| > 0
    requires Scanned(sheet[1..], |sheet| - 1, MapHeader(sheet[0]), imported, seen)
    ensures imported == Imported(sheet)
  {
    assert sheet[1..][..|sheet| - 1] == sheet[1..];
  }

  /** `for (let i = 1; i < rawData.length; i++) { ... }` with the
      `seenLocations` set, followed by the empty-result check. */
  method ParseSheet(sheet: Sheet) returns (r: Result<seq<Location>, ImportError>)
    ensures |sheet| == 0 ==> r == Failure(Unreadable)
    ensures |sheet| > 0 ==>
              r == if |Imported(sheet)| == 0 then Failure(NoValidLocations) else Success(Imported(sheet))
  {
    if |sheet| == 0 {
      return Failure(Unreadable);
    }
    var cols := MapHeader(sheet[0]);
    var rows := sheet[1..];
    var imported: seq<Location> := [];
    var seen: set<string> := {};
    var j := 0;
    while j < |rows|
      invariant j <= |rows| && Scanned(rows, j, cols, imported, seen)
    {
      ScanStep(rows, j, cols, imported, seen);
      var candidate := RowCandidate(rows[j], cols);
      if candidate.Some? {
        var nameKey := NameKey(candidate.value.name);
        if nameKey !in seen {
          imported := imported + [candidate.value];
          seen := seen + {nameKey};
        }
      }
      j := j + 1;
    }
    ScanDone(sheet, imported, seen);
    if |imported| == 0 {
      return Failure(NoValidLocations);
    }
    return Success(imported);
  }

  /** The shape every imported record has: a non-empty trimmed name that is
      neither a banner nor a repeated header, and trimmed fields. */
  predicate Clean(loc: Location)
  {
    && loc.name != "" && IsTrimmed(loc.name)
    && IsTrimmed(loc.address) && IsTrimmed(loc.town)
    && IsTrimmed(loc.comments) && IsTrimmed(loc.meetingNotes)
    && !IsBannerOrHeader(NameKey(loc.name))
  }

  /** A row yields a record exactly when its name cell is a string that is
      not blank and, lower-cased and trimmed, is neither a banner nor
      "location"; the record is clean, its name is the trimmed cell, and a
      field with no column reads as "". */
  lemma CandidateShape(row: Row, cols: ColumnMap)
    ensures RowCandidate(row, cols).Some? <==>
              && |row| > 0 && CellAt(row, cols.name).Str?
              && !IsBlank(CellAt(row, cols.name).s)
              && !IsBannerOrHeader(NameKey(CellAt(row, cols.name).s))
    ensures RowCandidate(row, cols).Some? ==>
              var loc := RowCandidate(row, cols).value;
              && Clean(loc)
              && loc.name == Trim(CellAt(row, cols.name).s)
              && loc.address == Trim(CellText(CellAt(row, cols.address)))
              && loc.town == Trim(CellText(CellAt(row, cols.town)))
              && loc.comments == Trim(CellText(CellAt(row, cols.comments)))
              && loc.meetingNotes == Trim(CellText(CellAt(row, cols.meetingNotes)))
              && (cols.address.None? ==> loc.address == "")
              && (cols.town.None? ==> loc.town == "")
              && (cols.comments.None? ==> loc.comments == "")
              && (cols.meetingNotes.None? ==> loc.meetingNotes == "")
  {
    var cell := CellAt(row, cols.name);
    if cell.Str? {
      var s := cell.s;
      LowerTrimCommute(s);
      TrimIdempotent(s);
      assert NameKey(Trim(s)) == NameKey(s);
      TrimSpec(s);
      TrimSpec(CellText(CellAt(row, cols.address)));
      TrimSpec(CellText(CellAt(row, cols.town)));
      TrimSpec(CellText(CellAt(row, cols.comments)));
      TrimSpec(CellText(CellAt(row, cols.meetingNotes)));
    }
  }

  /** Every candidate of the data rows is clean. */
  lemma {:induction false} CandidatesClean(rows: seq<Row>, cols: ColumnMap)
    ensures forall loc :: loc in Candidates(rows, cols) ==> Clean(loc)
    decreases |rows|
  {
    if |rows| > 0 {
      var n := |rows| - 1;
      CandidatesClean(rows[..n], cols);
      CandidateShape(rows[n], cols);
    }
  }

  /** Everything the import of a sheet with a header row promises: each record
      is clean and comes from a data row, keys are distinct, and every key
      any data row offers is present. */
  lemma ImportedProperties(sheet: Sheet)
    requires |sheet| > 0
    ensures forall loc :: loc in Imported(sheet) ==> Clean(loc)
    ensures forall i, j :: 0 <= i < j < |Imported(sheet)| ==>
              NameKey(Imported(sheet)[i].name) != NameKey(Imported(sheet)[j].name)
    ensures KeysOf(Imported(sheet), LocationKey)
         == KeysOf(Candidates(sheet[1..], MapHeader(sheet[0])), LocationKey)
  {
    var c := Candidates(sheet[1..], MapHeader(sheet[0]));
    CandidatesClean(sheet[1..], MapHeader(sheet[0]));
    var idx := FirstOccurrencesSelect(c, LocationKey);
    FirstOccurrencesDistinct(c, LocationKey);
    FirstOccurrencesKeys(c, LocationKey);
  }

  lemma {:induction false} CandidatesWithoutName(rows: seq<Row>, cols: ColumnMap)
    requires cols.name.None?
    ensures Candidates(rows, cols) == []
    decreases |rows|
  {
    if |rows| > 0 {
      CandidatesWithoutName(rows[..|rows| - 1], cols);
    }
  }

  /** A sheet whose header has no "location" column imports nothing. */
  lemma NoNameColumnImportsNothing(sheet: Sheet)
    requires |sheet| > 0
    requires forall i :: 0 <= i < |sheet[0]| ==> Trim(Lower(CellText(sheet[0][i]))) != "location"
    ensures Imported(sheet) == []
  {
    var cols := MapHeader(sheet[0]);
    MapHeaderCorrect(sheet[0]);
    var roles := HeaderRoles(sheet[0]);
    assert ColumnFor(roles, NameColumn, Column(cols, NameColumn));
    CandidatesWithoutName(sheet[1..], cols);
  }
}
