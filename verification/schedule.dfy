/** The walk and hike schedules of the month being edited: regenerating them
    when the month changes, adding and removing entries, and editing one
    field of an entry, where picking a location copies its details. */
module Schedule {
  import opened Records
  import opened Results
  import opened Lists
  import opened Calendar

  datatype Kind = Walk | Hike

  /** The two occurrence lists the editor holds. */
  datatype Schedule = Schedule(walks: seq<Occurrence>, hikes: seq<Occurrence>)

  /** The occurrence properties the editor writes. */
  datatype Field = DateField | LocationField | AddressField | TownField | CommentsField | MeetingNotesField

  function ListOf(s: Schedule, kind: Kind): seq<Occurrence>
  {
    match kind
    case Walk => s.walks
    case Hike => s.hikes
  }

  /** `setWalks(list)` or `setHikes(list)`. */
  function WithList(s: Schedule, kind: Kind, list: seq<Occurrence>): (r: Schedule)
    ensures ListOf(r, kind) == list
    ensures forall other :: other != kind ==> ListOf(r, other) == ListOf(s, other)
  {
    match kind
    case Walk => s.(walks := list)
    case Hike => s.(hikes := list)
  }

  function Get(o: Occurrence, field: Field): string
  {
    match field
    case DateField => o.date
    case LocationField => o.location
    case AddressField => o.address
    case TownField => o.town
    case CommentsField => o.comments
    case MeetingNotesField => o.meetingNotes
  }

  /** `o[field] = value`. */
  function SetField(o: Occurrence, field: Field, value: string): (r: Occurrence)
    ensures Get(r, field) == value
    ensures forall other :: other != field ==> Get(r, other) == Get(o, other)
  {
    match field
    case DateField => o.(date := value)
    case LocationField => o.(location := value)
    case AddressField => o.(address := value)
    case TownField => o.(town := value)
    case CommentsField => o.(comments := value)
    case MeetingNotesField => o.(meetingNotes := value)
  }

  /** `locations.find(loc => loc.location === name)`: the index of the first
      entry with exactly that name. */
  function FindByName(dir: seq<Location>, name: string): (r: Option<nat>)
    ensures r.Some? ==>
              r.value < |dir| && dir[r.value].name == name
              && forall j :: 0 <= j < r.value ==> dir[j].name != name
    ensures r.None? ==> forall j :: 0 <= j < |dir| ==> dir[j].name != name
  {
    if |dir| == 0 then None
    else if dir[0].name == name then Some(0)
    else match FindByName(dir[1..], name)
      case Some(i) => Some(i + 1)
      case None => None
  }

  /** The snapshot a picked location leaves in an occurrence. */
  predicate HasDetailsOf(o: Occurrence, loc: Location)
  {
    o.address == loc.address && o.town == loc.town
    && o.comments == loc.comments && o.meetingNotes == loc.meetingNotes
  }

  /** `handleLocationChange(type, index, field, value)`: set one field of
      one entry. Setting the location to a name in the directory also copies
      that location's address, town, comments and meeting notes, and keeps
      the date; a name that matches nothing changes only the location field.
      The source reads `list[index]` unchecked, so the index must be in
      range. */
  function ChangeOccurrence(s: Schedule, kind: Kind, index: nat, field: Field, value: string,
                            dir: seq<Location>): (r: Schedule)
    requires index < |ListOf(s, kind)|
    ensures forall other :: other != kind ==> ListOf(r, other) == ListOf(s, other)
    ensures |ListOf(r, kind)| == |ListOf(s, kind)|
    ensures forall j :: 0 <= j < |ListOf(s, kind)| && j != index ==>
              ListOf(r, kind)[j] == ListOf(s, kind)[j]
    ensures Get(ListOf(r, kind)[index], field) == value
    ensures var copied := field == LocationField && FindByName(dir, value).Some?;
            && (copied ==> HasDetailsOf(ListOf(r, kind)[index], dir[FindByName(dir, value).value]))
            && (copied ==> Get(ListOf(r, kind)[index], DateField) == Get(ListOf(s, kind)[index], DateField))
            && (!copied ==> forall other :: other != field ==>
                  Get(ListOf(r, kind)[index], other) == Get(ListOf(s, kind)[index], other))
  {
    var list := ListOf(s, kind);
    var edited := SetField(list[index], field, value);
    var entry :=
      if field == LocationField then
        match FindByName(dir, value)
        case Some(i) =>
          edited.(address := dir[i].address, town := dir[i].town,
                  comments := dir[i].comments, meetingNotes := dir[i].meetingNotes)
        case None => edited
      else edited;
    WithList(s, kind, ReplaceAt(list, index, entry))
  }

  /** `addEntry(type)`: append a blank entry. */
  function AddEntry(s: Schedule, kind: Kind): (r: Schedule)
    ensures ListOf(r, kind) == ListOf(s, kind) + [BlankOccurrence]
    ensures forall other :: other != kind ==> ListOf(r, other) == ListOf(s, other)
  {
    WithList(s, kind, ListOf(s, kind) + [BlankOccurrence])
  }

  /** `removeEntry(type, index)`: `splice(index, 1)` on a copy, which removes
      nothing when the index is past the end. */
  function RemoveEntry(s: Schedule, kind: Kind, index: nat): (r: Schedule)
    ensures forall other :: other != kind ==> ListOf(r, other) == ListOf(s, other)
    ensures index >= |ListOf(s, kind)| ==> r == s
    ensures index < |ListOf(s, kind)| ==>
              var before, after := ListOf(s, kind), ListOf(r, kind);
              && |after| == |before| - 1
              && (forall j :: 0 <= j < index ==> after[j] == before[j])
              && (forall j :: index <= j < |after| ==> after[j] == before[j + 1])
  {
    if index < |ListOf(s, kind)| then WithList(s, kind, RemoveAt(ListOf(s, kind), index))
    else s
  }

  /** Adding an entry and then removing the last entry gives back the
      schedule. */
  lemma AddThenRemoveRestores(s: Schedule, kind: Kind)
    ensures RemoveEntry(AddEntry(s, kind), kind, |ListOf(s, kind)|) == s
  {
    var r := RemoveEntry(AddEntry(s, kind), kind, |ListOf(s, kind)|);
    assert ListOf(r, kind) == ListOf(s, kind);
    match kind
    case Walk => assert r.hikes == s.hikes;
    case Hike => assert r.walks == s.walks;
  }

  /** Making the same change twice is the same as making it once. */
  lemma ChangeIdempotent(s: Schedule, kind: Kind, index: nat, field: Field, value: string,
                         dir: seq<Location>)
    requires index < |ListOf(s, kind)|
    ensures var once := ChangeOccurrence(s, kind, index, field, value, dir);
            ChangeOccurrence(once, kind, index, field, value, dir) == once
  {
  }

  function Digit(n: int): (c: char)
    requires 0 <= n < 10
    ensures '0' <= c <= '9'
  {
    (48 + n) as char
  }

  function DigitValue(c: char): int
  {
    c as int - 48
  }

  /** `'2-digit'`: a number below 100 with a leading zero. */
  function TwoDigits(n: int): (s: string)
    requires 0 <= n < 100
    ensures |s| == 2 && DigitValue(s[0]) * 10 + DigitValue(s[1]) == n
  {
    [Digit(n / 10), Digit(n % 10)]
  }

  /** `toLocaleDateString('en-US', { month: '2-digit', day: '2-digit',
      year: '2-digit' })`: "MM/DD/YY". */
  function DateLabel(d: Date): (text: string)
    requires Valid(d)
  {
    TwoDigits(d.month) + "/" + TwoDigits(d.day) + "/" + TwoDigits(d.year % 100)
  }

  /** The label can be read back: it is "MM/DD/YY" with the date's month,
      day and two-digit year. */
  lemma DateLabelReadsBack(d: Date)
    requires Valid(d)
    ensures var text := DateLabel(d);
            && |text| == 8 && text[2] == '/' && text[5] == '/'
            && DigitValue(text[0]) * 10 + DigitValue(text[1]) == d.month
            && DigitValue(text[3]) * 10 + DigitValue(text[4]) == d.day
            && DigitValue(text[6]) * 10 + DigitValue(text[7]) == d.year % 100
  {
    var m, dd, y := TwoDigits(d.month), TwoDigits(d.day), TwoDigits(d.year % 100);
    assert DateLabel(d) == [m[0], m[1], '/', dd[0], dd[1], '/', y[0], y[1]];
  }

  /** `mondays.map(monday => ({ date: ..., location: '', ... }))`. */
  function DefaultWalks(mondays: seq<Date>): (walks: seq<Occurrence>)
    requires forall k :: 0 <= k < |mondays| ==> Valid(mondays[k])
    ensures |walks| == |mondays|
    ensures forall k :: 0 <= k < |walks| ==> walks[k] == BlankOccurrence.(date := DateLabel(mondays[k]))
  {
    seq(|mondays|, k requires 0 <= k < |mondays| => BlankOccurrence.(date := DateLabel(mondays[k])))
  }

  /** `generateDefaultWalks` and `generateDefaultHikes`, run when the month
      or year changes: one blank walk per Monday of the month, dated, and no
      hikes. Earlier edits to both lists are discarded. `mondays` are the
      dates the walks were made from. */
  method Regenerate(month: int, year: int) returns (s: Schedule, mondays: seq<Date>)
    ensures s.hikes == []
    ensures !(1 <= month <= 12) ==> s.walks == [] && mondays == []
    ensures 1 <= month <= 12 ==>
              ExactlyWeekdays(mondays, FullYear(year), month, 1)
              && |s.walks| == |mondays|
              && forall k :: 0 <= k < |mondays| ==>
                   s.walks[k] == BlankOccurrence.(date := DateLabel(mondays[k]))
  {
    mondays := MondaysInMonth(month, year);
    s := Schedule(DefaultWalks(mondays), []);
  }
}
