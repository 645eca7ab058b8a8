/** The location record and the occurrence record (a walk or a hike). */
module Records {

  /** One entry of the location directory. `name` is the record's `location`
      property, the name shown in the pickers and used as the import key.
      A record always has all five fields. */
  datatype Location = Location(
    name: string,
    address: string,
    town: string,
    comments: string,
    meetingNotes: string)

  /** One scheduled walk or hike. The four descriptive fields are a snapshot
      copied from a `Location` when one is picked, editable thereafter. */
  datatype Occurrence = Occurrence(
    date: string,
    location: string,
    address: string,
    town: string,
    comments: string,
    meetingNotes: string)

  const BlankLocation := Location("", "", "", "", "")

  const BlankOccurrence := Occurrence("", "", "", "", "", "")
}
