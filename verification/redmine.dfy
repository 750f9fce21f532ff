/** The records the tracker delivers and the records the service returns. */
module Redmine {
  import opened Wrappers

  /** A calendar date. */
  datatype Date = Date(year: int, month: int, day: int)

  /** `a > b` on dates: (year, month, day) compared lexicographically. */
  predicate Later(a: Date, b: Date) {
    || a.year > b.year
    || (a.year == b.year && a.month > b.month)
    || (a.year == b.year && a.month == b.month && a.day > b.day)
  }

  /** What reading an issue's `start_date` yields. */
  datatype StartDate =
    | NoStartDate          // the issue has no `start_date` attribute
    | Unreadable           // the attribute is listed, but reading it fails
    | StartsOn(date: Date)

  /** A relation exactly as the tracker reports it; it is not relative to the issue carrying it. */
  datatype Relation = Relation(relationType: string, issueId: int, issueToId: int)

  /** An open issue as fetched; absent attributes are `None`. */
  datatype Issue = Issue(
    id: int,
    assignee: Option<int>,       // `assigned_to.id`
    parent: Option<int>,         // `parent.id`
    startDate: StartDate,
    subject: Option<string>,
    description: Option<string>,
    doneRatio: Option<int>,
    relations: seq<Relation>)

  /** One element of the `issues` list of the response. */
  datatype Entry = Entry(
    uri: string,
    localId: int,
    subject: Option<string>,
    description: Option<string>,
    doneRatio: Option<int>,
    parentLocalId: Option<int>)
}
