/**
 The card records the reports and processors read: a project issue with its labels.
 Only the fields the modelled code reads are kept.
 */
module Board {
  import opened Wrappers

  /** A label on an issue; only its name is read. */
  datatype Label = Label(name: string)

  /**
   A project issue card. `body` and `projectColumn` are `None` where the crawled
   record has them undefined (or, for the column, empty).
   */
  datatype Issue = Issue(
    htmlUrl: string,
    title: string,
    body: Option<string>,
    projectColumn: Option<string>,
    labels: seq<Label>)

}
