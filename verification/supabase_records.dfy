/** Shapes of the records read from the hosted database; only the hint record
    is used by the modelled logic. */
module SupabaseRecords {
  import opened Wrappers

  /** One hint of a puzzle; the optional text fields are `null` when absent. */
  datatype Hint = Hint(
    id: string,
    puzzleId: string,
    hintOrder: int,
    contentType: string,
    hintText: Option<string>,
    imageUrl: Option<string>,
    imageCaption: Option<string>)
}
