/** The rows of the clickstream table at the stages the cleaner takes them through. */
module Events {

  datatype Option<+T> = None | Some(value: T)

  /** A row as loaded from the CSV: five columns, any of which may be missing. */
  datatype RawRow = RawRow(
    userId: Option<int>,
    productId: Option<int>,
    categoryId: Option<int>,
    behaviorType: Option<string>,
    time: Option<int>)

  /** Calendar fields derived from a timestamp: epoch day, hour of day, weekday (0 = Monday). */
  datatype Stamp = Stamp(date: int, hour: int, weekday: int)

  /** Localised behaviour labels; `Unmapped` stands for a code the label map does not know
      (the missing value the relabelling would produce for it). */
  datatype Behavior = Click | Purchase | Cart | Favorite | Unmapped

  /** A fully populated row, `time` in epoch seconds. `stamp` holds the derived date/hour/weekday
      columns once they have been added, `behavior` the localised label once it has been added. */
  datatype Event = Event(
    userId: int,
    productId: int,
    categoryId: int,
    behaviorType: string,
    time: int,
    stamp: Option<Stamp>,
    behavior: Option<Behavior>)
}
