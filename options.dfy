/** An optional value: a card whose catalog name is missing, a saved list that is absent. */
module Options {

  datatype Option<+T> = None | Some(value: T)
}
