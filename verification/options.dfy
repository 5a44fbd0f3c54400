/** The Option type: `None` stands for a `NaN` result or a key that is not in `DIRECTIONS`. */
module Options {

  datatype Option<+T> = None | Some(value: T)
}
