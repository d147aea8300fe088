/** Optional values: `None` stands for the calculator's "no value" states
    (a field that does not parse, a `null` GPA, the `'N/A'` CGPA). */
module Wrappers {
  datatype Option<+T> = None | Some(value: T)
}
