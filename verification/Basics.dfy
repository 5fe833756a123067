/** What several modules share. */
module Basics {
  type byte = b: int | 0 <= b < 256

  datatype Option<T> = None | Some(value: T)

  type Labels = map<string, string>

  /** The value of a label; a missing one reads as empty. */
  function LabelOrEmpty(labels: Labels, key: string): string {
    if key in labels then labels[key] else ""
  }
}
