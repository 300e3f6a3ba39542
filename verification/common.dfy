/** Small shared vocabulary: an optional value, used where the source has
    `T | null` state or a lookup that may find nothing. */
module Common {

  datatype Option<+T> = None | Some(value: T)
}
