/** Values shared by the storage, the placements and the tables. */
module Entries {

  datatype Option<+T> = None | Some(value: T)

  /** What a slot stores: the quotient of the key and the satellite value (`()` for a set). */
  datatype Entry<+V> = Entry(quotient: nat, value: V)

  /** A pointer to an entry: an element of the dense array of a bucket.  `Null` is the default
      constructed pointer that an empty bucket hands out. */
  datatype Ptr = Null | Ptr(bucket: nat, offset: nat)

  /** The result of a lookup or insertion (`generic_entry_t`). */
  datatype EntryRef = NotFound | Found(id: nat, keyAlreadyExist: bool, ptr: Ptr)
}
