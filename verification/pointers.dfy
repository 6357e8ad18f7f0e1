/** Pointer arguments and output locations of the FreeRTOS+POSIX utilities.

    A C pointer argument that may be NULL is an `Option`: `None` is NULL and
    `Some(v)` is a pointer to a location currently holding `v`. An operation
    that writes through an output pointer returns a `Written`: its integer
    status and the new content of the output location (`None` again when the
    pointer was NULL, the old content when the operation did not write).
 */
module Pointers {

  datatype Option<+T> = None | Some(value: T)

  datatype Written<+T> = Written(status: int, dest: Option<T>)
}
