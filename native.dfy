/**
  The host language's own optional and fallible types (`core::option::Option`
  and `core::result::Result`), whose layout is not fixed across compilers and
  which the FFI types stand in for at the boundary.
*/
module Native {

  datatype Option<T> = None | Some(value: T)

  datatype Result<T, E> = Ok(value: T) | Err(error: E)
}
