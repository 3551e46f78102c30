/** Optional values and results with an error, as the services use them
    (a Prisma `findFirst` that finds nothing, an exception thrown by a service). */
module Wrappers {

  datatype Option<+T> = None | Some(value: T)

  datatype Result<+T, +E> = Ok(value: T) | Err(error: E)
}
