/** What several parts of the system share. */
module Basics {

  datatype Option<T> = None | Some(value: T)

  /** TARGET_PAGE_SIZE. */
  const PAGE_SIZE := 4096
}
