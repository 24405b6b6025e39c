/** Optional values: `None` stands for the null pointer the C++ code returns or
    for the `std::bad_alloc` it throws. */
module Wrappers {
  datatype Option<+T> = None | Some(value: T)
}
