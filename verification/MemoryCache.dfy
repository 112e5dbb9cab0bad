/** How a call of the two in-memory caches ends. */
module MemoryCache {

  datatype Error = NullKey | ZeroMaxSize

  datatype Outcome =
    | Returned(value: bool)
    | Threw(error: Error)
    | ErasedIterator  // the call goes on with an iterator that eviction has erased; the model stops there
}
