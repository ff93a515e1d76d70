/** The observable state of a store: `Loadable<[T]>` as the store
    publishes it. */
module Loadable {

  /** Why a load or a save did not succeed. Encoding the list before a
      write is folded into `WriteFailure`. */
  datatype StoreError = ReadFailure | DecodeFailure | WriteFailure

  /** Not yet loaded, loading, loaded with a value, or failed. */
  datatype Loadable<T> = None | Loading | Loaded(value: T) | Error(error: StoreError)
}
