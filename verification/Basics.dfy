/** What several parts of the model share. */
module Basics {
  datatype Option<T> = None | Some(value: T)

  /** `chip::kInvalidEndpointId`. */
  const INVALID_ENDPOINT: nat := 0xFFFF
}
