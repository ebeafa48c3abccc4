// The values of the global error code that the modelled functions can set.
module Errors {
  datatype Error =
    | NoError
    | Internal
    | InvalidArgument
    | HeapFull
    | NoFont
    | IO
    | NotFound
    | NotADirectory
}
