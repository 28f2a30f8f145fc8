/** The exceptions the modelled code throws, told apart by their error code and occasion. */
module Errors {
  datatype Fault =
    | NoEndpoint
    | EmptyHost
    | DuplicateEndpoint(host: string, port: nat)
    | IndexOutOfRange
    | EmptyDatabase
    | EmptyMeasurement
    | EmptyFields

  /** Where in one HTTP exchange the network let the client down. */
  datatype Phase = Create | Write | Read | Shutdown

  datatype Error =
    | InvalidArgument(fault: Fault)
    | NoAvailableServer
    | UnexpectedStatusCode(code: nat)
    | Network(phase: Phase)
}
