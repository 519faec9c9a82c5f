/** Optional values, results and the handler's failure classes with their exit codes. */
module Outcomes {

  datatype Option<T> = None | Some(value: T)

  /** The exceptions the handler throws. Each carries the code PHP attaches to it. */
  datatype Failure =
    | ProtocolMismatch(actualScheme: string)
    | UnsupportedAction(actualAction: string)
    | MissingParameter(name: string)
    | InvalidBoundary(rootDir: string, currentDir: string)
    | ForkFailed(command: string)
    | ValueError   // array_combine on a window line with fewer than four fields

  datatype Result<T> = Success(value: T) | Failure(error: Failure)

  /** The code given to the exception when it is constructed (0 when none is given). */
  function Code(f: Failure): nat
  {
    match f
    case ProtocolMismatch(_) => 2
    case UnsupportedAction(_) => 3
    case MissingParameter(_) => 4
    case InvalidBoundary(_, _) => 0
    case ForkFailed(_) => 5
    case ValueError => 0
  }

  /** The process exit status: 0 on success, else the exception's code, or 1 when that code is 0. */
  function ExitCode<T>(r: Result<T>): (code: nat)
    ensures r.Success? <==> code == 0
    ensures r.Failure? ==> code == Code(r.error) || (Code(r.error) == 0 && code == 1)
  {
    match r
    case Success(_) => 0
    case Failure(f) => if Code(f) == 0 then 1 else Code(f)
  }

  /** Every failure class the dispatcher may want to tell apart gets its own exit status. */
  lemma ExitCodesDistinguishFailures<T>(r: Result<T>, s: Result<T>)
    requires r.Failure? && s.Failure?
    requires r.error.ProtocolMismatch? || r.error.UnsupportedAction? || r.error.MissingParameter? || r.error.ForkFailed?
    requires ExitCode(r) == ExitCode(s)
    ensures r.error.ProtocolMismatch? <==> s.error.ProtocolMismatch?
    ensures r.error.UnsupportedAction? <==> s.error.UnsupportedAction?
    ensures r.error.MissingParameter? <==> s.error.MissingParameter?
    ensures r.error.ForkFailed? <==> s.error.ForkFailed?
  {
  }
}
