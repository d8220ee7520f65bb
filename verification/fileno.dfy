/** `faulthandler_get_fileno`: turning a Python file object into the file
    descriptor the signal handlers write to, and the Python exceptions the
    entry points raise. */
module Fileno {
  import opened Wrappers

  /** `INT_MAX` and the range of a C `long` on an LP64 platform. */
  const IntMax: int := 0x7fff_ffff
  const LongMin: int := -0x8000_0000_0000_0000
  const LongMax: int := 0x7fff_ffff_ffff_ffff

  const InvalidFdMessage: string := "file.fileno() is not a valid file descriptor"

  /** The exceptions an entry point reports to its Python caller.
      `Propagated` is an exception raised by a Python method the entry point
      called (`file.fileno()`), passed on unchanged. */
  datatype PyError =
    | RuntimeError(msg: string)
    | ValueError(msg: string)
    | OSError
    | Propagated

  /** What `file.fileno()` returned: an integer object or something else. */
  datatype PyObj = PyInt(n: int) | OtherObject

  /** The outcome of calling `file.fileno()`. */
  datatype FilenoCall = Raises | Returns(obj: PyObj)

  /** `PyLong_AsLong`: a value outside the range of `long` comes back as -1
      (with an OverflowError the caller then replaces). */
  function AsLong(n: int): int
  {
    if LongMin <= n <= LongMax then n else -1
  }

  /** `faulthandler_get_fileno(file)`. A `fileno()` that raises propagates
      its exception; a result that is not an integer strictly between 0 and
      `INT_MAX` raises RuntimeError; otherwise the descriptor is returned. The
      following `flush()` call has no effect on the result (its error is
      cleared), so it is not a parameter. */
  function GetFileno(call: FilenoCall): (r: Result<int, PyError>)
    ensures r.Success? <==> call.Returns? && call.obj.PyInt? && 0 < call.obj.n < IntMax
    ensures r.Success? ==> r.value == call.obj.n && 0 < r.value < IntMax
    ensures call.Raises? ==> r == Failure(Propagated)
    ensures call.Returns? && r.Failure? ==> r.error == RuntimeError(InvalidFdMessage)
  {
    match call
    case Raises => Failure(Propagated)
    case Returns(obj) =>
      var fdLong := if obj.PyInt? then AsLong(obj.n) else -1;
      if 0 < fdLong < IntMax then Success(fdLong)
      else Failure(RuntimeError(InvalidFdMessage))
  }
}
