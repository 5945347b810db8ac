/** The editor's toast notifications. Display time and timer handling
    belong to the host page and are not modelled. */
module Notify {
  datatype ToastKind = Info | Success | Error

  datatype Toast = Toast(kind: ToastKind, message: string)

  /** A command's outcome toast: success or error depending on `ok`. */
  function Outcome(ok: bool, success: string, failure: string): (t: Toast)
    ensures t.kind == Success <==> ok
    ensures t.kind == Error <==> !ok
    ensures t.message == if ok then success else failure
  {
    if ok then Toast(Success, success) else Toast(Error, failure)
  }

  const FailureMessage: string := "操作失败"
}
