/** Vocabulary shared by every container: status codes and optional values. */
module Common {

  // The library's status codes. CopyFailed stands for whatever error an
  // element policy's copy reports.
  datatype Status = Ok | NullPtr | Invalid | Empty | Full | Oom | NotFound | CopyFailed

  datatype Option<+T> = None | Some(value: T)

  const SIZE_MAX: nat := 0xFFFF_FFFF_FFFF_FFFF

  // Decrementing and incrementing an unsigned word.
  function Less1(size: nat): nat {
    if size == 0 then SIZE_MAX else size - 1
  }

  function Plus1(size: nat): nat {
    if size == SIZE_MAX then 0 else size + 1
  }
}
