/** The per-connection record that the client map owns and the commands work on. */
module Clients {

  /** The bit pattern of a C `int` descriptor.  Descriptors are only ever compared and
      hashed, and -1 is the value that means "none". */
  datatype Fd = Fd(word: bv32)

  const NO_FD := Fd(0xffff_ffff)

  const PATH_CAPACITY := 128

  class Client {
    const fd: Fd
    var uid: int
    var code: int
    var preCode: int
    const path: array<char>

    /** A record as it comes out of `calloc`: all fields zero, the path buffer empty. */
    constructor (fd: Fd)
      ensures this.fd == fd && uid == 0 && code == 0 && preCode == 0
      ensures fresh(path) && path.Length == PATH_CAPACITY
      ensures forall i :: 0 <= i < path.Length ==> path[i] == '\0'
    {
      this.fd := fd;
      uid, code, preCode := 0, 0, 0;
      path := new char[PATH_CAPACITY](_ => '\0');
    }
  }
}
