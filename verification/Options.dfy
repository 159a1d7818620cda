/** The optional value used wherever the program has an absent one. */
module Options {
  datatype Option<+T> = None | Some(value: T) {
    function GetOr(default: T): T {
      match this
      case Some(v) => v
      case None => default
    }
  }

  type Byte = b: int | 0 <= b < 256

  type Int32 = n: int | -0x8000_0000 <= n < 0x8000_0000
}
