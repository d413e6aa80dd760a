/** Failure-carrying results, bytes and Python's notion of a blank string, shared by the other modules. */
module Wrappers {
  type byte = b: int | 0 <= b < 256

  datatype Option<+T> = None | Some(value: T)

  datatype Result<+T> = Ok(value: T) | Err

  /** The characters Python's `strip` removes. */
  predicate IsBlankChar(c: char) {
    var x := c as int;
    || 9 <= x <= 13 || 28 <= x <= 32 || x == 0x85 || x == 0xA0 || x == 0x1680 || 0x2000 <= x <= 0x200A
    || x == 0x2028 || x == 0x2029 || x == 0x202F || x == 0x205F || x == 0x3000
  }

  predicate IsBlank(s: string) {
    forall c :: c in s ==> IsBlankChar(c)
  }
}
