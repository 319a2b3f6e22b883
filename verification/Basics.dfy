/** Types and predicates shared by several kernels. */
module Basics {

  datatype Option<+T> = None | Some(value: T)

  datatype Result<+T, +E> = Ok(value: T) | Err(error: E)

  /** `xs` comes out of `ys` by leaving elements away. */
  ghost predicate Subsequence<T>(xs: seq<T>, ys: seq<T>) {
    || xs == []
    || (ys != [] && xs[0] == ys[0] && Subsequence(xs[1..], ys[1..]))
    || (ys != [] && Subsequence(xs, ys[1..]))
  }

  /** The Unicode `White_Space` characters, as Rust's `char::is_whitespace` has them. */
  predicate IsWhitespace(c: char) {
    var u := c as int;
    9 <= u <= 13 || u == 32 || u == 0x85 || u == 0xA0 || u == 0x1680 || 0x2000 <= u <= 0x200A ||
    u == 0x2028 || u == 0x2029 || u == 0x202F || u == 0x205F || u == 0x3000
  }
}
