/** Definitions that most modules share. */
module Options {
  datatype Option<+T> = None | Some(value: T)

  /** A sequence without its element at `i`. */
  function Without<T>(s: seq<T>, i: nat): (rest: seq<T>)
    requires i < |s|
  {
    s[..i] + s[i + 1..]
  }
}
