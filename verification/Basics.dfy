/** Small definitions shared by several modules. */
module Basics {
  datatype Option<+T> = None | Some(value: T)

  function One(yes: bool): nat {
    if yes then 1 else 0
  }

  function Max(a: nat, b: nat): nat {
    if a >= b then a else b
  }

  function Without<T>(s: seq<T>, i: nat): seq<T>
    requires i < |s|
  {
    s[..i] + s[i + 1..]
  }
}
