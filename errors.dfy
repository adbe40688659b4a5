/** The ways `replace_trait` stops the build, and the result type that carries them. */
module Errors {

  datatype Option<T> = None | Some(value: T)

  /** Each failure of build.rs:86-150; the source panics (through `assert!`,
      `unwrap` or an out-of-range index) and the build stops. */
  datatype BuildError =
    | NotFound(family: string)                  // build.rs:95, `assert!(pattern.captures(&buf).is_some())`
    | MalformedParam(piece: string)             // build.rs:101, `pattern_arg.captures(s).unwrap()`
    | MissingHandle(slot: string)               // build.rs:106, `args[0]` on an empty list
    | HandleNotVoid(slot: string)               // build.rs:106, `assert!(args[0].1.trim().ends_with("c_void"))`

  datatype Result<T> = Ok(value: T) | Err(error: BuildError)
}
