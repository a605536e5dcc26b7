/** Value types shared by every stage of the scratchpad picker. */
module Types {

  /** Rust's `Option<T>`. */
  datatype Option<T> = None | Some(value: T)

  /** A `Result` whose error side is one of the picker's fatal conditions. */
  datatype Result<T> = Ok(value: T) | Err(error: Error)

  /** Window identifiers are `u64` in the manager's tree reply. */
  type u64 = x: int | 0 <= x < 0x1_0000_0000_0000_0000

  /** The conditions that end a run abnormally (each is an `unwrap` on `None` in the program). */
  datatype Error =
    | ScratchpadNotFound   // no node is named `__i3_scratch`
    | MissingWindowId      // a `con` leaf of the scratchpad has no window id
    | UnmatchedSelection   // the chooser answered with text that is no offered label

  /** How one run of the picker ends. */
  datatype Outcome =
    | Failed(error: Error)        // abnormal exit
    | Cancelled                   // the chooser answered with nothing but whitespace
    | Dispatched(command: string) // the command handed to `i3-msg -t command`
}
