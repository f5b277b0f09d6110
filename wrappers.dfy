/** The optional value that every Core Image stage and image render produces. */
module Wrappers {

  /** `None` stands for Swift's `nil`: the stage produced no image. */
  datatype Option<+T> = None | Some(value: T)
}
