/** Fiber::State of yuyu/fiber.h. */
module FiberStates {
  datatype FiberState = INIT | HOLD | EXEC | TERM | READY | EXCEPT

  predicate Finished(s: FiberState) {
    s.TERM? || s.EXCEPT?
  }

  /** The states a fiber can be in when control comes back from it. */
  type Back = s: FiberState | s != INIT witness HOLD
}
