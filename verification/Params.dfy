/** The sizes of include/param.h that several modules share. */
module Params {
  const MAXOPBLOCKS: nat := 10              // include/param.h:13
  const LOGSIZE: nat := MAXOPBLOCKS * 3     // include/param.h:14

  /** The space test of begin_op: with n blocks listed and `outstanding` calls running, one call more fits. */
  predicate Fits(n: nat, outstanding: nat) {
    n + (outstanding + 1) * MAXOPBLOCKS <= LOGSIZE
  }
}
