/** Java's 32-bit `int` limit, shared by the model of `Integer.parseInt` and
    the listener's initial cluster size. */
module JavaInt {
  /** Java's `Integer.MAX_VALUE`. */
  const IntMax: int := 0x7fff_ffff
}
