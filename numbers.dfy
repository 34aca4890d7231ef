/** Arithmetic shared by the storage and the passage generator. */
module Numbers {

  /** The larger of two numbers (`Math.max`, and the keep-the-higher update of
      the personal bests). */
  function Max(a: real, b: real): (m: real)
    ensures a <= m && b <= m
    ensures m == a || m == b
  {
    if b > a then b else a
  }
}
