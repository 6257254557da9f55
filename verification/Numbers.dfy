/** Kinds of numbers that all the modules use. */
module Numbers {
  type byte = x: int | 0 <= x < 256
  type pos = n: nat | 0 < n witness 1

  function Max(a: nat, b: nat): nat { if a <= b then b else a }

  function Min(a: nat, b: nat): nat { if a <= b then a else b }
}
