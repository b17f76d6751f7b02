/** The lesser and the greater of two amounts (Math.min and Math.max). */
module Bounds {
  function Min(a: real, b: real): real
  {
    if a <= b then a else b
  }

  function Max(a: real, b: real): real
  {
    if a >= b then a else b
  }
}
