// Elements of the benchmarks' arrays: posits by their encodings. What arithmetic does to them is a
// parameter of the kernels.
module Elements {

  datatype Elt = Elt(bits: nat)

  const ZERO := Elt(0)

  // Unary minus of the program flips bit 31 of the encoding.
  function Minus(e: Elt): Elt {
    Elt(if e.bits / 0x8000_0000 % 2 == 0 then e.bits + 0x8000_0000 else e.bits - 0x8000_0000)
  }

  lemma MinusTwice(e: Elt)
    ensures Minus(Minus(e)) == e
  {
  }
}
