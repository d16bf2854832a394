/** Numbers below 256 and their eight bits. */
module ByteWidth {
  lemma Octet(b: int)
    requires 0 <= b < 0x100
    ensures (b as bv8) as int == b
  {}
}
