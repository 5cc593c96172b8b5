/** Machine words as numbers in their range. */
module Words {
  type Byte = x: nat | x < 0x100
  type U32 = x: nat | x < 0x1_0000_0000
}
