/** The type signatures of wson.h. */
module Tags {
  import opened Words

  const NULL: u8 := 48          // '0'
  const STRING: u8 := 115       // 's'
  const UINT8_STRING: u8 := 117 // 'u'
  const TRUE: u8 := 116         // 't'
  const FALSE: u8 := 102        // 'f'
  const INT: u8 := 105          // 'i'
  const FLOAT: u8 := 70         // 'F'
  const DOUBLE: u8 := 100       // 'd'
  const LONG: u8 := 108         // 'l'
  const BIG_INT: u8 := 103      // 'g'
  const BIG_DECIMAL: u8 := 101  // 'e'
  const ARRAY: u8 := 91         // '['
  const MAP: u8 := 123          // '{'
}
