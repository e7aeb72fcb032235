/** Machine words and the option type shared by every component. */
module Words {
  const WORD_LIMIT: int := 0x1_0000_0000

  type u32 = x: int | 0 <= x < WORD_LIMIT

  datatype Option<+T> = None | Some(value: T)
}
