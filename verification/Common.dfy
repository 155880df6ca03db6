/** What several modules share. */
module Common {

  datatype Option<T> = None | Some(value: T)

  newtype Byte = b: int | 0 <= b < 256
  type Bytes = seq<Byte>

  function Min(a: nat, b: nat): nat {
    if a < b then a else b
  }

  lemma Regroup<T>(a: seq<T>, b: seq<T>, c: seq<T>)
    ensures a + b + c == a + (b + c)
  {
  }

  /** One more than the largest 64-bit number. */
  const WORD: nat := 0x1_0000_0000_0000_0000
}
