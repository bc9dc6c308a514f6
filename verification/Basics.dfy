/** Types and bytes shared by the models. */
module Basics {
  type byte = b: int | 0 <= b < 256
  type bytes = seq<byte>

  const SLASH: byte := 47

  const CAPITAL_LETTERS := "ABCDEFGHIJKLMNOPQRSTUVWXYZ"
  const SMALL_LETTERS := "abcdefghijklmnopqrstuvwxyz"
  const DECIMALS := "0123456789"

  lemma CapitalsInOrder(k: nat)
    requires k < 26
    ensures CAPITAL_LETTERS[k] as int == 65 + k
  {
  }

  lemma SmallLettersInOrder(k: nat)
    requires k < 26
    ensures SMALL_LETTERS[k] as int == 97 + k
  {
  }

  lemma DecimalsInOrder(k: nat)
    requires k < 10
    ensures DECIMALS[k] as int == 48 + k
  {
  }

  datatype Option<+T> = None | Some(value: T)
}
