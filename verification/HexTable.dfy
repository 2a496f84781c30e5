/** Hexadecimal digits as they are written. */
module HexTable {
  import opened Bytes

  const SMALL: string := "0123456789abcdef"
  const CAPITAL: string := "0123456789ABCDEF"

  /** The character `c` stands for the digit `n`. */
  predicate Spells(c: byte, n: nat) { n < 16 && (c == SMALL[n] as int || c == CAPITAL[n] as int) }

  /** Four digits, most significant first. */
  predicate SpellsUnit(q: Str, n: nat) {
    && |q| == 4
    && Spells(q[0], n / 0x1000) && Spells(q[1], n / 0x100 % 16) && Spells(q[2], n / 16 % 16) && Spells(q[3], n % 16)
  }

  /** A character stands for one digit at most. */
  lemma SpellsOnce(c: byte, m: nat, n: nat)
    requires Spells(c, m) && Spells(c, n)
    ensures m == n
  {
  }
}
