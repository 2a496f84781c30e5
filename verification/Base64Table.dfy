/** The alphabet and the blocks of base64 (RFC 4648, sections 4 and 5), by literal table. */
module Base64Table {
  import opened Bytes
  import opened Base64

  // The alphabet of RFC 4648, section 5, in rows of sixteen.
  const ROW0: string := "ABCDEFGHIJKLMNOP"
  const ROW1: string := "QRSTUVWXYZabcdef"
  const ROW2: string := "ghijklmnopqrstuv"
  const ROW3: string := "wxyz0123456789-_"

  lemma LetterIs(i: nat)
    requires i < 16
    ensures Letter(i) == ROW0[i] as int && Letter(i + 16) == ROW1[i] as int
    ensures Letter(i + 32) == ROW2[i] as int && Letter(i + 48) == ROW3[i] as int
  {
    FirstRows(i);
    LastRows(i);
  }

  lemma FirstRows(i: nat)
    requires i < 16
    ensures Letter(i) == ROW0[i] as int && Letter(i + 16) == ROW1[i] as int
  {
  }

  lemma LastRows(i: nat)
    requires i < 16
    ensures Letter(i + 32) == ROW2[i] as int && Letter(i + 48) == ROW3[i] as int
  {
  }

  /** The four positions of a block carry the 24 bits of its three bytes, most significant first. */
  lemma BlockIsNumber(a: byte, b: byte, c: byte, p: nat, q: nat, r: nat, t: nat)
    requires p < 64 && q < 64 && r < 64 && t < 64
    requires 0x4_0000 * p + 0x1000 * q + 0x40 * r + t == 0x1_0000 * (a as int) + 0x100 * (b as int) + c
    ensures Quad(a, b, c) == [Letter(p), Letter(q), Letter(r), Letter(t)]
  {
    hide Letter;
    var q2, r2: nat := a % 4 * 16 + b / 16, b % 16 * 4 + c / 64;
    Parts(a, b, c);
    LastDigit(0x1000 * p + 0x40 * q + r, t, 0x1000 * (a / 4) + 0x40 * q2 + r2, c % 64);
    LastDigit(0x40 * p + q, r, 0x40 * (a / 4) + q2, r2);
    LastDigit(p, q, a / 4, q2);
  }

  lemma Parts(a: byte, b: byte, c: byte)
    ensures a % 4 * 16 + b / 16 < 64 && b % 16 * 4 + c / 64 < 64
    ensures 0x1_0000 * (a as int) + 0x100 * (b as int) + c
         == 64 * (0x1000 * (a / 4) + 0x40 * (a % 4 * 16 + b / 16) + (b % 16 * 4 + c / 64)) + c % 64
  {
    assert a == 4 * (a / 4) + a % 4 && b == 16 * (b / 16) + b % 16 && c == 64 * (c / 64) + c % 64;
  }

  lemma LastDigit(x: nat, t: nat, y: nat, u: nat)
    requires t < 64 && u < 64 && 64 * x + t == 64 * y + u
    ensures x == y && t == u
  {
  }
}
