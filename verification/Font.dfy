/** Glyph rows: a byte a row, the leftmost pixel in the highest bit. */
module Font {
  /** Bit x of a glyph row, leftmost pixel first. */
  predicate Bit(row: bv8, x: nat)
    requires x < 8
  {
    row & (0x80 >> x) > 0
  }

  /** Binary digits read from the left. */
  function Binary(bits: seq<bool>): nat {
    if bits == [] then 0 else 2 * Binary(bits[..|bits| - 1]) + Weight(bits[|bits| - 1], 1)
  }

  function Weight(bit: bool, w: nat): nat {
    if bit then w else 0
  }

  lemma BinaryNext(bits: seq<bool>, k: nat)
    requires k < |bits|
    ensures Binary(bits[..k + 1]) == 2 * Binary(bits[..k]) + Weight(bits[k], 1)
  {
    assert bits[..k + 1][..k] == bits[..k];
  }

  lemma BinaryFour(b: seq<bool>, k: nat)
    requires k + 4 <= |b|
    ensures Binary(b[..k + 4]) == 16 * Binary(b[..k]) + Weight(b[k], 8) + Weight(b[k + 1], 4)
                                  + Weight(b[k + 2], 2) + Weight(b[k + 3], 1)
  {
    BinaryNext(b, k);
    BinaryNext(b, k + 1);
    BinaryNext(b, k + 2);
    BinaryNext(b, k + 3);
  }

  lemma BinaryEight(b: seq<bool>)
    requires |b| == 8
    ensures Binary(b) == Weight(b[0], 128) + Weight(b[1], 64) + Weight(b[2], 32) + Weight(b[3], 16)
                         + Weight(b[4], 8) + Weight(b[5], 4) + Weight(b[6], 2) + Weight(b[7], 1)
  {
    BinaryStart(b);
    BinaryFour(b, 0);
    BinaryFour(b, 4);
  }

  lemma BinaryStart(b: seq<bool>)
    ensures Binary(b[..0]) == 0 && b[..|b|] == b
  {
  }

  lemma BitSum(row: bv8)
    ensures row as int
         == Weight(Bit(row, 0), 128) + Weight(Bit(row, 1), 64) + Weight(Bit(row, 2), 32) + Weight(Bit(row, 3), 16)
            + Weight(Bit(row, 4), 8) + Weight(Bit(row, 5), 4) + Weight(Bit(row, 6), 2) + Weight(Bit(row, 7), 1)
  {
  }

  /** The pixels are those of the row. */
  predicate Shows(bits: seq<bool>, row: bv8) {
    |bits| == 8 && forall x :: 0 <= x < 8 ==> bits[x] == Bit(row, x)
  }

  lemma ShowsSum(bits: seq<bool>, row: bv8)
    requires Shows(bits, row)
    ensures row as int == Weight(bits[0], 128) + Weight(bits[1], 64) + Weight(bits[2], 32) + Weight(bits[3], 16)
                          + Weight(bits[4], 8) + Weight(bits[5], 4) + Weight(bits[6], 2) + Weight(bits[7], 1)
  {
    BitSum(row);
  }

  /** The eight pixels of a glyph row, read from the left as binary digits, are its byte. */
  lemma RowReads(bits: seq<bool>, row: bv8)
    requires Shows(bits, row)
    ensures Binary(bits) == row as int
  {
    BinaryEight(bits);
    ShowsSum(bits, row);
  }
}
