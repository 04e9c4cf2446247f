/** The two layouts of kernel/drivers/keyboard.c. */
module KeyTables {
  import opened Bytes
  import opened Fat
  import opened Keyboard
  import opened Typing

  function Zeros(n: nat): (z: seq<byte>)
    ensures |z| == n
  {
    seq(n, _ => 0)
  }

  /** What shift does to digits and signs. */
  const US_SHIFT: map<byte, byte> := map[
    49 := 33, 50 := 64, 51 := 35, 52 := 36, 53 := 37, 54 := 94, 55 := 38, 56 := 42, 57 := 40, 48 := 41, 45 := 95,
    61 := 43, 91 := 123, 93 := 125, 59 := 58, 39 := 34, 96 := 126, 92 := 124, 44 := 60, 46 := 62, 47 := 63
  ]
  const CA_SHIFT: map<byte, byte> := map[
    49 := 33, 50 := 34, 51 := 47, 52 := 36, 53 := 37, 54 := 63, 55 := 38, 56 := 42, 57 := 40, 48 := 41, 45 := 95,
    61 := 43, 0x85 := 0xB7, 0x8A := 0xD4, 0x82 := 0x90, 0x87 := 0x80, 0x97 := 0xD6, 94 := 0xA8, 59 := 58, 44 := 60,
    46 := 62, 39 := 34
  ]

  const DIGIT_ROW: seq<byte> := [0, 27] + Ascii("1234567890-=") + [BACKSPACE, 9]

  const EN_US: Layout := LayoutTable(
    DIGIT_ROW + Ascii("qwertyuiop[]\n") + [0] + Ascii("asdfghjkl;'`") + [0] + Ascii("\\zxcvbnm,./") + [0]
    + Ascii("*0 ") + Zeros(70), US_SHIFT)

  const FR_CA: Layout := LayoutTable(
    DIGIT_ROW + Ascii("qwertyuiop^") + [0x87, NEWLINE, 0] + Ascii("asdfghjkl;") + [0x8A, 0x85, 0, 0x97]
    + Ascii("zxcvbnm,.") + [0x82, 0] + Ascii("*") + [0] + Ascii(" ") + Zeros(70), CA_SHIFT)

  /** In every layout shift makes small letters capitals. */
  lemma ShiftLetters(l: Layout, c: byte)
    requires 97 <= c <= 122
    ensures l.Shift(c) == Upper(c)
  {
  }

  /** The keys C, A, T, space, A, dot, T, X, T and enter. */
  const CAT_KEYS: seq<byte> := [0x2E, 0x1E, 0x14, 0x39, 0x1E, 0x34, 0x14, 0x2D, 0x14, 0x1C]

  lemma CatKeys(l: Layout)
    requires l == EN_US || l == FR_CA
    ensures forall k :: 0 <= k < 10 ==> l.table[CAT_KEYS[k]] == Ascii("cat a.txt\n")[k]
  {
  }

  /** In both layouts they spell the command. */
  lemma KeysSpellCat(l: Layout)
    requires l == EN_US || l == FR_CA
    ensures Typed(l, Codes(CAT_KEYS)) == Ascii("cat a.txt\n")
  {
    CatKeys(l);
    KeysType(l, [], CAT_KEYS, [], false, l, Ascii("cat a.txt\n"));
    assert [] + Codes(CAT_KEYS) == Codes(CAT_KEYS) && [] + Ascii("cat a.txt\n") == Ascii("cat a.txt\n");
  }

  /** The keys A, Z and 1. */
  const SHIFT_KEYS: seq<byte> := [0x1E, 0x2C, 0x02]

  lemma ShiftKeysTable(l: Layout)
    requires l == EN_US || l == FR_CA
    ensures l.table[0x1E] == 97 && l.table[0x2C] == 122 && l.table[0x02] == 49
  {
  }

  lemma ShiftOne(l: Layout)
    requires l == EN_US || l == FR_CA
    ensures l.Shift(97) == 65 && l.Shift(122) == 90 && l.Shift(49) == 33
  {
  }

  lemma ShiftKeysChars(l: Layout, chars: seq<byte>)
    requires l.table[0x1E] == 97 && l.table[0x2C] == 122 && l.table[0x02] == 49
    requires l.Shift(97) == 65 && l.Shift(122) == 90 && l.Shift(49) == 33
    requires chars == [65, 90, 33]
    ensures forall k :: 0 <= k < 3 ==> l.Char(SHIFT_KEYS[k], true) == chars[k]
  {
  }

  /** With the left shift key held they are capitals and the exclamation mark. */
  lemma KeysSpellCapitals(l: Layout)
    requires l == EN_US || l == FR_CA
    ensures Typed(l, [Code(0x2A)] + Codes(SHIFT_KEYS) + [Code(0xAA)]) == Ascii("AZ!")
  {
    ShiftKeysTable(l);
    ShiftOne(l);
    assert Ascii("AZ!") == [65, 90, 33];
    ShiftKeysChars(l, Ascii("AZ!"));
    ShiftedKeysType(l, [], SHIFT_KEYS, [], l, Ascii("AZ!"));
    assert [] + [Code(0x2A)] == [Code(0x2A)] && [] + Ascii("AZ!") == Ascii("AZ!");
  }
}
