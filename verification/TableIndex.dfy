/** How the two nibbles of a table index select a row of 16 and an entry in it. */
module TableIndex {
  function Row(i: bv16): nat {
    (i >> 4) as int
  }

  function Column(i: bv16): nat {
    (i & 15) as int
  }

  lemma LowNibble(i: bv16)
    ensures (i & 15 == 0 && (i & 15) as int == 0) || (i & 15 == 1 && (i & 15) as int == 1)
         || (i & 15 == 2 && (i & 15) as int == 2) || (i & 15 == 3 && (i & 15) as int == 3)
         || (i & 15 == 4 && (i & 15) as int == 4) || (i & 15 == 5 && (i & 15) as int == 5)
         || (i & 15 == 6 && (i & 15) as int == 6) || (i & 15 == 7 && (i & 15) as int == 7)
         || (i & 15 == 8 && (i & 15) as int == 8) || (i & 15 == 9 && (i & 15) as int == 9)
         || (i & 15 == 10 && (i & 15) as int == 10) || (i & 15 == 11 && (i & 15) as int == 11)
         || (i & 15 == 12 && (i & 15) as int == 12) || (i & 15 == 13 && (i & 15) as int == 13)
         || (i & 15 == 14 && (i & 15) as int == 14) || (i & 15 == 15 && (i & 15) as int == 15)
  {
    var c := i & 15;
    assert c < 16;
    if c == 0 { assert c as int == 0; }
    if c == 1 { assert c as int == 1; }
    if c == 2 { assert c as int == 2; }
    if c == 3 { assert c as int == 3; }
    if c == 4 { assert c as int == 4; }
    if c == 5 { assert c as int == 5; }
    if c == 6 { assert c as int == 6; }
    if c == 7 { assert c as int == 7; }
    if c == 8 { assert c as int == 8; }
    if c == 9 { assert c as int == 9; }
    if c == 10 { assert c as int == 10; }
    if c == 11 { assert c as int == 11; }
    if c == 12 { assert c as int == 12; }
    if c == 13 { assert c as int == 13; }
    if c == 14 { assert c as int == 14; }
    if c == 15 { assert c as int == 15; }
  }

  lemma HighNibble(i: bv16)
    requires i < 256
    ensures (i >> 4 == 0 && (i >> 4) as int == 0) || (i >> 4 == 1 && (i >> 4) as int == 1)
         || (i >> 4 == 2 && (i >> 4) as int == 2) || (i >> 4 == 3 && (i >> 4) as int == 3)
         || (i >> 4 == 4 && (i >> 4) as int == 4) || (i >> 4 == 5 && (i >> 4) as int == 5)
         || (i >> 4 == 6 && (i >> 4) as int == 6) || (i >> 4 == 7 && (i >> 4) as int == 7)
         || (i >> 4 == 8 && (i >> 4) as int == 8) || (i >> 4 == 9 && (i >> 4) as int == 9)
         || (i >> 4 == 10 && (i >> 4) as int == 10) || (i >> 4 == 11 && (i >> 4) as int == 11)
         || (i >> 4 == 12 && (i >> 4) as int == 12) || (i >> 4 == 13 && (i >> 4) as int == 13)
         || (i >> 4 == 14 && (i >> 4) as int == 14) || (i >> 4 == 15 && (i >> 4) as int == 15)
  {
    LowNibble(i >> 4);
    assert (i >> 4) & 15 == i >> 4;
  }
}
