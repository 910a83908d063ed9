/**
 * The tables of the Data Encryption Standard as cpp/myvsc/encry-decry/des.c has them. Entries are
 * places counted from 1, as in FIPS PUB 46-3.
 */
module DesTables {

  type Place64 = x: int | 1 <= x <= 64 witness 1
  type Place56 = x: int | 1 <= x <= 56 witness 1
  type Place32 = x: int | 1 <= x <= 32 witness 1
  type Nibble = x: int | 0 <= x < 16

  /** Permuted choice 1. */
  function Pc1(i: nat): Place64
    requires i < 56
  {
    var j := i % 14;
    match i / 14
    case 0 => [57, 49, 41, 33, 25, 17, 9, 1, 58, 50, 42, 34, 26, 18][j]
    case 1 => [10, 2, 59, 51, 43, 35, 27, 19, 11, 3, 60, 52, 44, 36][j]
    case 2 => [63, 55, 47, 39, 31, 23, 15, 7, 62, 54, 46, 38, 30, 22][j]
    case _ => [14, 6, 61, 53, 45, 37, 29, 21, 13, 5, 28, 20, 12, 4][j]
  }

  /** Permuted choice 2. */
  function Pc2(i: nat): Place56
    requires i < 48
  {
    var j := i % 12;
    match i / 12
    case 0 => [14, 17, 11, 24, 1, 5, 3, 28, 15, 6, 21, 10][j]
    case 1 => [23, 19, 12, 4, 26, 8, 16, 7, 27, 20, 13, 2][j]
    case 2 => [41, 52, 31, 37, 47, 55, 30, 40, 51, 45, 33, 48][j]
    case _ => [44, 49, 39, 56, 34, 53, 46, 42, 50, 36, 29, 32][j]
  }

  /** The initial permutation. */
  function Ip(i: nat): Place64
    requires i < 64
  {
    var j := i % 8;
    match i / 8
    case 0 => [58, 50, 42, 34, 26, 18, 10, 2][j]
    case 1 => [60, 52, 44, 36, 28, 20, 12, 4][j]
    case 2 => [62, 54, 46, 38, 30, 22, 14, 6][j]
    case 3 => [64, 56, 48, 40, 32, 24, 16, 8][j]
    case 4 => [57, 49, 41, 33, 25, 17, 9, 1][j]
    case 5 => [59, 51, 43, 35, 27, 19, 11, 3][j]
    case 6 => [61, 53, 45, 37, 29, 21, 13, 5][j]
    case _ => [63, 55, 47, 39, 31, 23, 15, 7][j]
  }

  /** The inverse of the initial permutation. */
  function Ipr(i: nat): Place64
    requires i < 64
  {
    var j := i % 8;
    match i / 8
    case 0 => [40, 8, 48, 16, 56, 24, 64, 32][j]
    case 1 => [39, 7, 47, 15, 55, 23, 63, 31][j]
    case 2 => [38, 6, 46, 14, 54, 22, 62, 30][j]
    case 3 => [37, 5, 45, 13, 53, 21, 61, 29][j]
    case 4 => [36, 4, 44, 12, 52, 20, 60, 28][j]
    case 5 => [35, 3, 43, 11, 51, 19, 59, 27][j]
    case 6 => [34, 2, 42, 10, 50, 18, 58, 26][j]
    case _ => [33, 1, 41, 9, 49, 17, 57, 25][j]
  }

  /** The expansion from 32 to 48 bits. */
  function Ext(i: nat): Place32
    requires i < 48
  {
    var j := i % 6;
    match i / 6
    case 0 => [32, 1, 2, 3, 4, 5][j]
    case 1 => [4, 5, 6, 7, 8, 9][j]
    case 2 => [8, 9, 10, 11, 12, 13][j]
    case 3 => [12, 13, 14, 15, 16, 17][j]
    case 4 => [16, 17, 18, 19, 20, 21][j]
    case 5 => [20, 21, 22, 23, 24, 25][j]
    case 6 => [24, 25, 26, 27, 28, 29][j]
    case _ => [28, 29, 30, 31, 32, 1][j]
  }

  /** The permutation behind the S-boxes. */
  function P(i: nat): Place32
    requires i < 32
  {
    var j := i % 8;
    match i / 8
    case 0 => [16, 7, 20, 21, 29, 12, 28, 17][j]
    case 1 => [1, 15, 23, 26, 5, 18, 31, 10][j]
    case 2 => [2, 8, 24, 14, 32, 27, 3, 9][j]
    case _ => [19, 13, 30, 6, 22, 11, 4, 25][j]
  }

  /** How far the halves of the key turn before round i. */
  function Move(i: nat): (m: nat)
    requires i < 16
    ensures 1 <= m <= 2
  {
    [1, 1, 2, 2, 2, 2, 2, 2, 1, 2, 2, 2, 2, 2, 2, 1][i]
  }

  function S1(x: nat, j: nat): Nibble
    requires x < 4 && j < 16
  {
    match x
    case 0 => [14, 4, 13, 1, 2, 15, 11, 8, 3, 10, 6, 12, 5, 9, 0, 7][j]
    case 1 => [0, 15, 7, 4, 14, 2, 13, 1, 10, 6, 12, 11, 9, 5, 3, 8][j]
    case 2 => [4, 1, 14, 8, 13, 6, 2, 11, 15, 12, 9, 7, 3, 10, 5, 0][j]
    case _ => [15, 12, 8, 2, 4, 9, 1, 7, 5, 11, 3, 14, 10, 0, 6, 13][j]
  }

  function S2(x: nat, j: nat): Nibble
    requires x < 4 && j < 16
  {
    match x
    case 0 => [15, 1, 8, 14, 6, 11, 3, 4, 9, 7, 2, 13, 12, 0, 5, 10][j]
    case 1 => [3, 13, 4, 7, 15, 2, 8, 14, 12, 0, 1, 10, 6, 9, 11, 5][j]
    case 2 => [0, 14, 7, 11, 10, 4, 13, 1, 5, 8, 12, 6, 9, 3, 2, 15][j]
    case _ => [13, 8, 10, 1, 3, 15, 4, 2, 11, 6, 7, 12, 0, 5, 14, 9][j]
  }

  function S3(x: nat, j: nat): Nibble
    requires x < 4 && j < 16
  {
    match x
    case 0 => [10, 0, 9, 14, 6, 3, 15, 5, 1, 13, 12, 7, 11, 4, 2, 8][j]
    case 1 => [13, 7, 0, 9, 3, 4, 6, 10, 2, 8, 5, 14, 12, 11, 15, 1][j]
    case 2 => [13, 6, 4, 9, 8, 15, 3, 0, 11, 1, 2, 12, 5, 10, 14, 7][j]
    case _ => [1, 10, 13, 0, 6, 9, 8, 7, 4, 15, 14, 3, 11, 5, 2, 12][j]
  }

  function S4(x: nat, j: nat): Nibble
    requires x < 4 && j < 16
  {
    match x
    case 0 => [7, 13, 14, 3, 0, 6, 9, 10, 1, 2, 8, 5, 11, 12, 4, 15][j]
    case 1 => [13, 8, 11, 5, 6, 15, 0, 3, 4, 7, 2, 12, 1, 10, 14, 9][j]
    case 2 => [10, 6, 9, 0, 12, 11, 7, 13, 15, 1, 3, 14, 5, 2, 8, 4][j]
    case _ => [3, 15, 0, 6, 10, 1, 13, 8, 9, 4, 5, 11, 12, 7, 2, 14][j]
  }

  function S5(x: nat, j: nat): Nibble
    requires x < 4 && j < 16
  {
    match x
    case 0 => [2, 12, 4, 1, 7, 10, 11, 6, 8, 5, 3, 15, 13, 0, 14, 9][j]
    case 1 => [14, 11, 2, 12, 4, 7, 13, 1, 5, 0, 15, 10, 3, 9, 8, 6][j]
    case 2 => [4, 2, 1, 11, 10, 13, 7, 8, 15, 9, 12, 5, 6, 3, 0, 14][j]
    case _ => [11, 8, 12, 7, 1, 14, 2, 13, 6, 15, 0, 9, 10, 4, 5, 3][j]
  }

  function S6(x: nat, j: nat): Nibble
    requires x < 4 && j < 16
  {
    match x
    case 0 => [12, 1, 10, 15, 9, 2, 6, 8, 0, 13, 3, 4, 14, 7, 5, 11][j]
    case 1 => [10, 15, 4, 2, 7, 12, 9, 5, 6, 1, 13, 14, 0, 11, 3, 8][j]
    case 2 => [9, 14, 15, 5, 2, 8, 12, 3, 7, 0, 4, 10, 1, 13, 11, 6][j]
    case _ => [4, 3, 2, 12, 9, 5, 15, 10, 11, 14, 1, 7, 6, 0, 8, 13][j]
  }

  function S7(x: nat, j: nat): Nibble
    requires x < 4 && j < 16
  {
    match x
    case 0 => [4, 11, 2, 14, 15, 0, 8, 13, 3, 12, 9, 7, 5, 10, 6, 1][j]
    case 1 => [13, 0, 11, 7, 4, 9, 1, 10, 14, 3, 5, 12, 2, 15, 8, 6][j]
    case 2 => [1, 4, 11, 13, 12, 3, 7, 14, 10, 15, 6, 8, 0, 5, 9, 2][j]
    case _ => [6, 11, 13, 8, 1, 4, 10, 7, 9, 5, 0, 15, 14, 2, 3, 12][j]
  }

  function S8(x: nat, j: nat): Nibble
    requires x < 4 && j < 16
  {
    match x
    case 0 => [13, 2, 8, 4, 6, 15, 11, 1, 10, 9, 3, 14, 5, 0, 12, 7][j]
    case 1 => [1, 15, 13, 8, 10, 3, 7, 4, 12, 5, 6, 11, 0, 14, 9, 2][j]
    case 2 => [7, 11, 4, 1, 9, 12, 14, 2, 0, 6, 10, 13, 15, 3, 5, 8][j]
    case _ => [2, 1, 14, 7, 4, 10, 8, 13, 15, 12, 9, 0, 3, 5, 6, 11][j]
  }

  /** Entry (x, y) of S-box i. */
  function SBox(i: nat, x: nat, y: nat): Nibble
    requires i < 8 && x < 4 && y < 16
  {
    match i
    case 0 => S1(x, y)
    case 1 => S2(x, y)
    case 2 => S3(x, y)
    case 3 => S4(x, y)
    case 4 => S5(x, y)
    case 5 => S6(x, y)
    case 6 => S7(x, y)
    case _ => S8(x, y)
  }

  /** The initial permutation takes even places first, columns from the right. */
  lemma IpFormula(i: nat)
    requires i < 64
    ensures Ip(i) == (if i < 32 then 58 + 2 * (i / 8) else 49 + 2 * (i / 8)) - 8 * (i % 8)
  {}

  lemma IprFormula(i: nat)
    requires i < 64
    ensures Ipr(i) == (if i % 2 == 0 then 40 else 8) + 8 * (i % 8 / 2) - i / 8
  {}

  lemma Split(r: nat, c: nat)
    requires c < 8
    ensures (8 * r + c) / 8 == r && (8 * r + c) % 8 == c
  {}

  lemma IprOfIp(r: nat, c: nat)
    requires r < 8 && c < 8
    ensures Ipr(Ip(8 * r + c) - 1) == 8 * r + c + 1
  {
    hide Ip, Ipr;
    var k := if r < 4 then 2 * r + 1 else 2 * (r - 4);
    Split(r, c);
    IpFormula(8 * r + c);
    assert Ip(8 * r + c) - 1 == 8 * (7 - c) + k;
    Split(7 - c, k);
    IprFormula(8 * (7 - c) + k);
  }

  lemma IpOfIpr(r: nat, c: nat)
    requires r < 8 && c < 8
    ensures Ip(Ipr(8 * r + c) - 1) == 8 * r + c + 1
  {
    hide Ip, Ipr;
    var k := if c % 2 == 0 then c / 2 + 4 else c / 2;
    Split(r, c);
    IprFormula(8 * r + c);
    assert Ipr(8 * r + c) - 1 == 8 * k + (7 - r);
    Split(k, 7 - r);
    IpFormula(8 * k + (7 - r));
  }

  /** The two permutations undo each other. */
  lemma Undone(i: nat)
    requires i < 64
    ensures Ip(Ipr(i) - 1) == i + 1 && Ipr(Ip(i) - 1) == i + 1
  {
    hide Ip, Ipr;
    IprOfIp(i / 8, i % 8);
    IpOfIpr(i / 8, i % 8);
  }
}
