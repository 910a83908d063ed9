/**
 * Laws of DES and of triple DES (cpp/myvsc/encry-decry/des.c) beyond that deciphering undoes
 * enciphering: what two equal keys, complements and parity bits do, and how a round spreads its bits.
 */
module DesLaws {
  import opened DesTables
  import opened Des

  // ---------------------------------------------------------------------------------------------
  // Triple DES
  // ---------------------------------------------------------------------------------------------

  function Other(opt: Direction): Direction { if opt.Enc? then Dec else Enc }

  /** With two equal halves of the key triple DES is DES. */
  lemma EqualHalves(key: Key16, x: Block, opt: Direction)
    requires key[..8] == key[8..]
    ensures Triple(key, x, opt) == Cipher(key[..8], x, opt)
  {
    hide Cipher;
    CipherBack(key[..8], x, opt);
  }

  /** Without the outer pass there is left what the second key, in the other direction, makes of the first pass. */
  lemma MiddlePass(key: Key16, x: Block, opt: Direction)
    ensures Cipher(key[..8], Triple(key, x, opt), Other(opt)) ==
      Cipher(key[8..], Cipher(key[..8], x, opt), Other(opt))
  {
    hide Cipher;
    CipherBack(key[..8], Cipher(key[8..], Cipher(key[..8], x, opt), Other(opt)), opt);
  }

  // ---------------------------------------------------------------------------------------------
  // Complements
  // ---------------------------------------------------------------------------------------------

  function Not(b: Bits): (r: Bits)
    ensures |r| == |b| && forall i :: 0 <= i < |b| ==> r[i] == !b[i]
  {
    seq(|b|, i requires 0 <= i < |b| => !b[i])
  }

  function NotBlock(x: Block): Block { seq(8, i requires 0 <= i < 8 => 255 - x[i]) }

  function NotKeys(ks: seq<SubKey>): (r: seq<SubKey>)
    ensures |r| == |ks| && forall i :: 0 <= i < |ks| ==> r[i] == Not(ks[i])
  {
    seq(|ks|, i requires 0 <= i < |ks| => Not(ks[i]))
  }

  function NotHalves(h: Halves): Halves { Halves(Not(h.l), Not(h.r)) }

  lemma {:induction false} NotBits(v: nat, n: nat)
    requires v < Pow2(n)
    ensures BitsOf(Pow2(n) - 1 - v, n) == Not(BitsOf(v, n))
  {
    if n > 0 {
      NotBits(v / 2, n - 1);
      var w := Pow2(n) - 1 - v;
      assert w / 2 == Pow2(n - 1) - 1 - v / 2 && w % 2 == 1 - v % 2;
    }
  }

  lemma NotByte(v: Byte)
    ensures ByteBits(255 - v) == Not(ByteBits(v))
  {
    Powers();
    NotBits(v, 8);
  }

  lemma NotBlockBits(x: Block)
    ensures BytesToBits(NotBlock(x)) == Not(BytesToBits(x))
  {
    hide ByteBits;
    forall i | 0 <= i < 64 ensures BytesToBits(NotBlock(x))[i] == Not(BytesToBits(x))[i] { NotByte(x[i / 8]); }
  }

  lemma NotBitsBlock(b: Bits)
    requires |b| == 64
    ensures BitsToBytes(Not(b)) == NotBlock(BitsToBytes(b))
  {
    hide BytesToBits, BitsToBytes;
    BitsBlockBack(b);
    NotBlockBits(BitsToBytes(b));
    BlockBack(NotBlock(BitsToBytes(b)));
  }

  /** The cipher function does not notice that both its arguments are complemented. */
  lemma NotF(data: Half, key: SubKey)
    ensures F(Not(data), Not(key)) == F(data, key)
  {
    hide Substitute, P, Ext;
    var e := Xor(seq(48, i requires 0 <= i < 48 => data[Ext(i) - 1]), key);
    var e' := Xor(seq(48, i requires 0 <= i < 48 => Not(data)[Ext(i) - 1]), Not(key));
    assert e' == e;
  }

  lemma NotRound(h: Halves, k: SubKey)
    ensures Round(NotHalves(h), Not(k)) == NotHalves(Round(h, k))
  {
    hide F;
    NotF(h.r, k);
    assert Xor(Not(h.l), F(h.r, k)) == Not(Xor(h.l, F(h.r, k)));
  }

  lemma {:induction false} NotRounds(h: Halves, ks: seq<SubKey>)
    ensures Rounds(NotHalves(h), NotKeys(ks)) == NotHalves(Rounds(h, ks))
    decreases |ks|
  {
    hide Round;
    if ks != [] {
      var n := |ks| - 1;
      assert NotKeys(ks)[..n] == NotKeys(ks[..n]);
      NotRounds(h, ks[..n]);
      NotRound(Rounds(h, ks[..n]), ks[n]);
    }
  }

  lemma {:induction false} NotMoved(h: KeyHalf, n: nat)
    requires n <= 16
    ensures Moved(Not(h), n) == Not(Moved(h, n))
  {
    hide Move;
    if n > 0 { NotMoved(h, n - 1); }
  }

  lemma NotKeyOf(key: Block, i: nat)
    requires i < 16
    ensures KeyOf(NotBlock(key), i) == Not(KeyOf(key, i))
  {
    hide Moved, Pc1, Pc2, BytesToBits;
    NotBlockBits(key);
    assert LeftKey(NotBlock(key)) == Not(LeftKey(key)) && RightKey(NotBlock(key)) == Not(RightKey(key));
    NotMoved(LeftKey(key), i + 1);
    NotMoved(RightKey(key), i + 1);
  }

  lemma NotKeysFor(key: Block, opt: Direction)
    ensures KeysFor(NotBlock(key), opt) == NotKeys(KeysFor(key, opt))
  {
    hide KeyOf;
    forall i | 0 <= i < 16 ensures KeyOf(NotBlock(key), i) == Not(KeyOf(key, i)) { NotKeyOf(key, i); }
  }

  /** The complement of the key and of the block give the complement of the cipher text. */
  lemma Complement(key: Block, x: Block, opt: Direction)
    ensures Cipher(NotBlock(key), NotBlock(x), opt) == NotBlock(Cipher(key, x, opt))
  {
    hide Rounds, KeysFor, BytesToBits, BitsToBytes, Ip, Ipr;
    NotBlockBits(x);
    NotKeysFor(key, opt);
    var p := Permuted(BytesToBits(x));
    assert Permuted(Not(BytesToBits(x))) == Not(p);
    assert Parts(Not(p)) == NotHalves(Parts(p));
    NotRounds(Parts(p), KeysFor(key, opt));
    var h := Rounds(Parts(p), KeysFor(key, opt));
    assert Not(h.r) + Not(h.l) == Not(h.r + h.l);
    assert Unpermuted(Not(h.r + h.l)) == Not(Unpermuted(h.r + h.l));
    NotBitsBlock(Unpermuted(h.r + h.l));
  }

  // ---------------------------------------------------------------------------------------------
  // Keys
  // ---------------------------------------------------------------------------------------------

  /** Permuted choice 1 leaves out every eighth bit. */
  lemma NoParity(i: nat)
    requires i < 56
    ensures Pc1(i) % 8 != 0
  {}

  lemma HighBits(v: Byte, w: Byte)
    requires v / 2 == w / 2
    ensures forall i :: 0 <= i < 7 ==> ByteBits(v)[i] == ByteBits(w)[i]
  {}

  /** The lowest bit of every byte of a key is not used. */
  lemma ParityUnused(key: Block, key': Block, x: Block, opt: Direction)
    requires forall i :: 0 <= i < 8 ==> key[i] / 2 == key'[i] / 2
    ensures Cipher(key, x, opt) == Cipher(key', x, opt)
  {
    hide Pc1, ByteBits, Rounds, Moved;
    forall i | 0 <= i < 56 ensures BytesToBits(key)[Pc1(i) - 1] == BytesToBits(key')[Pc1(i) - 1] {
      NoParity(i);
      HighBits(key[(Pc1(i) - 1) / 8], key'[(Pc1(i) - 1) / 8]);
    }
    assert LeftKey(key) == LeftKey(key') && RightKey(key) == RightKey(key');
    assert Keys(key) == Keys(key');
  }

  lemma TurnedTwice(h: KeyHalf, m: nat, n: nat)
    requires m + n <= 28
    ensures Turned(Turned(h, m), n) == Turned(h, m + n)
  {}

  function Total(n: nat): nat
    requires n <= 16
  {
    if n == 0 then 0 else Total(n - 1) + Move(n - 1)
  }

  lemma MoveFormula(i: nat)
    requires i < 16
    ensures Move(i) == if i < 2 || i == 8 || i == 15 then 1 else 2
  {}

  lemma {:induction false} TotalIs(n: nat)
    requires n <= 16
    ensures Total(n) == if n < 2 then n else if n <= 8 then 2 * n - 2 else if n <= 15 then 2 * n - 3 else 28
  {
    hide Move;
    if n > 0 {
      TotalIs(n - 1);
      MoveFormula(n - 1);
    }
  }

  lemma {:induction false} MovedTotal(h: KeyHalf, n: nat)
    requires n <= 16
    ensures Total(n) <= 28 && Moved(h, n) == Turned(h, Total(n))
  {
    hide Move;
    TotalIs(n);
    if n > 0 {
      MovedTotal(h, n - 1);
      TurnedTwice(h, Total(n - 1), Move(n - 1));
    } else {
      assert h[0..] + h[..0] == h;
    }
  }

  /** After the sixteen rounds the halves of the key are back where they were. */
  lemma KeyComesRound(h: KeyHalf)
    ensures Moved(h, 16) == h
  {
    MovedTotal(h, 16);
    TotalIs(16);
    assert h[28..] + h[..28] == h;
  }

  /** Enciphering begins with the halves turned by one place to the left, and ends with them as they were. */
  lemma FirstAndLastKey(key: Block)
    ensures var l, r := LeftKey(key), RightKey(key);
      && KeysFor(key, Enc)[0] == KeysFor(key, Dec)[15] == Chosen(l[1..] + l[..1], r[1..] + r[..1])
      && KeysFor(key, Enc)[15] == KeysFor(key, Dec)[0] == Chosen(l, r)
  {
    hide LeftKey, RightKey, Chosen;
    KeyComesRound(LeftKey(key));
    KeyComesRound(RightKey(key));
    assert Moved(LeftKey(key), 0) == LeftKey(key) && Moved(RightKey(key), 0) == RightKey(key);
  }

  // ---------------------------------------------------------------------------------------------
  // How a round spreads its bits
  // ---------------------------------------------------------------------------------------------

  /** The expanded half: six bits for each S-box. */
  function Expanded(data: Half): SubKey { seq(48, i requires 0 <= i < 48 => data[Ext(i) - 1]) }

  /** Six neighbouring bits, the outer two of which it shares with the groups beside it. */
  lemma Neighbours(g: nat, c: nat)
    requires g < 8 && c < 6
    ensures Ext(6 * g + c) - 1 == (4 * g + c + 31) % 32
  {
    assert (6 * g + c) / 6 == g && (6 * g + c) % 6 == c;
  }

  /** The S-box whose output is bit c of group g in the next round. */
  function Source(g: nat, c: nat): (i: nat)
    requires g < 8 && c < 6
    ensures i < 8
  {
    (P((4 * g + c + 31) % 32) - 1) / 4
  }

  /** The S-boxes from which the six bits of group g come. */
  function Sources(g: nat): (r: seq<nat>)
    requires g < 8
    ensures |r| == 6
  {
    match g
    case 0 => [6, 3, 1, 4, 5, 7]
    case 1 => [5, 7, 2, 6, 4, 0]
    case 2 => [4, 0, 3, 5, 6, 1]
    case 3 => [6, 1, 4, 7, 2, 0]
    case 4 => [2, 0, 1, 5, 3, 7]
    case 5 => [3, 7, 6, 0, 2, 4]
    case 6 => [2, 4, 3, 7, 1, 5]
    case _ => [1, 5, 2, 0, 6, 3]
  }

  function Boxes(q: nat): (r: seq<nat>)
    requires q < 4
    ensures |r| == 8
  {
    match q
    case 0 => [3, 1, 4, 5, 7, 2, 6, 4]
    case 1 => [0, 3, 5, 6, 1, 4, 7, 2]
    case 2 => [0, 1, 5, 3, 7, 6, 0, 2]
    case _ => [4, 3, 7, 1, 5, 2, 0, 6]
  }

  lemma Box(q: nat, j: nat)
    requires q < 4 && j < 8
    ensures (P(8 * q + j) - 1) / 4 == Boxes(q)[j]
  {
    Split(q, j);
  }

  /** Group g reads the outputs number 4 * g - 1 to 4 * g + 4. */
  lemma SourceIs(g: nat, c: nat, q: nat, j: nat)
    requires g < 8 && c < 6 && q < 4 && j < 8 && 8 * q + j == (4 * g + c + 31) % 32
    ensures Source(g, c) == Boxes(q)[j]
  {
    hide P, Boxes;
    Box(q, j);
  }

  lemma EvenGroup(h: nat, c: nat)
    requires h < 4 && c < 6
    ensures Source(2 * h, c) == Sources(2 * h)[c]
  {
    hide P, Source;
    if c > 0 { SourceIs(2 * h, c, h, c - 1); } else { SourceIs(2 * h, c, (h + 3) % 4, 7); }
  }

  lemma OddGroup(h: nat, c: nat)
    requires h < 4 && c < 6
    ensures Source(2 * h + 1, c) == Sources(2 * h + 1)[c]
  {
    hide P, Source;
    if c < 5 { SourceIs(2 * h + 1, c, h, c + 3); } else { SourceIs(2 * h + 1, c, (h + 1) % 4, 0); }
  }

  /** The six bits of a group come from six S-boxes, none of which is the one that they go to. */
  lemma SixSources(g: nat, c: nat, d: nat)
    requires g < 8 && c < d < 6
    ensures Source(g, c) != Source(g, d) && Source(g, c) != g && Source(g, d) != g
  {
    hide Source;
    var h := g / 2;
    if g % 2 == 0 {
      EvenGroup(h, c);
      EvenGroup(h, d);
    } else {
      OddGroup(h, c);
      OddGroup(h, d);
    }
  }

  /** A bit of the cipher function depends on the inputs of one S-box only. */
  lemma OneBox(data: Half, data': Half, key: SubKey, key': SubKey, i: nat, j: nat)
    requires i < 8 && j < 32 && (P(j) - 1) / 4 != i
    requires forall x :: 0 <= x < 48 && x / 6 != i ==> Xor(Expanded(data), key)[x] == Xor(Expanded(data'), key')[x]
    ensures F(data, key)[j] == F(data', key')[j]
  {
    hide P, Ext, SBox, Deci, NibbleBits;
    var e, e', k := Xor(Expanded(data), key), Xor(Expanded(data'), key'), (P(j) - 1) / 4;
    forall x | 6 * k <= x < 6 * k + 6 ensures e[x] == e'[x] { assert x / 6 == k; }
    assert e[6 * k + 1..6 * k + 5] == e'[6 * k + 1..6 * k + 5];
    assert e[6 * k] == e'[6 * k] && e[6 * k + 5] == e'[6 * k + 5];
  }

  /**
   * What one S-box makes of different inputs reaches, in the next round, at most one input bit of every
   * S-box, and none of its own.
   */
  lemma Spread(data: Half, data': Half, key: SubKey, key': SubKey, i: nat, g: nat, c: nat, d: nat)
    requires i < 8 && g < 8 && c < d < 6
    requires forall x :: 0 <= x < 48 && x / 6 != i ==> Xor(Expanded(data), key)[x] == Xor(Expanded(data'), key')[x]
    ensures var h, h' := Expanded(F(data, key)), Expanded(F(data', key'));
      && (h[6 * g + c] == h'[6 * g + c] || h[6 * g + d] == h'[6 * g + d])
      && (g == i ==> h[6 * g + c] == h'[6 * g + c] && h[6 * g + d] == h'[6 * g + d])
  {
    hide P, Ext, F, Xor;
    SixSources(g, c, d);
    Neighbours(g, c);
    Neighbours(g, d);
    if Source(g, c) != i { OneBox(data, data', key, key', i, (4 * g + c + 31) % 32); }
    if Source(g, d) != i { OneBox(data, data', key, key', i, (4 * g + d + 31) % 32); }
  }

  // ---------------------------------------------------------------------------------------------
  // Which bit and which digit comes first
  // ---------------------------------------------------------------------------------------------

  /** The first bit is the highest. */
  lemma {:induction false} HighestFirst(x: bool, b: Bits)
    ensures Deci([x] + b) == (if x then Pow2(|b|) else 0) + Deci(b)
  {
    if b == [] {
      assert ([x] + b)[..0] == [];
    } else {
      var n := |b| - 1;
      assert ([x] + b)[..n + 1] == [x] + b[..n];
      HighestFirst(x, b[..n]);
    }
  }

  /** The digits that are written, and those that are read. */
  lemma Digits(v: Nibble)
    ensures Digit(v) == "0123456789abcdef"[v] as int
    ensures DigitValue("0123456789abcdef"[v] as int) == DigitValue("0123456789ABCDEF"[v] as int) == v
  {}

  /** Two digits for each byte, the first of them for its high half. */
  lemma {:induction false} HexReads(x: seq<Byte>, i: nat)
    requires i < |x|
    ensures DigitValue(HexOf(x)[2 * i]) * 16 + DigitValue(HexOf(x)[2 * i + 1]) == x[i]
  {
    hide DigitValue, Digit;
    if i > 0 {
      HexReads(x[1..], i - 1);
      assert HexOf(x)[2 * i] == HexOf(x[1..])[2 * (i - 1)] && HexOf(x)[2 * i + 1] == HexOf(x[1..])[2 * (i - 1) + 1];
    }
  }
}
