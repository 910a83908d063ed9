/**
 * DES, two-key triple DES and the encryption of files (cpp/myvsc/encry-decry/des.c). A bit string of
 * characters '0' and '1' is a sequence of bools, a byte is a number below 256.
 */
module Des {
  import opened DesTables

  type Byte = x: int | 0 <= x < 256
  type Bits = seq<bool>
  type Block = b: seq<Byte> | |b| == 8 witness [0, 0, 0, 0, 0, 0, 0, 0]
  type Half = b: seq<bool> | |b| == 32 witness seq(32, i => false)
  type SubKey = b: seq<bool> | |b| == 48 witness seq(48, i => false)
  type KeyHalf = b: seq<bool> | |b| == 28 witness seq(28, i => false)

  // ---------------------------------------------------------------------------------------------
  // Bits and bytes
  // ---------------------------------------------------------------------------------------------

  function Pow2(n: nat): (p: nat)
    ensures p > 0
  {
    if n == 0 then 1 else 2 * Pow2(n - 1)
  }

  /** The low n bits of v, the highest of them first. */
  function BitsOf(v: nat, n: nat): (b: Bits)
    ensures |b| == n
  {
    if n == 0 then [] else BitsOf(v / 2, n - 1) + [v % 2 == 1]
  }

  /** The number a bit string stands for. */
  function Deci(b: Bits): (v: nat)
    ensures v < Pow2(|b|)
  {
    if b == [] then 0 else 2 * Deci(b[..|b| - 1]) + if b[|b| - 1] then 1 else 0
  }

  lemma {:induction false} DeciOfBits(v: nat, n: nat)
    requires v < Pow2(n)
    ensures Deci(BitsOf(v, n)) == v
  {
    if n > 0 {
      DeciOfBits(v / 2, n - 1);
      assert BitsOf(v, n)[..n - 1] == BitsOf(v / 2, n - 1);
    }
  }

  lemma {:induction false} BitsOfDeci(b: Bits)
    ensures BitsOf(Deci(b), |b|) == b
  {
    if b != [] {
      BitsOfDeci(b[..|b| - 1]);
    }
  }

  lemma Powers()
    ensures Pow2(2) == 4 && Pow2(4) == 16 && Pow2(8) == 256
  {}

  function ByteBits(v: Byte): (b: Bits)
    ensures |b| == 8
  {
    BitsOf(v, 8)
  }

  function BitsByte(b: Bits): Byte
    requires |b| == 8
  {
    Powers();
    Deci(b)
  }

  lemma ByteBack(v: Byte)
    ensures BitsByte(ByteBits(v)) == v
  {
    Powers();
    DeciOfBits(v, 8);
  }

  lemma BitsBack(b: Bits)
    requires |b| == 8
    ensures ByteBits(BitsByte(b)) == b
  {
    BitsOfDeci(b);
  }

  function BytesToBits(x: Block): (b: Bits)
    ensures |b| == 64
  {
    seq(64, i requires 0 <= i < 64 => ByteBits(x[i / 8])[i % 8])
  }

  function BitsToBytes(b: Bits): Block
    requires |b| == 64
  {
    seq(8, j requires 0 <= j < 8 => BitsByte(b[8 * j..8 * j + 8]))
  }

  lemma BlockBack(x: Block)
    ensures BitsToBytes(BytesToBits(x)) == x
  {
    hide ByteBits, BitsByte;
    var b := BytesToBits(x);
    forall j | 0 <= j < 8 ensures BitsToBytes(b)[j] == x[j] {
      assert b[8 * j..8 * j + 8] == ByteBits(x[j]);
      ByteBack(x[j]);
    }
  }

  lemma BitsBlockBack(b: Bits)
    requires |b| == 64
    ensures BytesToBits(BitsToBytes(b)) == b
  {
    hide ByteBits, BitsByte;
    var x := BitsToBytes(b);
    forall i | 0 <= i < 64 ensures BytesToBits(x)[i] == b[i] {
      var j := i / 8;
      BitsBack(b[8 * j..8 * j + 8]);
    }
  }

  // ---------------------------------------------------------------------------------------------
  // The cipher function and the sub-keys
  // ---------------------------------------------------------------------------------------------

  function Xor(a: Bits, b: Bits): (r: Bits)
    requires |a| == |b|
    ensures |r| == |a|
  {
    seq(|a|, i requires 0 <= i < |a| => a[i] != b[i])
  }

  function NibbleBits(v: Nibble): (b: Bits)
    ensures |b| == 4
  {
    BitsOf(v, 4)
  }

  /** The six bits of group i, through S-box i. */
  function Substitute(e: SubKey, i: nat): (b: Bits)
    requires i < 8
    ensures |b| == 4
  {
    Powers();
    NibbleBits(SBox(i, Deci([e[6 * i], e[6 * i + 5]]), Deci(e[6 * i + 1..6 * i + 5])))
  }

  function F(data: Half, key: SubKey): Half {
    var e := Xor(seq(48, i requires 0 <= i < 48 => data[Ext(i) - 1]), key);
    var s := seq(32, i requires 0 <= i < 32 => Substitute(e, i / 4)[i % 4]);
    seq(32, i requires 0 <= i < 32 => s[P(i) - 1])
  }

  function Turned(h: KeyHalf, n: nat): KeyHalf
    requires n <= 28
  {
    h[n..] + h[..n]
  }

  /** A half of the key after n moves. */
  function Moved(h: KeyHalf, n: nat): KeyHalf
    requires n <= 16
  {
    if n == 0 then h else Turned(Moved(h, n - 1), Move(n - 1))
  }

  function LeftKey(key: Block): KeyHalf { seq(28, i requires 0 <= i < 28 => BytesToBits(key)[Pc1(i) - 1]) }

  function RightKey(key: Block): KeyHalf { seq(28, i requires 0 <= i < 28 => BytesToBits(key)[Pc1(i + 28) - 1]) }

  /** Permuted choice 2 on the two halves side by side. */
  function Chosen(l: KeyHalf, r: KeyHalf): SubKey {
    seq(48, j requires 0 <= j < 48 => if Pc2(j) <= 28 then l[Pc2(j) - 1] else r[Pc2(j) - 29])
  }

  function KeyOf(key: Block, i: nat): SubKey
    requires i < 16
  {
    Chosen(Moved(LeftKey(key), i + 1), Moved(RightKey(key), i + 1))
  }

  function Keys(key: Block): (ks: seq<SubKey>)
    ensures |ks| == 16
  {
    seq(16, i requires 0 <= i < 16 => KeyOf(key, i))
  }

  // ---------------------------------------------------------------------------------------------
  // Sixteen rounds, and the block cipher
  // ---------------------------------------------------------------------------------------------

  datatype Halves = Halves(l: Half, r: Half)

  function Round(h: Halves, k: SubKey): Halves { Halves(h.r, Xor(h.l, F(h.r, k))) }

  function Rounds(h: Halves, ks: seq<SubKey>): Halves {
    if ks == [] then h else Round(Rounds(h, ks[..|ks| - 1]), ks[|ks| - 1])
  }

  function Reversed(ks: seq<SubKey>): (r: seq<SubKey>)
    ensures |r| == |ks|
  {
    seq(|ks|, i requires 0 <= i < |ks| => ks[|ks| - 1 - i])
  }

  function Swapped(h: Halves): Halves { Halves(h.r, h.l) }

  lemma XorTwice(a: Bits, b: Bits)
    requires |a| == |b|
    ensures Xor(Xor(a, b), b) == a
  {}

  lemma RoundBack(h: Halves, k: SubKey)
    ensures Round(Swapped(Round(h, k)), k) == Swapped(h)
  {
    hide F;
    XorTwice(h.l, F(h.r, k));
  }

  lemma {:induction false} RoundsFront(h: Halves, k: SubKey, ks: seq<SubKey>)
    ensures Rounds(h, [k] + ks) == Rounds(Round(h, k), ks)
  {
    hide Round;
    var all := [k] + ks;
    if ks == [] {
      assert all[..0] == [];
    } else {
      assert all[..|all| - 1] == [k] + ks[..|ks| - 1];
      RoundsFront(h, k, ks[..|ks| - 1]);
    }
  }

  /** The rounds with the keys in reverse order undo the rounds, on swapped halves. */
  lemma {:induction false} RoundsBack(h: Halves, ks: seq<SubKey>)
    ensures Rounds(Swapped(Rounds(h, ks)), Reversed(ks)) == Swapped(h)
    decreases |ks|
  {
    hide Round;
    if ks != [] {
      var n := |ks| - 1;
      var k, init := ks[n], ks[..n];
      assert Reversed(ks) == [k] + Reversed(init);
      var m := Rounds(h, init);
      RoundsFront(Swapped(Round(m, k)), k, Reversed(init));
      RoundBack(m, k);
      RoundsBack(h, init);
    }
  }

  datatype Direction = Enc | Dec

  function KeysFor(key: Block, opt: Direction): (ks: seq<SubKey>)
    ensures |ks| == 16
  {
    if opt.Enc? then Keys(key) else Reversed(Keys(key))
  }

  function Permuted(b: Bits): (r: Bits)
    requires |b| == 64
    ensures |r| == 64
  {
    seq(64, i requires 0 <= i < 64 => b[Ip(i) - 1])
  }

  function Unpermuted(b: Bits): (r: Bits)
    requires |b| == 64
    ensures |r| == 64
  {
    seq(64, i requires 0 <= i < 64 => b[Ipr(i) - 1])
  }

  lemma PermutedBack(b: Bits)
    requires |b| == 64
    ensures Permuted(Unpermuted(b)) == b && Unpermuted(Permuted(b)) == b
  {
    hide Ip, Ipr;
    forall i | 0 <= i < 64 ensures Permuted(Unpermuted(b))[i] == b[i] && Unpermuted(Permuted(b))[i] == b[i] {
      Undone(i);
    }
  }

  function Parts(b: Bits): Halves
    requires |b| == 64
  {
    Halves(b[..32], b[32..])
  }

  /** One block, enciphered or deciphered. */
  function Cipher(key: Block, x: Block, opt: Direction): Block {
    var h := Rounds(Parts(Permuted(BytesToBits(x))), KeysFor(key, opt));
    BitsToBytes(Unpermuted(h.r + h.l))
  }

  /** Deciphering undoes enciphering, and the other way round, for every key and block. */
  lemma CipherBack(key: Block, x: Block, opt: Direction)
    ensures Cipher(key, Cipher(key, x, opt), if opt.Enc? then Dec else Enc) == x
  {
    hide Rounds, Reversed, Keys, BytesToBits, BitsToBytes, Permuted, Unpermuted;
    var ks := KeysFor(key, opt);
    var back := if opt.Enc? then Dec else Enc;
    var p := Permuted(BytesToBits(x));
    var h := Rounds(Parts(p), ks);
    var y := h.r + h.l;
    BitsBlockBack(Unpermuted(y));
    PermutedBack(y);
    assert Parts(y) == Swapped(h);
    RoundsBack(Parts(p), ks);
    ReversedTwice(Keys(key));
    assert KeysFor(key, back) == Reversed(ks);
    assert p[..32] + p[32..] == p;
    PermutedBack(BytesToBits(x));
    BlockBack(x);
  }

  lemma ReversedTwice(ks: seq<SubKey>)
    ensures Reversed(Reversed(ks)) == ks
  {}

  /** getBitsListByMove and getBitsListByPc2: both halves turn, and each time 48 bits are chosen. */
  method SubKeys(key: Block) returns (ks: seq<SubKey>)
    ensures ks == Keys(key)
  {
    hide Turned, Pc1, Chosen, Move, BytesToBits;
    ks := [];
    var l, r := LeftKey(key), RightKey(key);
    var i := 0;
    while i < 16
      invariant i <= 16 && |ks| == i && l == Moved(LeftKey(key), i) && r == Moved(RightKey(key), i)
      invariant forall j :: 0 <= j < i ==> ks[j] == KeyOf(key, j)
    {
      l, r := Turned(l, Move(i)), Turned(r, Move(i));
      ks := ks + [Chosen(l, r)];
      i := i + 1;
    }
  }

  /** proc_enc_dec: sixteen rounds, with the sub-keys in order or in reverse order. */
  method ProcEncDec(key: Block, input: Block, opt: Direction) returns (output: Block)
    ensures output == Cipher(key, input, opt)
  {
    hide F, Keys, BytesToBits, BitsToBytes, Permuted, Unpermuted;
    var ks := SubKeys(key);
    var p := Permuted(BytesToBits(input));
    var l, r := p[..32], p[32..];
    ghost var used := KeysFor(key, opt);
    var i := 1;
    while i <= 16
      invariant 1 <= i <= 17 && |l| == 32 && |r| == 32
      invariant Halves(l, r) == Rounds(Parts(p), used[..i - 1])
    {
      var k := if opt.Enc? then ks[i - 1] else ks[16 - i];
      assert used[..i][..i - 1] == used[..i - 1] && used[..i][i - 1] == k;
      l, r := r, Xor(l, F(r, k));
      i := i + 1;
    }
    assert used[..16] == used;
    output := BitsToBytes(Unpermuted(r + l));
  }

  // ---------------------------------------------------------------------------------------------
  // Triple DES
  // ---------------------------------------------------------------------------------------------

  type Key16 = k: seq<Byte> | |k| == 16 witness seq(16, i => 0)

  function Triple(key: Key16, x: Block, opt: Direction): Block {
    var a, b := key[..8], key[8..];
    if opt.Enc? then Cipher(a, Cipher(b, Cipher(a, x, Enc), Dec), Enc)
    else Cipher(a, Cipher(b, Cipher(a, x, Dec), Enc), Dec)
  }

  lemma TripleBack(key: Key16, x: Block)
    ensures Triple(key, Triple(key, x, Enc), Dec) == x
  {
    hide Cipher;
    var a, b := key[..8], key[8..];
    var y := Cipher(a, x, Enc);
    var z := Cipher(b, y, Dec);
    CipherBack(a, z, Enc);
    CipherBack(b, y, Dec);
    CipherBack(a, x, Enc);
  }

  /** The characters of a C string in a buffer. */
  function BeforeNul(s: seq<Byte>): (r: seq<Byte>)
    ensures r <= s && 0 !in r
    ensures |r| < |s| ==> s[|r|] == 0
  {
    if s == [] || s[0] == 0 then [] else [s[0]] + BeforeNul(s[1..])
  }

  /** A buffer of eight bytes that was cleared before s was stored in it. */
  function Padded(s: seq<Byte>): (r: Block)
    requires |s| <= 8
  {
    s + seq(8 - |s|, i => 0)
  }

  /** The input of an encryption passes strcpy, that of a decryption is hexadecimal text. */
  function TripleText(key: Key16, input: seq<Byte>, opt: Direction): Block
    requires if opt.Enc? then |input| == 8 else |input| == 16
  {
    if opt.Enc? then Triple(key, Padded(BeforeNul(input)), Enc)
      else Triple(key, Padded(HexBytes(BeforeNul(input))), Dec)
  }

  method TripleEncDec(key: Key16, input: seq<Byte>, opt: Direction) returns (output: Block)
    requires if opt.Enc? then |input| == 8 else |input| == 16
    ensures output == TripleText(key, input, opt)
  {
    hide Cipher;
    var key1, key2, key3 := key[..8], key[8..], key[..8];
    if opt.Enc? {
      output := ProcEncDec(key1, Padded(BeforeNul(input)), Enc);
      output := ProcEncDec(key2, output, Dec);
      output := ProcEncDec(key3, output, Enc);
    } else {
      var ok, bytes := HexStrToBytes(BeforeNul(input));
      output := ProcEncDec(key1, Padded(bytes), Dec);
      output := ProcEncDec(key2, output, Enc);
      output := ProcEncDec(key3, output, Dec);
    }
  }

  // ---------------------------------------------------------------------------------------------
  // Hexadecimal text
  // ---------------------------------------------------------------------------------------------

  /** The value of a hexadecimal digit, -1 for other characters. */
  function DigitValue(c: Byte): (v: int)
    ensures -1 <= v < 16
  {
    if 47 < c < 58 then c - 48 else if 64 < c < 71 then 10 + c - 65 else if 96 < c < 103 then 10 + c - 97 else -1
  }

  function Digit(v: Nibble): (c: Byte)
    ensures c != 0 && DigitValue(c) == v
  {
    if v < 10 then 48 + v else 87 + v
  }

  function HexOf(x: seq<Byte>): (r: seq<Byte>)
    ensures |r| == 2 * |x| && 0 !in r
  {
    if x == [] then [] else [Digit(x[0] / 16), Digit(x[0] % 16)] + HexOf(x[1..])
  }

  /** Pairs of digits up to the first character that is not one. */
  function HexBytes(s: seq<Byte>): (r: seq<Byte>)
    ensures |r| <= |s| / 2
  {
    if |s| < 2 || DigitValue(s[0]) < 0 || DigitValue(s[1]) < 0 then []
    else [DigitValue(s[0]) * 16 + DigitValue(s[1])] + HexBytes(s[2..])
  }

  lemma {:induction false} HexBack(x: seq<Byte>)
    ensures HexBytes(HexOf(x)) == x
  {
    if x != [] {
      HexBack(x[1..]);
      assert HexOf(x)[2..] == HexOf(x[1..]);
    }
  }

  method BytesToHexStr(x: seq<Byte>) returns (r: seq<Byte>)
    ensures r == HexOf(x)
  {
    r := [];
    var i := 0;
    while i < |x|
      invariant i <= |x| && r + HexOf(x[i..]) == HexOf(x)
    {
      ghost var was := r;
      r := r + [Digit(x[i] / 16), Digit(x[i] % 16)];
      assert x[i..][1..] == x[i + 1..];
      assert r + HexOf(x[i + 1..]) == was + HexOf(x[i..]);
      i := i + 1;
    }
    assert r + [] == r;
  }

  /** hex_str2bytes: it stops at a character that is not a digit; what it stored before stays. */
  method HexStrToBytes(s: seq<Byte>) returns (ok: bool, out: seq<Byte>)
    ensures out == HexBytes(s)
    ensures ok <==> forall i :: 0 <= i < |s| ==> DigitValue(s[i]) >= 0
  {
    hide DigitValue, HexBytes;
    out, ok := [], true;
    var i: nat, num: int := 0, 0;
    ghost var from, odd := s, false;
    while i < |s|
      invariant 0 <= i <= |s| && forall j :: 0 <= j < i ==> DigitValue(s[j]) >= 0
      invariant odd == (i % 2 == 1) && (odd ==> i >= 1) && from == s[if odd then i - 1 else i..]
      invariant out + HexBytes(from) == HexBytes(s)
      invariant odd ==> num == DigitValue(from[0]) * 16
    {
      var tmp := DigitValue(s[i]);
      if tmp < 0 {
        ok := false;
        BadDigit(from, if odd then 1 else 0);
        return;
      }
      if i % 2 == 0 {
        num := tmp * 16;
      } else {
        assert from[1] == s[i] && from[0] == s[i - 1];
        HexPair(from);
        num := num + tmp;
        out := out + [num];
        from := from[2..];
      }
      i := i + 1;
      odd := !odd;
    }
    HexEnd(from);
  }

  lemma HexPair(s: seq<Byte>)
    requires |s| >= 2 && DigitValue(s[0]) >= 0 && DigitValue(s[1]) >= 0
    ensures HexBytes(s) == [DigitValue(s[0]) * 16 + DigitValue(s[1])] + HexBytes(s[2..])
  {}

  lemma HexEnd(s: seq<Byte>)
    requires |s| < 2
    ensures HexBytes(s) == []
  {}

  lemma BadDigit(s: seq<Byte>, i: nat)
    requires i < |s| && i < 2 && DigitValue(s[i]) < 0
    ensures HexBytes(s) == []
  {}

  // ---------------------------------------------------------------------------------------------
  // Files
  // ---------------------------------------------------------------------------------------------

  /** What get8Bits reads: eight bytes, or fewer at the end, in a cleared buffer. */
  function FirstBlock(file: seq<Byte>): (c: nat)
    ensures c <= 8 && c <= |file| && (c == 0 <==> file == [])
  {
    if |file| < 8 then |file| else 8
  }

  function FileText(key: Key16, file: seq<Byte>): seq<Byte> {
    if file == [] then []
    else
      var c := FirstBlock(file);
      HexOf(TripleText(key, Padded(file[..c]), Enc)) + FileText(key, file[c..])
  }

  method FileEnc(key: Key16, file: seq<Byte>) returns (out: seq<Byte>)
    ensures out == FileText(key, file)
  {
    hide TripleText, HexOf, FileText;
    out := [];
    var rest := file;
    var c := FirstBlock(rest);
    while c != 0
      invariant c == FirstBlock(rest) && out + FileText(key, rest) == FileText(key, file)
      decreases |rest|
    {
      var output := TripleEncDec(key, Padded(rest[..c]), Enc);
      var hex := BytesToHexStr(output);
      FileTextNext(key, rest);
      out := out + hex;
      rest := rest[c..];
      c := FirstBlock(rest);
    }
    FileTextEnd(key, rest);
  }

  lemma FileTextNext(key: Key16, file: seq<Byte>)
    requires file != []
    ensures var c := FirstBlock(file);
      FileText(key, file) == HexOf(TripleText(key, Padded(file[..c]), Enc)) + FileText(key, file[c..])
  {}

  lemma FileTextEnd(key: Key16, file: seq<Byte>)
    requires file == []
    ensures FileText(key, file) == []
  {}

  type Hex16 = b: seq<Byte> | |b| == 16 witness seq(16, i => 0)

  /** fread into the buffer: a short read leaves the rest of the block before. */
  function Refilled(buf: Hex16, text: seq<Byte>): Hex16 {
    if |text| < 16 then text + buf[|text|..] else text[..16]
  }

  /** What file_dec writes, given what is in its buffer. */
  function FilePlain(key: Key16, text: seq<Byte>, buf: Hex16): seq<Byte>
    decreases |text|
  {
    if text == [] then []
    else
      var b := Refilled(buf, text);
      BeforeNul(TripleText(key, b, Dec)) + FilePlain(key, if |text| < 16 then [] else text[16..], b)
  }

  method FileDec(key: Key16, text: seq<Byte>) returns (out: seq<Byte>)
    ensures out == FilePlain(key, text, seq(16, i => 0))
  {
    hide TripleText, FilePlain, BeforeNul;
    out := [];
    var buf: Hex16 := seq(16, i => 0);
    ghost var start := buf;
    var rest := text;
    while |rest| != 0
      invariant out + FilePlain(key, rest, buf) == FilePlain(key, text, start)
      decreases |rest|
    {
      FilePlainNext(key, rest, buf);
      buf := Refilled(buf, rest);
      rest := if |rest| < 16 then [] else rest[16..];
      var output := TripleEncDec(key, buf, Dec);
      out := out + BeforeNul(output);
    }
    FilePlainEnd(key, rest, buf);
    assert start == seq(16, i => 0);
  }

  lemma FilePlainNext(key: Key16, text: seq<Byte>, buf: Hex16)
    requires text != []
    ensures var b := Refilled(buf, text);
      FilePlain(key, text, buf) ==
        BeforeNul(TripleText(key, b, Dec)) + FilePlain(key, if |text| < 16 then [] else text[16..], b)
  {}

  lemma FilePlainEnd(key: Key16, text: seq<Byte>, buf: Hex16)
    requires text == []
    ensures FilePlain(key, text, buf) == []
  {}

  /** Of every block of eight bytes, what is before its first NUL. */
  function Kept(file: seq<Byte>): seq<Byte> {
    if file == [] then [] else BeforeNul(file[..FirstBlock(file)]) + Kept(file[FirstBlock(file)..])
  }

  lemma {:induction false} BeforeNulPadded(s: seq<Byte>, t: seq<Byte>)
    requires t != [] ==> t[0] == 0
    ensures BeforeNul(s + t) == BeforeNul(s)
  {
    if s == [] {
      assert s + t == t;
    } else {
      BeforeNulPadded(s[1..], t);
      assert (s + t)[1..] == s[1..] + t;
    }
  }

  lemma {:induction false} BeforeNulAll(s: seq<Byte>)
    requires 0 !in s
    ensures BeforeNul(s) == s
  {
    if s != [] {
      assert s[0] != 0;
      BeforeNulAll(s[1..]);
    }
  }

  lemma PaddedText(s: seq<Byte>)
    requires |s| <= 8
    ensures BeforeNul(Padded(s)) == BeforeNul(s)
  {
    BeforeNulPadded(s, seq(8 - |s|, i => 0));
  }

  /** One block there and back. */
  lemma BlockThereAndBack(key: Key16, s: seq<Byte>)
    requires |s| <= 8
    ensures var hex := HexOf(TripleText(key, Padded(s), Enc));
      |hex| == 16 && BeforeNul(TripleText(key, hex, Dec)) == BeforeNul(s)
  {
    hide Triple, BeforeNul, HexOf, HexBytes, Padded;
    PaddedText(s);
    var plain := Padded(BeforeNul(s));
    var code := Triple(key, plain, Enc);
    assert TripleText(key, Padded(s), Enc) == code;
    var hex := HexOf(code);
    BeforeNulAll(hex);
    HexBack(code);
    PaddedFull(code);
    TripleBack(key, plain);
    assert TripleText(key, hex, Dec) == plain;
    PaddedText(BeforeNul(s));
    BeforeNulAll(BeforeNul(s));
  }

  lemma PaddedFull(b: Block)
    ensures Padded(b) == b
  {}

  /** Decrypting an encrypted file gives what its blocks held before their first NUL. */
  lemma {:induction false} FileBack(key: Key16, file: seq<Byte>, buf: Hex16)
    ensures FilePlain(key, FileText(key, file), buf) == Kept(file)
    decreases |file|
  {
    hide TripleText, HexOf, BeforeNul;
    if file != [] {
      var c := FirstBlock(file);
      BlockThereAndBack(key, file[..c]);
      var hex, more := HexOf(TripleText(key, Padded(file[..c]), Enc)), FileText(key, file[c..]);
      assert FileText(key, file) == hex + more;
      assert Refilled(buf, hex + more) == hex && (hex + more)[16..] == more;
      FileBack(key, file[c..], hex);
    }
  }

  lemma {:induction false} KeptAll(file: seq<Byte>)
    ensures |Kept(file)| <= |file|
    ensures |Kept(file)| == |file| ==> 0 !in file
    ensures 0 !in file ==> Kept(file) == file
    decreases |file|
  {
    if file != [] {
      var c := FirstBlock(file);
      var s, t := file[..c], file[c..];
      assert file == s + t;
      KeptAll(t);
      if 0 !in file { BeforeNulAll(s); }
      if |Kept(file)| == |file| { assert BeforeNul(s) == s; }
    }
  }

  /** The file comes back exactly if it has no NUL byte. */
  lemma FileRoundTrip(key: Key16, file: seq<Byte>)
    ensures FilePlain(key, FileText(key, file), seq(16, i => 0)) == file <==> 0 !in file
  {
    hide FilePlain, FileText;
    var buf: Hex16 := seq(16, i => 0);
    FileBack(key, file, buf);
    assert seq(16, i => 0) == buf;
    KeptAll(file);
  }
}
