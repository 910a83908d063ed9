/**
 * The block trees of inodes (cpp/linux-0.11/fs/inode.c) as values: direct zones, one single and one
 * double indirect zone, and who owns which zone of the device.
 */
module MinixTree {

  const BLOCK := 1024
  const WORDS := 512
  const ZONES := 9
  const MAX_BLOCKS := 7 + 512 + 512 * 512

  type Byte = b: int | 0 <= b < 256

  type Block = b: seq<Byte> | |b| == BLOCK witness seq(1024, k => 0)

  function Zeros(): (b: Block)
    ensures forall k :: 0 <= k < BLOCK ==> b[k] == 0
  {
    seq(BLOCK, k => 0)
  }

  /** The k-th unsigned short of a block, low byte first. */
  function Word(b: Block, k: nat): int
    requires k < WORDS
  {
    var low: int, high: int := b[2 * k], b[2 * k + 1];
    low + 256 * high
  }

  function SetWord(b: Block, k: nat, w: int): Block
    requires k < WORDS && 0 <= w < 65536
  {
    b[2 * k := w % 256][2 * k + 1 := w / 256]
  }

  lemma WordOfSet(b: Block, k: nat, w: int, l: nat)
    requires k < WORDS && l < WORDS && 0 <= w < 65536
    ensures Word(SetWord(b, k, w), l) == if l == k then w else Word(b, l)
  {}

  datatype Inode = Inode(zone: seq<int>, size: nat)

  datatype Disk = Disk(inodes: map<nat, Inode>, blocks: seq<Block>)

  /** A place that can hold a zone number. */
  datatype Ref =
    | Direct(ino: nat, k: nat)          // i_zone[k]
    | Single(ino: nat, k: nat)          // entry k of the single indirect block
    | Mid(ino: nat, k: nat)             // entry k of the double indirect block
    | Leaf(ino: nat, k: nat, l: nat)    // entry l of the block that Mid(ino, k) names

  predicate InRange(r: Ref) {
    match r
    case Direct(_, k) => k < ZONES
    case Single(_, k) => k < WORDS
    case Mid(_, k) => k < WORDS
    case Leaf(_, k, l) => k < WORDS && l < WORDS
  }

  function Parent(r: Ref): Ref
    requires !r.Direct?
  {
    match r
    case Single(i, _) => Direct(i, 7)
    case Mid(i, _) => Direct(i, 8)
    case Leaf(i, k, _) => Mid(i, k)
  }

  function Index(r: Ref): nat { if r.Leaf? then r.l else r.k }

  function Rank(r: Ref): nat { if r.Direct? then 0 else if r.Leaf? then 2 else 1 }

  /** Entry k of block z; block numbers outside the device hold nothing. */
  function Entry(d: Disk, z: int, k: nat): int
    requires k < WORDS
  {
    if 0 < z < |d.blocks| then Word(d.blocks[z], k) else 0
  }

  /** The zone number at a place, 0 if there is none. */
  function ZoneAt(d: Disk, r: Ref): int
    decreases Rank(r)
  {
    if !InRange(r) then 0
    else if r.Direct? then
      (if r.ino in d.inodes && |d.inodes[r.ino].zone| == ZONES then d.inodes[r.ino].zone[r.k] else 0)
    else Entry(d, ZoneAt(d, Parent(r)), Index(r))
  }

  /** Places whose zone is a block of zone numbers, as opposed to file data. */
  predicate IsTable(r: Ref) { r.Mid? || (r.Direct? && r.k >= 7) }

  // ---------------------------------------------------------------------------------------------
  // Ownership: allocated zones and used places correspond one to one
  // ---------------------------------------------------------------------------------------------

  type Owner = map<int, Ref>

  ghost predicate Owned(d: Disk, owner: Owner, first: nat) {
    && first > 0 && |d.blocks| <= 65536
    && (forall i :: i in d.inodes ==> |d.inodes[i].zone| == ZONES)
    && (forall r :: ZoneAt(d, r) != 0 ==> ZoneAt(d, r) in owner && owner[ZoneAt(d, r)] == r)
    && (forall z :: z in owner ==> first <= z < |d.blocks| && ZoneAt(d, owner[z]) == z)
  }

  /** The places in use. */
  ghost function Places(owner: Owner): set<Ref> { set z | z in owner :: owner[z] }

  lemma PlacesAre(d: Disk, owner: Owner, first: nat)
    requires Owned(d, owner, first)
    ensures forall r :: r in Places(owner) <==> ZoneAt(d, r) != 0
  {
    forall r ensures r in Places(owner) <==> ZoneAt(d, r) != 0 {
      if ZoneAt(d, r) != 0 { assert owner[ZoneAt(d, r)] == r; }
    }
  }

  /** There are as many places in use as zones. */
  lemma PlacesCount(d: Disk, owner: Owner, first: nat)
    requires Owned(d, owner, first)
    ensures |Places(owner)| == |owner.Keys|
  {
    forall y, z | y in owner && z in owner && owner[y] == owner[z] ensures y == z {}
    ImageCount(owner, owner.Keys);
    assert Places(owner) == set z | z in owner.Keys :: owner[z];
  }

  lemma {:induction false} ImageCount(owner: Owner, zs: set<int>)
    requires forall z :: z in zs ==> z in owner
    requires forall y, z :: y in zs && z in zs && owner[y] == owner[z] ==> y == z
    ensures |set z | z in zs :: owner[z]| == |zs|
  {
    var image := set z | z in zs :: owner[z];
    if z :| z in zs {
      ImageCount(owner, zs - {z});
      assert image == (set y | y in zs - {z} :: owner[y]) + {owner[z]};
    } else {
      assert forall z :: z !in zs;
      assert zs == {} && image == {};
    }
  }

  /** A place and the places that lead to it. */
  function Chain(r: Ref): set<Ref>
    decreases Rank(r)
  {
    {r} + if r.Direct? then {} else Chain(Parent(r))
  }

  /** The places of some blocks of a file, tables included. */
  function BlockPlaces(ino: nat, from: nat, to: nat): set<Ref> {
    if to <= from then {}
    else BlockPlaces(ino, from, to - 1) + if to - 1 < MAX_BLOCKS then Chain(BlockOf(ino, to - 1)) else {}
  }

  /** The places that n bytes from byte p of a file on lie at. */
  function Touched(ino: nat, p: nat, n: nat): set<Ref> {
    if n == 0 then {} else BlockPlaces(ino, p / BLOCK, (p + n - 1) / BLOCK + 1)
  }

  function Others(places: set<Ref>, ino: nat): set<Ref> { set r | r in places && r.ino != ino }

  lemma WithoutPlaces(owner: Owner, ino: nat)
    ensures Places(Without(owner, ino)) == Others(Places(owner), ino)
  {
    forall z | z in owner && owner[z].ino != ino ensures z in Without(owner, ino) {}
  }

  /** No zone is used at two places. */
  lemma Injective(d: Disk, owner: Owner, first: nat, r: Ref, q: Ref)
    requires Owned(d, owner, first) && ZoneAt(d, r) == ZoneAt(d, q) != 0
    ensures r == q
  {}

  /** A place can be filled if it is empty and what leads to it is not. */
  ghost predicate Open(d: Disk, r: Ref) {
    InRange(r) && r.ino in d.inodes && ZoneAt(d, r) == 0 && (!r.Direct? ==> ZoneAt(d, Parent(r)) != 0)
  }

  function SetZone(d: Disk, r: Ref, z: int): Disk
    requires InRange(r) && r.ino in d.inodes && |d.inodes[r.ino].zone| == ZONES && 0 <= z < 65536
    requires !r.Direct? ==> 0 < ZoneAt(d, Parent(r)) < |d.blocks|
  {
    if r.Direct? then d.(inodes := d.inodes[r.ino := d.inodes[r.ino].(zone := d.inodes[r.ino].zone[r.k := z])])
    else
      var t := ZoneAt(d, Parent(r));
      d.(blocks := d.blocks[t := SetWord(d.blocks[t], Index(r), z)])
  }

  /** Changing blocks that are not tables of anybody changes no place. */
  lemma {:induction false} ZoneFrame(d: Disk, d': Disk, r: Ref)
    requires d'.inodes == d.inodes && |d'.blocks| == |d.blocks|
    requires forall q :: IsTable(q) && 0 < ZoneAt(d, q) < |d.blocks| ==>
      d'.blocks[ZoneAt(d, q)] == d.blocks[ZoneAt(d, q)]
    ensures ZoneAt(d', r) == ZoneAt(d, r)
    decreases Rank(r)
  {
    if !r.Direct? && InRange(r) {
      ZoneFrame(d, d', Parent(r));
      assert IsTable(Parent(r));
    }
  }

  /** Filling an open place with a fresh, zeroed zone changes that place and no other. */
  lemma {:induction false} SetZoneAt(d: Disk, owner: Owner, first: nat, r: Ref, z: int, q: Ref)
    requires Owned(d, owner, first) && Open(d, r) && first <= z < |d.blocks| && z !in owner && d.blocks[z] == Zeros()
    ensures !r.Direct? ==> 0 < ZoneAt(d, Parent(r)) < |d.blocks|
    ensures ZoneAt(SetZone(d, r, z), q) == if q == r then z else ZoneAt(d, q)
    decreases Rank(q)
  {
    if !r.Direct? { assert ZoneAt(d, Parent(r)) in owner; }
    var d' := SetZone(d, r, z);
    if InRange(q) && !q.Direct? {
      SetZoneAt(d, owner, first, r, z, Parent(q));
      var t := ZoneAt(d, Parent(q));
      if Parent(q) == r {
        // the fresh block is not the block that was changed
        assert Entry(d', z, Index(q)) == 0;
      } else if !r.Direct? && t == ZoneAt(d, Parent(r)) && t != 0 {
        Injective(d, owner, first, Parent(q), Parent(r));
        WordOfSet(d.blocks[t], Index(r), z, Index(q));
      }
    }
  }

  // ---------------------------------------------------------------------------------------------
  // Taking a fresh zone
  // ---------------------------------------------------------------------------------------------

  /** new_block clears the zone it hands out, then the caller stores its number at r. */
  function Clear(d: Disk, z: int): Disk
    requires 0 <= z < |d.blocks|
  {
    d.(blocks := d.blocks[z := Zeros()])
  }

  lemma ClearKeeps(d: Disk, owner: Owner, first: nat, z: int)
    requires Owned(d, owner, first) && first <= z < |d.blocks| && z !in owner
    ensures Owned(Clear(d, z), owner, first)
    ensures forall q :: ZoneAt(Clear(d, z), q) == ZoneAt(d, q)
  {
    forall q ensures ZoneAt(Clear(d, z), q) == ZoneAt(d, q) { ZoneFrame(d, Clear(d, z), q); }
  }

  lemma FillKeeps(d: Disk, owner: Owner, first: nat, r: Ref, z: int)
    requires Owned(d, owner, first) && Open(d, r) && first <= z < |d.blocks| && z !in owner && d.blocks[z] == Zeros()
    ensures !r.Direct? ==> 0 < ZoneAt(d, Parent(r)) < |d.blocks|
    ensures Owned(SetZone(d, r, z), owner[z := r], first)
    ensures forall q :: ZoneAt(SetZone(d, r, z), q) == if q == r then z else ZoneAt(d, q)
  {
    SetZoneAt(d, owner, first, r, z, r);
    var d' := SetZone(d, r, z);
    forall q ensures ZoneAt(d', q) == if q == r then z else ZoneAt(d, q) { SetZoneAt(d, owner, first, r, z, q); }
  }

  // ---------------------------------------------------------------------------------------------
  // The flat view of a file
  // ---------------------------------------------------------------------------------------------

  /** The place that holds the zone of block n of a file. */
  function BlockOf(ino: nat, n: nat): (r: Ref)
    requires n < MAX_BLOCKS
    ensures InRange(r) && !IsTable(r) && r.ino == ino
  {
    if n < 7 then Direct(ino, n)
    else if n < 7 + 512 then Single(ino, n - 7)
    else Leaf(ino, (n - 519) / 512, (n - 519) % 512)
  }

  lemma BlockOfInjective(i: nat, n: nat, j: nat, m: nat)
    requires n < MAX_BLOCKS && m < MAX_BLOCKS && BlockOf(i, n) == BlockOf(j, m)
    ensures i == j && n == m
  {}

  /** Places of file data, as opposed to tables. */
  predicate IsData(r: Ref) { InRange(r) && !IsTable(r) }

  /** r comes before q where they lie: zone fields, then the indirect block, then the blocks named in turn. */
  predicate Earlier(r: Ref, q: Ref) {
    match (r, q)
    case (Direct(_, k), Direct(_, l)) => k < l
    case (Direct(_, _), _) => true
    case (Single(_, k), Single(_, l)) => k < l
    case (Single(_, _), Leaf(_, _, _)) => true
    case (Leaf(_, k, l), Leaf(_, m, n)) => k < m || (k == m && l < n)
    case _ => false
  }

  /** The blocks of a file, counted from 0, are its data places in the order in which they lie. */
  lemma BlocksInOrder(ino: nat, n: nat, m: nat)
    requires n < MAX_BLOCKS && m < MAX_BLOCKS
    ensures n < m <==> Earlier(BlockOf(ino, n), BlockOf(ino, m))
  {
    var a, b := n - 519, m - 519;
    if n >= 519 && m >= 519 {
      assert a == 512 * (a / 512) + a % 512 && b == 512 * (b / 512) + b % 512;
    }
  }

  lemma EveryDataPlace(r: Ref) returns (n: nat)
    requires IsData(r)
    ensures n < MAX_BLOCKS && BlockOf(r.ino, n) == r
  {
    if r.Direct? {
      n := r.k;
    } else if r.Single? {
      n := 7 + r.k;
    } else {
      n := 519 + 512 * r.k + r.l;
      assert (512 * r.k + r.l) / 512 == r.k && (512 * r.k + r.l) % 512 == r.l;
    }
  }

  /** The zone number of block n of an inode, in terms of its zone fields and the words of blocks. */
  function OnDisk(zone: seq<int>, blocks: seq<Block>, n: nat): int
    requires |zone| == ZONES && n < MAX_BLOCKS
  {
    if n < 7 then zone[n]
    else if n < 7 + 512 then WordOf(blocks, zone[7], n - 7)
    else WordOf(blocks, WordOf(blocks, zone[8], (n - 7 - 512) / 512), (n - 7 - 512) % 512)
  }

  /** A word of the table in zone t; zone number 0 is no table. */
  function WordOf(blocks: seq<Block>, t: int, k: nat): int
    requires k < WORDS
  {
    if 0 < t < |blocks| then LittleEndian(blocks[t][2 * k..2 * k + 2]) else 0
  }

  function LittleEndian(bytes: seq<Byte>): int {
    if bytes == [] then 0 else bytes[0] + 256 * LittleEndian(bytes[1..])
  }

  lemma WordIs(b: Block, k: nat)
    requires k < WORDS
    ensures Word(b, k) == LittleEndian(b[2 * k..2 * k + 2])
  {
    var w: seq<Byte> := b[2 * k..2 * k + 2];
    assert w[1..] == [w[1]];
    assert LittleEndian([w[1]]) == w[1] + 256 * LittleEndian([w[1]][1..]) == w[1];
  }

  /** The tree holds for block n what the disk says. */
  lemma BlockOnDisk(d: Disk, ino: nat, n: nat)
    requires n < MAX_BLOCKS && ino in d.inodes && |d.inodes[ino].zone| == ZONES
    ensures ZoneAt(d, BlockOf(ino, n)) == OnDisk(d.inodes[ino].zone, d.blocks, n)
  {
    var zone, blocks := d.inodes[ino].zone, d.blocks;
    if n >= 7 + 512 {
      var k := (n - 519) / 512;
      TableWord(d, Mid(ino, k));
      TableWord(d, BlockOf(ino, n));
    } else if n >= 7 {
      TableWord(d, BlockOf(ino, n));
    }
  }

  lemma TableWord(d: Disk, r: Ref)
    requires InRange(r) && !r.Direct?
    ensures ZoneAt(d, r) == WordOf(d.blocks, ZoneAt(d, Parent(r)), Index(r))
  {
    var t := ZoneAt(d, Parent(r));
    if 0 < t < |d.blocks| { WordIs(d.blocks[t], Index(r)); }
  }

  lemma ByteOfBlock(d: Disk, ino: nat, n: nat, k: nat)
    requires n < MAX_BLOCKS && k < BLOCK
    ensures ByteAt(d, ino, n * BLOCK + k) == BlockAt(d, ZoneAt(d, BlockOf(ino, n)))[k]
  {
    assert (n * BLOCK + k) / BLOCK == n && (n * BLOCK + k) % BLOCK == k;
  }

  /** The bytes of a zone; zone number 0 is a hole. */
  function BlockAt(d: Disk, z: int): Block { if 0 < z < |d.blocks| then d.blocks[z] else Zeros() }

  /** A block of a file is a block of the disk, byte for byte, or zeros. */
  lemma BlockBytes(d: Disk, ino: nat, n: nat)
    requires n < MAX_BLOCKS
    ensures seq(BLOCK, k requires 0 <= k < BLOCK => ByteAt(d, ino, n * BLOCK + k)) ==
            BlockAt(d, ZoneAt(d, BlockOf(ino, n)))
  {
    forall k | 0 <= k < BLOCK
      ensures ByteAt(d, ino, n * BLOCK + k) == BlockAt(d, ZoneAt(d, BlockOf(ino, n)))[k]
    {
      ByteOfBlock(d, ino, n, k);
    }
  }

  /** Byte p of a file; holes, and what lies beyond the largest file, read as zero. */
  function ByteAt(d: Disk, ino: nat, p: nat): Byte {
    if p / BLOCK >= MAX_BLOCKS then 0
    else
      var z := ZoneAt(d, BlockOf(ino, p / BLOCK));
      if 0 < z < |d.blocks| then d.blocks[z][p % BLOCK] else 0
  }

  /** Taking a fresh zone for any place leaves every byte of every file as it was. */
  lemma FillBytes(d: Disk, owner: Owner, first: nat, r: Ref, z: int, i: nat, p: nat)
    requires Owned(d, owner, first) && Open(d, r) && first <= z < |d.blocks| && z !in owner && d.blocks[z] == Zeros()
    ensures !r.Direct? ==> 0 < ZoneAt(d, Parent(r)) < |d.blocks|
    ensures ByteAt(SetZone(d, r, z), i, p) == ByteAt(d, i, p)
  {
    FillKeeps(d, owner, first, r, z);
    if p / BLOCK < MAX_BLOCKS {
      var q := BlockOf(i, p / BLOCK);
      var y := ZoneAt(d, q);
      if !r.Direct? {
        assert IsTable(Parent(r)) && (y != 0 ==> y != ZoneAt(d, Parent(r)));
      }
    }
  }

  lemma ClearBytes(d: Disk, owner: Owner, first: nat, z: int, i: nat, p: nat)
    requires Owned(d, owner, first) && first <= z < |d.blocks| && z !in owner
    ensures ByteAt(Clear(d, z), i, p) == ByteAt(d, i, p)
  {
    ClearKeeps(d, owner, first, z);
  }

  /** Storing new contents in a zone of file data. */
  function Store(d: Disk, z: int, b: Block): Disk
    requires 0 <= z < |d.blocks|
  {
    d.(blocks := d.blocks[z := b])
  }

  lemma StoreKeeps(d: Disk, owner: Owner, first: nat, r: Ref, b: Block)
    requires Owned(d, owner, first) && !IsTable(r) && ZoneAt(d, r) != 0
    ensures 0 < ZoneAt(d, r) < |d.blocks|
    ensures Owned(Store(d, ZoneAt(d, r), b), owner, first)
    ensures forall q :: ZoneAt(Store(d, ZoneAt(d, r), b), q) == ZoneAt(d, q)
  {
    var d' := Store(d, ZoneAt(d, r), b);
    forall q ensures ZoneAt(d', q) == ZoneAt(d, q) { ZoneFrame(d, d', q); }
  }

  /** Changing one data zone changes the bytes of one block of one file. */
  lemma StoreBytes(d: Disk, owner: Owner, first: nat, ino: nat, n: nat, b: Block, i: nat, p: nat)
    requires Owned(d, owner, first) && n < MAX_BLOCKS && ZoneAt(d, BlockOf(ino, n)) != 0
    ensures 0 < ZoneAt(d, BlockOf(ino, n)) < |d.blocks|
    ensures ByteAt(Store(d, ZoneAt(d, BlockOf(ino, n)), b), i, p)
         == if i == ino && p / BLOCK == n then b[p % BLOCK] else ByteAt(d, i, p)
  {
    StoreKeeps(d, owner, first, BlockOf(ino, n), b);
    if p / BLOCK < MAX_BLOCKS && ZoneAt(d, BlockOf(i, p / BLOCK)) == ZoneAt(d, BlockOf(ino, n)) {
      Injective(d, owner, first, BlockOf(i, p / BLOCK), BlockOf(ino, n));
      BlockOfInjective(i, p / BLOCK, ino, n);
    }
  }

  /** Some table on the way to a place cannot be read. */
  ghost predicate Blocked(d: Disk, bad: set<int>, r: Ref)
    decreases Rank(r)
  {
    !r.Direct? && (ZoneAt(d, Parent(r)) in bad || Blocked(d, bad, Parent(r)))
  }

  /** A table that leads to block n cannot be read, in terms of the zone fields and the words of blocks. */
  predicate Unread(zone: seq<int>, blocks: seq<Block>, bad: set<int>, n: nat)
    requires |zone| == ZONES && n < MAX_BLOCKS
  {
    if n < 7 then false
    else if n < 7 + 512 then zone[7] in bad
    else zone[8] in bad || WordOf(blocks, zone[8], (n - 7 - 512) / 512) in bad
  }

  lemma BlockedOnDisk(d: Disk, bad: set<int>, ino: nat, n: nat)
    requires n < MAX_BLOCKS && ino in d.inodes && |d.inodes[ino].zone| == ZONES
    ensures Blocked(d, bad, BlockOf(ino, n)) <==> Unread(d.inodes[ino].zone, d.blocks, bad, n)
  {
    if n >= 7 + 512 {
      var r := Mid(ino, (n - 519) / 512);
      TableWord(d, r);
      assert Parent(BlockOf(ino, n)) == r && Parent(r) == Direct(ino, 8);
      assert Blocked(d, bad, r) <==> ZoneAt(d, Direct(ino, 8)) in bad;
    }
  }

  // ---------------------------------------------------------------------------------------------
  // Giving up a whole file
  // ---------------------------------------------------------------------------------------------

  function Emptied(d: Disk, ino: nat): Disk
    requires ino in d.inodes
  {
    d.(inodes := d.inodes[ino := Inode([0, 0, 0, 0, 0, 0, 0, 0, 0], 0)])
  }

  ghost function Without(owner: Owner, ino: nat): Owner {
    map z | z in owner && owner[z].ino != ino :: owner[z]
  }

  lemma {:induction false} EmptiedAt(d: Disk, ino: nat, q: Ref)
    requires ino in d.inodes
    ensures ZoneAt(Emptied(d, ino), q) == if q.ino == ino then 0 else ZoneAt(d, q)
    decreases Rank(q)
  {
    if InRange(q) && !q.Direct? { EmptiedAt(d, ino, Parent(q)); }
  }

  lemma EmptiedKeeps(d: Disk, owner: Owner, first: nat, ino: nat)
    requires Owned(d, owner, first) && ino in d.inodes
    ensures Owned(Emptied(d, ino), Without(owner, ino), first)
    ensures forall i, p :: ByteAt(Emptied(d, ino), i, p) == if i == ino then 0 else ByteAt(d, i, p)
  {
    forall q ensures ZoneAt(Emptied(d, ino), q) == if q.ino == ino then 0 else ZoneAt(d, q) { EmptiedAt(d, ino, q); }
  }
}
