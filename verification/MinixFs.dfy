/**
 * Zone allocation, block mapping, reading, writing and truncating files
 * (cpp/linux-0.11/fs/bitmap.c, inode.c, file_dev.c and truncate.c) over the trees of MinixTree.
 */
module MinixFs {
  import opened MinixTree

  const BITS := 8192
  const MAPS := 8

  type ZoneMap = seq<seq<bool>>

  /** The bit of zone z; a map whose buffer was not read is empty. */
  predicate Bit(zmap: ZoneMap, first: nat, z: int) {
    var n := z - first + 1;
    0 <= n && n / BITS < |zmap| && n % BITS < |zmap[n / BITS]| && zmap[n / BITS][n % BITS]
  }

  /** The j-th bit of the i-th map stands for zone i * BITS + j + first - 1; bit 0 stands for no zone. */
  lemma BitOrder(zmap: ZoneMap, first: nat, i: nat, j: nat)
    requires i < |zmap| && j < |zmap[i]| <= BITS
    ensures Bit(zmap, first, i * BITS + j + first - 1) <==> zmap[i][j]
  {
    assert (i * BITS + j) / BITS == i && (i * BITS + j) % BITS == j;
  }

  /** What read_super leaves: eight maps, every data zone has its bit, and bit 0 is set. */
  ghost predicate MapOk(zmap: ZoneMap, first: nat, nzones: nat) {
    && 0 < first <= nzones < 65536 && |zmap| == MAPS
    && (forall i :: 0 <= i < MAPS ==> |zmap[i]| == 0 || |zmap[i]| == BITS)
    && (forall i :: 0 <= i <= (nzones - first) / BITS ==> |zmap[i]| == BITS)
    && zmap[0][0]
  }

  /** The data zones whose bit is set are the used ones. */
  ghost predicate Marks(zmap: ZoneMap, first: nat, nzones: nat, used: set<int>) {
    forall z :: first <= z < nzones ==> (Bit(zmap, first, z) <==> z in used)
  }

  ghost predicate Full(zmap: ZoneMap, first: nat, nzones: nat) {
    forall z :: first <= z < nzones ==> Bit(zmap, first, z)
  }

  function SetBit(zmap: ZoneMap, i: nat, j: nat, b: bool): ZoneMap
    requires i < |zmap| && j < |zmap[i]|
  {
    zmap[i := zmap[i][j := b]]
  }

  lemma SetBitAt(zmap: ZoneMap, first: nat, nzones: nat, i: nat, j: nat, b: bool, z: int)
    requires MapOk(zmap, first, nzones) && i < MAPS && j < |zmap[i]| && (b || i + j > 0) && first <= z
    ensures MapOk(SetBit(zmap, i, j, b), first, nzones)
    ensures Bit(SetBit(zmap, i, j, b), first, z) <==> if z == i * BITS + j + first - 1 then b else Bit(zmap, first, z)
  {
    var n := z - first + 1;
    assert n == n / BITS * BITS + n % BITS;
  }

  /** Everything below the first clear bit is set. */
  lemma FirstClear(zmap: ZoneMap, first: nat, nzones: nat, i: nat, j: nat, z: int)
    requires MapOk(zmap, first, nzones) && i <= MAPS && (i == MAPS ==> j == 0) && (i < MAPS ==> j < |zmap[i]|)
    requires forall x, y :: 0 <= x < i && 0 <= y < |zmap[x]| ==> zmap[x][y]
    requires i < MAPS ==> forall y :: 0 <= y < j ==> zmap[i][y]
    requires first <= z < nzones && z < i * BITS + j + first - 1
    ensures Bit(zmap, first, z)
  {
    var n := z - first + 1;
    assert n == n / BITS * BITS + n % BITS;
    assert n / BITS <= (nzones - first) / BITS;
    if n / BITS < i {
      assert zmap[n / BITS][n % BITS];
    }
  }

  method FindFirstZero(m: seq<bool>) returns (j: nat)
    requires |m| == BITS
    ensures j <= BITS && (j < BITS ==> !m[j])
    ensures forall k :: 0 <= k < j ==> m[k]
  {
    j := 0;
    while j < BITS && m[j]
      invariant j <= BITS
      invariant forall k :: 0 <= k < j ==> m[k]
    {
      j := j + 1;
    }
  }

  /** The loop of new_block: the first clear bit of the maps, in order. */
  method FirstFree(zmap: ZoneMap, first: nat, nzones: nat) returns (i: nat, j: nat)
    requires MapOk(zmap, first, nzones)
    ensures i <= MAPS && (i < MAPS ==> j < |zmap[i]| && !zmap[i][j])
    ensures i == MAPS ==> Full(zmap, first, nzones)
    ensures i < MAPS ==> forall z :: first <= z < nzones && z < i * BITS + j + first - 1 ==> Bit(zmap, first, z)
  {
    i, j := 0, BITS;
    while i < MAPS
      invariant i <= MAPS
      invariant forall x, y :: 0 <= x < i && 0 <= y < |zmap[x]| ==> zmap[x][y]
    {
      if |zmap[i]| != 0 {
        j := FindFirstZero(zmap[i]);
        if j < BITS { break; }
      }
      i := i + 1;
    }
    if i == MAPS { j := 0; }
    forall z | first <= z < nzones && z < i * BITS + j + first - 1 ensures Bit(zmap, first, z) {
      FirstClear(zmap, first, nzones, i, j, z);
    }
  }

  class File {
    var pos: nat
    var append: bool
    constructor (append: bool)
      ensures this.pos == 0 && this.append == append
    {
      this.pos, this.append := 0, append;
    }
  }

  /** What file_read delivers: blocks behind an unreadable table look like holes. */
  ghost function Seen(d: Disk, bad: set<int>, ino: nat, p: nat): Byte {
    if p / BLOCK < MAX_BLOCKS && Blocked(d, bad, BlockOf(ino, p / BLOCK)) then 0 else ByteAt(d, ino, p)
  }

  function Overlay(b: Block, c: nat, bytes: seq<Byte>): Block
    requires c + |bytes| <= BLOCK
  {
    b[..c] + bytes + b[c + |bytes|..]
  }

  method CopyIn(b: Block, c: nat, bytes: seq<Byte>) returns (b': Block)
    requires c + |bytes| <= BLOCK
    ensures b' == Overlay(b, c, bytes)
  {
    b' := b;
    var k := 0;
    while k < |bytes|
      invariant k <= |bytes| && b' == Overlay(b, c, bytes[..k])
    {
      b' := b'[c + k := bytes[k]];
      k := k + 1;
      assert bytes[..k] == bytes[..k - 1] + [bytes[k - 1]];
    }
    assert bytes[..k] == bytes;
  }

  /** Whether truncate, walking down from place r, gets to place q. */
  ghost predicate Reaches(d: Disk, bad: set<int>, r: Ref, q: Ref)
    decreases Rank(q)
  {
    q == r || (!q.Direct? && ZoneAt(d, Parent(q)) !in bad && Reaches(d, bad, r, Parent(q)))
  }

  /** Zone z is freed by the walk down from r. */
  ghost predicate Frees(d: Disk, owner: Owner, bad: set<int>, busy: set<int>, r: Ref, z: int) {
    z in owner && z !in busy && Reaches(d, bad, r, owner[z])
  }

  class Fs {
    const first: nat
    const nzones: nat
    var zmap: ZoneMap
    var inodes: map<nat, Inode>
    var blocks: seq<Block>
    var bad: set<int>           // zones bread cannot read
    var busy: set<int>          // zones whose buffer somebody else holds
    ghost var owner: Owner
    ghost var leaked: set<int>  // marked zones that no inode leads to

    function D(): Disk reads this { Disk(inodes, blocks) }

    ghost predicate Valid() reads this {
      && MapOk(zmap, first, nzones) && |blocks| == nzones
      && Owned(D(), owner, first)
      && Marks(zmap, first, nzones, owner.Keys + leaked)
      && owner.Keys !! leaked && (forall z :: z in leaked ==> first <= z < nzones)
      && 0 !in bad && (forall z :: z in busy && first <= z < nzones ==> z in owner || z in leaked)
    }

    // bitmap.c -----------------------------------------------------------------------------------

    method NewBlock() returns (z: int)
      requires Valid()
      modifies this`zmap, this`blocks, this`leaked
      ensures Valid()
      ensures z == 0 <==> old(Full(zmap, first, nzones))
      ensures z == 0 ==> blocks == old(blocks) && leaked == old(leaked)
      ensures z != 0 ==> first <= z < nzones && !old(Bit(zmap, first, z)) && z !in owner
      ensures z != 0 ==> forall y :: first <= y < z ==> old(Bit(zmap, first, y))
      ensures z != 0 ==> D() == old(Clear(D(), z)) && leaked == old(leaked) + {z} && z !in old(leaked)
      ensures forall q :: ZoneAt(D(), q) == old(ZoneAt(D(), q))
      ensures forall i, p :: ByteAt(D(), i, p) == old(ByteAt(D(), i, p))
      ensures forall y :: first <= y < nzones ==> (Bit(zmap, first, y) <==> old(Bit(zmap, first, y)) || y == z)
    {
      hide Bit, MapOk, Owned, ByteAt, ZoneAt, Zeros, Marks, Full;
      ghost var was := zmap;
      z := MarkZone();
      MarksNext(was, zmap, first, nzones, owner.Keys + leaked, z);
      if z != 0 {
        OneMore(owner.Keys, leaked, z);
        ClearZone(z);
      }
    }

    /** The cleared buffer of a zone just marked. */
    method ClearZone(z: int)
      requires first <= z < nzones == |blocks| && z !in owner && z !in leaked && Owned(D(), owner, first)
      requires MapOk(zmap, first, nzones) && Marks(zmap, first, nzones, owner.Keys + leaked + {z})
      requires owner.Keys !! leaked && (forall y :: y in leaked ==> first <= y < nzones)
      requires 0 !in bad && (forall y :: y in busy && first <= y < nzones ==> y in owner || y in leaked)
      modifies this`blocks, this`leaked
      ensures Valid() && D() == old(Clear(D(), z)) && leaked == old(leaked) + {z}
      ensures forall q :: ZoneAt(D(), q) == old(ZoneAt(D(), q))
      ensures forall i, p :: ByteAt(D(), i, p) == old(ByteAt(D(), i, p))
    {
      hide Bit, MapOk, Owned, ByteAt, ZoneAt, Zeros, Marks;
      ClearKeeps(D(), owner, first, z);
      forall i, p ensures ByteAt(Clear(D(), z), i, p) == ByteAt(D(), i, p) { ClearBytes(D(), owner, first, z, i, p); }
      OneMore(owner.Keys, leaked, z);
      blocks := blocks[z := Zeros()];
      leaked := leaked + {z};
    }

    /** The bitmap part of new_block; a bit beyond the last zone is set and then counts as none. */
    method MarkZone() returns (z: int)
      requires MapOk(zmap, first, nzones)
      modifies this`zmap
      ensures MapOk(zmap, first, nzones) && (z == 0 <==> old(Full(zmap, first, nzones)))
      ensures z != 0 ==> first <= z < nzones && !old(Bit(zmap, first, z))
      ensures z != 0 ==> forall y :: first <= y < z ==> old(Bit(zmap, first, y))
      ensures forall y :: first <= y < nzones ==> (Bit(zmap, first, y) <==> old(Bit(zmap, first, y)) || y == z)
    {
      var i, j := FirstFree(zmap, first, nzones);
      if i >= MAPS { return 0; }
      ghost var was := zmap;
      zmap := SetBit(zmap, i, j, true);
      z := j + i * BITS + first - 1;
      forall y | first <= y
        ensures MapOk(zmap, first, nzones) && (Bit(zmap, first, y) <==> if y == z then true else Bit(was, first, y))
      {
        SetBitAt(was, first, nzones, i, j, true, y);
      }
      assert MapOk(zmap, first, nzones) by { SetBitAt(was, first, nzones, i, j, true, first); }
      if z >= nzones { return 0; }
      assert !Bit(was, first, z) by { assert z - first + 1 == i * BITS + j; }
    }

    /**
     * The bit of a zone is cleared unless somebody else holds its buffer; a clear bit or a zone outside
     * the data area panics.
     */
    method FreeBlock(z: int) returns (panic: bool)
      requires MapOk(zmap, first, nzones)
      modifies this`zmap
      ensures MapOk(zmap, first, nzones)
      ensures panic <==> !(first <= z < nzones) || (z !in busy && !old(Bit(zmap, first, z)))
      ensures panic ==> forall y :: first <= y ==> (Bit(zmap, first, y) <==> old(Bit(zmap, first, y)))
      ensures !panic ==> forall y :: first <= y ==>
        (Bit(zmap, first, y) <==> old(Bit(zmap, first, y)) && (y != z || z in busy))
    {
      if z < first || z >= nzones { return true; }
      if z in busy { return false; }
      ghost var was := zmap;
      var n := z - (first - 1);
      panic := !zmap[n / BITS][n % BITS];
      zmap := SetBit(zmap, n / BITS, n % BITS, false);
      forall y | first <= y
        ensures MapOk(zmap, first, nzones) && (Bit(zmap, first, y) <==> if y == z then false else Bit(was, first, y))
      {
        SetBitAt(was, first, nzones, n / BITS, n % BITS, false, y);
      }
      assert MapOk(zmap, first, nzones) by { SetBitAt(was, first, nzones, n / BITS, n % BITS, false, first); }
    }

    // inode.c ------------------------------------------------------------------------------------

    /** No byte and no size of any file differs. */
    twostate predicate SameFiles() reads this {
      && inodes.Keys == old(inodes).Keys && (forall i :: i in inodes ==> inodes[i].size == old(inodes)[i].size)
      && (forall i, p :: ByteAt(D(), i, p) == old(ByteAt(D(), i, p)))
    }

    /** Place r now holds zone z, every other place what it held. */
    twostate predicate Filled(r: Ref, z: int, create: bool) reads this {
      && ZoneAt(D(), r) == z && (forall q :: q != r ==> ZoneAt(D(), q) == old(ZoneAt(D(), q)))
      && (!create || old(ZoneAt(D(), r)) != 0 ==> D() == old(D()) && zmap == old(zmap) && owner == old(owner))
      && (create && z == 0 ==> Full(zmap, first, nzones))
    }

    /** A zone just taken is entered at an empty place. */
    method Put(r: Ref, t: int, z: int)
      requires Valid() && Open(D(), r) && z in leaked && blocks[z] == Zeros()
      requires !r.Direct? ==> t == ZoneAt(D(), Parent(r))
      modifies this`blocks, this`inodes, this`leaked, this`owner
      ensures Valid() && leaked == old(leaked) - {z} && SameFiles() && owner.Keys + leaked == old(owner.Keys + leaked)
      ensures forall q :: ZoneAt(D(), q) == if q == r then z else old(ZoneAt(D(), q))
    {
      hide Bit, MapOk, ByteAt, Owned, Open, Zeros, Marks;
      ghost var taken := owner.Keys + leaked;
      ghost var d := Enter(r, z);
      if r.Direct? {
        inodes := inodes[r.ino := inodes[r.ino].(zone := inodes[r.ino].zone[r.k := z])];
      } else {
        blocks := blocks[t := SetWord(blocks[t], Index(r), z)];
      }
      assert D() == d;
      owner := owner[z := r];
      leaked := leaked - {z};
      assert owner.Keys + leaked == taken;
    }

    ghost method Enter(r: Ref, z: int) returns (d: Disk)
      requires Valid() && Open(D(), r) && z in leaked && blocks[z] == Zeros()
      ensures InRange(r) && r.ino in inodes && |inodes[r.ino].zone| == ZONES && first <= z < |blocks| <= 65536
      ensures !r.Direct? ==> 0 < ZoneAt(D(), Parent(r)) < |blocks|
      ensures d == SetZone(D(), r, z) && Owned(d, owner[z := r], first)
      ensures forall q :: ZoneAt(d, q) == if q == r then z else ZoneAt(D(), q)
      ensures forall i, p :: ByteAt(d, i, p) == ByteAt(D(), i, p)
    {
      FillKeeps(D(), owner, first, r, z);
      d := SetZone(D(), r, z);
      forall i, p ensures ByteAt(d, i, p) == ByteAt(D(), i, p) { FillBytes(D(), owner, first, r, z, i, p); }
    }

    /** The step that _bmap repeats: look at a place and, on request, fill it if it is empty. */
    method Slot(r: Ref, t: int, create: bool) returns (z: int)
      requires Valid() && InRange(r) && r.ino in inodes
      requires !r.Direct? ==> t == ZoneAt(D(), Parent(r)) != 0
      modifies this`zmap, this`blocks, this`inodes, this`leaked, this`owner
      ensures Valid() && leaked == old(leaked) && SameFiles() && Filled(r, z, create)
      ensures Places(owner) == old(Places(owner)) + if z != 0 then {r} else {}
    {
      hide Bit, MapOk, ByteAt, Places;
      ghost var d, owner0 := D(), owner;
      assert ZoneAt(D(), r) == if r.Direct? then inodes[r.ino].zone[r.k] else Word(blocks[t], Index(r));
      z := if r.Direct? then inodes[r.ino].zone[r.k] else Word(blocks[t], Index(r));
      if create && z == 0 {
        z := NewBlock();
        if z != 0 {
          Put(r, t, z);
        }
      }
      SlotPlaces(d, owner0, D(), owner, first, r);
    }

    /**
     * _bmap. Whatever it allocates, all files read as before; a zone it returns is the one the tree
     * holds for that block, and it returns none only for a hole, a full device or an unreadable table.
     */
    method Bmap(ino: nat, n: int, create: bool) returns (panic: bool, z: int)
      requires Valid() && ino in inodes
      modifies this`zmap, this`blocks, this`inodes, this`leaked, this`owner
      ensures Valid() && leaked == old(leaked) && SameFiles()
      ensures panic <==> !(0 <= n < MAX_BLOCKS)
      ensures panic || !create ==> D() == old(D()) && zmap == old(zmap) && owner == old(owner)
      ensures !panic ==> z == if Blocked(D(), bad, BlockOf(ino, n)) then 0 else ZoneAt(D(), BlockOf(ino, n))
      ensures !panic && z == 0 && create ==> Full(zmap, first, nzones) || Blocked(D(), bad, BlockOf(ino, n))
      ensures |inodes[ino].zone| == ZONES
      ensures !panic ==>
        z == if Unread(inodes[ino].zone, blocks, bad, n) then 0 else OnDisk(inodes[ino].zone, blocks, n)
      ensures forall q: Ref :: q.ino != ino ==> ZoneAt(D(), q) == old(ZoneAt(D(), q))
      ensures !panic ==> old(Places(owner)) <= Places(owner) <= old(Places(owner)) + Chain(BlockOf(ino, n))
      ensures !panic && z != 0 ==> Places(owner) == old(Places(owner)) + Chain(BlockOf(ino, n))
    {
      hide Bit, MapOk, ByteAt, Owned, Marks, Full, Valid, ZoneAt, Places, Chain, OnDisk, Unread;
      panic := !(0 <= n < MAX_BLOCKS);
      InodeFields(ino);
      if panic { return panic, 0; }
      ChainIs(ino, n);
      if n < 7 {
        z := Slot(Direct(ino, n), 0, create);
        TreeIsDisk(ino, n);
        return;
      }
      if n >= 7 + 512 {
        z := BmapDouble(ino, n, create);
        return;
      }
      var t := Slot(Direct(ino, 7), 0, create);
      TableRange(Direct(ino, 7));
      TreeIsDisk(ino, n);
      if t == 0 || t in bad { EmptyBelow(BlockOf(ino, n)); return panic, 0; }
      z := Slot(Single(ino, n - 7), t, create);
      TreeIsDisk(ino, n);
    }

    /** The double indirect part of _bmap. */
    method BmapDouble(ino: nat, n: nat, create: bool) returns (z: int)
      requires Valid() && ino in inodes && 7 + 512 <= n < MAX_BLOCKS
      modifies this`zmap, this`blocks, this`inodes, this`leaked, this`owner
      ensures Valid() && leaked == old(leaked) && SameFiles() && |inodes[ino].zone| == ZONES
      ensures !create ==> D() == old(D()) && zmap == old(zmap) && owner == old(owner)
      ensures z == if Blocked(D(), bad, BlockOf(ino, n)) then 0 else ZoneAt(D(), BlockOf(ino, n))
      ensures z == if Unread(inodes[ino].zone, blocks, bad, n) then 0 else OnDisk(inodes[ino].zone, blocks, n)
      ensures z == 0 && create ==> Full(zmap, first, nzones) || Blocked(D(), bad, BlockOf(ino, n))
      ensures forall q: Ref :: q.ino != ino ==> ZoneAt(D(), q) == old(ZoneAt(D(), q))
      ensures old(Places(owner)) <= Places(owner) <= old(Places(owner)) + Chain(BlockOf(ino, n))
      ensures z != 0 ==> Places(owner) == old(Places(owner)) + Chain(BlockOf(ino, n))
    {
      hide Bit, MapOk, ByteAt, Owned, Marks, Full, Valid, ZoneAt, Places, Chain, OnDisk, Unread;
      ChainIs(ino, n);
      var t8 := Slot(Direct(ino, 8), 0, create);
      TableRange(Direct(ino, 8));
      TreeIsDisk(ino, n);
      var k, l := (n - 519) / 512, (n - 519) % 512;
      if t8 == 0 || t8 in bad { EmptyBelow(Mid(ino, k)); EmptyBelow(BlockOf(ino, n)); return 0; }
      var t := Slot(Mid(ino, k), t8, create);
      TableRange(Mid(ino, k));
      TreeIsDisk(ino, n);
      if t == 0 || t in bad { EmptyBelow(BlockOf(ino, n)); return 0; }
      z := Slot(Leaf(ino, k, l), t, create);
      TreeIsDisk(ino, n);
      assert ZoneAt(D(), Mid(ino, k)) == t && ZoneAt(D(), Direct(ino, 8)) == t8;
      assert BlockOf(ino, n) == Leaf(ino, k, l) && Parent(Leaf(ino, k, l)) == Mid(ino, k)
        && Parent(Mid(ino, k)) == Direct(ino, 8);
      assert !Blocked(D(), bad, Mid(ino, k));
    }

    lemma InodeFields(ino: nat)
      requires Valid() && ino in inodes
      ensures |inodes[ino].zone| == ZONES
    {}

    /** What the tree says of block n, in terms of the zone fields and table words. */
    lemma TreeIsDisk(ino: nat, n: nat)
      requires Valid() && ino in inodes && n < MAX_BLOCKS
      ensures |inodes[ino].zone| == ZONES && ZoneAt(D(), BlockOf(ino, n)) == OnDisk(inodes[ino].zone, blocks, n)
      ensures Blocked(D(), bad, BlockOf(ino, n)) <==> Unread(inodes[ino].zone, blocks, bad, n)
    {
      BlockOnDisk(D(), ino, n);
      BlockedOnDisk(D(), bad, ino, n);
    }

    /** Zone numbers are zones of the device, and none of them is the number that means "none". */
    lemma TableRange(r: Ref)
      requires Valid()
      ensures ZoneAt(D(), r) != 0 ==> first <= ZoneAt(D(), r) < nzones
      ensures 0 !in bad
    {}

    lemma EmptyBelow(r: Ref)
      ensures !r.Direct? && ZoneAt(D(), Parent(r)) == 0 ==> ZoneAt(D(), r) == 0
    {}

    // file_dev.c ---------------------------------------------------------------------------------

    /** file_read: what it delivers are the bytes of the file, in order, from the position on. */
    method FileRead(f: File, ino: nat, count: int) returns (end: End, out: seq<Byte>, r: int)
      requires Valid() && ino in inodes
      modifies f`pos, this`zmap, this`blocks, this`inodes, this`leaked, this`owner
      ensures Valid() && D() == old(D()) && zmap == old(zmap) && owner == old(owner) && leaked == old(leaked)
      ensures f.pos == old(f.pos) + |out| && Ends(end, |out|, count, f.pos)
      ensures forall k :: 0 <= k < |out| ==> out[k] == Seen(D(), bad, ino, old(f.pos) + k)
      ensures end.Failed? ==> f.pos / BLOCK < MAX_BLOCKS && ZoneAt(D(), BlockOf(ino, f.pos / BLOCK)) in bad
      ensures !end.Panic? ==> r == if count <= 0 then 0 else if |out| > 0 then |out| else -99
    {
      hide Bit, MapOk, ByteAt, Owned, Marks, Full, Valid, ZoneAt, Blocked, BlockOf;
      end, out := Whole, [];
      if count <= 0 { return end, out, 0; }
      var left := count;
      while left > 0
        invariant Valid() && D() == old(D()) && zmap == old(zmap) && owner == old(owner) && leaked == old(leaked)
        invariant 0 <= left && left + |out| == count && f.pos == old(f.pos) + |out|
        invariant forall k :: 0 <= k < |out| ==> out[k] == Seen(D(), bad, ino, old(f.pos) + k)
        invariant out == [] || f.pos <= MAX_BLOCKS * BLOCK
      {
        var panic, nr := Bmap(ino, f.pos / BLOCK, false);
        if panic { return Panic, out, 0; }
        if nr != 0 && nr in bad { end := Failed; break; }
        var c := f.pos % BLOCK;
        var chars := if BLOCK - c < left then BLOCK - c else left;
        var part := FetchBytes(nr, c, chars, ino, f.pos);
        out := out + part;
        f.pos := f.pos + chars;
        left := left - chars;
      }
      r := if |out| > 0 then |out| else -99;
    }

    method FetchBytes(nr: int, c: nat, chars: nat, ghost ino: nat, ghost pos: nat) returns (part: seq<Byte>)
      requires Valid() && pos / BLOCK < MAX_BLOCKS && c == pos % BLOCK && c + chars <= BLOCK
      requires nr == if Blocked(D(), bad, BlockOf(ino, pos / BLOCK)) then 0 else ZoneAt(D(), BlockOf(ino, pos / BLOCK))
      ensures |part| == chars && forall k :: 0 <= k < chars ==> part[k] == Seen(D(), bad, ino, pos + k)
    {
      hide Bit, MapOk, Marks, Full, ZoneAt, Blocked, BlockOf, Valid;
      TableRange(BlockOf(ino, pos / BLOCK));
      ZonesAreBlocks();
      part := if nr != 0 then blocks[nr][c..c + chars] else seq(chars, k => 0);
      forall k | 0 <= k < chars ensures part[k] == Seen(D(), bad, ino, pos + k) {
        SameBlock(pos, k);
      }
    }

    lemma ZonesAreBlocks()
      requires Valid()
      ensures |blocks| == nzones && first > 0
    {}

    /** The new bytes of a block that bread delivered. */
    method PutBytes(z: int, ino: nat, pos: nat, bytes: seq<Byte>)
      requires Valid() && ino in inodes && pos / BLOCK < MAX_BLOCKS && pos % BLOCK + |bytes| <= BLOCK
      requires z == ZoneAt(D(), BlockOf(ino, pos / BLOCK)) != 0
      modifies this`blocks
      ensures Valid()
      ensures forall j, p :: ByteAt(D(), j, p) == After(old(ByteAt(D(), j, p)), ino, pos, bytes, j, p)
      ensures forall q :: ZoneAt(D(), q) == old(ZoneAt(D(), q))
    {
      hide Bit, MapOk, Marks, Full, ZoneAt, BlockOf, ByteAt, Owned;
      TableRange(BlockOf(ino, pos / BLOCK));
      ZonesAreBlocks();
      var b := CopyIn(blocks[z], pos % BLOCK, bytes);
      StoreKeeps(D(), owner, first, BlockOf(ino, pos / BLOCK), b);
      forall j: nat, p: nat ensures ByteAt(Store(D(), z, b), j, p) == After(ByteAt(D(), j, p), ino, pos, bytes, j, p) {
        StoreBytes(D(), owner, first, ino, pos / BLOCK, b, j, p);
        if j == ino && p / BLOCK == pos / BLOCK { OverlayAt(D(), z, ino, pos, bytes, p); }
        else if j == ino && pos <= p < pos + |bytes| { OtherBlock(pos, |bytes|, p); }
      }
      blocks := blocks[z := b];
    }

    /** No zone can be taken for a block, or its zone cannot be read. */
    ghost predicate Stopped(ino: nat, n: nat)
      requires n < MAX_BLOCKS
      reads this
    {
      || (Full(zmap, first, nzones) && ZoneAt(D(), BlockOf(ino, n)) == 0)
      || Blocked(D(), bad, BlockOf(ino, n)) || ZoneAt(D(), BlockOf(ino, n)) in bad
    }

    /** One round of file_write: some bytes within one block, all of them or none. */
    method WriteSome(ino: nat, pos: nat, part: seq<Byte>) returns (end: End)
      requires Valid() && ino in inodes && 0 < |part| && pos % BLOCK + |part| <= BLOCK
      modifies this`zmap, this`blocks, this`inodes, this`leaked, this`owner
      ensures Valid() && leaked == old(leaked) && inodes.Keys == old(inodes).Keys
      ensures end.Whole? ==> forall j, p :: ByteAt(D(), j, p) == After(old(ByteAt(D(), j, p)), ino, pos, part, j, p)
      ensures end.Whole? ==> forall j :: j in inodes ==>
        inodes[j].size == SizeAfter(old(inodes)[j].size, ino, pos, |part|, j)
      ensures !end.Whole? ==> SameFiles()
      ensures if end.Panic? then pos / BLOCK >= MAX_BLOCKS else pos / BLOCK < MAX_BLOCKS
      ensures end.Failed? ==> Stopped(ino, pos / BLOCK)
      ensures end.Panic? ==> owner == old(owner)
      ensures end.Whole? ==> Places(owner) == old(Places(owner)) + Chain(BlockOf(ino, pos / BLOCK))
      ensures end.Failed? ==>
        old(Places(owner)) <= Places(owner) <= old(Places(owner)) + Chain(BlockOf(ino, pos / BLOCK))
    {
      hide Bit, MapOk, ByteAt, Owned, Marks, Full, Valid, ZoneAt, BlockOf, After, Places, Chain;
      var panic, z := Bmap(ino, pos / BLOCK, true);
      if panic { return Panic; }
      if z == 0 || z in bad { return Failed; }
      PutBytes(z, ino, pos, part);
      if pos + |part| > inodes[ino].size { SetSize(ino, pos + |part|); }
      end := Whole;
    }

    /** file_write: it wrote a prefix of the buffer at the position; every other byte is as it was. */
    method FileWrite(f: File, ino: nat, buf: seq<Byte>) returns (end: End, n: nat, r: int)
      requires Valid() && ino in inodes
      modifies f`pos, this`zmap, this`blocks, this`inodes, this`leaked, this`owner
      ensures Valid() && leaked == old(leaked) && inodes.Keys == old(inodes).Keys && n <= |buf|
      ensures var start := old(if f.append then inodes[ino].size else f.pos);
        && old(Places(owner)) + Touched(ino, start, n) <= Places(owner)
        && Places(owner) <= old(Places(owner)) + Touched(ino, start, |buf|)
        && (forall j, p :: ByteAt(D(), j, p) == After(old(ByteAt(D(), j, p)), ino, start, buf[..n], j, p))
        && (forall j :: j in inodes ==> inodes[j].size == SizeAfter(old(inodes)[j].size, ino, start, n, j))
        && Ends(end, n, |buf|, start + n)
        && (!end.Panic? ==> f.pos == if f.append then old(f.pos) else start + n)
        && (end.Failed? ==> (start + n) / BLOCK < MAX_BLOCKS && Stopped(ino, (start + n) / BLOCK))
      ensures !end.Panic? ==> r == if n > 0 then n else -1
    {
      hide Bit, MapOk, ByteAt, Owned, Marks, Full, Valid, ZoneAt, Blocked, BlockOf, After, SizeAfter, Stopped,
           Places, Touched, Chain;
      var pos := if f.append then inodes[ino].size else f.pos;
      ghost var start := pos;
      end, n := Whole, 0;
      NothingWritten(ino, pos, buf);
      while n < |buf|
        invariant Valid() && leaked == old(leaked) && inodes.Keys == old(inodes).Keys && n <= |buf| && pos == start + n
        invariant end.Whole? && f.pos == old(f.pos) && Places(owner) == old(Places(owner)) + Touched(ino, start, n)
        invariant (n == 0 || n == |buf| || pos % BLOCK == 0) && (n == 0 || pos <= MAX_BLOCKS * BLOCK)
        invariant forall j, p :: ByteAt(D(), j, p) == After(old(ByteAt(D(), j, p)), ino, start, buf[..n], j, p)
        invariant forall j :: j in inodes ==> inodes[j].size == SizeAfter(old(inodes)[j].size, ino, start, n, j)
      {
        var c := BLOCK - pos % BLOCK;
        if c > |buf| - n { c := |buf| - n; }
        TouchedNext(ino, start, n, c);
        TouchedMore(ino, start, n, |buf|);
        TouchedMore(ino, start, n + c, |buf|);
        end := WriteSome(ino, pos, buf[n..n + c]);
        if end.Panic? { return end, n, 0; }
        if !end.Whole? { break; }
        Joined(buf, n, c, ino, start);
        pos := pos + c;
        n := n + c;
      }
      if !f.append { f.pos := pos; }
      r := if n > 0 then n else -1;
    }

    method SetSize(ino: nat, size: nat)
      requires Valid() && ino in inodes
      modifies this`inodes
      ensures Valid() && inodes == old(inodes)[ino := old(inodes)[ino].(size := size)]
      ensures forall q :: ZoneAt(D(), q) == old(ZoneAt(D(), q))
      ensures forall j, p :: ByteAt(D(), j, p) == old(ByteAt(D(), j, p))
    {
      hide Bit, MapOk, Marks, BlockOf;
      ghost var d := D();
      inodes := inodes[ino := inodes[ino].(size := size)];
      forall q ensures ZoneAt(D(), q) == ZoneAt(d, q) { SizeIsNoZone(d, D(), q); }
    }

    // truncate.c ---------------------------------------------------------------------------------

    /** free_ind on the table at place r of a tree d: the walk down from r, every zone once. */
    method FreeInd(z: int, ghost d: Disk, ghost r: Ref)
      requires MapOk(zmap, first, nzones) && Owned(d, owner, first) && blocks == d.blocks && |blocks| == nzones
      requires (r.Mid? || (r.Direct? && r.k == 7)) && z == ZoneAt(d, r)
      requires forall y :: y in owner && Reaches(d, bad, r, owner[y]) ==> Bit(zmap, first, y)
      modifies this`zmap
      ensures MapOk(zmap, first, nzones)
      ensures forall y :: first <= y ==>
        (Bit(zmap, first, y) <==> old(Bit(zmap, first, y)) && !Frees(d, owner, bad, busy, r, y))
    {
      hide Bit, MapOk, Owned, Reaches;
      OwnedAt(d, owner, first, r);
      if z == 0 {
        forall y ensures !Frees(d, owner, bad, busy, r, y) { NothingBelow(d, owner, first, bad, busy, r, y); }
        return;
      }
      forall q ensures Reaches(d, bad, r, q) <==> q == r || (!q.Direct? && Parent(q) == r && z !in bad) {
        ReachesOne(d, bad, r, q);
      }
      if z !in bad {
        var k := 0;
        while k < WORDS
          invariant 0 <= k <= WORDS && MapOk(zmap, first, nzones)
          invariant forall y :: first <= y ==>
            (Bit(zmap, first, y) <==> old(Bit(zmap, first, y)) && !(y !in busy && Before(owner, r, k, y)))
        {
          var w := Word(blocks[z], k);
          KidAt(d, owner, first, r, k);
          if w != 0 {
            var panic := FreeBlock(w);
            assert !panic;
          }
          forall y ensures Before(owner, r, k + 1, y) <==> Before(owner, r, k, y) || (w != 0 && y == w) {
            KidOf(d, owner, first, r, k, y);
          }
          k := k + 1;
        }
        forall y | y in owner && !owner[y].Direct? && Parent(owner[y]) == r ensures Index(owner[y]) < WORDS {
          IndexInRange(d, owner, first, y);
        }
      }
      var panic := FreeBlock(z);
      assert !panic;
      forall y | y in owner && owner[y] == r ensures y == z { OwnedBack(d, owner, first, y); }
    }

    /** free_dind: the same for the double indirect zone. */
    method FreeDind(z: int, ghost d: Disk, ghost ino: nat)
      requires MapOk(zmap, first, nzones) && Owned(d, owner, first) && blocks == d.blocks && |blocks| == nzones
      requires z == ZoneAt(d, Direct(ino, 8))
      requires forall y :: y in owner && Reaches(d, bad, Direct(ino, 8), owner[y]) ==> Bit(zmap, first, y)
      modifies this`zmap
      ensures MapOk(zmap, first, nzones)
      ensures forall y :: first <= y ==>
        (Bit(zmap, first, y) <==> old(Bit(zmap, first, y)) && !Frees(d, owner, bad, busy, Direct(ino, 8), y))
    {
      hide Bit, MapOk, Owned, Reaches;
      ghost var r := Direct(ino, 8);
      OwnedAt(d, owner, first, r);
      if z == 0 {
        forall y ensures !Frees(d, owner, bad, busy, r, y) { NothingBelow(d, owner, first, bad, busy, r, y); }
        return;
      }
      forall q | InRange(q) ensures Reaches(d, bad, r, q) <==> q == r || (z !in bad && Under(d, bad, ino, WORDS, q)) {
        ReachesTwo(d, bad, ino, q);
      }
      forall y | y in owner ensures InRange(owner[y]) { IndexInRange(d, owner, first, y); }
      if z !in bad {
        var k := 0;
        while k < WORDS
          invariant 0 <= k <= WORDS && MapOk(zmap, first, nzones)
          invariant forall y :: first <= y ==>
            (Bit(zmap, first, y) <==>
              old(Bit(zmap, first, y)) && !(y in owner && y !in busy && Under(d, bad, ino, k, owner[y])))
        {
          var w := Word(blocks[z], k);
          MidAt(d, ino, k);
          forall q: Ref
            ensures (Under(d, bad, ino, k + 1, q) <==> Under(d, bad, ino, k, q) || Reaches(d, bad, Mid(ino, k), q))
            && !(Under(d, bad, ino, k, q) && Reaches(d, bad, Mid(ino, k), q))
          {
            UnderNext(d, bad, ino, k, q);
          }
          if w != 0 {
            forall y | y in owner && Reaches(d, bad, Mid(ino, k), owner[y]) ensures Bit(zmap, first, y) {
              OwnedBack(d, owner, first, y);
              UnderMore(d, bad, ino, k + 1, owner[y]);
            }
            assert ZoneAt(d, Mid(ino, k)) == w;
            FreeInd(w, d, Mid(ino, k));
          } else {
            forall y ensures !Frees(d, owner, bad, busy, Mid(ino, k), y) {
              NothingBelow(d, owner, first, bad, busy, Mid(ino, k), y);
            }
          }
          forall y | y in owner && y !in busy
            ensures Under(d, bad, ino, k + 1, owner[y]) <==>
              Under(d, bad, ino, k, owner[y]) || Frees(d, owner, bad, busy, Mid(ino, k), y)
          {
            UnderNext(d, bad, ino, k, owner[y]);
          }
          k := k + 1;
        }
      }
      var panic := FreeBlock(z);
      assert !panic;
      forall y | y in owner && owner[y] == r ensures y == z { OwnedBack(d, owner, first, y); }
    }

    /** The first loop of truncate. */
    method FreeDirect(ino: nat, ghost d: Disk)
      requires MapOk(zmap, first, nzones) && Owned(d, owner, first) && D() == d && |blocks| == nzones && ino in inodes
      requires forall y :: y in owner ==> Bit(zmap, first, y)
      modifies this`zmap, this`inodes
      ensures MapOk(zmap, first, nzones) && inodes.Keys == d.inodes.Keys && |d.inodes[ino].zone| == ZONES
      ensures inodes == Zeroed(d.inodes, ino, 7)
      ensures forall y :: first <= y ==>
        (Bit(zmap, first, y) <==> old(Bit(zmap, first, y)) && !(y in owner && y !in busy && IsDirect(owner[y], ino, 7)))
    {
      hide Bit, MapOk, Owned, ZoneAt, Zeroed;
      InodeZones(d, owner, first, ino);
      ZeroedAll(inodes, ino);
      var i := 0;
      while i < 7
        invariant 0 <= i <= 7 && MapOk(zmap, first, nzones) && inodes == Zeroed(d.inodes, ino, i)
        invariant forall y :: first <= y ==>
          (Bit(zmap, first, y) <==>
            old(Bit(zmap, first, y)) && !(y in owner && y !in busy && IsDirect(owner[y], ino, i)))
      {
        ZeroedNext(d.inodes, ino, i);
        var z := inodes[ino].zone[i];
        OwnedAt(d, owner, first, Direct(ino, i));
        forall y | y in owner
          ensures IsDirect(owner[y], ino, i + 1) <==> IsDirect(owner[y], ino, i) || (z != 0 && y == z)
        {
          OwnedBack(d, owner, first, y);
        }
        if z != 0 {
          var panic := FreeBlock(z);
          assert !panic;
          inodes := inodes[ino := inodes[ino].(zone := inodes[ino].zone[i := 0])];
        }
        i := i + 1;
      }
    }

    /**
     * truncate of a regular file or directory: the bits it clears are those of this inode's zones,
     * except zones whose buffer somebody holds and zones behind a table that cannot be read.
     */
    method Truncate(ino: nat)
      requires Valid() && ino in inodes
      modifies this`zmap, this`inodes, this`owner, this`leaked
      ensures Valid() && D() == old(Emptied(D(), ino))
      ensures owner == Without(old(owner), ino)
      ensures forall y :: first <= y < nzones ==>
        (Bit(zmap, first, y) <==> old(Bit(zmap, first, y)) && !(y in old(Freed(D(), owner, bad, busy, ino))))
      ensures leaked == old(leaked) + old(Stuck(D(), owner, bad, busy, ino))
      ensures forall j, p :: ByteAt(D(), j, p) == if j == ino then 0 else old(ByteAt(D(), j, p))
    {
      hide Bit, MapOk, Owned, Reaches, ByteAt, ZoneAt, Emptied, Blocked, Root, Zeroed, Without, Stuck;
      ghost var d, stuck, freed := D(), Stuck(D(), owner, bad, busy, ino), Freed(D(), owner, bad, busy, ino);
      ZonesAreBlocks();
      forall y | y in owner ensures first <= y < nzones && RootIn(owner[y]) {
        OwnedBack(d, owner, first, y);
        RootInRange(d, owner, first, y);
      }
      FreeDirect(ino, d);
      InodeZones(d, owner, first, ino);
      ZeroedRest(d.inodes, ino);
      Settle(d, owner, bad, busy, ino, leaked);
      forall y | y in owner
        ensures Reaches(d, bad, Direct(ino, 7), owner[y]) <==>
          Root(owner[y]) == Direct(ino, 7) && !Blocked(d, bad, owner[y])
      {
        ReachesRoot(d, bad, Direct(ino, 7), owner[y]);
      }
      forall y | y in owner
        ensures Reaches(d, bad, Direct(ino, 8), owner[y]) <==>
          Root(owner[y]) == Direct(ino, 8) && !Blocked(d, bad, owner[y])
      {
        ReachesRoot(d, bad, Direct(ino, 8), owner[y]);
      }
      FreeInd(inodes[ino].zone[7], d, Direct(ino, 7));
      FreeDind(inodes[ino].zone[8], d, ino);
      inodes := inodes[ino := Inode(inodes[ino].zone[7 := 0][8 := 0], 0)];
      forall y | y in owner ensures y in freed <==> y !in busy && owner[y].ino == ino && !Blocked(d, bad, owner[y]) {}
      forall y | y in owner ensures IsDirect(owner[y], ino, 7) ==> !Blocked(d, bad, owner[y]) {
        if owner[y].Direct? { DirectOpen(d, bad, owner[y]); }
      }
      EmptiedIs(d, D(), ino);
      EmptiedKeeps(d, owner, first, ino);
      owner := Without(owner, ino);
      leaked := leaked + stuck;
    }

    // whole runs ---------------------------------------------------------------------------------

    /** A file system just made: no zone in use, files of length 0. */
    constructor (first: nat, nzones: nat, inos: set<nat>, blocks: seq<Block>, bad: set<int>)
      requires 0 < first <= nzones < 65536 && |blocks| == nzones && 0 !in bad
      ensures Valid() && inodes.Keys == inos && owner == map[] && leaked == {} && busy == {} && this.bad == bad
      ensures forall j, p :: ByteAt(D(), j, p) == 0
    {
      this.first, this.nzones, this.blocks, this.bad, this.busy := first, nzones, blocks, bad, {};
      var inodes: map<nat, Inode> := map i | i in inos :: Inode([0, 0, 0, 0, 0, 0, 0, 0, 0], 0);
      this.inodes, this.owner, this.leaked := inodes, map[], {};
      var zmap := seq(MAPS, i => seq(BITS, j => i == 0 && j == 0));
      this.zmap := zmap;
      forall r ensures ZoneAt(Disk(inodes, blocks), r) == 0 { NoZones(Disk(inodes, blocks), r); }
      assert forall z :: first <= z < nzones ==> !Bit(zmap, first, z);
    }

    /** What every request promises: it is answered, and the files follow the answer. */
    twostate predicate Served(op: Op, e: Event) reads this {
      && Valid() && op.ino in old(inodes) && Answers(op, e, old(inodes)[op.ino].size) && e.ino == op.ino
      && Follows(old(D()), D(), e) && (busy == {} && bad == {} ==> leaked == old(leaked))
      && (bad == {} ==> Reads(old(D()), e)) && Placed(old(Places(owner)), Places(owner), op, e)
      && old(leaked) <= leaked && (bad == {} ==> leaked <= old(leaked) + busy)
      && (bad == {} && CutShort(e) ==> Full(zmap, first, nzones) && Places(owner) < Asked(old(Places(owner)), op, e))
    }

    method Perform(op: Op) returns (e: Event)
      requires Valid() && op.ino in inodes
      modifies this`zmap, this`blocks, this`inodes, this`leaked, this`owner
      ensures Served(op, e)
    {
      hide Valid, Follows, Reads, Answers, Full, Places, Placed, Asked;
      match op
      case Read(ino, pos, count) => e := PerformRead(ino, pos, count);
      case Write(ino, append, pos, buf) => e := PerformWrite(ino, append, pos, buf);
      case Cut(ino) => e := PerformCut(ino);
    }

    method PerformRead(ino: nat, pos: nat, count: int) returns (e: Event)
      requires Valid() && ino in inodes
      modifies this`zmap, this`blocks, this`inodes, this`leaked, this`owner
      ensures Served(Read(ino, pos, count), e)
    {
      hide Valid, Full, ByteAt, ZoneAt, BlockOf, Seen, Places;
      var f := new File(false);
      f.pos := pos;
      var end, out, r := FileRead(f, ino, count);
      e := Gave(ino, pos, out, end);
      forall p: nat ensures bad == {} ==> Seen(D(), bad, ino, p) == ByteAt(D(), ino, p) {
        NothingBad(D(), bad, ino, p);
      }
    }

    method PerformWrite(ino: nat, append: bool, pos: nat, buf: seq<Byte>) returns (e: Event)
      requires Valid() && ino in inodes
      modifies this`zmap, this`blocks, this`inodes, this`leaked, this`owner
      ensures Served(Write(ino, append, pos, buf), e)
    {
      hide Valid, Full, ByteAt, ZoneAt, BlockOf, After, SizeAfter, Blocked, Places, Touched;
      var f := new File(append);
      f.pos := pos;
      var start := if append then inodes[ino].size else pos;
      var end, n, r := FileWrite(f, ino, buf);
      e := Wrote(ino, start, buf[..n], end);
      if bad == {} && end.Failed? {
        NeverBlocked(D(), BlockOf(ino, (start + n) / BLOCK));
        NotPlaced(BlockOf(ino, (start + n) / BLOCK));
        NextTouched(ino, start, n, |buf|);
      }
    }

    lemma NotPlaced(r: Ref)
      requires Valid()
      ensures r in Places(owner) <==> ZoneAt(D(), r) != 0
    {
      PlacesAre(D(), owner, first);
    }

    method PerformCut(ino: nat) returns (e: Event)
      requires Valid() && ino in inodes
      modifies this`zmap, this`blocks, this`inodes, this`leaked, this`owner
      ensures Served(Cut(ino), e)
    {
      hide Valid, Bit, Full, ByteAt, ZoneAt, Without, Freed, Stuck, Follows, Emptied, Places, Reads;
      NothingStuck(D(), owner, bad, busy, ino);
      WithoutPlaces(owner, ino);
      ghost var d := D();
      Truncate(ino);
      CutFollows(d, D(), ino);
      e := Cleared(ino);
    }

    /** The places in use and the zones lost never exceed the zones, and equal them exactly on a full device. */
    lemma Space()
      requires Valid()
      ensures |Places(owner)| + |leaked| <= nzones - first
      ensures Full(zmap, first, nzones) <==> |Places(owner)| + |leaked| == nzones - first
    {
      hide Valid, Bit, Full, Places;
      var used := owner.Keys + leaked;
      MarkedZones();
      PlacesCount(D(), owner, first) by { ZonesOwned(); }
      assert |used| == |owner.Keys| + |leaked|;
      AllOfRange(used, first, nzones);
    }

    lemma ZonesOwned()
      requires Valid()
      ensures Owned(D(), owner, first)
    {}

    lemma MarkedZones()
      requires Valid()
      ensures first <= nzones && owner.Keys !! leaked && forall z :: z in owner.Keys + leaked ==> first <= z < nzones
      ensures Full(zmap, first, nzones) <==> forall z :: first <= z < nzones ==> z in owner.Keys + leaked
    {
      hide Bit;
    }

    /**
     * Any run of reads, writes and truncations, up to a panic: every request is answered; every byte of
     * every file is what the answers say was last put there, and reads deliver just that. A write
     * falls short only at an unreadable zone or when the blocks of the files, with the tables that lead
     * to them, would not fit.
     */
    method Run(ops: seq<Op>) returns (log: seq<Event>)
      requires Valid() && forall k :: 0 <= k < |ops| ==> ops[k].ino in inodes
      modifies this`zmap, this`blocks, this`inodes, this`leaked, this`owner
      ensures Valid() && inodes.Keys == old(inodes).Keys && |log| <= |ops|
      ensures |log| < |ops| ==> log != [] && Panicked(log[|log| - 1])
      ensures Answered(ops, log, Sizes(old(inodes)))
      ensures forall j, p :: ByteAt(D(), j, p) == LastByte(old(ByteAt(D(), j, p)), log, j, p)
      ensures forall j :: j in inodes ==> inodes[j].size == LastSize(old(inodes)[j].size, log, j)
      ensures bad == {} ==> AllDeliver(old(D()), log)
      ensures bad == {} ==> ShortAtEnd(ops, log, old(Places(owner)), |old(leaked) + busy|, nzones - first)
      ensures FitsSoFar(ops, log, old(Places(owner)), |old(leaked)|, nzones - first)
      ensures busy == {} && bad == {} ==> leaked == old(leaked)
    {
      hide Valid, Follows, Reads, Faithful, AllDeliver, ShortAtEnd, FitsSoFar, Answers, Answered, Full, Sizes,
           Places, Placed, Asked, Sized;
      SizesAre(inodes);
      ghost var d0, sizes, places0, zones := D(), Sizes(inodes), Places(owner), nzones - first;
      NothingShort(d0, ops, places0, |leaked + busy|, |leaked|, zones) by { Space(); }
      log := [];
      var i := 0;
      FaithfulStart(d0);
      NothingAnswered(ops, sizes);
      while i < |ops|
        invariant i <= |ops| && |log| == i && Valid() && inodes.Keys == old(inodes).Keys
        invariant busy == {} && bad == {} ==> leaked == old(leaked)
        invariant old(leaked) <= leaked && (bad == {} ==> leaked <= old(leaked) + busy)
        invariant Answered(ops, log, sizes) && Faithful(d0, D(), log) && Sized(places0, Places(owner), ops[..i], log)
        invariant bad == {} ==> AllDeliver(d0, log) && ShortAtEnd(ops, log, places0, |old(leaked) + busy|, zones)
        invariant FitsSoFar(ops, log, places0, |old(leaked)|, zones)
      {
        ghost var d, places := D(), Places(owner);
        FaithfulSizes(d0, d, log, ops[i].ino);
        var e := Perform(ops[i]);
        FaithfulNext(d0, d, D(), log, e);
        AnsweredNext(ops, log, e, sizes);
        SizedNext(places0, places, Places(owner), ops, log, e);
        Space();
        Smaller(old(leaked), leaked);
        FitsNext(ops, log, e, places0, Places(owner), |old(leaked)|, zones);
        if bad == {} {
          AllDeliverNext(d0, d, log, e);
          Smaller(leaked, old(leaked) + busy);
          ShortNext(ops, log, e, places0, places, Places(owner), |old(leaked) + busy|, zones);
        }
        log := log + [e];
        i := i + 1;
        if Panicked(e) { break; }
      }
      FaithfulIs(d0, D(), log);
    }

    /**
     * With everything readable, files are plain byte arrays as long as they fit: every request goes
     * through if, and without buffers held elsewhere only if, all are within reach and at every moment
     * the plain files have room with the tables that lead to their blocks. The contents then are the
     * fold of the requests, and reads deliver what that fold holds at their turn.
     */
    method RunInRoom(ops: seq<Op>) returns (log: seq<Event>)
      requires Valid() && bad == {} && (forall k :: 0 <= k < |ops| ==> ops[k].ino in inodes)
      modifies this`zmap, this`blocks, this`inodes, this`leaked, this`owner
      ensures Valid() && inodes.Keys == old(inodes).Keys
      ensures var sizes, places := old(Sizes(inodes)), old(Places(owner));
        && (AllInReach(sizes, ops) && Fits(places, sizes, ops, |old(leaked) + busy|, nzones - first) ==>
          AllDone(ops, log))
        && (AllDone(ops, log) ==> AllInReach(sizes, ops) && Fits(places, sizes, ops, |old(leaked)|, nzones - first))
      ensures AllDone(ops, log) ==>
        && (forall j, p :: j in inodes ==>
          ByteAt(D(), j, p) == PlainByte(old(ByteAt(D(), j, p)), old(inodes)[j].size, ops, j, p))
        && (forall j :: j in inodes ==> inodes[j].size == PlainSize(old(inodes)[j].size, ops, j))
        && (forall m :: 0 <= m < |ops| ==> ReadsPlain(old(D()), ops, m, log[m]))
    {
      hide Valid, ByteAt, LastByte, LastSize, Places, Answered, AllInReach, Fits, PlainByte, PlainSize, ShortAtEnd,
           FitsSoFar;
      ghost var d, sizes, places, zones := D(), Sizes(inodes), Places(owner), nzones - first;
      log := Run(ops);
      if AllInReach(sizes, ops) && Fits(places, sizes, ops, |old(leaked) + busy|, zones) {
        AllWhole(ops, log, sizes, places, |old(leaked) + busy|, zones, |log|);
      }
      if AllDone(ops, log) {
        OnlyIfRoom(ops, log, sizes, places, |old(leaked)|, zones);
        forall j: nat, p: nat | j in inodes
          ensures ByteAt(D(), j, p) == PlainByte(ByteAt(d, j, p), sizes[j], ops, j, p)
        {
          WholeIsPlain(ByteAt(d, j, p), ops, log, sizes, j, p);
        }
        forall j: nat | j in inodes ensures inodes[j].size == PlainSize(sizes[j], ops, j) {
          WholeIsPlain(0, ops, log, sizes, j, 0);
        }
        forall m | 0 <= m < |ops| ensures ReadsPlain(d, ops, m, log[m]) {
          ReadWhole(d, ops, log, sizes, m);
        }
      }
    }
  }

  datatype Op =
    | Read(ino: nat, pos: nat, count: int)
    | Write(ino: nat, append: bool, pos: nat, buf: seq<Byte>)
    | Cut(ino: nat)

  datatype Event =
    | Gave(ino: nat, at: nat, bytes: seq<Byte>, end: End)
    | Wrote(ino: nat, at: nat, bytes: seq<Byte>, end: End)
    | Cleared(ino: nat)

  predicate Panicked(e: Event) { !e.Cleared? && e.end.Panic? }

  /** What an event has to do with the request, given the size of the file before it. */
  ghost predicate Answers(op: Op, e: Event, size: nat) {
    match op
    case Read(ino, pos, count) => e.Gave? && e.ino == ino && e.at == pos
      && Ends(e.end, |e.bytes|, count, pos + |e.bytes|)
    case Write(ino, append, pos, buf) =>
      && e.Wrote? && e.ino == ino && e.at == (if append then size else pos)
      && e.bytes <= buf && Ends(e.end, |e.bytes|, |buf|, e.at + |e.bytes|)
    case Cut(ino) => e == Cleared(ino)
  }

  predicate CutShort(e: Event) { !e.Cleared? && e.end.Failed? }

  /** The places in use after a request that gets all it asks for. */
  function Asked(places: set<Ref>, op: Op, e: Event): set<Ref> {
    match e
    case Gave(_, _, _, _) => places
    case Wrote(ino, at, _, _) => places + if op.Write? then Touched(ino, at, |op.buf|) else {}
    case Cleared(ino) => Others(places, ino)
  }

  function AskedBy(places: set<Ref>, ops: seq<Op>, log: seq<Event>): set<Ref>
    requires |ops| == |log|
  {
    if ops == [] then places
    else Asked(AskedBy(places, ops[..|ops| - 1], log[..|log| - 1]), ops[|ops| - 1], log[|log| - 1])
  }

  /** No other places than those asked for are used, and all of them if the request goes through. */
  ghost predicate Placed(places: set<Ref>, places': set<Ref>, op: Op, e: Event) {
    places' <= Asked(places, op, e) && (Done(e) ==> places' == Asked(places, op, e))
  }

  /** The same for the requests of a log. */
  ghost predicate Sized(places0: set<Ref>, places: set<Ref>, ops: seq<Op>, log: seq<Event>) {
    && |ops| == |log| && places <= AskedBy(places0, ops, log)
    && (AllDone(ops, log) ==> places == AskedBy(places0, ops, log))
  }

  function Changed(b: Byte, e: Event, j: nat, p: nat): Byte {
    match e
    case Gave(_, _, _, _) => b
    case Wrote(ino, at, bytes, _) => After(b, ino, at, bytes, j, p)
    case Cleared(ino) => if j == ino then 0 else b
  }

  function Resized(size: nat, e: Event, j: nat): nat {
    match e
    case Gave(_, _, _, _) => size
    case Wrote(ino, at, bytes, _) => SizeAfter(size, ino, at, |bytes|, j)
    case Cleared(ino) => if j == ino then 0 else size
  }

  /** Byte p of file j after the events of a log, if it was b before them. */
  function LastByte(b: Byte, log: seq<Event>, j: nat, p: nat): Byte {
    if log == [] then b else Changed(LastByte(b, log[..|log| - 1], j, p), log[|log| - 1], j, p)
  }

  function LastSize(size: nat, log: seq<Event>, j: nat): nat {
    if log == [] then size else Resized(LastSize(size, log[..|log| - 1], j), log[|log| - 1], j)
  }

  /** The files of d' are those of d after one event. */
  ghost predicate Follows(d: Disk, d': Disk, e: Event) {
    && d'.inodes.Keys == d.inodes.Keys
    && (forall j: nat, p: nat :: ByteAt(d', j, p) == Changed(ByteAt(d, j, p), e, j, p))
    && (forall j :: j in d'.inodes ==> d'.inodes[j].size == Resized(d.inodes[j].size, e, j))
  }

  ghost predicate Reads(d: Disk, e: Event) {
    e.Gave? ==> forall k :: 0 <= k < |e.bytes| ==> e.bytes[k] == ByteAt(d, e.ino, e.at + k)
  }

  /** The files of d are those of d0 after the events of a log. */
  ghost predicate Faithful(d0: Disk, d: Disk, log: seq<Event>) {
    && d.inodes.Keys == d0.inodes.Keys
    && (forall j: nat, p: nat :: ByteAt(d, j, p) == LastByte(ByteAt(d0, j, p), log, j, p))
    && (forall j :: j in d.inodes ==> d.inodes[j].size == LastSize(d0.inodes[j].size, log, j))
  }

  lemma FaithfulStart(d: Disk)
    ensures Faithful(d, d, [])
  {}

  lemma FaithfulNext(d0: Disk, d: Disk, d': Disk, log: seq<Event>, e: Event)
    requires Faithful(d0, d, log) && Follows(d, d', e)
    ensures Faithful(d0, d', log + [e]) && d'.inodes.Keys == d.inodes.Keys
  {
    hide ByteAt, Changed, Resized;
    LogNext(log, e);
  }

  lemma FaithfulSizes(d0: Disk, d: Disk, log: seq<Event>, j: nat)
    requires Faithful(d0, d, log) && j in d.inodes
    ensures j in d0.inodes && d.inodes[j].size == LastSize(d0.inodes[j].size, log, j)
  {}

  lemma FaithfulIs(d0: Disk, d: Disk, log: seq<Event>)
    requires Faithful(d0, d, log)
    ensures d.inodes.Keys == d0.inodes.Keys
    ensures forall j: nat, p: nat :: ByteAt(d, j, p) == LastByte(ByteAt(d0, j, p), log, j, p)
    ensures forall j :: j in d.inodes ==> d.inodes[j].size == LastSize(d0.inodes[j].size, log, j)
  {}

  lemma DeliversNext(d0: Disk, d: Disk, log: seq<Event>, e: Event)
    requires Faithful(d0, d, log) && Reads(d, e)
    ensures Delivers(d0, log, e)
  {}

  lemma NothingAnswered(ops: seq<Op>, sizes: map<nat, nat>)
    ensures Answered(ops, [], sizes)
  {}

  lemma AskedNext(places0: set<Ref>, ops: seq<Op>, log: seq<Event>, e: Event)
    requires |log| < |ops|
    ensures AskedBy(places0, ops[..|log| + 1], log + [e]) == Asked(AskedBy(places0, ops[..|log|], log), ops[|log|], e)
  {
    assert ops[..|log| + 1][..|log|] == ops[..|log|] && (log + [e])[..|log|] == log;
  }

  lemma AskedMore(a: set<Ref>, b: set<Ref>, op: Op, e: Event)
    requires a <= b
    ensures Asked(a, op, e) <= Asked(b, op, e)
  {
    hide Touched;
  }

  lemma SizedNext(places0: set<Ref>, places: set<Ref>, places': set<Ref>, ops: seq<Op>, log: seq<Event>, e: Event)
    requires |log| < |ops| && Sized(places0, places, ops[..|log|], log) && Placed(places, places', ops[|log|], e)
    ensures Sized(places0, places', ops[..|log| + 1], log + [e])
    ensures Asked(places, ops[|log|], e) <= AskedBy(places0, ops[..|log| + 1], log + [e])
  {
    hide AskedBy, Asked;
    AskedNext(places0, ops, log, e);
    AskedMore(places, AskedBy(places0, ops[..|log|], log), ops[|log|], e);
    if AllDone(ops[..|log| + 1], log + [e]) {
      assert forall m :: 0 <= m < |log| ==> (log + [e])[m] == log[m];
      assert Done((log + [e])[|log|]);
    }
  }

  lemma SizesAre(inodes: map<nat, Inode>)
    ensures Sizes(inodes).Keys == inodes.Keys && forall i :: i in inodes ==> Sizes(inodes)[i] == inodes[i].size
  {}

  /** Every read of a log delivers what the events before it left. */
  ghost predicate AllDeliver(d0: Disk, log: seq<Event>) {
    forall m :: 0 <= m < |log| ==> Delivers(d0, log[..m], log[m])
  }

  /** A request failed only if what was asked for up to then does not fit beside `lost` zones. */
  ghost predicate ShortAtEnd(ops: seq<Op>, log: seq<Event>, places0: set<Ref>, lost: nat, zones: int) {
    |log| <= |ops| && forall m :: 0 <= m < |log| && CutShort(log[m]) ==> Exceeds(ops, log, places0, lost, zones, m + 1)
  }

  ghost predicate Exceeds(ops: seq<Op>, log: seq<Event>, places0: set<Ref>, lost: nat, zones: int, m: nat)
    requires m <= |log| <= |ops|
  {
    |AskedBy(places0, ops[..m], log[..m])| + lost > zones
  }

  /** As long as every request went through, what was asked for fits. */
  ghost predicate FitsSoFar(ops: seq<Op>, log: seq<Event>, places0: set<Ref>, lost: nat, zones: int) {
    |log| <= |ops| && forall m :: 0 <= m <= |log| && AllDone(ops[..m], log[..m]) ==>
      !Exceeds(ops, log, places0, lost, zones, m)
  }

  lemma NothingShort(d: Disk, ops: seq<Op>, places0: set<Ref>, lost: nat, lost': nat, zones: int)
    requires |places0| + lost' <= zones
    ensures AllDeliver(d, []) && ShortAtEnd(ops, [], places0, lost, zones) && FitsSoFar(ops, [], places0, lost', zones)
    ensures Sized(places0, places0, ops[..0], [])
  {}

  lemma FitsNext(ops: seq<Op>, log: seq<Event>, e: Event, places0: set<Ref>, places: set<Ref>, lost: nat, zones: int)
    requires |log| < |ops| && FitsSoFar(ops, log, places0, lost, zones)
    requires Sized(places0, places, ops[..|log| + 1], log + [e]) && |places| + lost <= zones
    ensures FitsSoFar(ops, log + [e], places0, lost, zones)
  {
    hide AskedBy;
    var log' := log + [e];
    forall m | 0 <= m <= |log'| && AllDone(ops[..m], log'[..m]) ensures !Exceeds(ops, log', places0, lost, zones, m) {
      if m <= |log| { assert log'[..m] == log[..m]; } else { assert log'[..m] == log'; }
    }
  }

  lemma AllDeliverNext(d0: Disk, d: Disk, log: seq<Event>, e: Event)
    requires AllDeliver(d0, log) && Faithful(d0, d, log) && Reads(d, e)
    ensures AllDeliver(d0, log + [e])
  {
    hide Faithful, Reads, Delivers;
    DeliversNext(d0, d, log, e);
    forall m | 0 <= m <= |log| ensures (log + [e])[..m] == log[..m] {}
  }

  lemma ShortNext(ops: seq<Op>, log: seq<Event>, e: Event, places0: set<Ref>, places: set<Ref>, places': set<Ref>,
                  lost: nat, zones: int)
    requires |log| < |ops| && ShortAtEnd(ops, log, places0, lost, zones)
    requires Asked(places, ops[|log|], e) <= AskedBy(places0, ops[..|log| + 1], log + [e])
    requires CutShort(e) ==> places' < Asked(places, ops[|log|], e) && |places'| + lost >= zones
    ensures ShortAtEnd(ops, log + [e], places0, lost, zones)
  {
    hide AskedBy, Asked;
    var log' := log + [e];
    forall m | 0 <= m < |log'| && CutShort(log'[m]) ensures Exceeds(ops, log', places0, lost, zones, m + 1) {
      if m < |log| {
        assert log'[m] == log[m] && log'[..m + 1] == log[..m + 1];
        assert Exceeds(ops, log, places0, lost, zones, m + 1);
      } else {
        assert log'[..m + 1] == log';
        Fewer(places', AskedBy(places0, ops[..m + 1], log'));
      }
    }
  }

  lemma Fewer(a: set<Ref>, b: set<Ref>)
    requires a < b
    ensures |a| < |b|
  {
    var r :| r in b && r !in a;
    assert b == a + (b - a) && r in b - a;
  }

  lemma LogNext(log: seq<Event>, e: Event)
    ensures forall b: Byte, j: nat, p: nat :: LastByte(b, log + [e], j, p) == Changed(LastByte(b, log, j, p), e, j, p)
    ensures forall size: nat, j: nat :: LastSize(size, log + [e], j) == Resized(LastSize(size, log, j), e, j)
    ensures forall m :: 0 <= m <= |log| ==> (log + [e])[..m] == log[..m]
  {
    assert (log + [e])[..|log|] == log;
  }

  /** A read that follows a log delivers the bytes the log leaves. */
  ghost predicate Delivers(d: Disk, log: seq<Event>, e: Event) {
    e.Gave? ==> forall k :: 0 <= k < |e.bytes| ==>
      e.bytes[k] == LastByte(ByteAt(d, e.ino, e.at + k), log, e.ino, e.at + k)
  }

  // ---------------------------------------------------------------------------------------------
  // Files as plain byte arrays
  // ---------------------------------------------------------------------------------------------

  /** The size and the bytes of file j after requests that all went through. */
  function PlainSize(size: nat, ops: seq<Op>, j: nat): nat {
    if ops == [] then size
    else
      var s := PlainSize(size, ops[..|ops| - 1], j);
      match ops[|ops| - 1]
      case Read(_, _, _) => s
      case Write(ino, append, pos, buf) => SizeAfter(s, ino, if append then s else pos, |buf|, j)
      case Cut(ino) => if j == ino then 0 else s
  }

  function PlainByte(b: Byte, size: nat, ops: seq<Op>, j: nat, p: nat): Byte {
    if ops == [] then b
    else
      var init := ops[..|ops| - 1];
      var c := PlainByte(b, size, init, j, p);
      match ops[|ops| - 1]
      case Read(_, _, _) => c
      case Write(ino, append, pos, buf) => After(c, ino, if append then PlainSize(size, init, j) else pos, buf, j, p)
      case Cut(ino) => if j == ino then 0 else c
  }

  /** No request reaches beyond the largest file. */
  ghost predicate InReach(op: Op, size: nat) {
    match op
    case Read(_, pos, count) => count <= 0 || pos + count <= MAX_BLOCKS * BLOCK
    case Write(_, append, pos, buf) => buf == [] || (if append then size else pos) + |buf| <= MAX_BLOCKS * BLOCK
    case Cut(_) => true
  }

  ghost predicate AllInReach(sizes: map<nat, nat>, ops: seq<Op>) {
    forall m :: 0 <= m < |ops| ==>
      ops[m].ino in sizes && InReach(ops[m], PlainSize(sizes[ops[m].ino], ops[..m], ops[m].ino))
  }

  /** The places in use after requests that all went through. */
  ghost function PlainPlaces(places: set<Ref>, sizes: map<nat, nat>, ops: seq<Op>): set<Ref> {
    if ops == [] then places
    else
      var init := ops[..|ops| - 1];
      var c := PlainPlaces(places, sizes, init);
      match ops[|ops| - 1]
      case Read(_, _, _) => c
      case Write(ino, append, pos, buf) =>
        c + Touched(ino, if append && ino in sizes then PlainSize(sizes[ino], init, ino) else pos, |buf|)
      case Cut(ino) => Others(c, ino)
  }

  /** After every request the files have room beside `lost` zones. */
  ghost predicate Fits(places: set<Ref>, sizes: map<nat, nat>, ops: seq<Op>, lost: nat, zones: int) {
    forall m :: 0 <= m <= |ops| ==> |PlainPlaces(places, sizes, ops[..m])| + lost <= zones
  }

  /** Every request was answered in full. */
  predicate AllDone(ops: seq<Op>, log: seq<Event>) { |log| == |ops| && forall m :: 0 <= m < |log| ==> Done(log[m]) }

  predicate Done(e: Event) { e.Cleared? || e.end.Whole? }

  /** Every event answers its request, given the sizes before the run. */
  ghost predicate Answered(ops: seq<Op>, log: seq<Event>, sizes: map<nat, nat>) {
    |log| <= |ops| && forall m :: 0 <= m < |log| ==> AnswersAt(ops, log, sizes, m)
  }

  ghost predicate AnswersAt(ops: seq<Op>, log: seq<Event>, sizes: map<nat, nat>, m: nat)
    requires m < |log| <= |ops|
  {
    ops[m].ino in sizes && Answers(ops[m], log[m], LastSize(sizes[ops[m].ino], log[..m], ops[m].ino))
  }

  ghost function Sizes(inodes: map<nat, Inode>): map<nat, nat> { map i | i in inodes :: inodes[i].size }

  lemma AnsweredNext(ops: seq<Op>, log: seq<Event>, e: Event, sizes: map<nat, nat>)
    requires Answered(ops, log, sizes) && |log| < |ops| && ops[|log|].ino in sizes
    requires Answers(ops[|log|], e, LastSize(sizes[ops[|log|].ino], log, ops[|log|].ino))
    ensures Answered(ops, log + [e], sizes)
  {
    forall m | 0 <= m <= |log| ensures AnswersAt(ops, log + [e], sizes, m) {
      assert (log + [e])[..m] == log[..m];
      if m < |log| { assert AnswersAt(ops, log, sizes, m); }
    }
  }

  lemma AnsweredFirst(ops: seq<Op>, log: seq<Event>, sizes: map<nat, nat>, n: nat)
    requires Answered(ops, log, sizes) && n <= |log|
    ensures Answered(ops[..n], log[..n], sizes)
  {
    forall m | 0 <= m < n ensures AnswersAt(ops[..n], log[..n], sizes, m) {
      assert AnswersAt(ops, log, sizes, m) && log[..n][..m] == log[..m];
    }
  }

  /** As long as every answer was whole, the log says what the requests say. */
  lemma {:induction false} WholeIsPlain(b: Byte, ops: seq<Op>, log: seq<Event>, sizes: map<nat, nat>, j: nat, p: nat)
    requires |log| == |ops| && j in sizes && Answered(ops, log, sizes) && forall m :: 0 <= m < |log| ==> Done(log[m])
    ensures LastByte(b, log, j, p) == PlainByte(b, sizes[j], ops, j, p)
      && LastSize(sizes[j], log, j) == PlainSize(sizes[j], ops, j)
    decreases |ops|
  {
    if ops != [] {
      hide Answered, After, SizeAfter;
      var n := |ops| - 1;
      AnsweredFirst(ops, log, sizes, n);
      WholeIsPlain(b, ops[..n], log[..n], sizes, j, p);
      LastAnswers(ops, log, sizes);
      var at, size := LastSize(sizes[ops[n].ino], log[..n], ops[n].ino), LastSize(sizes[j], log[..n], j);
      LastStep(b, at, size, ops[n], log[n], j, p);
    }
  }

  lemma LastAnswers(ops: seq<Op>, log: seq<Event>, sizes: map<nat, nat>)
    requires Answered(ops, log, sizes) && |ops| == |log| > 0
    ensures AnswersAt(ops, log, sizes, |log| - 1)
  {}

  /** One whole answer does to a file what the request says. */
  lemma LastStep(b: Byte, at: nat, size: nat, op: Op, e: Event, j: nat, p: nat)
    requires Answers(op, e, at) && Done(e) && (j == op.ino ==> at == size)
    ensures forall c: Byte :: Changed(c, e, j, p) == match op
      case Read(_, _, _) => c
      case Write(ino, append, pos, buf) => After(c, ino, if append then size else pos, buf, j, p)
      case Cut(ino) => if j == ino then 0 else c
    ensures Resized(size, e, j) == match op
      case Read(_, _, _) => size
      case Write(ino, append, pos, buf) => SizeAfter(size, ino, if append then size else pos, |buf|, j)
      case Cut(ino) => if j == ino then 0 else size
  {
    if op.Write? { assert e.bytes == op.buf; }
  }

  /** What was asked for is what the plain files need, if all before the last request went through. */
  lemma {:induction false} AskedIsPlain(ops: seq<Op>, log: seq<Event>, sizes: map<nat, nat>, places0: set<Ref>)
    requires |log| == |ops| && Answered(ops, log, sizes) && forall m :: 0 <= m < |log| - 1 ==> Done(log[m])
    ensures AskedBy(places0, ops, log) == PlainPlaces(places0, sizes, ops)
    decreases |ops|
  {
    if ops != [] {
      hide Answered, Touched, LastSize, PlainSize;
      var n := |ops| - 1;
      AnsweredFirst(ops, log, sizes, n);
      AskedIsPlain(ops[..n], log[..n], sizes, places0);
      LastAnswers(ops, log, sizes);
      WholeIsPlain(0, ops[..n], log[..n], sizes, ops[n].ino, 0);
    }
  }

  /** With room for all requests, within reach, and everything readable, every request goes through. */
  lemma {:induction false} AllWhole(ops: seq<Op>, log: seq<Event>, sizes: map<nat, nat>, places0: set<Ref>, lost: nat,
                                    zones: int, n: nat)
    requires Answered(ops, log, sizes) && n <= |log| <= |ops| && AllInReach(sizes, ops)
    requires Fits(places0, sizes, ops, lost, zones) && ShortAtEnd(ops, log, places0, lost, zones)
    ensures forall m :: 0 <= m < n ==> Done(log[m])
    decreases n
  {
    hide Answered, AllInReach, AskedBy, PlainPlaces;
    if n > 0 {
      var m := n - 1;
      AllWhole(ops, log, sizes, places0, lost, zones, m);
      AnsweredFirst(ops, log, sizes, n);
      LastAnswers(ops[..n], log[..n], sizes);
      assert log[..n][..m] == log[..m];
      AnsweredFirst(ops, log, sizes, m);
      WholeIsPlain(0, ops[..m], log[..m], sizes, ops[m].ino, 0);
      ReachAt(sizes, ops, m);
      AskedIsPlain(ops[..n], log[..n], sizes, places0);
      assert CutShort(log[m]) ==> Exceeds(ops, log, places0, lost, zones, n);
      OneWhole(ops[m], log[m], PlainSize(sizes[ops[m].ino], ops[..m], ops[m].ino));
    }
  }

  /** Requests that all went through were within reach and had room. */
  lemma OnlyIfRoom(ops: seq<Op>, log: seq<Event>, sizes: map<nat, nat>, places0: set<Ref>, lost: nat, zones: int)
    requires Answered(ops, log, sizes) && AllDone(ops, log) && FitsSoFar(ops, log, places0, lost, zones)
    ensures AllInReach(sizes, ops) && Fits(places0, sizes, ops, lost, zones)
  {
    hide Answered, AskedBy, PlainPlaces, PlainSize, LastSize;
    forall m | 0 <= m < |ops|
      ensures ops[m].ino in sizes && InReach(ops[m], PlainSize(sizes[ops[m].ino], ops[..m], ops[m].ino))
    {
      AnsweredFirst(ops, log, sizes, m + 1);
      LastAnswers(ops[..m + 1], log[..m + 1], sizes);
      assert log[..m + 1][..m] == log[..m];
      AnsweredFirst(ops, log, sizes, m);
      WholeIsPlain(0, ops[..m], log[..m], sizes, ops[m].ino, 0);
      OneReached(ops[m], log[m], PlainSize(sizes[ops[m].ino], ops[..m], ops[m].ino));
    }
    forall m | 0 <= m <= |ops| ensures |PlainPlaces(places0, sizes, ops[..m])| + lost <= zones {
      AnsweredFirst(ops, log, sizes, m);
      AskedIsPlain(ops[..m], log[..m], sizes, places0);
      assert AllDone(ops[..m], log[..m]) && !Exceeds(ops, log, places0, lost, zones, m);
    }
  }

  /** The answer to request m, if it is a read, has all the bytes asked for, as the requests before left them. */
  ghost predicate ReadsPlain(d: Disk, ops: seq<Op>, m: nat, e: Event)
    requires m < |ops|
  {
    match ops[m]
    case Read(ino, pos, count) =>
      && e.Gave? && |e.bytes| == (if count <= 0 then 0 else count) && ino in d.inodes
      && forall k :: 0 <= k < |e.bytes| ==>
        e.bytes[k] == PlainByte(ByteAt(d, ino, pos + k), d.inodes[ino].size, ops[..m], ino, pos + k)
    case _ => true
  }

  lemma ReadWhole(d: Disk, ops: seq<Op>, log: seq<Event>, sizes: map<nat, nat>, m: nat)
    requires Answered(ops, log, sizes) && m < |log| == |ops| && sizes == Sizes(d.inodes)
    requires Delivers(d, log[..m], log[m]) && forall k :: 0 <= k < |log| ==> Done(log[k])
    ensures ReadsPlain(d, ops, m, log[m])
  {
    hide ByteAt, LastByte, LastSize, PlainByte, PlainSize, Answered;
    AnsweredFirst(ops, log, sizes, m + 1);
    LastAnswers(ops[..m + 1], log[..m + 1], sizes);
    AnsweredFirst(ops, log, sizes, m);
    if ops[m].Read? {
      var e := log[m];
      forall k | 0 <= k < |e.bytes|
        ensures e.bytes[k] == PlainByte(ByteAt(d, e.ino, e.at + k), d.inodes[e.ino].size, ops[..m], e.ino, e.at + k)
      {
        WholeIsPlain(ByteAt(d, e.ino, e.at + k), ops[..m], log[..m], sizes, e.ino, e.at + k);
      }
    }
  }

  lemma ReachAt(sizes: map<nat, nat>, ops: seq<Op>, m: nat)
    requires AllInReach(sizes, ops) && m < |ops|
    ensures ops[m].ino in sizes && InReach(ops[m], PlainSize(sizes[ops[m].ino], ops[..m], ops[m].ino))
  {}

  lemma OneWhole(op: Op, e: Event, size: nat)
    requires Answers(op, e, size) && InReach(op, size) && !CutShort(e)
    ensures Done(e)
  {}

  lemma OneReached(op: Op, e: Event, size: nat)
    requires Answers(op, e, size) && Done(e)
    ensures InReach(op, size)
  {}

  lemma {:induction false} NoZones(d: Disk, r: Ref)
    requires forall i :: i in d.inodes ==> d.inodes[i].zone == [0, 0, 0, 0, 0, 0, 0, 0, 0]
    ensures ZoneAt(d, r) == 0
    decreases Rank(r)
  {
    if InRange(r) && !r.Direct? { NoZones(d, Parent(r)); }
  }

  lemma {:induction false} NeverBlocked(d: Disk, r: Ref)
    ensures !Blocked(d, {}, r)
    decreases Rank(r)
  {
    if !r.Direct? { NeverBlocked(d, Parent(r)); }
  }

  lemma NothingBad(d: Disk, bad: set<int>, ino: nat, p: nat)
    ensures bad == {} ==> Seen(d, bad, ino, p) == ByteAt(d, ino, p)
  {
    if bad == {} && p / BLOCK < MAX_BLOCKS { NeverBlocked(d, BlockOf(ino, p / BLOCK)); }
  }

  lemma NothingStuck(d: Disk, owner: Owner, bad: set<int>, busy: set<int>, ino: nat)
    ensures bad == {} ==> Stuck(d, owner, bad, busy, ino) <= busy
  {
    if bad == {} {
      forall z | z in owner ensures !Blocked(d, bad, owner[z]) { NeverBlocked(d, owner[z]); }
    }
  }

  ghost predicate IsDirect(q: Ref, ino: nat, i: nat) { q.Direct? && q.ino == ino && q.k < i }

  lemma DirectOpen(d: Disk, bad: set<int>, q: Ref)
    requires q.Direct?
    ensures !Blocked(d, bad, q)
  {}

  lemma EmptiedIs(d: Disk, e: Disk, ino: nat)
    requires ino in d.inodes && |d.inodes[ino].zone| == ZONES && e.blocks == d.blocks
    requires e.inodes == Zeroed(d.inodes, ino, 7)[ino := Inode(Zeroed(d.inodes, ino, 7)[ino].zone[7 := 0][8 := 0], 0)]
    ensures e == Emptied(d, ino)
  {
    assert Zeroed(d.inodes, ino, 7)[ino].zone[7 := 0][8 := 0] == [0, 0, 0, 0, 0, 0, 0, 0, 0];
  }

  /** The first i zone fields of an inode set to 0. */
  ghost function Zeroed(inodes: map<nat, Inode>, ino: nat, i: nat): (m: map<nat, Inode>)
    requires ino in inodes && |inodes[ino].zone| == ZONES && i <= ZONES
    ensures m.Keys == inodes.Keys && |m[ino].zone| == ZONES
  {
    inodes[ino := inodes[ino].(zone := seq(i, _ => 0) + inodes[ino].zone[i..])]
  }

  lemma ZeroedAll(inodes: map<nat, Inode>, ino: nat)
    requires ino in inodes && |inodes[ino].zone| == ZONES
    ensures inodes == Zeroed(inodes, ino, 0)
  {
    assert seq(0, _ => 0) + inodes[ino].zone[0..] == inodes[ino].zone;
  }

  lemma ZeroedNext(inodes: map<nat, Inode>, ino: nat, i: nat)
    requires ino in inodes && |inodes[ino].zone| == ZONES && i < ZONES
    ensures var m := Zeroed(inodes, ino, i);
      && m[ino].zone[i..] == inodes[ino].zone[i..] && m[ino].zone[i] == inodes[ino].zone[i]
      && Zeroed(inodes, ino, i + 1) == m[ino := m[ino].(zone := m[ino].zone[i := 0])]
      && (m[ino].zone[i] == 0 ==> Zeroed(inodes, ino, i + 1) == m)
  {
    var m := Zeroed(inodes, ino, i);
    assert m[ino].zone[i := 0] == seq(i + 1, _ => 0) + inodes[ino].zone[i + 1..];
    assert m[ino].zone[i] == 0 ==> m[ino].zone[i := 0] == m[ino].zone;
  }

  lemma ZeroedRest(inodes: map<nat, Inode>, ino: nat)
    requires ino in inodes && |inodes[ino].zone| == ZONES
    ensures forall k :: 7 <= k < ZONES ==> Zeroed(inodes, ino, 7)[ino].zone[k] == inodes[ino].zone[k]
  {}

  /** What is marked after the walk is what the other inodes own, and what was or got stuck. */
  lemma Settle(d: Disk, owner: Owner, bad: set<int>, busy: set<int>, ino: nat, leaked: set<int>)
    requires owner.Keys !! leaked
    ensures Without(owner, ino).Keys + (leaked + Stuck(d, owner, bad, busy, ino)) ==
      owner.Keys + leaked - Freed(d, owner, bad, busy, ino)
    ensures Without(owner, ino).Keys !! leaked + Stuck(d, owner, bad, busy, ino)
    ensures busy !! Freed(d, owner, bad, busy, ino) && Stuck(d, owner, bad, busy, ino) <= owner.Keys
    ensures Freed(d, owner, bad, busy, ino) <= owner.Keys
  {}

  /** Zones of an inode that truncate leaves marked. */
  ghost function Stuck(d: Disk, owner: Owner, bad: set<int>, busy: set<int>, ino: nat): set<int> {
    set z | z in owner && owner[z].ino == ino && (z in busy || Blocked(d, bad, owner[z]))
  }

  ghost function Freed(d: Disk, owner: Owner, bad: set<int>, busy: set<int>, ino: nat): set<int> {
    set z | z in owner && owner[z].ino == ino && z !in busy && !Blocked(d, bad, owner[z])
  }

  ghost function Root(r: Ref): (q: Ref)
    ensures q.Direct? && q.ino == r.ino
    decreases Rank(r)
  {
    if r.Direct? then r else Root(Parent(r))
  }

  ghost predicate RootIn(r: Ref) {
    && Root(r).Direct? && Root(r).ino == r.ino && Root(r).k < ZONES && (Root(r).k < 7 ==> r == Root(r))
    && (r.Direct? ==> r == Root(r))
  }

  lemma RootInRange(d: Disk, owner: Owner, first: nat, z: int)
    requires Owned(d, owner, first) && z in owner
    ensures RootIn(owner[z])
  {
    if owner[z].Leaf? { assert Root(Parent(owner[z])) == Direct(owner[z].ino, 8); }
  }

  lemma InodeZones(d: Disk, owner: Owner, first: nat, ino: nat)
    requires Owned(d, owner, first) && ino in d.inodes
    ensures |d.inodes[ino].zone| == ZONES
    ensures forall k :: 0 <= k < ZONES ==> ZoneAt(d, Direct(ino, k)) == d.inodes[ino].zone[k]
  {}

  lemma {:induction false} ReachesRoot(d: Disk, bad: set<int>, r: Ref, q: Ref)
    requires r.Direct?
    ensures Reaches(d, bad, r, q) <==> r == Root(q) && !Blocked(d, bad, q)
    decreases Rank(q)
  {
    if !q.Direct? { ReachesRoot(d, bad, r, Parent(q)); }
  }

  /** The walk down from one of the first k entries of the double indirect block gets to q. */
  ghost predicate Under(d: Disk, bad: set<int>, ino: nat, k: nat, q: Ref) {
    (q.Mid? || q.Leaf?) && q.ino == ino && q.k < k && Reaches(d, bad, Mid(ino, q.k), q)
  }

  lemma MidAt(d: Disk, ino: nat, k: nat)
    requires k < WORDS && 0 < ZoneAt(d, Direct(ino, 8)) < |d.blocks|
    ensures ZoneAt(d, Mid(ino, k)) == Word(d.blocks[ZoneAt(d, Direct(ino, 8))], k)
  {}

  lemma UnderNext(d: Disk, bad: set<int>, ino: nat, k: nat, q: Ref)
    ensures Under(d, bad, ino, k + 1, q) <==> Under(d, bad, ino, k, q) || Reaches(d, bad, Mid(ino, k), q)
    ensures !(Under(d, bad, ino, k, q) && Reaches(d, bad, Mid(ino, k), q))
  {
    ReachesOne(d, bad, Mid(ino, k), q);
  }

  lemma UnderMore(d: Disk, bad: set<int>, ino: nat, k: nat, q: Ref)
    requires Under(d, bad, ino, k, q) && k <= WORDS
    ensures Under(d, bad, ino, WORDS, q)
  {}

  lemma ReachesMid(d: Disk, bad: set<int>, ino: nat, i: nat, k: nat)
    ensures Reaches(d, bad, Direct(ino, 8), Mid(i, k)) <==> i == ino && ZoneAt(d, Direct(i, 8)) !in bad
  {}

  lemma ReachesTwo(d: Disk, bad: set<int>, ino: nat, q: Ref)
    requires InRange(q)
    ensures Reaches(d, bad, Direct(ino, 8), q) <==>
      q == Direct(ino, 8) || (ZoneAt(d, Direct(ino, 8)) !in bad && Under(d, bad, ino, WORDS, q))
  {
    if q.Mid? {
      ReachesMid(d, bad, ino, q.ino, q.k);
    } else if q.Leaf? {
      ReachesMid(d, bad, ino, q.ino, q.k);
      assert Parent(q) == Mid(q.ino, q.k);
      ReachesOne(d, bad, Mid(q.ino, q.k), q);
    }
  }

  lemma OwnedAt(d: Disk, owner: Owner, first: nat, r: Ref)
    requires Owned(d, owner, first)
    ensures var z := ZoneAt(d, r); z != 0 ==> 0 < first <= z < |d.blocks| && z in owner && owner[z] == r
  {}

  lemma OwnedBack(d: Disk, owner: Owner, first: nat, z: int)
    requires Owned(d, owner, first) && z in owner
    ensures 0 < first <= z < |d.blocks| && ZoneAt(d, owner[z]) == z
  {}

  /** Nothing is reached below an empty place. */
  lemma NothingBelow(d: Disk, owner: Owner, first: nat, bad: set<int>, busy: set<int>, r: Ref, z: int)
    requires Owned(d, owner, first) && ZoneAt(d, r) == 0
    ensures !Frees(d, owner, bad, busy, r, z)
  {
    if z in owner { EmptyReaches(d, bad, r, owner[z]); }
  }

  lemma {:induction false} EmptyReaches(d: Disk, bad: set<int>, r: Ref, q: Ref)
    requires ZoneAt(d, r) == 0
    ensures Reaches(d, bad, r, q) ==> ZoneAt(d, q) == 0
    decreases Rank(q)
  {
    if q != r && !q.Direct? { EmptyReaches(d, bad, r, Parent(q)); }
  }

  lemma ReachesOne(d: Disk, bad: set<int>, r: Ref, q: Ref)
    requires r.Mid? || (r.Direct? && r.k == 7)
    ensures Reaches(d, bad, r, q) <==> q == r || (!q.Direct? && Parent(q) == r && ZoneAt(d, r) !in bad)
  {
    if q.Leaf? {
      assert !Reaches(d, bad, r, Direct(q.ino, 8));
      assert Parent(Parent(q)) == Direct(q.ino, 8);
    }
  }

  /** Zone z is in an entry below k of the table at r. */
  ghost predicate Before(owner: Owner, r: Ref, k: nat, z: int) {
    z in owner && !owner[z].Direct? && Parent(owner[z]) == r && Index(owner[z]) < k
  }

  lemma IndexInRange(d: Disk, owner: Owner, first: nat, z: int)
    requires Owned(d, owner, first) && z in owner
    ensures InRange(owner[z]) && Index(owner[z]) < WORDS
  {}

  ghost function Kid(r: Ref, k: nat): Ref
    requires r.Mid? || (r.Direct? && r.k == 7)
  {
    if r.Mid? then Leaf(r.ino, r.k, k) else Single(r.ino, k)
  }

  lemma KidAt(d: Disk, owner: Owner, first: nat, r: Ref, k: nat)
    requires Owned(d, owner, first) && (r.Mid? || (r.Direct? && r.k == 7)) && k < WORDS && ZoneAt(d, r) != 0
    ensures 0 < ZoneAt(d, r) < |d.blocks|
    ensures var w := Word(d.blocks[ZoneAt(d, r)], k);
      w != 0 ==>
        first <= w < |d.blocks| && w in owner && owner[w] == Kid(r, k) && Parent(Kid(r, k)) == r
        && Index(Kid(r, k)) == k
  {
    assert InRange(r);
    assert ZoneAt(d, Kid(r, k)) == Word(d.blocks[ZoneAt(d, r)], k);
  }

  lemma KidOf(d: Disk, owner: Owner, first: nat, r: Ref, k: nat, y: int)
    requires Owned(d, owner, first) && (r.Mid? || (r.Direct? && r.k == 7)) && k < WORDS && ZoneAt(d, r) != 0
    ensures 0 < ZoneAt(d, r) < |d.blocks|
    ensures var w := Word(d.blocks[ZoneAt(d, r)], k);
      Before(owner, r, k + 1, y) <==> Before(owner, r, k, y) || (w != 0 && y == w)
  {
    KidAt(d, owner, first, r, k);
    if y in owner && !owner[y].Direct? && Parent(owner[y]) == r && Index(owner[y]) == k {
      assert owner[y] == Kid(r, k);
      assert InRange(r);
      assert ZoneAt(d, Kid(r, k)) == Word(d.blocks[ZoneAt(d, r)], k);
    }
  }

  /** How a transfer ended: all of it done, or what was in the way. */
  datatype End = Whole | Failed | Panic

  /** n of `count` bytes were transferred and the next one would be at position p. */
  ghost predicate Ends(end: End, n: nat, count: int, p: nat) {
    && (end.Whole? <==> n == if count <= 0 then 0 else count)
    && (!end.Whole? ==> n < count)
    && (end.Panic? ==> p / BLOCK >= MAX_BLOCKS) && (end.Whole? && count > 0 ==> p <= MAX_BLOCKS * BLOCK)
  }

  lemma SlotPlaces(d: Disk, owner: Owner, d': Disk, owner': Owner, first: nat, r: Ref)
    requires Owned(d, owner, first) && Owned(d', owner', first)
    requires (forall q :: q != r ==> ZoneAt(d', q) == ZoneAt(d, q)) && (ZoneAt(d, r) != 0 ==> ZoneAt(d', r) != 0)
    ensures Places(owner') == Places(owner) + if ZoneAt(d', r) != 0 then {r} else {}
  {
    hide Places, ZoneAt;
    PlacesAre(d, owner, first);
    PlacesAre(d', owner', first);
  }

  lemma ChainIs(ino: nat, n: nat)
    requires n < MAX_BLOCKS
    ensures var r := BlockOf(ino, n);
      Chain(r) == if n < 7 then {r} else if n < 7 + 512 then {r, Direct(ino, 7)}
        else {r, Mid(ino, (n - 519) / 512), Direct(ino, 8)}
  {
    var r := BlockOf(ino, n);
    if n >= 7 {
      assert Chain(r) == {r} + Chain(Parent(r));
      if n >= 7 + 512 { assert Chain(Parent(r)) == {Parent(r)} + Chain(Direct(ino, 8)); }
    }
  }

  lemma {:induction false} BlocksMore(ino: nat, from: nat, a: nat, b: nat)
    requires a <= b
    ensures BlockPlaces(ino, from, a) <= BlockPlaces(ino, from, b)
    decreases b
  {
    if a < b { BlocksMore(ino, from, a, b - 1); }
  }

  lemma TouchedMore(ino: nat, p: nat, n: nat, m: nat)
    requires n <= m
    ensures Touched(ino, p, n) <= Touched(ino, p, m)
  {
    if n > 0 { BlocksMore(ino, p / BLOCK, (p + n - 1) / BLOCK + 1, (p + m - 1) / BLOCK + 1); }
  }

  /** One more block is touched by the next bytes, if they start at its beginning and do not reach beyond it. */
  lemma TouchedNext(ino: nat, p: nat, n: nat, c: nat)
    requires c > 0 && (n == 0 || (p + n) % BLOCK == 0) && (p + n) % BLOCK + c <= BLOCK
    ensures Touched(ino, p, n + c) == Touched(ino, p, n) +
      if (p + n) / BLOCK < MAX_BLOCKS then Chain(BlockOf(ino, (p + n) / BLOCK)) else {}
  {
    hide Chain, BlockOf;
    SameBlock(p + n, c - 1);
    var b := (p + n) / BLOCK;
    if n == 0 {
      assert BlockPlaces(ino, b, b) == {};
    } else {
      assert (p + n - 1) / BLOCK + 1 == b;
    }
  }

  /** The block of the next byte is touched by any write that goes further. */
  lemma NextTouched(ino: nat, p: nat, n: nat, m: nat)
    requires n < m && (p + n) / BLOCK < MAX_BLOCKS
    ensures BlockOf(ino, (p + n) / BLOCK) in Touched(ino, p, m)
  {
    hide BlockOf;
    var b := (p + n) / BLOCK;
    BlocksMore(ino, p / BLOCK, b + 1, (p + m - 1) / BLOCK + 1);
    assert BlockOf(ino, b) in Chain(BlockOf(ino, b));
  }

  /** Zones are found by the zone fields alone. */
  lemma {:induction false} SizeIsNoZone(d: Disk, e: Disk, q: Ref)
    requires d.blocks == e.blocks && d.inodes.Keys == e.inodes.Keys
    requires forall i :: i in d.inodes ==> d.inodes[i].zone == e.inodes[i].zone
    ensures ZoneAt(d, q) == ZoneAt(e, q)
    decreases Rank(q)
  {
    if InRange(q) && !q.Direct? { SizeIsNoZone(d, e, Parent(q)); }
  }

  /** A byte after writing `bytes` at `pos` of file ino, if it was b before. */
  function After(b: Byte, ino: nat, pos: nat, bytes: seq<Byte>, j: nat, p: nat): Byte {
    if j == ino && pos <= p < pos + |bytes| then bytes[p - pos] else b
  }

  function SizeAfter(size: nat, ino: nat, pos: nat, n: nat, j: nat): nat {
    if j == ino && n > 0 && pos + n > size then pos + n else size
  }

  lemma NothingWritten(ino: nat, pos: nat, buf: seq<Byte>)
    ensures forall b: Byte, j: nat, p: nat :: After(b, ino, pos, buf[..0], j, p) == b
    ensures forall s: nat, j: nat :: SizeAfter(s, ino, pos, 0, j) == s
    ensures Touched(ino, pos, 0) == {}
  {}

  lemma CutFollows(d: Disk, d': Disk, ino: nat)
    requires ino in d.inodes && d' == Emptied(d, ino) && forall j, p :: ByteAt(d', j, p) == if j == ino then 0
      else ByteAt(d, j, p)
    ensures Follows(d, d', Cleared(ino)) && forall c :: Reads(c, Cleared(ino))
  {
    hide ByteAt;
  }

  /** One more bit, one more zone in use. */
  lemma MarksNext(was: ZoneMap, zmap: ZoneMap, first: nat, nzones: nat, used: set<int>, z: int)
    requires Marks(was, first, nzones, used)
    requires forall y :: first <= y < nzones ==> (Bit(zmap, first, y) <==> Bit(was, first, y) || y == z)
    ensures z < first ==> Marks(zmap, first, nzones, used)
    ensures first <= z < nzones ==> Marks(zmap, first, nzones, used + {z}) && (!Bit(was, first, z) ==> z !in used)
  {
    hide Bit;
  }

  lemma OneMore(a: set<int>, b: set<int>, z: int)
    ensures a + (b + {z}) == (a + b) + {z}
  {}

  lemma Smaller(a: set<int>, b: set<int>)
    requires a <= b
    ensures |a| <= |b|
  {
    assert b == a + (b - a);
  }

  lemma AllOfRange(a: set<int>, from: int, to: int)
    requires from <= to && forall z :: z in a ==> from <= z < to
    ensures |a| <= to - from && (|a| == to - from <==> forall z :: from <= z < to ==> z in a)
  {
    hide Range;
    var all := Range(from, to);
    Smaller(a, all);
    if |a| == |all| { SameSize(a, all); }
    if forall z :: from <= z < to ==> z in a { assert a == all; }
  }

  lemma SameSize(a: set<int>, b: set<int>)
    requires a <= b && |a| == |b|
    ensures a == b
  {
    assert b == a + (b - a);
  }

  ghost function Range(a: int, b: int): (r: set<int>)
    requires a <= b
    ensures |r| == b - a && forall z :: z in r <==> a <= z < b
    decreases b - a
  {
    if a == b then {} else Range(a, b - 1) + {b - 1}
  }

  lemma Joined(buf: seq<Byte>, n: nat, c: nat, ino: nat, pos: nat)
    requires n + c <= |buf|
    ensures forall b: Byte, j: nat, p: nat ::
      After(After(b, ino, pos, buf[..n], j, p), ino, pos + n, buf[n..n + c], j, p) ==
        After(b, ino, pos, buf[..n + c], j, p)
    ensures forall s: nat, j: nat ::
      SizeAfter(SizeAfter(s, ino, pos, n, j), ino, pos + n, c, j) == SizeAfter(s, ino, pos, n + c, j)
  {
    assert buf[..n + c] == buf[..n] + buf[n..n + c];
  }

  lemma OverlayAt(d: Disk, z: int, ino: nat, pos: nat, bytes: seq<Byte>, p: nat)
    requires pos / BLOCK == p / BLOCK < MAX_BLOCKS && pos % BLOCK + |bytes| <= BLOCK
    requires z == ZoneAt(d, BlockOf(ino, pos / BLOCK)) && 0 < z < |d.blocks|
    ensures Overlay(d.blocks[z], pos % BLOCK, bytes)[p % BLOCK] == After(ByteAt(d, ino, p), ino, pos, bytes, ino, p)
  {}

  lemma OtherBlock(pos: nat, n: nat, p: nat)
    requires pos % BLOCK + n <= BLOCK && pos <= p < pos + n
    ensures p / BLOCK == pos / BLOCK
  {
    SameBlock(pos, p - pos);
  }

  lemma SameBlock(pos: nat, k: nat)
    requires pos % BLOCK + k < BLOCK
    ensures (pos + k) / BLOCK == pos / BLOCK && (pos + k) % BLOCK == pos % BLOCK + k
  {}
}
