/**
 The sizing loops of ext2fs_initialize: how many blocks, groups and inodes per group a new file
 system gets, retried until the inode tables and the last group are acceptable.
 */
module Sizing {
  import opened Arith
  import Backups

  const MAX_BLOCKS_PER_GROUP := 0xFFF8
  const U32_LIMIT := 0x1_0000_0000

  datatype SizeError = TooSmall | TooManyInodes | ResGdtBlocks

  /** What the caller of ext2fs_initialize asks for; zero inodes or reserved blocks means the default. */
  datatype Request = Request(blocks: nat, first: nat, blockSize: nat, inodeSize: nat, blocksPerGroup: nat, inodes: nat,
                             firstIno: nat, descPerBlock: nat, sparse: bool, resizeInode: bool, reserved: nat)

  datatype Sizes = Sizes(blocks: nat, blocksPerGroup: nat, groups: nat, descBlocks: nat, inodesPerGroup: nat,
                         inodeBlocks: nat, reserved: nat, overhead: nat)

  datatype SizeResult = Sized(sizes: Sizes) | Refused(error: SizeError)

  /** ext2fs_div_ceil */
  function DivCeil(a: nat, b: nat): (q: nat)
    requires b > 0
    ensures q * b >= a && (a > 0 ==> q > 0 && (q - 1) * b < a) && (a == 0 ==> q == 0)
  {
    CeilBounds(a, b);
    if a == 0 then 0 else (a - 1) / b + 1
  }

  lemma CeilBounds(a: nat, b: nat)
    requires b > 0
    ensures a > 0 ==> ((a - 1) / b + 1) * b >= a && (a - 1) / b * b < a
  {
    if a > 0 {
      var q := (a - 1) / b;
      assert a - 1 == q * b + (a - 1) % b;
      assert (q + 1) * b == q * b + b;
    }
  }

  /** Blocks needed for `n` inodes. */
  function TableBlocks(n: nat, inodeSize: nat, blockSize: nat): nat
    requires blockSize > 0
  {
    (n * inodeSize + blockSize - 1) / blockSize
  }

  /** Inodes per group once they fill the blocks of the table, as a multiple of eight. */
  function FilledInodes(ipg: nat, inodeSize: nat, blockSize: nat): (n: nat)
    requires blockSize > 0 && inodeSize > 0
  {
    TableBlocks(ipg, inodeSize, blockSize) * blockSize / inodeSize / 8 * 8
  }

  /** calc_reserved_gdt_blocks; the difference of two unsigned numbers. */
  function ReservedBlocks(r: Request, blocks: nat, blocksPerGroup: nat, descBlocks: nat): (n: nat)
    requires r.descPerBlock > 0 && blocksPerGroup > 0 && r.first <= blocks < U32_LIMIT
    ensures n <= r.blockSize / 4
  {
    var most := if blocks < 0x3F_FFFF then blocks * 1024 else U32_LIMIT - 1;
    var groups := DivCeil(most - r.first, blocksPerGroup);
    var diff := DivCeil(groups, r.descPerBlock) - descBlocks;
    var n := if diff >= 0 then diff else 0x1_0000_0000 + diff;
    if n > r.blockSize / 4 || n < 0 then r.blockSize / 4 else n
  }

  lemma CeilMonotone(a: nat, b: nat, k: nat)
    requires k > 0 && a <= b
    ensures DivCeil(a, k) <= DivCeil(b, k)
  {
    hide DivCeil;
    if DivCeil(a, k) > DivCeil(b, k) {
      MulMonotone(DivCeil(b, k), DivCeil(a, k) - 1, k);
    }
  }

  /**
   With the descriptor blocks there are, the calculated ones are just enough for a file system 1024 times
   as large, or as large as the format allows; or they are as many as one block can list.
   */
  lemma RoomToGrow(r: Request, blocks: nat, perGroup: nat)
    requires r.descPerBlock > 0 && perGroup > 0 && r.first <= blocks < U32_LIMIT
    ensures var desc := DivCeil(DivCeil(blocks - r.first, perGroup), r.descPerBlock);
            var n := ReservedBlocks(r, blocks, perGroup, desc);
            var most := if blocks * 1024 < U32_LIMIT - 1024 then blocks * 1024 else U32_LIMIT - 1;
            && (n == r.blockSize / 4 || (desc + n) * r.descPerBlock >= DivCeil(most - r.first, perGroup))
            && (n > 0 ==> (desc + n - 1) * r.descPerBlock < DivCeil(most - r.first, perGroup))
  {
    var most := if blocks < 0x3F_FFFF then blocks * 1024 else U32_LIMIT - 1;
    hide DivCeil;
    var groups := DivCeil(most - r.first, perGroup);
    var desc, needed := DivCeil(DivCeil(blocks - r.first, perGroup), r.descPerBlock), DivCeil(groups, r.descPerBlock);
    CeilMonotone(blocks - r.first, most - r.first, perGroup);
    CeilMonotone(DivCeil(blocks - r.first, perGroup), groups, r.descPerBlock);
    var n := ReservedBlocks(r, blocks, perGroup, desc);
    if n > 0 {
      MulMonotone(desc + n - 1, needed - 1, r.descPerBlock);
    }
  }

  /** Reserved group descriptor blocks: as asked for, or calculated if there is a resize inode, or none. */
  function Reserved(r: Request, blocks: nat, blocksPerGroup: nat, descBlocks: nat): nat
    requires r.descPerBlock > 0 && blocksPerGroup > 0 && r.first <= blocks < U32_LIMIT
  {
    var calculated := if r.resizeInode then ReservedBlocks(r, blocks, blocksPerGroup, descBlocks) else 0;
    if r.reserved != 0 then r.reserved else calculated
  }

  /** Blocks after the last whole group. */
  function Remainder(blocks: nat, first: nat, perGroup: nat): (rem: nat)
    requires first <= blocks && perGroup > 0
    ensures rem < perGroup && rem <= blocks - first
  {
    (blocks - first) % perGroup
  }

  /** Book-keeping blocks of the last group. */
  ghost predicate OverheadIs(r: Request, s: Sizes) {
    s.overhead == 2 + s.inodeBlocks + if !r.sparse || Backups.Special(s.groups - 1)
        then 1 + s.descBlocks + s.reserved else 0
  }

  /** Sound geometry. */
  ghost predicate SoundSizes(r: Request, s: Sizes) {
    && r.first < s.blocks <= r.blocks && 0 < s.blocksPerGroup && r.blockSize > 0 && r.inodeSize > 0
    && s.groups == DivCeil(s.blocks - r.first, s.blocksPerGroup) > 0
    && s.inodesPerGroup % 8 == 0 && s.inodesPerGroup <= 8 * r.blockSize
    && s.inodeBlocks == TableBlocks(s.inodesPerGroup, r.inodeSize, r.blockSize)
    && s.inodesPerGroup * r.inodeSize <= s.inodeBlocks * r.blockSize
    && s.inodesPerGroup * s.groups < U32_LIMIT
    && OverheadIs(r, s) && s.overhead <= s.blocksPerGroup && s.reserved <= r.blockSize / 4
    && r.descPerBlock > 0 && s.descBlocks == DivCeil(s.groups, r.descPerBlock)
    && (var rem := Remainder(s.blocks, r.first, s.blocksPerGroup); rem == 0 || rem >= s.overhead + 50)
  }

  /**
   What ext2fs_initialize demands of its parameters: inodes that divide a block, and room for the fixed
   structures.
   */
  ghost predicate GoodRequest(r: Request) {
    && 0 < r.blocks < U32_LIMIT && r.first <= r.blocks && r.blockSize > 0 && r.blocksPerGroup > 0 && r.descPerBlock > 0
    && r.inodeSize > 0 && r.blockSize % r.inodeSize == 0 && r.blockSize / r.inodeSize < 0x1_0000
  }

  lemma TableFits(n: nat, inodeSize: nat, blockSize: nat)
    requires blockSize > 0
    ensures n * inodeSize <= TableBlocks(n, inodeSize, blockSize) * blockSize
    ensures TableBlocks(n, inodeSize, blockSize) * blockSize < n * inodeSize + blockSize
  {
    var x, q := n * inodeSize + blockSize - 1, TableBlocks(n, inodeSize, blockSize);
    assert x == q * blockSize + x % blockSize;
  }

  /** Inodes that fit in one block. */
  function PerBlock(inodeSize: nat, blockSize: nat): nat
    requires inodeSize > 0
  {
    blockSize / inodeSize
  }

  /** The blocks of the table filled, and the count rounded down to a multiple of eight. */
  lemma FilledIs(ipg: nat, inodeSize: nat, blockSize: nat)
    requires inodeSize > 0 && blockSize > 0 && blockSize % inodeSize == 0
    ensures PerBlock(inodeSize, blockSize) > 0
    ensures var q, k := TableBlocks(ipg, inodeSize, blockSize), PerBlock(inodeSize, blockSize);
            && q == DivCeil(ipg, k) && ipg <= q * k < ipg + k
            && FilledInodes(ipg, inodeSize, blockSize) == q * k - q * k % 8
  {
    var q, k := TableBlocks(ipg, inodeSize, blockSize), PerBlock(inodeSize, blockSize);
    assert blockSize == k * inodeSize;
    TableFits(ipg, inodeSize, blockSize);
    assert q * blockSize == q * k * inodeSize;
    MultipleMod(q * k, inodeSize);
    InBlocks(ipg, q, k, inodeSize);
    CeilIs(ipg, k, q);
  }

  lemma InBlocks(ipg: nat, q: nat, k: nat, inodeSize: nat)
    requires inodeSize > 0 && k > 0
    requires ipg * inodeSize <= q * (k * inodeSize) < ipg * inodeSize + k * inodeSize
    ensures ipg <= q * k < ipg + k
  {
    assert q * (k * inodeSize) == (q * k) * inodeSize;
    assert ipg * inodeSize + k * inodeSize == (ipg + k) * inodeSize;
    assert (q * k + 1) * inodeSize == q * k * inodeSize + inodeSize;
    if q * k < ipg {
      MulMonotone(q * k + 1, ipg, inodeSize);
    }
    if q * k >= ipg + k {
      MulMonotone(ipg + k, q * k, inodeSize);
    }
  }

  lemma CeilIs(a: nat, k: nat, q: nat)
    requires k > 0 && a <= q * k < a + k
    ensures q == DivCeil(a, k)
  {
    if a > 0 {
      assert q > 0;
      assert (q - 1) * k == q * k - k;
      DivModUnique(a - 1, k, q - 1, a - 1 - (q - 1) * k);
    } else if q > 0 {
      MulMonotone(1, q, k);
    }
  }

  /** Filling the table's blocks and rounding to eight never takes the count above a bitmap's worth. */
  lemma FilledBounds(ipg: nat, inodeSize: nat, blockSize: nat)
    requires inodeSize > 0 && blockSize > 0 && blockSize % inodeSize == 0 && ipg <= 8 * blockSize
    ensures FilledInodes(ipg, inodeSize, blockSize) % 8 == 0 && FilledInodes(ipg, inodeSize, blockSize) <= 8 * blockSize
  {
    hide FilledInodes, TableBlocks, DivCeil, PerBlock;
    FilledIs(ipg, inodeSize, blockSize);
    var q, k := TableBlocks(ipg, inodeSize, blockSize), PerBlock(inodeSize, blockSize);
    BlocksOf(blockSize, inodeSize);
    assert (8 * inodeSize + 1) * k == (8 * inodeSize) * k + k;
    if q * k > 8 * blockSize {
      assert 8 * blockSize == (8 * inodeSize) * k;
      if q <= 8 * inodeSize {
        MulMonotone(q, 8 * inodeSize, k);
      } else {
        MulMonotone(8 * inodeSize + 1, q, k);
      }
    }
  }

  lemma BlocksOf(blockSize: nat, inodeSize: nat)
    requires inodeSize > 0 && blockSize % inodeSize == 0
    ensures blockSize == PerBlock(inodeSize, blockSize) * inodeSize
  {
  }

  /** Whether filling and rounding reaches a count: the rounding must not take more than the filling gave. */
  lemma FilledReaches(ipg: nat, inodeSize: nat, blockSize: nat)
    requires inodeSize > 0 && blockSize > 0 && blockSize % inodeSize == 0
    ensures PerBlock(inodeSize, blockSize) > 0
    ensures var k := PerBlock(inodeSize, blockSize);
            var n := DivCeil(ipg, k) * k;
            && (FilledInodes(ipg, inodeSize, blockSize) >= ipg <==> n % 8 <= n - ipg)
            && (k % 8 == 0 ==> FilledInodes(ipg, inodeSize, blockSize) >= ipg)
  {
    hide FilledInodes, TableBlocks, DivCeil;
    FilledIs(ipg, inodeSize, blockSize);
    var k := PerBlock(inodeSize, blockSize);
    if k % 8 == 0 {
      assert DivCeil(ipg, k) * k == (DivCeil(ipg, k) * (k / 8)) * 8;
      MultipleMod(DivCeil(ipg, k) * (k / 8), 8);
    }
  }

  /** One inode more takes at least as many, and more only when the table's blocks were full before. */
  lemma FilledStep(ipg: nat, inodeSize: nat, blockSize: nat)
    requires inodeSize > 0 && blockSize > 0 && blockSize % inodeSize == 0
    requires FilledInodes(ipg, inodeSize, blockSize) != FilledInodes(ipg + 1, inodeSize, blockSize)
    ensures FilledInodes(ipg, inodeSize, blockSize) <= ipg
  {
    hide FilledInodes, TableBlocks, DivCeil, PerBlock;
    FilledIs(ipg, inodeSize, blockSize);
    FilledIs(ipg + 1, inodeSize, blockSize);
    var k := PerBlock(inodeSize, blockSize);
    var q, q' := DivCeil(ipg, k), DivCeil(ipg + 1, k);
    if q * k > ipg {
      CeilIs(ipg + 1, k, q);
    }
  }

  /** Inodes asked for: the request or one per 4096 bytes, and at least one more than the reserved ones. */
  function InodesWanted(r: Request, blocks: nat): nat
    requires r.blockSize > 0
  {
    var per := if r.blockSize >= 4096 then 1 else 4096 / r.blockSize;
    var n := if r.inodes != 0 then r.inodes else if per > 0 then blocks / per else blocks;
    if n < r.firstIno + 1 then r.firstIno + 1 else n
  }

  /** By default there is an inode for every 4096 bytes, or for every block if blocks are larger. */
  lemma OnePer4096Bytes(r: Request, blocks: nat, m: nat)
    requires r.blockSize > 0 && r.inodes == 0 && (r.blockSize * m == 4096 || (m == 1 && r.blockSize >= 4096))
    ensures InodesWanted(r, blocks) >= r.firstIno + 1
    ensures InodesWanted(r, blocks) > r.firstIno + 1 ==>
              InodesWanted(r, blocks) == if m == 1 then blocks else blocks * r.blockSize / 4096
  {
    if m != 1 {
      var q := blocks / m;
      assert r.blockSize * m == 4096 && m > 1;
      DivModUnique(4096, r.blockSize, m, 0);
      assert blocks == q * m + blocks % m;
      assert blocks * r.blockSize == q * (r.blockSize * m) + blocks % m * r.blockSize;
      MulMonotone(blocks % m + 1, m, r.blockSize);
      DivModUnique(blocks * r.blockSize, 4096, q, blocks % m * r.blockSize);
    }
  }

  /** The number of inodes per group tried first: the wanted ones spread over the groups, with the cap of the format. */
  function FirstTry(r: Request, wanted: nat, groups: nat): (ipg: nat)
    requires r.inodeSize > 0 && r.blockSize / r.inodeSize < 0x1_0000 && groups > 0
    ensures ipg <= DivCeil(wanted, groups) && ipg <= 0x1_0000 - r.blockSize / r.inodeSize
    ensures ipg < DivCeil(wanted, groups) ==> ipg == 0x1_0000 - r.blockSize / r.inodeSize
  {
    var ipg, most := DivCeil(wanted, groups), 0x1_0000 - r.blockSize / r.inodeSize;
    if ipg > most then most else ipg
  }

  /** The first count from `ipg` down whose total fits in 32 bits, filled and rounded. */
  ghost function LargestFit(r: Request, ipg: nat, groups: nat): nat
    requires GoodRequest(r)
  {
    var n := FilledInodes(ipg, r.inodeSize, r.blockSize);
    if ipg == 0 || n * groups < U32_LIMIT then n else LargestFit(r, ipg - 1, groups)
  }

  /** Too many inodes wanted for one bitmap in each group. */
  ghost predicate Crowded(r: Request, blocks: nat, perGroup: nat)
    requires r.blockSize > 0 && r.first < blocks && perGroup > 0
  {
    DivCeil(InodesWanted(r, blocks), DivCeil(blocks - r.first, perGroup)) > r.blockSize * 8
  }

  /** The sizes that go with a number of blocks and of blocks per group. */
  ghost function Plan(r: Request, blocks: nat, perGroup: nat): (s: Sizes)
    requires GoodRequest(r) && r.first < blocks <= r.blocks && perGroup > 0
    ensures OverheadIs(r, s) && s.groups > 0 && s.blocks == blocks && s.blocksPerGroup == perGroup
  {
    var groups := DivCeil(blocks - r.first, perGroup);
    var descBlocks := DivCeil(groups, r.descPerBlock);
    var inodesPerGroup := LargestFit(r, FirstTry(r, InodesWanted(r, blocks), groups), groups);
    var inodeBlocks := TableBlocks(inodesPerGroup, r.inodeSize, r.blockSize);
    var reserved := Reserved(r, blocks, perGroup, descBlocks);
    var overhead := 2 + inodeBlocks + if !r.sparse || Backups.Special(groups - 1) then 1 + descBlocks + reserved else 0;
    Sizes(blocks, perGroup, groups, descBlocks, inodesPerGroup, inodeBlocks, reserved, overhead)
  }

  datatype Attempt = Stop(result: SizeResult) | Again(blocks: nat, perGroup: nat)

  /** What one pass from `retry` on comes to. */
  ghost function TryOnce(r: Request, blocks: nat, perGroup: nat): (t: Attempt)
    requires GoodRequest(r) && r.first <= blocks <= r.blocks && perGroup > 0
    ensures t.Again? ==>
              && r.first <= t.blocks <= r.blocks && 0 < t.perGroup <= perGroup
              && (t.perGroup == perGroup ==> t.blocks < blocks)
  {
    var groups := DivCeil(blocks - r.first, perGroup);
    if groups == 0 then Stop(Refused(TooSmall))
    else if Crowded(r, blocks, perGroup) then
      if perGroup >= 256 then Again(r.blocks, perGroup - 8) else Stop(Refused(TooManyInodes))
    else
      var s, rem := Plan(r, blocks, perGroup), Remainder(blocks, r.first, perGroup);
      if s.reserved > r.blockSize / 4 then Stop(Refused(ResGdtBlocks))
      else if s.overhead > perGroup then Stop(Refused(TooManyInodes))
      else if groups == 1 && rem != 0 && rem < s.overhead then Stop(Refused(TooSmall))
      else if rem != 0 && rem < s.overhead + 50 then Again(blocks - rem, perGroup)
      else Stop(Sized(s))
  }

  /** What the passes come to. */
  ghost function Chosen(r: Request, blocks: nat, perGroup: nat): SizeResult
    requires GoodRequest(r) && r.first <= blocks <= r.blocks && perGroup > 0
    decreases perGroup, blocks
  {
    match TryOnce(r, blocks, perGroup)
    case Stop(result) => result
    case Again(blocks', perGroup') => Chosen(r, blocks', perGroup')
  }

  /** The fixed structures have room in every group, and the last group has fifty blocks more if it is not full. */
  ghost predicate Roomy(r: Request, s: Sizes)
    requires r.first <= s.blocks && s.blocksPerGroup > 0
  {
    && s.reserved <= r.blockSize / 4 && s.overhead <= s.blocksPerGroup
    && (var rem := Remainder(s.blocks, r.first, s.blocksPerGroup); rem == 0 || rem >= s.overhead + 50)
  }

  /** All blocks are tried first; a last group that is too small for that is given up. */
  ghost predicate LastGivenUp(r: Request, perGroup: nat)
    requires GoodRequest(r) && perGroup > 0
  {
    && r.first < r.blocks && !Crowded(r, r.blocks, perGroup)
    && var s, rem := Plan(r, r.blocks, perGroup), Remainder(r.blocks, r.first, perGroup);
       && s.reserved <= r.blockSize / 4 && s.overhead <= perGroup
       && 0 < rem < s.overhead + 50 && (s.groups == 1 ==> rem >= s.overhead)
  }

  /** Groups of this size are too crowded, with all blocks or after the last group was given up. */
  ghost predicate PassedOver(r: Request, perGroup: nat)
    requires GoodRequest(r) && perGroup > 0
  {
    && perGroup >= 256 && r.first < r.blocks
    && (|| Crowded(r, r.blocks, perGroup)
        || (LastGivenUp(r, perGroup) &&
            var whole := r.blocks - Remainder(r.blocks, r.first, perGroup);
            r.first < whole && Crowded(r, whole, perGroup)))
  }

  /** Sizes that will do: of all blocks, or of all but the last group. */
  ghost predicate Settled(r: Request, s: Sizes)
    requires GoodRequest(r)
  {
    && r.first < s.blocks <= r.blocks && s.blocksPerGroup > 0
    && (|| s.blocks == r.blocks
        || (LastGivenUp(r, s.blocksPerGroup) && s.blocks == r.blocks - Remainder(r.blocks, r.first, s.blocksPerGroup)))
    && !Crowded(r, s.blocks, s.blocksPerGroup) && s == Plan(r, s.blocks, s.blocksPerGroup) && Roomy(r, s)
  }

  /** All sizes of groups from `from` down in steps of eight are passed over, until `to` is reached. */
  ghost predicate AllPassed(r: Request, from: nat, to: nat)
    requires GoodRequest(r)
  {
    from == to || (from >= to + 8 && PassedOver(r, from) && AllPassed(r, from - 8, to))
  }

  /** Sizes that will do, with all larger groups passed over. */
  ghost predicate Granted(r: Request, perGroup: nat, s: Sizes)
    requires GoodRequest(r)
  {
    Settled(r, s) && AllPassed(r, perGroup, s.blocksPerGroup)
  }

  lemma SettledNotPassed(r: Request, s: Sizes)
    requires GoodRequest(r) && Settled(r, s)
    ensures !PassedOver(r, s.blocksPerGroup)
  {
    hide Crowded, Plan, Remainder, GoodRequest;
  }

  /** Whether groups of a size are passed over decides whether smaller ones are tried. */
  lemma GrantedStep(r: Request, perGroup: nat, s: Sizes)
    requires GoodRequest(r) && perGroup > 0
    ensures PassedOver(r, perGroup) ==>
              perGroup >= 256 && (Granted(r, perGroup, s) <==> Granted(r, perGroup - 8, s))
    ensures !PassedOver(r, perGroup) ==> (Granted(r, perGroup, s) <==> Settled(r, s) && s.blocksPerGroup == perGroup)
  {
    if Settled(r, s) {
      SettledNotPassed(r, s);
    }
    hide Settled, Crowded, LastGivenUp, Remainder, GoodRequest;
  }

  lemma WholeGroups(r: Request, perGroup: nat)
    requires r.first <= r.blocks && perGroup > 0
    ensures var whole := r.blocks - Remainder(r.blocks, r.first, perGroup);
            r.first <= whole && Remainder(whole, r.first, perGroup) == 0
  {
    var n := r.blocks - r.first;
    assert n == n / perGroup * perGroup + n % perGroup;
    MultipleMod(n / perGroup, perGroup);
  }

  lemma NoBlocksNoGroups(n: nat, perGroup: nat)
    requires perGroup > 0
    ensures DivCeil(n, perGroup) == 0 <==> n == 0
  {
  }

  lemma ChosenAt(r: Request, blocks: nat, perGroup: nat)
    requires GoodRequest(r) && r.first <= blocks <= r.blocks && perGroup > 0
    ensures Chosen(r, blocks, perGroup) ==
            match TryOnce(r, blocks, perGroup)
            case Stop(result) => result
            case Again(blocks', perGroup') => Chosen(r, blocks', perGroup')
  {
    hide TryOnce, GoodRequest;
  }

  /** What a pass comes to that starts with blocks for whole groups, or with a last group that is large enough. */
  lemma NoneGivenUp(r: Request, blocks: nat, perGroup: nat, s: Sizes)
    requires GoodRequest(r) && r.first <= blocks <= r.blocks && perGroup > 0
    requires r.first < blocks && !Crowded(r, blocks, perGroup) ==>
               var plan, rem := Plan(r, blocks, perGroup), Remainder(blocks, r.first, perGroup);
               !(plan.reserved <= r.blockSize / 4 && plan.overhead <= perGroup && 0 < rem < plan.overhead + 50 &&
                 (plan.groups == 1 ==> rem >= plan.overhead))
    ensures var crowded := r.first < blocks && Crowded(r, blocks, perGroup);
            && (crowded && perGroup >= 256 ==>
                Chosen(r, blocks, perGroup) == Chosen(r, r.blocks, perGroup - 8))
            && (crowded && perGroup < 256 ==> Chosen(r, blocks, perGroup) == Refused(TooManyInodes))
            && (!crowded ==> (Chosen(r, blocks, perGroup) == Sized(s) <==>
                              r.first < blocks && s == Plan(r, blocks, perGroup) && Roomy(r, s)))
  {
    hide DivCeil, Crowded, Remainder, Chosen, Reserved, TableBlocks, LargestFit, FirstTry, InodesWanted,
         Backups.Special;
    NoBlocksNoGroups(blocks - r.first, perGroup);
    ChosenAt(r, blocks, perGroup);
  }

  /** The last group is given up in a pass of its own. */
  lemma GivenUp(r: Request, perGroup: nat)
    requires GoodRequest(r) && perGroup > 0 && LastGivenUp(r, perGroup)
    ensures Chosen(r, r.blocks, perGroup) ==
              Chosen(r, r.blocks - Remainder(r.blocks, r.first, perGroup), perGroup)
  {
    hide DivCeil, Crowded, Remainder, Chosen, Reserved, TableBlocks, LargestFit, FirstTry, InodesWanted,
         Backups.Special;
    NoBlocksNoGroups(r.blocks - r.first, perGroup);
    ChosenAt(r, r.blocks, perGroup);
  }

  /** Groups of one size: passed over, or the last ones tried. */
  lemma SizeTried(r: Request, perGroup: nat, s: Sizes)
    requires GoodRequest(r) && perGroup > 0
    ensures PassedOver(r, perGroup) ==> Chosen(r, r.blocks, perGroup) == Chosen(r, r.blocks, perGroup - 8)
    ensures !PassedOver(r, perGroup) ==>
              (Chosen(r, r.blocks, perGroup) == Sized(s) <==> Settled(r, s) && s.blocksPerGroup == perGroup)
  {
    hide Plan, Crowded, Remainder, Chosen;
    WholeGroups(r, perGroup);
    var whole := r.blocks - Remainder(r.blocks, r.first, perGroup);
    if LastGivenUp(r, perGroup) {
      GivenUp(r, perGroup);
      NoneGivenUp(r, whole, perGroup, s);
    } else {
      NoneGivenUp(r, r.blocks, perGroup, s);
    }
  }

  /** The passes end in a grant exactly if some size of groups is settled on and all larger ones are passed over. */
  lemma {:induction false} GrantedExactly(r: Request, perGroup: nat, s: Sizes)
    requires GoodRequest(r) && perGroup > 0
    ensures Chosen(r, r.blocks, perGroup) == Sized(s) <==> Granted(r, perGroup, s)
    decreases perGroup
  {
    hide Chosen, PassedOver, Granted, Settled, GoodRequest;
    SizeTried(r, perGroup, s);
    GrantedStep(r, perGroup, s);
    if PassedOver(r, perGroup) {
      GrantedExactly(r, perGroup - 8, s);
    }
  }

  lemma GrantedAll(r: Request, perGroup: nat)
    requires GoodRequest(r) && perGroup > 0
    ensures forall s :: Chosen(r, r.blocks, perGroup) == Sized(s) <==> Granted(r, perGroup, s)
  {
    hide Granted, Chosen, GoodRequest;
    forall s {
      GrantedExactly(r, perGroup, s);
    }
  }

  /** As many inodes as wanted: what is tried first fits in 32 bits and fills up to the share of a group. */
  ghost predicate Enough(r: Request, s: Sizes)
    requires GoodRequest(r) && s.groups > 0
  {
    var wanted := InodesWanted(r, s.blocks);
    var n := FilledInodes(FirstTry(r, wanted, s.groups), r.inodeSize, r.blockSize);
    n >= DivCeil(wanted, s.groups) && n * s.groups < U32_LIMIT
  }

  function StartPerGroup(r: Request): (p: nat)
    ensures p <= r.blocksPerGroup && p <= MAX_BLOCKS_PER_GROUP && (p < r.blocksPerGroup ==> p == MAX_BLOCKS_PER_GROUP)
  {
    if r.blocksPerGroup > MAX_BLOCKS_PER_GROUP then MAX_BLOCKS_PER_GROUP else r.blocksPerGroup
  }

  /** The part of ext2fs_initialize from `retry` to the check of the last group. */
  method SizeFileSystem(r: Request) returns (res: SizeResult)
    requires GoodRequest(r)
    ensures res == Chosen(r, r.blocks, StartPerGroup(r))
    ensures forall s :: res == Sized(s) <==> Granted(r, StartPerGroup(r), s)
    ensures res.Sized? ==> SoundSizes(r, res.sizes) && res.sizes.blocksPerGroup <= r.blocksPerGroup
    ensures res.Sized? ==> (res.sizes.inodesPerGroup * res.sizes.groups >= InodesWanted(r, res.sizes.blocks) <==>
              Enough(r, res.sizes))
  {
    hide DivCeil, TableBlocks, FilledInodes, Reserved, Remainder, Backups.Special, InodesWanted, FirstTry, LargestFit,
         Granted, Chosen, StartPerGroup;
    GrantedAll(r, StartPerGroup(r));
    var blocks, perGroup := r.blocks, StartPerGroup(r);
    while true
      invariant r.first <= blocks <= r.blocks && 0 < perGroup <= r.blocksPerGroup
      invariant Chosen(r, blocks, perGroup) == Chosen(r, r.blocks, StartPerGroup(r))
      decreases perGroup, blocks
    {
      ChosenAt(r, blocks, perGroup);
      var groups := DivCeil(blocks - r.first, perGroup);
      if groups == 0 {
        return Refused(TooSmall);
      }
      assert r.first < blocks by { NoGroups(blocks - r.first, perGroup); }
      var descBlocks := DivCeil(groups, r.descPerBlock);
      var wanted := InodesWanted(r, blocks);
      var ipg := DivCeil(wanted, groups);
      if ipg > r.blockSize * 8 {
        if perGroup >= 256 {
          perGroup, blocks := perGroup - 8, r.blocks;
          continue;
        }
        return Refused(TooManyInodes);
      }
      ipg := FirstTry(r, wanted, groups);
      var inodesPerGroup := InodesPerGroup(r, ipg, groups);
      var inodeBlocks := TableBlocks(inodesPerGroup, r.inodeSize, r.blockSize);
      TableFits(inodesPerGroup, r.inodeSize, r.blockSize);
      var reserved := Reserved(r, blocks, perGroup, descBlocks);
      if reserved > r.blockSize / 4 {
        return Refused(ResGdtBlocks);
      }
      var hasSuper := Backups.BgHasSuper(r.sparse, groups - 1);
      var overhead := 2 + inodeBlocks + if hasSuper then 1 + descBlocks + reserved else 0;
      if overhead > perGroup {
        return Refused(TooManyInodes);
      }
      var rem := Remainder(blocks, r.first, perGroup);
      if groups == 1 && rem != 0 && rem < overhead {
        return Refused(TooSmall);
      }
      if rem != 0 && rem < overhead + 50 {
        blocks := blocks - rem;
        continue;
      }
      CountReaches(r, wanted, groups, inodesPerGroup);
      return Sized(Sizes(blocks, perGroup, groups, descBlocks, inodesPerGroup, inodeBlocks, reserved, overhead));
    }
  }

  /** Whether the count settled on reaches the number wanted. */
  lemma CountReaches(r: Request, wanted: nat, groups: nat, n: nat)
    requires GoodRequest(r) && groups > 0 && n == LargestFit(r, FirstTry(r, wanted, groups), groups)
    ensures var f := FilledInodes(FirstTry(r, wanted, groups), r.inodeSize, r.blockSize);
            n * groups >= wanted <==> f >= DivCeil(wanted, groups) && f * groups < U32_LIMIT
  {
    hide FilledInodes, LargestFit, FirstTry;
    var ipg, share := FirstTry(r, wanted, groups), DivCeil(wanted, groups);
    FitIs(r, ipg, groups);
    ShareReaches(n, groups, wanted);
  }

  lemma ShareReaches(n: nat, groups: nat, wanted: nat)
    requires groups > 0
    ensures n * groups >= wanted <==> n >= DivCeil(wanted, groups)
  {
    var share := DivCeil(wanted, groups);
    if n >= share {
      MulMonotone(share, n, groups);
    } else {
      MulMonotone(n, share - 1, groups);
    }
  }

  /** The first try if its total fits in 32 bits; else less than was tried. */
  lemma {:induction false} FitIs(r: Request, ipg: nat, groups: nat)
    requires GoodRequest(r)
    ensures var f := FilledInodes(ipg, r.inodeSize, r.blockSize);
            if ipg == 0 || f * groups < U32_LIMIT then LargestFit(r, ipg, groups) == f
            else LargestFit(r, ipg, groups) < ipg
    ensures ipg == 0 ==> LargestFit(r, ipg, groups) == 0
  {
    hide FilledInodes;
    NoInodes(r);
    if ipg > 0 && FilledInodes(ipg, r.inodeSize, r.blockSize) * groups >= U32_LIMIT {
      FitIs(r, ipg - 1, groups);
      if FilledInodes(ipg - 1, r.inodeSize, r.blockSize) * groups < U32_LIMIT {
        FilledStep(ipg - 1, r.inodeSize, r.blockSize);
      }
    }
  }

  lemma NoGroups(n: nat, perGroup: nat)
    requires perGroup > 0 && DivCeil(n, perGroup) != 0
    ensures n > 0
  {
  }

  /** The loop at ipg_retry: fewer inodes per group until all of them can be counted in 32 bits. */
  method InodesPerGroup(r: Request, ipg0: nat, groups: nat) returns (n: nat)
    requires GoodRequest(r) && ipg0 <= 8 * r.blockSize
    ensures n == LargestFit(r, ipg0, groups)
    ensures n % 8 == 0 && n <= 8 * r.blockSize && n * groups < U32_LIMIT
    ensures exists ipg :: 0 <= ipg <= ipg0 && n == FilledInodes(ipg, r.inodeSize, r.blockSize)
                          && forall i :: ipg < i <= ipg0 ==>
                              FilledInodes(i, r.inodeSize, r.blockSize) * groups >= U32_LIMIT
  {
    hide FilledInodes, TableBlocks;
    var ipg := ipg0;
    while true
      invariant 0 <= ipg <= ipg0 && LargestFit(r, ipg, groups) == LargestFit(r, ipg0, groups)
      invariant forall i :: ipg < i <= ipg0 ==> FilledInodes(i, r.inodeSize, r.blockSize) * groups >= U32_LIMIT
      decreases ipg
    {
      n := FilledInodes(ipg, r.inodeSize, r.blockSize);
      FilledBounds(ipg, r.inodeSize, r.blockSize);
      if n * groups <= U32_LIMIT - 1 {
        return;
      }
      NoInodes(r);
      assert ipg > 0;
      ipg := ipg - 1;
    }
  }

  lemma NoInodes(r: Request)
    requires GoodRequest(r)
    ensures FilledInodes(0, r.inodeSize, r.blockSize) == 0
  {
    assert (r.blockSize - 1) / r.blockSize == 0;
    assert 0 * r.inodeSize == 0;
    assert TableBlocks(0, r.inodeSize, r.blockSize) == 0;
  }

  /** A hundred groups of 8192 blocks of 1024 bytes, inodes of 256 bytes, and twelve inodes asked for. */
  function FewInodes(): Request {
    Request(819201, 1, 1024, 256, 8192, 12, 11, 32, false, false, 0)
  }

  lemma FewTried()
    ensures GoodRequest(FewInodes()) && InodesWanted(FewInodes(), 819201) == 12 && FirstTry(FewInodes(), 12, 100) == 1
    ensures FilledInodes(1, 256, 1024) == 0 && TableBlocks(0, 256, 1024) == 0
  {
  }

  lemma FewGroups()
    ensures DivCeil(819200, 8192) == 100 && DivCeil(12, 100) == 1 && DivCeil(100, 32) == 4
  {
  }

  /** That request is granted with no inode at all. */
  lemma NoInodeAtAll()
    ensures GoodRequest(FewInodes()) && InodesWanted(FewInodes(), 819201) == 12
    ensures Chosen(FewInodes(), 819201, StartPerGroup(FewInodes())) == Sized(Sizes(819201, 8192, 100, 4, 0, 0, 0, 7))
  {
    hide FilledInodes, FirstTry, InodesWanted, DivCeil, TableBlocks, GoodRequest;
    FewTried();
    FewGroups();
    assert LargestFit(FewInodes(), 1, 100) == 0;
    assert TryOnce(FewInodes(), 819201, 8192) == Stop(Sized(Sizes(819201, 8192, 100, 4, 0, 0, 0, 7)));
  }
}
