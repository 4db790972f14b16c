/**
 * The partition list of scu_mmu.c: a linked list of block descriptors that
 * lies inside the memory whose blocks it describes.
 */
module PartitionList {

  const MAGIC := 0xAAFF_0055
  const ITEM_SIZE := 2                    // words of a descriptor
  const SIZE_T := 0x1_0000_0000           // the range of size_t on the LM32

  type uint32 = x: int | 0 <= x < 0x1_0000_0000
  type uint16 = x: int | 0 <= x < 0x1_0000

  // A 64-bit memory word as two 32-bit halves.
  datatype Word = Word(hi: uint32, lo: uint32)

  // MMU_ITEM_T: a descriptor of two words.
  datatype Item = Item(tag: uint16, flags: uint16, next: uint32, start: uint32, length: uint32)

  datatype Status = Okay | ListNotFound | TagNotFound | AlreadyPresent | OutOfMem

  datatype Block = Block(tag: uint16, start: uint32, length: uint32)

  function Decode(w0: Word, w1: Word): Item {
    Item(w0.hi / 0x1_0000, w0.hi % 0x1_0000, w0.lo, w1.hi, w1.lo)
  }

  function FirstWord(item: Item): Word {
    Word(item.tag * 0x1_0000 + item.flags, item.next)
  }

  function SecondWord(item: Item): Word {
    Word(item.start, item.length)
  }

  lemma ItemIsReadBack(item: Item)
    ensures Decode(FirstWord(item), SecondWord(item)) == item
  {
  }

  lemma WordIsWrittenBack(w0: Word, w1: Word)
    ensures FirstWord(Decode(w0, w1)) == w0 && SecondWord(Decode(w0, w1)) == w1
  {
  }

  // ---------- the blocks that a list describes ----------

  /** Each block follows the one before, with only its own descriptor in between. */
  ghost predicate Contiguous(bs: seq<Block>) {
    forall k | 0 <= k < |bs| :: Follows(bs, k)
  }

  predicate Follows(bs: seq<Block>, k: nat)
    requires k < |bs|
  {
    bs[k].start == EndOf(bs, k) + ITEM_SIZE
  }

  /** The end of the first k blocks, and of the list's start item. */
  function EndOf(bs: seq<Block>, k: nat): (end: int)
    requires k <= |bs|
    ensures 0 <= end
  {
    if k == 0 then ITEM_SIZE else bs[k - 1].start + bs[k - 1].length
  }

  function End(bs: seq<Block>): nat {
    EndOf(bs, |bs|)
  }

  predicate DifferentTags(bs: seq<Block>, j: int, k: int)
    requires 0 <= j < |bs| && 0 <= k < |bs|
  {
    bs[j].tag != bs[k].tag
  }

  ghost predicate UniqueTags(bs: seq<Block>) {
    forall j, k | 0 <= j < k < |bs| :: DifferentTags(bs, j, k)
  }

  lemma {:induction false} EndsGrow(bs: seq<Block>, j: nat, k: nat)
    requires Contiguous(bs) && j <= k <= |bs|
    ensures 2 <= EndOf(bs, j) <= EndOf(bs, k)
    ensures j < k ==> EndOf(bs, j) + ITEM_SIZE <= bs[k - 1].start
    decreases k
  {
    if k > 0 {
      assert Follows(bs, k - 1);
      EndsGrow(bs, if j < k then j else k - 1, k - 1);
    }
  }

  /** Blocks do not overlap, and leave room for a descriptor in between. */
  lemma BlocksAreDisjoint(bs: seq<Block>, j: nat, k: nat)
    requires Contiguous(bs) && j < k < |bs|
    ensures bs[j].start + bs[j].length + ITEM_SIZE <= bs[k].start
  {
    EndsGrow(bs, j + 1, k + 1);
  }

  /** The index of the item that describes block k - 1; item 0 starts the list. */
  function ItemIndex(bs: seq<Block>, k: nat): int
    requires k <= |bs|
  {
    if k == 0 then 0 else EndOf(bs, k - 1)
  }

  /** Where item k points to. */
  function NextIndex(bs: seq<Block>, k: nat): int
    requires k <= |bs|
  {
    if k < |bs| then ItemIndex(bs, k + 1) else 0
  }

  /** Item k of the list as it lies in memory; item 0 holds the magic number. */
  ghost predicate ItemAt(mem: seq<Word>, bs: seq<Block>, k: nat)
    requires k <= |bs|
  {
    var i := ItemIndex(bs, k);
    && 0 <= i < |mem| - 1
    && mem[i].lo == NextIndex(bs, k)
    && (if k == 0 then mem[i].hi == MAGIC && mem[i + 1].lo == 0
        else mem[i].hi / 0x1_0000 == bs[k - 1].tag && mem[i + 1] == Word(bs[k - 1].start, bs[k - 1].length))
  }

  ghost predicate Chained(mem: seq<Word>, bs: seq<Block>) {
    && Contiguous(bs) && UniqueTags(bs)
    && forall k | 0 <= k <= |bs| :: ItemAt(mem, bs, k)
  }

  /** Two items lie apart, and the payloads apart from them. */
  lemma ItemsApart(bs: seq<Block>, j: nat, k: nat)
    requires Contiguous(bs) && j < k <= |bs|
    ensures 0 <= ItemIndex(bs, j) && ItemIndex(bs, j) + ITEM_SIZE <= ItemIndex(bs, k)
    ensures ItemIndex(bs, k) + ITEM_SIZE == bs[k - 1].start && ItemIndex(bs, k) + ITEM_SIZE <= End(bs)
    ensures j > 0 ==> bs[j - 1].start + bs[j - 1].length <= ItemIndex(bs, k)
  {
    assert Follows(bs, k - 1);
    EndsGrow(bs, j, k - 1);
    EndsGrow(bs, k, |bs|);
    if j > 0 {
      assert Follows(bs, j - 1);
      EndsGrow(bs, j - 1, j);
    }
  }

  // ---------- the specification of an allocation ----------

  function Find(bs: seq<Block>, tag: uint16): (k: nat)
    ensures k <= |bs| && (k < |bs| ==> bs[k].tag == tag)
    ensures forall j | 0 <= j < k :: bs[j].tag != tag
  {
    if bs == [] then 0
    else if bs[0].tag == tag then 0
    else 1 + Find(bs[1..], tag)
  }

  ghost predicate HasTag(bs: seq<Block>, tag: uint16) {
    exists b :: b in bs && b.tag == tag
  }

  lemma FindMeans(bs: seq<Block>, tag: uint16)
    ensures Find(bs, tag) < |bs| <==> HasTag(bs, tag)
  {
    if Find(bs, tag) < |bs| { assert bs[Find(bs, tag)] in bs; }
  }

  /** The check of line 228, made in size_t. */
  predicate Accepts(level: int, length: int, capacity: int) {
    (level + length + ITEM_SIZE) % SIZE_T < capacity
  }

  /**
   * The check is right, that is, grants a block just when it lies below the
   * capacity, if and only if the sum does not wrap around to below the capacity.
   */
  lemma CheckIsRightIff(level: int, length: uint32, capacity: uint32)
    requires 0 <= level < capacity
    ensures (Accepts(level, length, capacity) <==> level + ITEM_SIZE + length < capacity)
            <==> !(SIZE_T <= level + length + ITEM_SIZE < SIZE_T + capacity)
  {
    var sum := level + length + ITEM_SIZE;
    if sum < SIZE_T {
      assert sum % SIZE_T == sum;
    } else {
      assert sum % SIZE_T == sum - SIZE_T;
    }
  }

  /** A request for almost the whole address range is granted by any memory. */
  lemma HugeRequestIsGranted(capacity: uint32)
    requires 2 < capacity
    ensures Accepts(End([]), 0xFFFF_FFFE, capacity) && !(End([]) + ITEM_SIZE + 0xFFFF_FFFE < capacity)
  {
  }

  datatype Answer = Answer(status: Status, start: int, length: int)

  /** What mmuAlloc makes of the blocks. */
  function BlocksAfter(bs: seq<Block>, tag: uint16, length: uint32, create: bool, capacity: uint32): seq<Block>
    requires End(bs) < SIZE_T - ITEM_SIZE
  {
    if create && Find(bs, tag) == |bs| && Accepts(End(bs), length, capacity)
    then bs + [Block(tag, End(bs) + ITEM_SIZE, length)]
    else bs
  }

  /** What it answers; the length is the caller's own if nothing is found. */
  function AnswerOf(bs: seq<Block>, tag: uint16, length: uint32, create: bool, capacity: uint32): Answer {
    var k := Find(bs, tag);
    if k < |bs| then Answer(if create then AlreadyPresent else Okay, bs[k].start, bs[k].length)
    else if !create then Answer(TagNotFound, 0, length)
    else if !Accepts(End(bs), length, capacity) then Answer(OutOfMem, 0, length)
    else Answer(Okay, End(bs) + ITEM_SIZE, length)
  }

  /** All blocks lie below the capacity. */
  ghost predicate Partition(bs: seq<Block>, capacity: int) {
    Contiguous(bs) && UniqueTags(bs) && End(bs) < capacity
  }

  lemma AppendKeepsPartition(bs: seq<Block>, tag: uint16, length: uint32, create: bool, capacity: uint32)
    requires Partition(bs, capacity) && End(bs) < SIZE_T - ITEM_SIZE
    ensures
      var after := BlocksAfter(bs, tag, length, create, capacity);
      && Contiguous(after) && UniqueTags(after)
      && (Partition(after, capacity) <==> (after != bs ==> End(bs) + length + ITEM_SIZE < SIZE_T))
  {
    var after := BlocksAfter(bs, tag, length, create, capacity);
    if after != bs {
      var sum := End(bs) + length + ITEM_SIZE;
      assert sum < SIZE_T ==> sum % SIZE_T == sum;
      forall k | 0 <= k < |after| ensures Follows(after, k) {
        if k < |bs| { assert Follows(bs, k); }
      }
      forall j, k | 0 <= j < k < |after| ensures DifferentTags(after, j, k) {
        if k < |bs| { assert DifferentTags(bs, j, k); }
      }
    }
  }

  // ---------- the list in memory ----------

  /** The memory after the last item has been pointed to a new one, and that one written. */
  function Linked(mem: seq<Word>, bs: seq<Block>, b: Block): seq<Word>
    requires 0 <= ItemIndex(bs, |bs|) < |mem| && 0 <= End(bs) < SIZE_T - 1 && End(bs) + 1 < |mem|
  {
    var last := ItemIndex(bs, |bs|);
    mem[last := Word(mem[last].hi, End(bs))]
       [End(bs) := Word(b.tag * 0x1_0000, 0)]
       [End(bs) + 1 := Word(b.start, b.length)]
  }

  /** Writing an item back with another successor changes one half of one word. */
  lemma FitsWords(mem: seq<Word>, bs: seq<Block>, b: Block, last: Item)
    requires 0 <= ItemIndex(bs, |bs|) < |mem| - 1 && End(bs) < SIZE_T && 2 + End(bs) <= |mem|
    requires var i := ItemIndex(bs, |bs|); last == Decode(mem[i], mem[i + 1])
    ensures var i := ItemIndex(bs, |bs|);
      FirstWord(last.(next := End(bs))) == Word(mem[i].hi, End(bs)) && SecondWord(last.(next := End(bs))) == mem[i + 1]
    ensures FirstWord(Item(b.tag, 0, 0, b.start, b.length)) == Word(b.tag * 0x1_0000, 0)
    ensures SecondWord(Item(b.tag, 0, 0, b.start, b.length)) == Word(b.start, b.length)
  {
    WordIsWrittenBack(mem[ItemIndex(bs, |bs|)], mem[ItemIndex(bs, |bs|) + 1]);
  }

  lemma LinkedSparesBlocks(mem: seq<Word>, bs: seq<Block>, b: Block)
    requires Contiguous(bs) && 0 <= ItemIndex(bs, |bs|) < |mem| && End(bs) < SIZE_T - 1 && End(bs) + 1 < |mem|
    ensures forall k, i | 0 <= k < |bs| && InBlock(bs[k], i) && 0 <= i < |mem| :: Linked(mem, bs, b)[i] == mem[i]
  {
    forall k, i | 0 <= k < |bs| && InBlock(bs[k], i) && 0 <= i < |mem| ensures Linked(mem, bs, b)[i] == mem[i] {
      PayloadIsNoItem(bs, k, i, |bs|);
    }
  }

  lemma LinkedIsChained(mem: seq<Word>, bs: seq<Block>, b: Block)
    requires Chained(mem, bs) && 0 <= End(bs) < SIZE_T - 1 && End(bs) + 1 < |mem|
    requires Contiguous(bs + [b]) && UniqueTags(bs + [b])
    requires 0 <= ItemIndex(bs, |bs|) < |mem|
    ensures Chained(Linked(mem, bs, b), bs + [b])
  {
    var n, after := |bs|, bs + [b];
    assert Follows(after, n);
    assert ItemAt(mem, bs, n);
    LastItem(bs);
    forall k | 0 <= k <= n + 1 ensures ItemAt(Linked(mem, bs, b), after, k) {
      if k <= n {
        assert ItemAt(mem, bs, k);
        if k < n { ItemsApart(bs, k, n); }
      }
    }
  }

  lemma LastItem(bs: seq<Block>)
    requires Contiguous(bs)
    ensures 0 <= ItemIndex(bs, |bs|) && ItemIndex(bs, |bs|) + ITEM_SIZE <= End(bs) && 2 <= End(bs)
  {
    EndsGrow(bs, 0, |bs|);
    if bs != [] { ItemsApart(bs, 0, |bs|); }
  }

  predicate InBlock(b: Block, i: int) {
    b.start <= i < b.start + b.length
  }

  /** A word inside a block belongs to no item. */
  lemma PayloadIsNoItem(bs: seq<Block>, k: nat, i: int, j: nat)
    requires Contiguous(bs) && k < |bs| && InBlock(bs[k], i) && j <= |bs|
    ensures i < ItemIndex(bs, j) || ItemIndex(bs, j) + ITEM_SIZE <= i
    ensures ITEM_SIZE <= i < End(bs)
  {
    assert Follows(bs, k);
    EndsGrow(bs, 0, k);
    EndsGrow(bs, k + 1, |bs|);
    if j <= k + 1 {
      if j < k + 1 { ItemsApart(bs, j, k + 1); }
    } else {
      ItemsApart(bs, k + 1, j);
    }
  }

  lemma ClientWriteKeepsChain(mem: seq<Word>, bs: seq<Block>, k: nat, i: int, w: Word)
    requires Chained(mem, bs) && k < |bs| && InBlock(bs[k], i) && 0 <= i < |mem|
    ensures Chained(mem[i := w], bs)
  {
    var after := mem[i := w];
    forall j | 0 <= j <= |bs| ensures ItemAt(after, bs, j) {
      assert ItemAt(mem, bs, j);
      PayloadIsNoItem(bs, k, i, j);
    }
  }

  lemma StartsWithMagic(mem: seq<Word>, bs: seq<Block>)
    requires Chained(mem, bs)
    ensures |mem| >= 2 && mem[0].hi == MAGIC
  {
    assert ItemAt(mem, bs, 0);
  }

  lemma NewListIsChained(mem: seq<Word>)
    requires |mem| >= 2
    ensures Chained(mem[0 := Word(MAGIC, 0)][1 := Word(0, 0)], [])
  {
  }

  /** The walk has passed item k - 1: it knows where item k is, and the end of what it has passed. */
  ghost predicate Climbed(bs: seq<Block>, k: nat, next: int, level: int) {
    && k <= |bs| && next == ItemIndex(bs, k)
    && level == (if k == 0 then 0 else EndOf(bs, k - 1))
  }

  /** What the walk finds at item k. */
  lemma ClimbOn(mem: seq<Word>, bs: seq<Block>, k: nat, next: int, level: int)
    requires Chained(mem, bs) && Climbed(bs, k, next, level)
    ensures 0 <= next < |mem| - 1
    ensures
      var item := Decode(mem[next], mem[next + 1]);
      var reached := level + ITEM_SIZE + item.length;
      && reached == EndOf(bs, k) && 2 <= reached <= End(bs)
      && (level != 0 <==> k > 0)
      && (k > 0 ==> item.tag == bs[k - 1].tag && item.start == bs[k - 1].start && item.length == bs[k - 1].length)
      && (item.next == 0 <==> k == |bs|)
      && (item.next != 0 ==> Climbed(bs, k + 1, item.next, reached))
  {
    assert ItemAt(mem, bs, k);
    EndsGrow(bs, 0, k);
    EndsGrow(bs, k, |bs|);
    if k > 0 {
      assert Follows(bs, k - 1);
      EndsGrow(bs, 0, k - 1);
    }
    if k < |bs| { EndsGrow(bs, 0, k); }
  }

  // ---------- any history of allocations ----------

  datatype Request = Request(tag: uint16, length: uint32, create: bool)

  /** No call of this history is granted a block because the check wrapped around. */
  ghost predicate NoWrap(bs: seq<Block>, rs: seq<Request>, capacity: uint32)
    requires capacity < SIZE_T - ITEM_SIZE
    decreases |rs|
  {
    End(bs) >= capacity || rs == [] ||
      var after := BlocksAfter(bs, rs[0].tag, rs[0].length, rs[0].create, capacity);
      (after != bs ==> End(bs) + rs[0].length + ITEM_SIZE < SIZE_T) && NoWrap(after, rs[1..], capacity)
  }

  /** The blocks after a history of calls of mmuAlloc. */
  ghost function Serve(bs: seq<Block>, rs: seq<Request>, capacity: uint32): (after: seq<Block>)
    requires Partition(bs, capacity) && capacity < SIZE_T - ITEM_SIZE && NoWrap(bs, rs, capacity)
    ensures Partition(after, capacity) && bs <= after
    decreases |rs|
  {
    if rs == [] then bs else
      AppendKeepsPartition(bs, rs[0].tag, rs[0].length, rs[0].create, capacity);
      Serve(BlocksAfter(bs, rs[0].tag, rs[0].length, rs[0].create, capacity), rs[1..], capacity)
  }

  lemma FoundAgain(bs: seq<Block>, after: seq<Block>, tag: uint16)
    requires bs <= after && Find(bs, tag) < |bs|
    ensures Find(after, tag) == Find(bs, tag)
  {
    assert after[Find(bs, tag)] == bs[Find(bs, tag)];
  }

  /**
   * Once a call has been granted a block, every later call with the same tag,
   * whatever it asks for, is given that very block.
   */
  lemma GrantsAreForEver(bs: seq<Block>, r: Request, later: seq<Request>, again: Request, capacity: uint32)
    requires Partition(bs, capacity) && capacity < SIZE_T - ITEM_SIZE && NoWrap(bs, [r] + later, capacity)
    requires again.tag == r.tag
    requires var a := AnswerOf(bs, r.tag, r.length, r.create, capacity); a.status == Okay || a.status == AlreadyPresent
    ensures
      var first := AnswerOf(bs, r.tag, r.length, r.create, capacity);
      var second := AnswerOf(Serve(bs, [r] + later, capacity), again.tag, again.length, again.create, capacity);
      && second.start == first.start && second.length == first.length
      && second.status == if again.create then AlreadyPresent else Okay
  {
    hide Accepts;
    var next := BlocksAfter(bs, r.tag, r.length, r.create, capacity);
    AppendKeepsPartition(bs, r.tag, r.length, r.create, capacity);
    assert ([r] + later)[0] == r && ([r] + later)[1..] == later;
    if Find(bs, r.tag) < |bs| {
      FoundAgain(bs, next, r.tag);
    } else {
      FoundLast(bs, Block(r.tag, End(bs) + ITEM_SIZE, r.length));
    }
    FoundAgain(next, Serve(next, later, capacity), r.tag);
  }

  lemma FoundLast(bs: seq<Block>, b: Block)
    requires Find(bs, b.tag) == |bs|
    ensures Find(bs + [b], b.tag) == |bs|
  {
    assert (bs + [b])[|bs|] == b;
  }

  class PartitionList {
    const memory: array<Word>
    const capacity: uint32              // mmuGetMaxCapacity64, the largest index

    ghost var blocks: seq<Block>        // in the order of the list

    ghost predicate Present()
      reads memory
      requires memory.Length > 0
    {
      memory[0].hi == MAGIC
    }

    /** The memory holds a list of the blocks; they may reach beyond the capacity. */
    ghost predicate Listed()
      reads this, memory
    {
      && memory.Length == capacity + 1 && 2 < capacity < SIZE_T - ITEM_SIZE
      && if Present() then Chained(memory[..], blocks) else blocks == []
    }

    ghost predicate Valid()
      reads this, memory
    {
      Listed() && Partition(blocks, capacity)
    }

    /** A memory in which no list has been created. */
    constructor (memory: array<Word>, capacity: uint32)
      requires 2 < capacity < SIZE_T - ITEM_SIZE && memory.Length == capacity + 1 && memory[0].hi != MAGIC
      ensures Valid() && blocks == [] && this.memory == memory && this.capacity == capacity
    {
      this.memory, this.capacity, blocks := memory, capacity, [];
    }

    /** mmuReadItem: the item that, written there, would leave the memory as it is. */
    method ReadItem(index: int) returns (item: Item)
      requires 0 <= index < memory.Length - 1
      ensures FirstWord(item) == memory[index] && SecondWord(item) == memory[index + 1]
    {
      item := Decode(memory[index], memory[index + 1]);
    }

    /** mmuWriteItem. */
    method WriteItem(index: int, item: Item)
      requires 0 <= index < memory.Length - 1
      modifies memory
      ensures memory[..] == old(memory[..])[index := FirstWord(item)][index + 1 := SecondWord(item)]
    {
      memory[index] := FirstWord(item);
      memory[index + 1] := SecondWord(item);
    }

    /** mmuIsPresent: whether the memory holds the list of the blocks; if not, there are none. */
    method IsPresent() returns (r: bool)
      requires Valid()
      ensures r == Present() && (r <==> Chained(memory[..], blocks))
      ensures !r ==> blocks == []
    {
      r := memory[0].hi == MAGIC;
      if Chained(memory[..], blocks) { StartsWithMagic(memory[..], blocks); }
    }

    /** mmuDelete: the list and all its blocks are gone. */
    method Delete()
      requires Valid()
      modifies memory, `blocks
      ensures Valid() && !Present() && blocks == []
      ensures forall i | 0 < i < memory.Length :: memory[i] == old(memory[i])
    {
      memory[0] := Word(0xFFFF_FFFF - MAGIC, 0);
      blocks := [];
    }

    /** mmuGetNumberOfBlocks. */
    method GetNumberOfBlocks() returns (count: nat)
      requires Valid()
      ensures count == |blocks|
    {
      count := 0;
      var present := IsPresent();
      if !present {
        return;
      }
      var item := Item(0, 0, 0, 0, 0);
      ghost var level := 0;
      while true
        invariant Climbed(blocks, count, item.next, level)
        decreases |blocks| - count
      {
        ClimbOn(memory[..], blocks, count, item.next, level);
        item := ReadItem(item.next);
        ItemIsReadBack(item);
        level := level + ITEM_SIZE + item.length;
        if item.next == 0 {
          break;
        }
        count := count + 1;
      }
    }

    /** The loop of mmuAlloc: climbs the list up to the block with this tag, or else to its end. */
    method Climb(tag: uint16) returns (found: bool, item: Item, lastNext: int, level: int)
      requires Valid() && Present()
      ensures found <==> Find(blocks, tag) < |blocks|
      ensures found ==> var k := Find(blocks, tag); item.start == blocks[k].start && item.length == blocks[k].length
      ensures !found ==> level == End(blocks) && lastNext == ItemIndex(blocks, |blocks|)
      ensures !found ==> 0 <= lastNext < capacity && item == Decode(memory[lastNext], memory[lastNext + 1])
    {
      hide Chained, UniqueTags, Contiguous, Decode, FirstWord, SecondWord;
      item, level, lastNext, found := Item(0, 0, 0, 0, 0), 0, 0, false;
      ghost var k := 0;
      while true
        invariant Climbed(blocks, k, item.next, level)
        invariant forall j | 0 <= j < k - 1 :: blocks[j].tag != tag
        decreases |blocks| - k
      {
        ClimbOn(memory[..], blocks, k, item.next, level);
        lastNext := item.next;
        item := ReadItem(item.next);
        ItemIsReadBack(item);
        if level != 0 && item.tag == tag {
          found := true;
          return;
        }
        level := (level + ITEM_SIZE + item.length) % SIZE_T;
        if item.next == 0 {
          break;
        }
        k := k + 1;
      }
    }

    /** The branch of mmuAlloc that starts a list. */
    method CreateList()
      requires Valid() && !Present()
      modifies memory
      ensures Valid() && Present()
      ensures forall i | 2 <= i < memory.Length :: memory[i] == old(memory[i])
    {
      NewListIsChained(memory[..]);
      WriteItem(0, Item(MAGIC / 0x1_0000, MAGIC % 0x1_0000, 0, 0, 0));
    }

    /** The end of mmuAlloc: points the last item to a new one behind the last block, and writes that. */
    method Append(tag: uint16, length: uint32, lastNext: int, last: Item, level: int)
      requires Valid() && Present() && Contiguous(blocks + [Block(tag, End(blocks) + ITEM_SIZE, length)])
      requires UniqueTags(blocks + [Block(tag, End(blocks) + ITEM_SIZE, length)])
      requires level == End(blocks) && lastNext == ItemIndex(blocks, |blocks|) && 0 <= lastNext < capacity && last == Decode(memory[lastNext], memory[lastNext + 1])
      modifies memory, `blocks
      ensures Listed() && blocks == old(blocks) + [Block(tag, End(old(blocks)) + ITEM_SIZE, length)]
      ensures
        var last, added := ItemIndex(blocks, |blocks| - 1), ItemIndex(blocks, |blocks|);
        forall i | 0 <= i < memory.Length && !(last <= i < last + ITEM_SIZE) && !(added <= i < added + ITEM_SIZE) :: memory[i] == old(memory[i])
      ensures forall k, i | 0 <= k < |old(blocks)| && old(blocks)[k].start <= i < old(blocks)[k].start + old(blocks)[k].length && i < memory.Length ::
        memory[i] == old(memory[i])
    {
      hide Chained, UniqueTags, Contiguous, Decode, FirstWord, SecondWord;
      ghost var mem, b := memory[..], Block(tag, End(blocks) + ITEM_SIZE, length);
      FitsWords(mem, blocks, b, last);
      WriteItem(lastNext, last.(next := level));
      WriteItem(level, Item(tag, 0, 0, level + ITEM_SIZE, length));
      assert memory[..] == Linked(mem, blocks, b);
      LinkedIsChained(mem, blocks, b);
      LinkedSparesBlocks(mem, blocks, b);
      StartsWithMagic(memory[..], blocks + [b]);
      blocks := blocks + [b];
    }

    /**
     * mmuAlloc.  A block that is already listed is found and stays where it is;
     * a new one is placed behind all others.  The blocks all lie below the
     * capacity afterwards just when the check did not wrap around.
     */
    method Alloc(tag: uint16, length: uint32, create: bool) returns (status: Status, start: int, granted: int)
      requires Valid()
      modifies memory, `blocks
      ensures Listed()
      ensures !old(Present()) && !create ==>
        status == ListNotFound && granted == length && blocks == old(blocks) && memory[..] == old(memory[..])
      ensures old(Present()) || create ==>
        && Answer(status, start, granted) == AnswerOf(old(blocks), tag, length, create, capacity)
        && blocks == BlocksAfter(old(blocks), tag, length, create, capacity)
      ensures status == ListNotFound <==> !old(Present()) && !create
      ensures status == TagNotFound <==> old(Present()) && !create && !HasTag(old(blocks), tag)
      ensures status == OutOfMem <==>
        create && !HasTag(old(blocks), tag) && (End(old(blocks)) + length + ITEM_SIZE) % SIZE_T >= capacity
      ensures status == AlreadyPresent <==> create && HasTag(old(blocks), tag)
      ensures HasTag(old(blocks), tag) ==> blocks == old(blocks) && Block(tag, start, granted) in blocks
      ensures status == Okay && create ==> granted == length && blocks == old(blocks) + [Block(tag, start, length)]
      ensures !(status == Okay && create) ==> blocks == old(blocks)
      ensures status != Okay && status != AlreadyPresent ==> granted == length
      ensures forall i | 0 <= i < memory.Length && (forall k | 0 <= k <= |blocks| :: i < ItemIndex(blocks, k) || ItemIndex(blocks, k) + ITEM_SIZE <= i) ::
        memory[i] == old(memory[i])
      ensures Valid() <==> (blocks != old(blocks) ==> End(old(blocks)) + length + ITEM_SIZE < SIZE_T)
      ensures forall k, i | 0 <= k < |old(blocks)| && old(blocks)[k].start <= i < old(blocks)[k].start + old(blocks)[k].length && i < memory.Length ::
        memory[i] == old(memory[i])
    {
      hide Chained, UniqueTags, Contiguous, Decode;
      start, granted := 0, length;
      var present := IsPresent();
      if !present {
        if !create {
          status := ListNotFound;
          return;
        }
        CreateList();
      }
      AppendKeepsPartition(blocks, tag, length, create, capacity);
      FindMeans(blocks, tag);
      assert forall i | 0 <= i < memory.Length && ItemIndex(blocks, 0) + ITEM_SIZE <= i :: memory[i] == old(memory[i]);
      ghost var between := memory[..];
      var found, item, lastNext, level := Climb(tag);
      if found {
        start, granted := item.start, item.length;
        status := if create then AlreadyPresent else Okay;
        return;
      }
      if !create {
        status := TagNotFound;
        return;
      }
      if !Accepts(level, length, capacity) {
        status := OutOfMem;
        return;
      }
      Append(tag, length, lastNext, item, level);
      assert ItemIndex(blocks, 0) == 0;
      start := level + ITEM_SIZE;
      status := Okay;
    }

    /** A client writes inside a block that it was granted. */
    method WriteBlock(ghost k: nat, index: int, w: Word)
      requires Valid() && k < |blocks| && blocks[k].start <= index < blocks[k].start + blocks[k].length
      modifies memory
      ensures Valid() && forall i | 0 <= i < memory.Length :: memory[i] == if i == index then w else old(memory[i])
    {
      PayloadIsNoItem(blocks, k, index, 0);
      ClientWriteKeepsChain(memory[..], blocks, k, index, w);
      memory[index] := w;
    }
  }
}
