/** The compiler's string: a borrowed constant, an inline buffer or a heap block, and who owns the blocks. */
module ChemString {

  const STR_BUFF_SIZE: nat := 16
  const NUL: char := '\0'

  type BlockId = nat

  // ---------------------------------------------------------------- the heap

  /** `malloc`, `realloc` and `free`.  A block identity is never used twice, so a block can be freed only
      while it is live. */
  class Allocator {
    var blocks: map<BlockId, seq<char>>
    var next: BlockId

    ghost predicate Valid()
      reads this
    { forall b :: b in blocks ==> b < next }

    constructor ()
      ensures Valid() && blocks == map[]
    {
      blocks, next := map[], 0;
    }

    /** A fresh block with arbitrary contents. */
    method Malloc(size: nat) returns (b: BlockId)
      requires Valid()
      modifies this
      ensures Valid() && b !in old(blocks) && b in blocks && |blocks[b]| == size
      ensures blocks == old(blocks)[b := blocks[b]]
    {
      var zeros := seq(size, _ => NUL);
      var junk: seq<char> :| |junk| == size by { assert |zeros| == size; }
      b := next;
      blocks := blocks[b := junk];
      next := next + 1;
    }

    method Free(b: BlockId)
      requires Valid() && b in blocks
      modifies this
      ensures Valid() && blocks == old(blocks) - {b}
    {
      blocks := blocks - {b};
    }

    /** The block moves; what fits of its contents moves with it. */
    method Realloc(b: BlockId, size: nat) returns (r: BlockId)
      requires Valid() && b in blocks && |blocks[b]| <= size
      modifies this
      ensures Valid() && r !in old(blocks) && r in blocks && |blocks[r]| == size
      ensures old(blocks[b]) <= blocks[r]
      ensures blocks == (old(blocks) - {b})[r := blocks[r]]
    {
      var contents := blocks[b];
      r := Malloc(size);
      blocks := (blocks - {b})[r := contents + blocks[r][|contents|..]];
    }

    method Write(b: BlockId, i: nat, c: char)
      requires Valid() && b in blocks && i < |blocks[b]|
      modifies this
      ensures Valid() && blocks == old(blocks)[b := old(blocks[b])[i := c]]
    {
      blocks := blocks[b := blocks[b][i := c]];
    }
  }

  // ---------------------------------------------------------------- one string

  datatype Storage =
    | Constant(data: seq<char>)
    | Sso(buffer: seq<char>, length: nat)
    | Heap(block: BlockId, length: nat, capacity: nat)

  type Blocks = map<BlockId, seq<char>>

  /** A mutable string is terminated by a NUL within its capacity, and a heap string's block is live. */
  ghost predicate WellFormed(st: Storage, blocks: Blocks) {
    match st
    case Constant(_) => true
    case Sso(buffer, length) =>
      |buffer| == 16 && length < 16 && buffer[length] == '\0'
    case Heap(block, length, capacity) =>
      block in blocks && |blocks[block]| == capacity && length < capacity && blocks[block][length] == '\0'
  }

  /** The characters of a string. */
  function Characters(st: Storage, blocks: Blocks): seq<char>
    requires WellFormed(st, blocks)
  {
    match st
    case Constant(data) => data
    case Sso(buffer, length) => buffer[..length]
    case Heap(block, length, _) => blocks[block][..length]
  }

  function OwnedBy(st: Storage): set<BlockId> {
    if st.Heap? then {st.block} else {}
  }

  /** Outside the blocks a string owned or owns, the heap is as it was; what the string owns now and did
      not own before is new. */
  ghost predicate FramedBy(st: Storage, blocks: Blocks, st': Storage, blocks': Blocks) {
    && blocks'.Keys == blocks.Keys - OwnedBy(st) + OwnedBy(st')
    && (OwnedBy(st') - OwnedBy(st)) !! blocks.Keys
    && forall b :: b in blocks && b !in OwnedBy(st) ==> b in blocks' && blocks'[b] == blocks[b]
  }

  class ChemString {
    const mem: Allocator
    var storage: Storage

    ghost predicate Valid()
      reads this, mem
    { mem.Valid() && WellFormed(storage, mem.blocks) }

    function View(): seq<char>
      requires Valid()
      reads this, mem
    { Characters(storage, mem.blocks) }

    twostate predicate Framed()
      reads this, mem
    { FramedBy(old(storage), old(mem.blocks), storage, mem.blocks) }

    function Size(): nat
      reads this
    {
      match storage
      case Constant(data) => |data|
      case Sso(_, length) => length
      case Heap(_, length, _) => length
    }

    function Capacity(): nat
      reads this
    {
      match storage
      case Constant(data) => |data|
      case Sso(_, _) => STR_BUFF_SIZE
      case Heap(_, _, capacity) => capacity
    }

    /** A string that borrows its characters. */
    constructor FromConstant(mem: Allocator, data: seq<char>)
      requires mem.Valid()
      ensures this.mem == mem && storage == Constant(data) && Valid()
    {
      this.mem := mem;
      storage := Constant(data);
    }

    method MoveConstToBuffer()
      requires Valid() && storage.Constant? && |storage.data| < STR_BUFF_SIZE
      modifies this
      ensures Valid() && storage.Sso? && View() == old(View())
    {
      var data, length := storage.data, |storage.data|;
      var zeros := seq(STR_BUFF_SIZE, _ => NUL);
      var buffer: seq<char> :| |buffer| == STR_BUFF_SIZE by { assert |zeros| == STR_BUFF_SIZE; }
      for i := 0 to length
        invariant |buffer| == STR_BUFF_SIZE && buffer[..i] == data[..i]
      {
        buffer := buffer[i := data[i]];
      }
      buffer := buffer[length := NUL];
      storage := Sso(buffer, length);
    }

    method MoveDataToHeap(from: seq<char>, length: nat, capacity: nat)
      requires Valid() && !storage.Heap? && length <= |from| && length < capacity
      modifies this, mem
      ensures Valid() && storage.Heap? && storage.capacity == capacity && View() == from[..length]
      ensures Framed()
    {
      var block := mem.Malloc(capacity);
      var i := 0;
      while i < length
        invariant i <= length && mem.Valid() && block in mem.blocks && |mem.blocks[block]| == capacity
        invariant mem.blocks[block][..i] == from[..i]
        invariant mem.blocks == old(mem.blocks)[block := mem.blocks[block]]
      {
        mem.Write(block, i, from[i]);
        i := i + 1;
      }
      mem.Write(block, i, NUL);
      storage := Heap(block, length, capacity);
    }

    method Resize(newCapacity: nat)
      requires Valid() && storage.Heap? && storage.capacity <= newCapacity && storage.length < newCapacity
      modifies this, mem
      ensures Valid() && storage.Heap? && storage.capacity == newCapacity && View() == old(View())
      ensures Framed()
    {
      var block := mem.Realloc(storage.block, newCapacity);
      mem.Write(block, storage.length, NUL);
      storage := Heap(block, storage.length, newCapacity);
    }

    /** The request leaves room for what is there. */
    predicate Fits(capacity: nat)
      reads this
    {
      storage.Constant? ==>
        if capacity < STR_BUFF_SIZE then |storage.data| < STR_BUFF_SIZE else |storage.data| < capacity
    }

    method EnsureMut(capacity: nat)
      requires Valid() && Fits(capacity)
      modifies this, mem
      ensures Valid() && !storage.Constant? && View() == old(View())
      ensures Capacity() >= capacity
      ensures if old(storage).Heap? || capacity >= 16
              then storage.Heap? && storage.capacity == if old(storage).Heap? && old(storage).capacity > capacity
                                                        then old(storage).capacity else capacity
              else storage.Sso?
      ensures Framed()
    {
      if !storage.Heap? && capacity < STR_BUFF_SIZE {
        if storage.Constant? {
          MoveConstToBuffer();
        }
      } else {
        if storage.Constant? {
          MoveDataToHeap(storage.data, |storage.data|, capacity);
        } else if storage.Sso? {
          MoveDataToHeap(storage.buffer, storage.length, capacity);
        } else if storage.capacity <= capacity {
          Resize(capacity);
        }
      }
    }

    /** Room on the heap for one more character and its NUL. */
    method GrowForOne()
      requires Valid() && (!storage.Heap? ==> Size() >= STR_BUFF_SIZE - 1)
      modifies this, mem
      ensures Valid() && storage.Heap? && storage.length + 1 < storage.capacity && View() == old(View())
      ensures storage.capacity == if !old(storage).Heap? then old(Size()) * 2
                                  else if old(storage).capacity <= old(Size()) + 2 then old(storage).capacity * 2
                                  else old(storage).capacity
      ensures Framed()
    {
      var length := Size();
      if storage.Constant? {
        MoveDataToHeap(storage.data, length, length * 2);
      } else if storage.Sso? {
        MoveDataToHeap(storage.buffer, length, length * 2);
      } else if storage.capacity <= length + 2 {
        Resize(storage.capacity * 2);
      }
    }

    method PutOnHeap(value: char)
      requires Valid() && storage.Heap? && storage.length + 1 < storage.capacity
      modifies this, mem
      ensures Valid() && storage == Heap(old(storage.block), old(storage.length) + 1, old(storage.capacity))
      ensures View() == old(View()) + [value]
      ensures Framed()
    {
      mem.Write(storage.block, storage.length, value);
      mem.Write(storage.block, storage.length + 1, NUL);
      storage := Heap(storage.block, storage.length + 1, storage.capacity);
    }

    method PutInBuffer(value: char)
      requires Valid() && storage.Sso? && storage.length + 1 < STR_BUFF_SIZE
      modifies this
      ensures Valid() && storage.Sso? && View() == old(View()) + [value]
    {
      var length := storage.length;
      storage := Sso(storage.buffer[length := value][length + 1 := NUL], length + 1);
    }

    method AppendChar(value: char)
      requires Valid()
      modifies this, mem
      ensures Valid() && View() == old(View()) + [value]
      ensures if !old(storage).Heap? && old(Size()) < 15 then storage.Sso?
              else storage.Heap? && storage.capacity == if !old(storage).Heap? then old(Size()) * 2
                                  else if old(storage).capacity <= old(Size()) + 2 then old(storage).capacity * 2
                                  else old(storage).capacity
      ensures Framed()
    {
      if !storage.Heap? && Size() < STR_BUFF_SIZE - 1 {
        if storage.Constant? {
          MoveConstToBuffer();
        }
        PutInBuffer(value);
      } else {
        GrowForOne();
        PutOnHeap(value);
      }
    }

    method Append(value: seq<char>)
      requires Valid()
      modifies this, mem
      ensures Valid() && View() == old(View()) + value
      ensures Framed()
    {
      EnsureMut(Size() + |value| + 10);
      var i := 0;
      while i < |value|
        invariant i <= |value| && Valid() && View() == old(View()) + value[..i] && Framed()
      {
        AppendChar(value[i]);
        i := i + 1;
      }
    }

    method Clear()
      requires Valid()
      modifies this, mem
      ensures Valid() && View() == []
      ensures storage.Constant? == old(storage).Constant? && storage.Sso? == old(storage).Sso?
      ensures storage.Heap? ==> storage == Heap(old(storage).block, 0, old(storage).capacity)
      ensures Framed()
    {
      match storage
      case Constant(_) =>
        storage := Constant([]);
      case Sso(buffer, _) =>
        storage := Sso(buffer[0 := NUL], 0);
      case Heap(block, _, capacity) =>
        mem.Write(block, 0, NUL);
        storage := Heap(block, 0, capacity);
    }

    method MutableData()
      requires Valid()
      modifies this, mem
      ensures Valid() && !storage.Constant? && View() == old(View())
      ensures if !old(storage).Constant? then storage == old(storage) && mem.blocks == old(mem.blocks)
              else if old(Size()) < 16 then storage.Sso?
              else storage.Heap? && storage.capacity == old(Size()) * 2
      ensures Framed()
    {
      if storage.Constant? {
        if |storage.data| < STR_BUFF_SIZE {
          MoveConstToBuffer();
        } else {
          MoveDataToHeap(storage.data, |storage.data|, |storage.data| * 2);
        }
      }
    }

    /** The characters from `start` to `end`, in a string of their own: a buffer if they fit one, or else
        a block of the asked capacity, which has to leave room for the NUL. */
    method SubstringOfCapacity(start: nat, end: nat, newCap: nat) returns (s: ChemString)
      requires Valid() && start <= end <= Size() && (end - start >= STR_BUFF_SIZE ==> end - start < newCap)
      modifies mem
      ensures fresh(s) && s.mem == mem && s.Valid() && Valid()
      ensures s.View() == old(View())[start..end] && !s.storage.Constant? && View() == old(View())
      ensures s.Capacity() == if end - start < STR_BUFF_SIZE then STR_BUFF_SIZE else newCap
      ensures FramedBy(Constant([]), old(mem.blocks), s.storage, mem.blocks)
    {
      var characters := View()[start..end];
      var actualLen := end - start;
      s := new ChemString.FromConstant(mem, characters);
      if actualLen < STR_BUFF_SIZE {
        s.MoveConstToBuffer();
      } else {
        s.MoveDataToHeap(characters, actualLen, newCap);
      }
    }

    /** The same with room for four more characters. */
    method Substring(start: nat, end: nat) returns (s: ChemString)
      requires Valid() && start <= end <= Size()
      modifies mem
      ensures fresh(s) && s.mem == mem && s.Valid() && Valid()
      ensures s.View() == old(View())[start..end] && !s.storage.Constant? && View() == old(View())
      ensures s.Capacity() == if end - start < STR_BUFF_SIZE then STR_BUFF_SIZE else end - start + 5
      ensures FramedBy(Constant([]), old(mem.blocks), s.storage, mem.blocks)
    {
      s := SubstringOfCapacity(start, end, end - start + 5);
    }

    /** Takes over what `other` holds; a heap block changes hands and leaves `other` empty. */
    method Own(other: ChemString)
      requires Valid() && other.Valid() && other.mem == mem && other != this && !storage.Heap?
      modifies this, other
      ensures Valid() && other.Valid() && View() == old(other.View()) && storage == old(other.storage)
      ensures other.storage == if old(other.storage).Heap? then Constant([]) else old(other.storage)
    {
      storage := other.storage;
      if other.storage.Heap? {
        other.storage := Constant([]);
      }
    }

    /** Move assignment, also of a string to itself: that frees its block and leaves it empty. */
    method MoveAssign(other: ChemString)
      requires Valid() && other.Valid() && other.mem == mem
      requires other != this ==> OwnedBy(other.storage) !! OwnedBy(storage)
      modifies this, other, mem
      ensures Valid() && other.Valid() && mem.blocks == old(mem.blocks) - OwnedBy(old(storage))
      ensures other != this ==> storage == old(other.storage) && View() == old(other.View())
      ensures other != this ==> other.storage == if old(other.storage).Heap? then Constant([]) else old(other.storage)
      ensures other == this ==> storage == if old(storage).Heap? then Constant([]) else old(storage)
    {
      if storage.Heap? {
        mem.Free(storage.block);
      }
      storage := other.storage;
      if other.storage.Heap? {
        other.storage := Constant([]);
      }
    }

    method Destroy()
      requires Valid()
      modifies mem
      ensures mem.Valid() && mem.blocks == old(mem.blocks) - OwnedBy(storage)
    {
      if storage.Heap? {
        mem.Free(storage.block);
      }
    }
  }

  // ---------------------------------------------------------------- all strings of a program

  predicate Owns(st: Storage, b: BlockId) { st.Heap? && st.block == b }

  predicate Apart(st: Storage, other: Storage) { st.Heap? && other.Heap? ==> st.block != other.block }

  ghost predicate HasOwner<K>(strings: map<K, Storage>, b: BlockId) {
    exists k :: k in strings && Owns(strings[k], b)
  }

  ghost predicate AllWellFormed<K>(strings: map<K, Storage>, blocks: Blocks) {
    forall k :: k in strings ==> WellFormed(strings[k], blocks)
  }

  ghost predicate AllApart<K>(strings: map<K, Storage>) {
    forall k, l :: k in strings && l in strings && k != l ==> Apart(strings[k], strings[l])
  }

  ghost predicate AllOwned<K>(strings: map<K, Storage>, blocks: Blocks) {
    forall b :: b in blocks ==> HasOwner(strings, b)
  }

  /** Every string is well formed, no two own the same block, and every live block has an owner. */
  ghost predicate SingleOwners<K>(strings: map<K, Storage>, blocks: Blocks) {
    AllWellFormed(strings, blocks) && AllApart(strings) && AllOwned(strings, blocks)
  }

  /** What every string holds. */
  ghost function ContentsOf<K>(strings: map<K, Storage>, blocks: Blocks): map<K, seq<char>>
    requires SingleOwners(strings, blocks)
  {
    map k | k in strings :: Characters(strings[k], blocks)
  }

  /** An operation that changes the storage of one string, or makes that string. */
  lemma OneChanged<K>(strings: map<K, Storage>, k: K, st: Storage, blocks: Blocks, blocks': Blocks)
    requires SingleOwners(strings, blocks) && WellFormed(st, blocks')
    requires FramedBy(if k in strings then strings[k] else Constant([]), blocks, st, blocks')
    ensures SingleOwners(strings[k := st], blocks')
    ensures ContentsOf(strings[k := st], blocks') == ContentsOf(strings, blocks)[k := Characters(st, blocks')]
  {
    hide *;
    ChangedBlocks(strings, k, st, blocks, blocks');
    ChangedOwners(strings, k, st, blocks, blocks');
    AreSingleOwners(strings[k := st], blocks');
    ChangedContents(strings, k, st, blocks, blocks');
  }

  lemma AreSingleOwners<K>(strings: map<K, Storage>, blocks: Blocks)
    requires AllWellFormed(strings, blocks) && AllApart(strings) && AllOwned(strings, blocks)
    ensures SingleOwners(strings, blocks)
  {
  }

  lemma ChangedBlocks<K>(strings: map<K, Storage>, k: K, st: Storage, blocks: Blocks, blocks': Blocks)
    requires SingleOwners(strings, blocks) && WellFormed(st, blocks')
    requires FramedBy(if k in strings then strings[k] else Constant([]), blocks, st, blocks')
    ensures AllWellFormed(strings[k := st], blocks') && AllApart(strings[k := st])
  {
    forall l | l in strings && l != k
      ensures WellFormed(strings[l], blocks') && Apart(strings[l], st) && Apart(st, strings[l])
    {
      OtherUnchanged(strings, k, st, blocks, blocks', l);
    }
    hide WellFormed, Apart, FramedBy, AllOwned;
  }

  lemma ChangedOwners<K>(strings: map<K, Storage>, k: K, st: Storage, blocks: Blocks, blocks': Blocks)
    requires SingleOwners(strings, blocks)
    requires FramedBy(if k in strings then strings[k] else Constant([]), blocks, st, blocks')
    ensures AllOwned(strings[k := st], blocks')
  {
    forall b | b in blocks' ensures HasOwner(strings[k := st], b) {
      OwnerAfter(strings, k, st, blocks, blocks', b);
    }
  }

  lemma ChangedContents<K>(strings: map<K, Storage>, k: K, st: Storage, blocks: Blocks, blocks': Blocks)
    requires SingleOwners(strings, blocks) && WellFormed(st, blocks') && SingleOwners(strings[k := st], blocks')
    requires FramedBy(if k in strings then strings[k] else Constant([]), blocks, st, blocks')
    ensures ContentsOf(strings[k := st], blocks') == ContentsOf(strings, blocks)[k := Characters(st, blocks')]
  {
    forall l | l in strings && l != k
      ensures WellFormed(strings[l], blocks') && Characters(strings[l], blocks') == Characters(strings[l], blocks)
    {
      OtherUnchanged(strings, k, st, blocks, blocks', l);
    }
    hide WellFormed, Characters, FramedBy, AllOwned, AllApart;
  }

  lemma OtherUnchanged<K>(strings: map<K, Storage>, k: K, st: Storage, blocks: Blocks, blocks': Blocks, l: K)
    requires SingleOwners(strings, blocks) && WellFormed(st, blocks') && l in strings && l != k
    requires FramedBy(if k in strings then strings[k] else Constant([]), blocks, st, blocks')
    ensures WellFormed(strings[l], blocks') && Characters(strings[l], blocks') == Characters(strings[l], blocks)
    ensures Apart(strings[l], st) && Apart(st, strings[l])
  {
    assert WellFormed(strings[l], blocks) && (k in strings ==> Apart(strings[l], strings[k]));
    hide SingleOwners;
  }

  lemma OwnerAfter<K>(strings: map<K, Storage>, k: K, st: Storage, blocks: Blocks, blocks': Blocks, b: BlockId)
    requires SingleOwners(strings, blocks) && b in blocks'
    requires FramedBy(if k in strings then strings[k] else Constant([]), blocks, st, blocks')
    ensures HasOwner(strings[k := st], b)
  {
    var after := strings[k := st];
    if Owns(st, b) {
      assert Owns(after[k], b);
    } else {
      assert HasOwner(strings, b);
      var l :| l in strings && Owns(strings[l], b);
      assert Owns(after[l], b);
    }
  }

  /** A string goes, with what it owns. */
  lemma OneGone<K>(strings: map<K, Storage>, k: K, blocks: Blocks)
    requires SingleOwners(strings, blocks) && k in strings
    ensures SingleOwners(strings - {k}, blocks - OwnedBy(strings[k]))
    ensures ContentsOf(strings - {k}, blocks - OwnedBy(strings[k])) == ContentsOf(strings, blocks) - {k}
  {
    var after, blocks' := strings - {k}, blocks - OwnedBy(strings[k]);
    forall l | l in after
      ensures WellFormed(after[l], blocks') && Characters(after[l], blocks') == Characters(strings[l], blocks)
    {
      assert Apart(strings[l], strings[k]);
    }
    forall b | b in blocks' ensures HasOwner(after, b) {
      assert HasOwner(strings, b);
      var l :| l in strings && Owns(strings[l], b);
      assert Owns(after[l], b);
    }
  }

  /** What is left in a string whose contents were moved away. */
  function Left(st: Storage): Storage { if st.Heap? then Constant([]) else st }

  /** The strings after what `l` holds went to `k`. */
  function HandedOver<K>(strings: map<K, Storage>, k: K, l: K): map<K, Storage>
    requires l in strings
  {
    strings[k := strings[l]][l := Left(strings[l])]
  }

  /** Where the owner of a block is found after it moved from `l` to `k`. */
  lemma MovedOwner<K>(strings: map<K, Storage>, k: K, l: K, b: BlockId)
    requires l in strings && k !in strings && HasOwner(strings, b)
    ensures HasOwner(HandedOver(strings, k, l), b)
  {
    var after := HandedOver(strings, k, l);
    var x :| x in strings && Owns(strings[x], b);
    assert Owns(after[if x == l then k else x], b);
  }

  /** A block changes hands between two strings, of which the first is new. */
  lemma Moved<K>(strings: map<K, Storage>, k: K, l: K, blocks: Blocks)
    requires SingleOwners(strings, blocks) && l in strings && k !in strings
    ensures var after := HandedOver(strings, k, l);
            && SingleOwners(after, blocks)
            && ContentsOf(after, blocks) == ContentsOf(strings, blocks)
                 [k := ContentsOf(strings, blocks)[l]]
                 [l := if strings[l].Heap? then [] else ContentsOf(strings, blocks)[l]]
  {
    MovedOwners(strings, k, l, blocks);
    MovedContents(strings, k, l, blocks);
  }

  lemma MovedOwners<K>(strings: map<K, Storage>, k: K, l: K, blocks: Blocks)
    requires SingleOwners(strings, blocks) && l in strings && k !in strings
    ensures SingleOwners(HandedOver(strings, k, l), blocks)
  {
    var after := HandedOver(strings, k, l);
    forall b | b in blocks ensures HasOwner(after, b) {
      MovedOwner(strings, k, l, b);
    }
    forall x, y | x in after && y in after && x != y ensures Apart(after[x], after[y]) {
      MovedApart(strings, k, l, blocks, x, y);
    }
    assert AllWellFormed(after, blocks);
    hide HasOwner, Apart, HandedOver, WellFormed, Left;
    assert AllOwned(after, blocks) && AllApart(after);
  }

  lemma MovedContents<K>(strings: map<K, Storage>, k: K, l: K, blocks: Blocks)
    requires SingleOwners(strings, blocks) && l in strings && k !in strings
    requires SingleOwners(HandedOver(strings, k, l), blocks)
    ensures var c := ContentsOf(strings, blocks);
            l in c && ContentsOf(HandedOver(strings, k, l), blocks)
                      == c[k := c[l]][l := if strings[l].Heap? then [] else c[l]]
  {
    assert WellFormed(Constant([]), blocks) && Characters(Constant([]), blocks) == [];
    hide SingleOwners, WellFormed, Characters;
  }

  lemma MovedApart<K>(strings: map<K, Storage>, k: K, l: K, blocks: Blocks, x: K, y: K)
    requires SingleOwners(strings, blocks) && l in strings && k !in strings && x != y
    requires var after := HandedOver(strings, k, l); x in after && y in after
    ensures var after := HandedOver(strings, k, l); Apart(after[x], after[y])
  {
    var x0, y0 := if x == k then l else x, if y == k then l else y;
    assert x0 != y0 ==> Apart(strings[x0], strings[y0]);
  }

  lemma OwnedApart<K>(strings: map<K, Storage>, k: K, l: K, blocks: Blocks)
    requires SingleOwners(strings, blocks) && k in strings && l in strings
    ensures k != l ==> OwnedBy(strings[k]) !! OwnedBy(strings[l])
  {
    if k != l {
      assert Apart(strings[l], strings[k]);
    }
  }

  lemma ContentsKeys<K>(strings: map<K, Storage>, blocks: Blocks)
    requires SingleOwners(strings, blocks)
    ensures ContentsOf(strings, blocks).Keys == strings.Keys
  {
  }

  lemma PutBack<K, V>(m: map<K, V>, k: K, v: V)
    ensures (m - {k})[k := v] == m[k := v]
  {
  }

  lemma MovedToItself<K>(strings: map<K, Storage>, k: K, blocks: Blocks)
    requires SingleOwners(strings, blocks) && k in strings
    ensures var after, left := strings[k := Left(strings[k])], blocks - OwnedBy(strings[k]);
            var c := ContentsOf(strings, blocks);
            && SingleOwners(after, left)
            && ContentsOf(after, left) == c[k := if strings[k].Heap? then [] else c[k]]
  {
    ContentsKeys(strings, blocks);
    var c := ContentsOf(strings, blocks);
    if strings[k].Heap? {
      OneGone(strings, k, blocks);
      hide SingleOwners, ContentsOf, WellFormed, Characters;
      AddConstant(strings - {k}, k, [], blocks - OwnedBy(strings[k]));
      PutBack(strings, k, Constant([]));
      PutBack(c, k, []);
    } else {
      hide SingleOwners, ContentsOf, WellFormed, Characters;
      assert strings[k := strings[k]] == strings && c[k := c[k]] == c && blocks - {} == blocks;
    }
  }

  /** A move assignment: what the target owned is freed first. */
  lemma Assigned<K>(strings: map<K, Storage>, k: K, l: K, blocks: Blocks)
    requires SingleOwners(strings, blocks) && k in strings && l in strings
    ensures k != l ==> OwnedBy(strings[k]) !! OwnedBy(strings[l])
    ensures var after, left := strings[k := strings[l]][l := Left(strings[l])], blocks - OwnedBy(strings[k]);
            var c := ContentsOf(strings, blocks);
            && SingleOwners(after, left)
            && ContentsOf(after, left)
               == c[k := c[l]][l := if strings[l].Heap? then [] else c[l]]
  {
    hide SingleOwners, ContentsOf, WellFormed, Characters;
    OwnedApart(strings, k, l, blocks);
    ContentsKeys(strings, blocks);
    var c := ContentsOf(strings, blocks);
    if k == l {
      MovedToItself(strings, k, blocks);
      assert strings[k := strings[k]] == strings && c[k := c[k]] == c;
    } else {
      OneGone(strings, k, blocks);
      Moved(strings - {k}, k, l, blocks - OwnedBy(strings[k]));
      PutBack(strings, k, strings[l]);
      PutBack(c, k, c[l]);
    }
  }

  lemma AddConstant<K>(strings: map<K, Storage>, k: K, data: seq<char>, blocks: Blocks)
    requires SingleOwners(strings, blocks) && k !in strings
    ensures SingleOwners(strings[k := Constant(data)], blocks)
    ensures ContentsOf(strings[k := Constant(data)], blocks) == ContentsOf(strings, blocks)[k := data]
  {
    OneChanged(strings, k, Constant(data), blocks, blocks);
  }

  /** The strings alive at a point of a program.  What `Valid` says holds after every operation: no block
      is shared, none is lost, and none is used after it was freed. */
  class Strings {
    const mem: Allocator
    ghost var live: set<ChemString>

    ghost function Storages(): map<ChemString, Storage>
      reads this, live
    { map s | s in live :: s.storage }

    ghost predicate Valid()
      reads this, mem, live
    { mem.Valid() && (forall s :: s in live ==> s.mem == mem) && SingleOwners(Storages(), mem.blocks) }

    /** What every string of the program holds. */
    ghost function Contents(): map<ChemString, seq<char>>
      requires Valid()
      reads this, mem, live
    { ContentsOf(Storages(), mem.blocks) }

    constructor (mem: Allocator)
      requires mem.Valid() && mem.blocks == map[]
      ensures this.mem == mem && live == {} && Valid() && Contents() == map[]
    {
      this.mem := mem;
      live := {};
      new;
      assert Storages() == map[];
    }

    lemma OneString(s: ChemString)
      requires Valid() && s in live
      ensures s.Valid() && s.View() == Contents()[s] && |s.View()| == s.Size() && Storages()[s] == s.storage
    {
      assert Storages()[s] == s.storage && WellFormed(Storages()[s], mem.blocks);
    }

    method NewConstant(data: seq<char>) returns (s: ChemString)
      requires Valid()
      modifies this
      ensures Valid() && fresh(s) && live == old(live) + {s} && s.storage == Constant(data)
      ensures Contents() == old(Contents())[s := data]
    {
      hide SingleOwners, WellFormed, Characters, ContentsOf;
      ghost var strings: map<ChemString, Storage> := Storages();
      s := new ChemString.FromConstant(mem, data);
      live := live + {s};
      assert Storages() == strings[s := s.storage];
      AddConstant(strings, s, data, mem.blocks);
    }

    method Append(s: ChemString, value: seq<char>)
      requires Valid() && s in live
      modifies s, mem
      ensures Valid() && Contents() == old(Contents())[s := old(Contents())[s] + value]
    {
      hide SingleOwners, WellFormed, Characters, ContentsOf, FramedBy;
      ghost var strings: map<ChemString, Storage>, blocks := Storages(), mem.blocks;
      OneString(s);
      s.Append(value);
      assert Storages() == strings[s := s.storage];
      OneChanged(strings, s, s.storage, blocks, mem.blocks);
    }

    method EnsureMut(s: ChemString, capacity: nat)
      requires Valid() && s in live && s.Fits(capacity)
      modifies s, mem
      ensures Valid() && Contents() == old(Contents())[s := old(Contents())[s]] && !s.storage.Constant?
    {
      hide SingleOwners, WellFormed, Characters, ContentsOf, FramedBy;
      ghost var strings: map<ChemString, Storage>, blocks := Storages(), mem.blocks;
      OneString(s);
      s.EnsureMut(capacity);
      assert Storages() == strings[s := s.storage];
      OneChanged(strings, s, s.storage, blocks, mem.blocks);
    }

    method MutableData(s: ChemString)
      requires Valid() && s in live
      modifies s, mem
      ensures Valid() && Contents() == old(Contents())[s := old(Contents())[s]] && !s.storage.Constant?
    {
      hide SingleOwners, WellFormed, Characters, ContentsOf, FramedBy;
      ghost var strings: map<ChemString, Storage>, blocks := Storages(), mem.blocks;
      OneString(s);
      s.MutableData();
      assert Storages() == strings[s := s.storage];
      OneChanged(strings, s, s.storage, blocks, mem.blocks);
    }

    method Clear(s: ChemString)
      requires Valid() && s in live
      modifies s, mem
      ensures Valid() && Contents() == old(Contents())[s := []]
    {
      hide SingleOwners, WellFormed, Characters, ContentsOf, FramedBy;
      ghost var strings: map<ChemString, Storage>, blocks := Storages(), mem.blocks;
      OneString(s);
      s.Clear();
      assert Storages() == strings[s := s.storage];
      OneChanged(strings, s, s.storage, blocks, mem.blocks);
    }

    /** A copy that owns its characters. */
    method NewOwned(value: seq<char>) returns (s: ChemString)
      requires Valid()
      modifies this, mem
      ensures Valid() && fresh(s) && live == old(live) + {s} && !s.storage.Constant?
      ensures Contents() == old(Contents())[s := value]
    {
      s := NewConstant(value);
      EnsureMut(s, |value| + 2);
    }

    /** The copy constructor shares a constant and copies anything else. */
    method NewCopy(value: ChemString) returns (s: ChemString)
      requires Valid() && value in live
      modifies this, mem
      ensures Valid() && fresh(s) && live == old(live) + {s}
      ensures s.storage.Constant? <==> old(value.storage.Constant?)
      ensures Contents() == old(Contents())[s := old(Contents())[value]]
    {
      hide SingleOwners, WellFormed, Characters, ContentsOf, FramedBy;
      OneString(value);
      var data := value.View();
      s := NewConstant(data);
      if !value.storage.Constant? {
        EnsureMut(s, |data| + 2);
      }
    }

    method SubstringOfCapacity(s: ChemString, start: nat, end: nat, newCap: nat) returns (r: ChemString)
      requires Valid() && s in live && start <= end <= |Contents()[s]|
      requires end - start >= STR_BUFF_SIZE ==> end - start < newCap
      modifies this, mem
      ensures Valid() && fresh(r) && live == old(live) + {r}
      ensures Contents() == old(Contents())[r := old(Contents())[s][start..end]]
    {
      hide SingleOwners, WellFormed, Characters, ContentsOf, FramedBy;
      ghost var strings: map<ChemString, Storage>, blocks := Storages(), mem.blocks;
      OneString(s);
      r := s.SubstringOfCapacity(start, end, newCap);
      assert Storages() == strings;
      OneChanged(strings, r, r.storage, blocks, mem.blocks);
      live := live + {r};
      assert Storages() == strings[r := r.storage];
    }

    method Substring(s: ChemString, start: nat, end: nat) returns (r: ChemString)
      requires Valid() && s in live && start <= end <= |Contents()[s]|
      modifies this, mem
      ensures Valid() && fresh(r) && live == old(live) + {r}
      ensures Contents() == old(Contents())[r := old(Contents())[s][start..end]]
    {
      r := SubstringOfCapacity(s, start, end, end - start + 5);
    }

    method MoveNew(other: ChemString) returns (s: ChemString)
      requires Valid() && other in live
      modifies this, other
      ensures Valid() && fresh(s) && live == old(live) + {s}
      ensures var c := old(Contents());
              Contents() == c[s := c[other]][other := if old(other.storage.Heap?) then [] else c[other]]
    {
      ghost var strings: map<ChemString, Storage> := Storages();
      hide SingleOwners, WellFormed, Characters, ContentsOf;
      OneString(other);
      s := new ChemString.FromConstant(mem, []);
      Moved(strings, s, other, mem.blocks);
      s.Own(other);
      live := live + {s};
      assert Storages() == strings[s := strings[other]][other := Left(strings[other])];
    }

    /** After a move assignment the target holds what the source held, unless a heap string was moved to
        itself: that loses its characters. */
    method MoveAssign(s: ChemString, other: ChemString)
      requires Valid() && s in live && other in live
      modifies s, other, mem
      ensures Valid()
      ensures var c := old(Contents());
              && Contents() == c[s := c[other]][other := if old(other.storage.Heap?) then [] else c[other]]
              && (Contents()[s] == c[other] <==> !(s == other && old(s.storage.Heap?) && c[s] != []))
    {
      hide SingleOwners, WellFormed, Characters, ContentsOf;
      ghost var strings: map<ChemString, Storage> := Storages();
      OneString(s);
      OneString(other);
      Assigned(strings, s, other, mem.blocks);
      s.MoveAssign(other);
      assert Storages() == strings[s := strings[other]][other := Left(strings[other])];
    }

    method Destroy(s: ChemString)
      requires Valid() && s in live
      modifies this, mem
      ensures Valid() && live == old(live) - {s} && Contents() == old(Contents()) - {s}
    {
      hide SingleOwners, WellFormed, Characters, ContentsOf;
      ghost var strings: map<ChemString, Storage> := Storages();
      OneString(s);
      OneGone(strings, s, mem.blocks);
      s.Destroy();
      live := live - {s};
      assert Storages() == strings - {s};
    }
  }
}
