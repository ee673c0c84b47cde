/**
 BT, BTS, BTR and BTC over memory address a bit string: bit `index`, counted
 from the base in either direction, and nothing else (exec.rs, `bit_test`).
 */
module BitStrings {
  import opened Words
  import opened Bits
  import opened GuestCpu
  import opened Iced
  import opened AluFlags
  import opened GuestMemory
  import opened Tier0

  /** The byte holding bit `index` of the string at `base`, modulo the address space. */
  function ByteAddress(base: u32, index: int): u32 { WrapAdd(base, index / 8) }

  /** What an operation makes of the bit it selects. */
  function NewBit(m: Mnemonic, bit: bool): bool {
    match m case Bts => true case Btr => false case Btc => !bit case _ => bit
  }

  // --- bits of little-endian words ---------------------------------------------

  lemma {:induction false} FromLeBit(bytes: seq<u8>, k: nat)
    requires k < 8 * |bytes|
    ensures Bit(FromLe(bytes), k) == Bit(bytes[k / 8], k % 8)
  {
    hide Bit, Pow2;
    var b, rest := bytes[0], FromLe(bytes[1..]);
    PowValues();
    if k < 8 {
      LowBit(b, rest, 8, k);
    } else {
      FromLeBit(bytes[1..], k - 8);
      ShiftedBit(FromLe(bytes), 8, k - 8);
      DivUnique(FromLe(bytes), 256, rest, b);
    }
  }

  lemma {:induction false} LeBit(v: nat, n: nat, j: nat, i: nat)
    requires j < n && i < 8
    ensures Bit(Le(v, n)[j], i) == Bit(v, 8 * j + i)
    decreases n
  {
    hide Bit;
    PowValues();
    if j == 0 {
      LowBits(v, 8, i);
    } else {
      LeBit(v / 256, n - 1, j - 1, i);
      ShiftedBit(v, 8, 8 * (j - 1) + i);
    }
  }

  // --- one bit of a word -----------------------------------------------------------

  lemma PowBit(k: nat, i: nat)
    ensures Bit(Pow2(k), i) == (i == k)
  {
    hide Bit;
    ScaledBit(1, k, i);
    assert 1 * Pow2(k) == Pow2(k);
    OneBit(if i >= k then i - k else 0);
  }

  lemma OneBit(i: nat)
    ensures Bit(1, i) == (i == 0)
  {
    if i > 0 { ZeroBit(i - 1); }
  }

  /** The update changes the selected bit as the operation says, and no other. */
  lemma UpdateBits(m: Mnemonic, value: u32, bit: nat, k: nat)
    requires bit < 32 && k < 32 && BitUpdate(m, value, bit).Some?
    ensures Bit(BitUpdate(m, value, bit).value, k) == if k == bit then NewBit(m, Bit(value, bit)) else Bit(value, k)
  {
    hide Bit, BitOr, BitAnd, BitXor, BitNot, Pow2;
    PowValues();
    PowSmaller(bit, 31);
    PowBit(bit, k);
    BitOrBit(value, Pow2(bit), k);
    BitAndBit(value, BitNot(Pow2(bit)), k);
    BitNotBit(Pow2(bit), k);
    BitXorBit(value, Pow2(bit), k);
  }

  // --- where the bit is ----------------------------------------------------------------

  /** Whole operands below or above the base, then the bit inside: the same as whole bytes. */
  lemma IndexSplits(index: int, w: Width)
    requires w != Byte
    ensures FloorIndex(index, w.Bits()) * w.Bytes() + (index % w.Bits()) / 8 == index / 8
    ensures (index % w.Bits()) % 8 == index % 8
    ensures 0 <= (index % w.Bits()) / 8 < w.Bytes()
  {
    match w
    case Word => assert index == 16 * (index / 16) + index % 16;
    case Dword => assert index == 32 * (index / 32) + index % 32;
  }

  lemma AddressSplits(base: u32, index: int, w: Width)
    requires w != Byte
    ensures var word := WrapAdd(base, FloorIndex(index, w.Bits()) * w.Bytes());
            word + w.Bytes() <= TWO32 ==> ByteAddress(base, index) == word + (index % w.Bits()) / 8
  {
    IndexSplits(index, w);
    var e, j := FloorIndex(index, w.Bits()) * w.Bytes(), (index % w.Bits()) / 8;
    hide FloorIndex;
    var word := WrapAdd(base, e);
    if word + w.Bytes() <= TWO32 {
      assert base + index / 8 == (base + e) + j;
      DivMod(base + e, TWO32);
      DivUnique(base + index / 8, TWO32, (base + e) / TWO32, word + j);
    }
  }

  // --- the theorems ----------------------------------------------------------------------

  /** A bit test with a register index over memory that succeeds. */
  ghost predicate BitStringStep(s: MState, i: Instruction, w: Width, base: u32, index: int, t: MState) {
    && i.mnemonic in {Bt, Bts, Btr, Btc}
    && i.Op(0).OpMemory? && i.Op(1).OpRegister?
    && OperandWidth(s.cpu, i, 0) == Ok(w)
    && EffectiveAddress(s.cpu, i.memory, true) == Ok(base)
    && ReadRegister(s.cpu, i.Op(1).register).Ok?
    && index == SignExtend(ReadRegister(s.cpu, i.Op(1).register).value, w)
    && BitTestOp(s, i) == Ok(t)
  }

  /** The word an accepted step reads, and the state it leaves. */
  lemma StepParts(s: MState, i: Instruction, w: Width, base: u32, index: int, t: MState)
    returns (word: u32, bit: nat, value: u32, u: MState)
    requires BitStringStep(s, i, w, base, index, t)
    ensures w != Byte && word == WrapAdd(base, FloorIndex(index, w.Bits()) * w.Bytes()) && bit == index % w.Bits()
    ensures LoadWidth(s.memory, word, w) == Ok(value)
    ensures i.mnemonic == Bt ==> u == s
    ensures i.mnemonic != Bt ==> bit < 32 && BitUpdate(i.mnemonic, value, bit).Some?
    ensures i.mnemonic != Bt ==> StoreWidth(s.memory, word, w, BitUpdate(i.mnemonic, value, bit).value) == Ok(u.memory)
    ensures t.memory == u.memory && t.cpu == s.cpu.(eflags := MergeFlags(s.cpu.eflags, CARRY, FlagWord(CarryOnly(Bit(value, bit)))))
  {
    hide OperandWidth, EffectiveAddress, ReadRegister, SignExtend, LoadWidth, StoreWidth, Bit, MergeFlags, FlagWord, FloorIndex;
    word, bit := WrapAdd(base, FloorIndex(index, w.Bits()) * w.Bytes()), index % w.Bits();
    value := LoadWidth(s.memory, word, w).value;
    u := if i.mnemonic == Bt then s
         else s.(memory := StoreWidth(s.memory, word, w, BitUpdate(i.mnemonic, value, bit).value).value);
  }

  /** The carry flag becomes bit `index` of the string, which must be readable; other flags stay. */
  lemma BitStringReads(s: MState, i: Instruction, w: Width, base: u32, index: int, t: MState)
    requires BitStringStep(s, i, w, base, index, t)
    ensures s.memory.Translate(ByteAddress(base, index), ReadAccess).Ok?
    ensures var cell := s.memory.Translate(ByteAddress(base, index), ReadAccess).value;
            Bit(t.cpu.eflags, CARRY_BIT) == Bit(s.memory.physical[cell], index % 8)
    ensures t.cpu == s.cpu.(eflags := t.cpu.eflags)
    ensures forall k :: 0 < k < 32 ==> Bit(t.cpu.eflags, k) == Bit(s.cpu.eflags, k)
  {
    hide BitStringStep, Bit, MergeFlags, FlagWord, FloorIndex, LoadWidth, CarryOnly;
    var word, bit, value, u := StepParts(s, i, w, base, index, t);
    LoadedByte(s.memory, word, w, value, bit);
    AddressSplits(base, index, w);
    IndexSplits(index, w);
    CarryMerge(s.cpu.eflags, Bit(value, bit));
  }

  /** A loaded word's bit is the bit of one of its bytes. */
  lemma LoadedByte(memory: Space, word: u32, w: Width, value: u32, bit: nat)
    requires LoadWidth(memory, word, w) == Ok(value) && bit < w.Bits()
    ensures word + w.Bytes() <= TWO32 && memory.Translate(word + bit / 8, ReadAccess).Ok?
    ensures Bit(value, bit) == Bit(memory.physical[memory.Translate(word + bit / 8, ReadAccess).value], bit % 8)
  {
    hide Bit;
    var bytes := memory.Load(word, w.Bytes(), ReadAccess).value;
    assert value == FromLe(bytes);
    FromLeBit(bytes, bit);
    LoadIs(memory, word, w.Bytes(), ReadAccess);
    TranslateAt(memory, word, w.Bytes(), ReadAccess, bit / 8);
  }

  lemma CarryMerge(eflags: u32, carry: bool)
    ensures Bit(MergeFlags(eflags, CARRY, FlagWord(CarryOnly(carry))), CARRY_BIT) == carry
    ensures forall k :: 0 < k < 32 ==> Bit(MergeFlags(eflags, CARRY, FlagWord(CarryOnly(carry))), k) == Bit(eflags, k)
  {
    hide Bit, MergeFlags, FlagWord;
    var word := FlagWord(CarryOnly(carry));
    FlagBit(CarryOnly(carry), 0);
    MergeBit(eflags, CARRY, word, 0);
    OneBit(0);
    forall k | 0 < k < 32 ensures Bit(MergeFlags(eflags, CARRY, word), k) == Bit(eflags, k) {
      MergeBit(eflags, CARRY, word, k);
      OneBit(k);
    }
  }

  /**
   BTS, BTR and BTC change exactly bit `index` of the string: the byte holding
   it keeps its other seven bits, and every other byte of RAM is untouched.
   */
  lemma BitStringWrites(s: MState, i: Instruction, w: Width, base: u32, index: int, t: MState)
    requires BitStringStep(s, i, w, base, index, t) && i.mnemonic != Bt
    ensures s.memory.Translate(ByteAddress(base, index), WriteAccess).Ok?
    ensures var cell := s.memory.Translate(ByteAddress(base, index), WriteAccess).value;
            && |t.memory.physical| == |s.memory.physical| && t.memory.table == s.memory.table
            && (forall k :: 0 <= k < |s.memory.physical| && k != cell ==> t.memory.physical[k] == s.memory.physical[k])
            && (forall k :: 0 <= k < 8 ==>
                  Bit(t.memory.physical[cell], k) ==
                  if k == index % 8 then NewBit(i.mnemonic, Bit(s.memory.physical[cell], k)) else Bit(s.memory.physical[cell], k))
  {
    hide BitStringStep, Bit, MergeFlags, FlagWord, FloorIndex, LoadWidth, StoreWidth, CarryOnly, BitUpdate, NewBit;
    var word, bit, value, u := StepParts(s, i, w, base, index, t);
    var updated := BitUpdate(i.mnemonic, value, bit).value;
    forall k | 0 <= k < w.Bits()
      ensures Bit(updated, k) == if k == bit then NewBit(i.mnemonic, Bit(value, bit)) else Bit(value, k)
    {
      UpdateBits(i.mnemonic, value, bit, k);
    }
    StoredBit(s.memory, u.memory, word, w, value, updated, bit, NewBit(i.mnemonic, Bit(value, bit)));
    LoadedByte(s.memory, word, w, value, bit);
    AddressSplits(base, index, w);
    IndexSplits(index, w);
    SameByte(s.memory, word + bit / 8);
  }

  /** Readable and writable, a byte is one cell. */
  lemma SameByte(memory: Space, address: u32)
    requires memory.Translate(address, ReadAccess).Ok? && memory.Translate(address, WriteAccess).Ok?
    ensures memory.Translate(address, ReadAccess) == memory.Translate(address, WriteAccess)
  {}

  /** Writing back a word with one bit changed changes one bit of one byte. */
  lemma StoredBit(before: Space, after: Space, word: u32, w: Width, value: u32, updated: u32, bit: nat, newBit: bool)
    requires LoadWidth(before, word, w) == Ok(value) && StoreWidth(before, word, w, updated) == Ok(after)
    requires bit < w.Bits()
    requires forall k :: 0 <= k < w.Bits() ==> Bit(updated, k) == if k == bit then newBit else Bit(value, k)
    ensures word + w.Bytes() <= TWO32 && before.Translate(word + bit / 8, WriteAccess).Ok?
    ensures |after.physical| == |before.physical| && after.table == before.table
    ensures var cell := before.Translate(word + bit / 8, WriteAccess).value;
            && (forall k :: 0 <= k < |before.physical| && k != cell ==> after.physical[k] == before.physical[k])
            && (forall k :: 0 <= k < 8 ==>
                  Bit(after.physical[cell], k) == if k == bit % 8 then newBit else Bit(before.physical[cell], k))
  {
    hide Bit, LoadWidth, StoreWidth, Le, FromLe, Put;
    var n := w.Bytes();
    var cells, bytes := WordCells(before, after, word, w, value, updated);
    DataBytes(bytes, updated, value, n, bit, newBit);
    PutOne(before.physical, cells, Le(updated, n), bit / 8);
  }

  /** The cells and bytes behind a word that is read and written back. */
  lemma WordCells(before: Space, after: Space, word: u32, w: Width, value: u32, updated: u32)
    returns (cells: seq<nat>, bytes: seq<u8>)
    requires LoadWidth(before, word, w) == Ok(value) && StoreWidth(before, word, w, updated) == Ok(after)
    ensures word + w.Bytes() <= TWO32 && |cells| == w.Bytes() == |bytes| && value == FromLe(bytes)
    ensures forall j :: 0 <= j < w.Bytes() ==>
              && cells[j] < |before.physical| && bytes[j] == before.physical[cells[j]]
              && before.Translate(word + j, WriteAccess) == Ok(cells[j])
    ensures forall i, j :: 0 <= i < j < w.Bytes() ==> cells[i] != cells[j]
    ensures after.table == before.table && after.physical == Put(before.physical, cells, Le(updated, w.Bytes()))
  {
    var n := w.Bytes();
    StoreFacts(before, word, Le(updated, n));
    cells := before.TranslateAll(word, n, WriteAccess).value;
    bytes := before.Load(word, n, ReadAccess).value;
    LoadIs(before, word, n, ReadAccess);
    SameCells(before, word, n);
    hide LoadWidth, StoreWidth, Le, FromLe, Put;
    forall j | 0 <= j < n ensures before.Translate(word + j, WriteAccess) == Ok(cells[j]) {
      TranslateAt(before, word, n, WriteAccess, j);
    }
    forall i, j | 0 <= i < j < n ensures cells[i] != cells[j] {
      CellsDistinct(before, word, n, WriteAccess, i, j);
    }
  }

  /** Storing back all but one byte unchanged changes one cell. */
  lemma PutOne(physical: seq<u8>, cells: seq<nat>, data: seq<u8>, c: nat)
    requires |cells| == |data| && c < |cells| && forall i :: 0 <= i < |cells| ==> cells[i] < |physical|
    requires forall i, j :: 0 <= i < j < |cells| ==> cells[i] != cells[j]
    requires forall j :: 0 <= j < |cells| && j != c ==> data[j] == physical[cells[j]]
    ensures Put(physical, cells, data) == physical[cells[c] := data[c]]
  {
    hide Put;
    var after := Put(physical, cells, data);
    forall k | 0 <= k < |physical| ensures after[k] == physical[cells[c] := data[c]][k] {
      PutGet(physical, cells, data, k);
    }
  }

  /** Byte by byte, the updated word differs from the loaded one in a single bit. */
  lemma DataBytes(bytes: seq<u8>, updated: u32, value: u32, n: nat, bit: nat, newBit: bool)
    requires |bytes| == n && value == FromLe(bytes) && bit < 8 * n
    requires forall k :: 0 <= k < 8 * n ==> Bit(updated, k) == if k == bit then newBit else Bit(value, k)
    ensures forall j :: 0 <= j < n && j != bit / 8 ==> Le(updated, n)[j] == bytes[j]
    ensures forall k :: 0 <= k < 8 ==>
              Bit(Le(updated, n)[bit / 8], k) == if k == bit % 8 then newBit else Bit(bytes[bit / 8], k)
  {
    hide Bit;
    var data := Le(updated, n);
    forall j, k | 0 <= j < n && 0 <= k < 8
      ensures Bit(data[j], k) == if 8 * j + k == bit then newBit else Bit(bytes[j], k)
    {
      LeBit(updated, n, j, k);
      FromLeBit(bytes, 8 * j + k);
    }
    PowValues();
    forall j | 0 <= j < n && j != bit / 8 ensures data[j] == bytes[j] {
      forall k | 0 <= k < 8 ensures Bit(data[j], k) == Bit(bytes[j], k) {
        assert 8 * j + k != bit;
      }
      SameBits(data[j], bytes[j], 8);
    }
    assert 8 * (bit / 8) + bit % 8 == bit;
  }

  /** The 16-bit and the 32-bit form agree on every index both can express. */
  lemma FormsAgree(s: MState, i: Instruction, j: Instruction, base: u32, index: int, t: MState, u: MState)
    requires BitStringStep(s, i, Word, base, index, t) && BitStringStep(s, j, Dword, base, index, u)
    requires i.mnemonic == j.mnemonic
    ensures Bit(t.cpu.eflags, CARRY_BIT) == Bit(u.cpu.eflags, CARRY_BIT)
    ensures t.memory.physical == u.memory.physical
  {
    hide BitStringStep, Bit, ByteAddress, NewBit;
    BitStringReads(s, i, Word, base, index, t);
    BitStringReads(s, j, Dword, base, index, u);
    if i.mnemonic == Bt {
      var _, _, _, _ := StepParts(s, i, Word, base, index, t);
      var _, _, _, _ := StepParts(s, j, Dword, base, index, u);
    } else {
      BitStringWrites(s, i, Word, base, index, t);
      BitStringWrites(s, j, Dword, base, index, u);
      var cell := s.memory.Translate(ByteAddress(base, index), WriteAccess).value;
      PowValues();
      SameBits(t.memory.physical[cell], u.memory.physical[cell], 8);
    }
  }
}
