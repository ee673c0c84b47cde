/**
 Guest RAM as dwords (emulator.rs, `PhysicalMemory`): reads and writes at any
 byte address, straddling two dwords when unaligned, against RAM as bytes.
 */
module PhysicalMemory {
  import opened Words
  import opened Bits

  /** The bytes of RAM held as little-endian dwords. */
  ghost function Flat(words: seq<u32>): (bytes: seq<u8>)
    ensures |bytes| == 4 * |words|
  {
    seq(4 * |words|, k requires 0 <= k < 4 * |words| => Le32(words[k / 4])[k % 4])
  }

  /** Bytes with a dword written at an address. */
  ghost function Splice(bytes: seq<u8>, address: nat, value: u32): (r: seq<u8>)
    requires address + 4 <= |bytes|
    ensures |r| == |bytes|
  {
    bytes[..address] + Le32(value) + bytes[address + 4..]
  }

  /** Dwords written one after another. */
  ghost function SpliceRun(bytes: seq<u8>, address: nat, value: u32, count: nat): (r: seq<u8>)
    requires address + 4 * count <= |bytes|
    ensures |r| == |bytes|
    decreases count
  {
    if count == 0 then bytes else Splice(SpliceRun(bytes, address, value, count - 1), address + 4 * (count - 1), value)
  }

  // --- one dword's bytes ---------------------------------------------------------------

  /** The number four byte digits denote. */
  function Value(a: int, b: int, c: int, d: int): int { a + 0x100 * b + 0x1_0000 * c + 0x100_0000 * d }

  /** Its quotients and remainders are its digits. */
  lemma ValueParts(a: u8, b: u8, c: u8, d: u8)
    ensures Value(a, b, c, d) / 0x100 == Value(b, c, d, 0) && Value(a, b, c, d) % 0x100 == a
    ensures Value(a, b, c, d) / 0x1_0000 == Value(c, d, 0, 0) && Value(a, b, c, d) % 0x1_0000 == Value(a, b, 0, 0)
    ensures Value(a, b, c, d) / 0x100_0000 == d && Value(a, b, c, d) % 0x100_0000 == Value(a, b, c, 0)
  {}

  lemma Digits(w: u32)
    ensures Le32(w)[0] == w % 0x100 && Le32(w)[1] == w / 0x100 % 0x100
    ensures Le32(w)[2] == w / 0x1_0000 % 0x100 && Le32(w)[3] == w / 0x100_0000
    ensures w == Value(Le32(w)[0], Le32(w)[1], Le32(w)[2], Le32(w)[3])
  {
    assert Le(w, 4)[1] == Le(w / 256, 3)[0];
    assert Le(w, 4)[2] == Le(w / 256, 3)[1] == Le(w / 256 / 256, 2)[0];
    assert Le(w, 4)[3] == Le(w / 256, 3)[2] == Le(w / 256 / 256, 2)[1] == Le(w / 256 / 256 / 256, 1)[0];
    assert w / 256 / 256 == w / 0x1_0000 && w / 256 / 256 / 256 == w / 0x100_0000;
  }

  lemma FromDigits(bytes: seq<u8>)
    requires |bytes| == 4
    ensures FromLe32(bytes) == Value(bytes[0], bytes[1], bytes[2], bytes[3])
  {
    assert FromLe(bytes) == bytes[0] + 256 * FromLe(bytes[1..]);
    assert FromLe(bytes[1..]) == bytes[1] + 256 * FromLe(bytes[1..][1..]);
    assert bytes[1..][1..] == bytes[2..] && bytes[2..][1..] == bytes[3..];
    assert FromLe(bytes[2..]) == bytes[2] + 256 * FromLe(bytes[3..]);
    assert FromLe(bytes[3..]) == bytes[3];
  }

  /** Two to the eighth of an offset's bits, and of the bits left. */
  function Unit(offset: nat): nat
    requires 0 < offset < 4
  {
    if offset == 1 then 0x100 else if offset == 2 then 0x1_0000 else 0x100_0000
  }

  lemma UnitIsPower(offset: nat)
    requires 0 < offset < 4
    ensures Unit(offset) == Pow2(8 * offset) && Unit(4 - offset) == Pow2(32 - 8 * offset)
    ensures Unit(offset) * Unit(4 - offset) == TWO32
  {
    hide Pow2;
    PowValues();
    PowStep(16); PowStep(20);
  }

  /** The high part of one dword below the low part of the next (`low >> s | high << 32 - s`). */
  function Straddled(low: u32, high: u32, offset: nat): u32
    requires 0 < offset < 4
  {
    UnitIsPower(offset);
    JoinedFits(low, high, offset);
    BitOr(low / Unit(offset), high % Unit(offset) * Unit(4 - offset))
  }

  lemma JoinedFits(low: u32, high: u32, offset: nat)
    requires 0 < offset < 4
    ensures low / Unit(offset) + high % Unit(offset) * Unit(4 - offset) < TWO32 && low / Unit(offset) < Unit(4 - offset)
    ensures high % Unit(offset) * Unit(4 - offset) >= 0
  {}

  /** A straddling read joins the last bytes of one dword and the first of the next. */
  lemma StraddledBytes(low: u32, high: u32, offset: nat)
    requires 0 < offset < 4
    ensures Straddled(low, high, offset) == FromLe32(Le32(low)[offset..] + Le32(high)[..offset])
  {
    hide Le32, FromLe32, BitOr, Pow2, Unit;
    UnitIsPower(offset);
    JoinedFits(low, high, offset);
    OrDisjoint(low / Unit(offset), high % Unit(offset), 32 - 8 * offset);
    JoinedBytes(low, high, offset);
  }

  lemma JoinedBytes(low: u32, high: u32, offset: nat)
    requires 0 < offset < 4
    ensures low / Unit(offset) + high % Unit(offset) * Unit(4 - offset) == FromLe32(Le32(low)[offset..] + Le32(high)[..offset])
  {
    hide Le32, FromLe32;
    var a, b := Le32(low), Le32(high);
    Digits(low);
    Digits(high);
    ValueParts(a[0], a[1], a[2], a[3]);
    ValueParts(b[0], b[1], b[2], b[3]);
    if offset == 1 {
      assert a[1..] + b[..1] == [a[1], a[2], a[3], b[0]];
      FromDigits([a[1], a[2], a[3], b[0]]);
    } else if offset == 2 {
      assert a[2..] + b[..2] == [a[2], a[3], b[0], b[1]];
      FromDigits([a[2], a[3], b[0], b[1]]);
    } else {
      assert a[3..] + b[..3] == [a[3], b[0], b[1], b[2]];
      FromDigits([a[3], b[0], b[1], b[2]]);
    }
  }

  /** The low dword after a straddling write: its first bytes kept, the value's first bytes above them. */
  function LowAfter(low: u32, value: u32, offset: nat): u32
    requires 0 < offset < 4
  {
    UnitIsPower(offset);
    LowFits(low, value, offset);
    BitOr(low % Unit(offset), value % Unit(4 - offset) * Unit(offset))
  }

  /** The high dword after it: the value's last bytes, and its own last bytes kept above them. */
  function HighAfter(high: u32, value: u32, offset: nat): u32
    requires 0 < offset < 4
  {
    UnitIsPower(offset);
    HighFits(high, value, offset);
    BitOr(value / Unit(4 - offset), high / Unit(offset) * Unit(offset))
  }

  lemma LowFits(low: u32, value: u32, offset: nat)
    requires 0 < offset < 4
    ensures low % Unit(offset) + value % Unit(4 - offset) * Unit(offset) < TWO32 && value % Unit(4 - offset) * Unit(offset) >= 0
  {}

  lemma HighFits(high: u32, value: u32, offset: nat)
    requires 0 < offset < 4
    ensures value / Unit(4 - offset) < Unit(offset)
    ensures 0 <= high / Unit(offset) * Unit(offset) && value / Unit(4 - offset) + high / Unit(offset) * Unit(offset) < TWO32
  {}

  lemma BytesDecide(w: u32, bytes: seq<u8>)
    requires |bytes| == 4 && w == FromLe32(bytes)
    ensures Le32(w) == bytes
  {
    LeOfFromLe(bytes);
  }

  lemma LowAfterBytes(low: u32, value: u32, offset: nat)
    requires 0 < offset < 4
    ensures Le32(LowAfter(low, value, offset)) == Le32(low)[..offset] + Le32(value)[..4 - offset]
  {
    hide Le32, FromLe32, BitOr, Pow2, Unit;
    UnitIsPower(offset);
    LowFits(low, value, offset);
    OrDisjoint(low % Unit(offset), value % Unit(4 - offset), 8 * offset);
    LowJoined(low, value, offset);
    BytesDecide(LowAfter(low, value, offset), Le32(low)[..offset] + Le32(value)[..4 - offset]);
  }

  lemma LowJoined(low: u32, value: u32, offset: nat)
    requires 0 < offset < 4
    ensures low % Unit(offset) + value % Unit(4 - offset) * Unit(offset) == FromLe32(Le32(low)[..offset] + Le32(value)[..4 - offset])
  {
    hide Le32, FromLe32;
    var a, v := Le32(low), Le32(value);
    Digits(low);
    Digits(value);
    ValueParts(a[0], a[1], a[2], a[3]);
    ValueParts(v[0], v[1], v[2], v[3]);
    if offset == 1 {
      assert a[..1] + v[..3] == [a[0], v[0], v[1], v[2]];
      FromDigits([a[0], v[0], v[1], v[2]]);
    } else if offset == 2 {
      assert a[..2] + v[..2] == [a[0], a[1], v[0], v[1]];
      FromDigits([a[0], a[1], v[0], v[1]]);
    } else {
      assert a[..3] + v[..1] == [a[0], a[1], a[2], v[0]];
      FromDigits([a[0], a[1], a[2], v[0]]);
    }
  }

  lemma HighAfterBytes(high: u32, value: u32, offset: nat)
    requires 0 < offset < 4
    ensures Le32(HighAfter(high, value, offset)) == Le32(value)[4 - offset..] + Le32(high)[offset..]
  {
    hide Le32, FromLe32, BitOr, Pow2, Unit;
    UnitIsPower(offset);
    HighFits(high, value, offset);
    OrDisjoint(value / Unit(4 - offset), high / Unit(offset), 8 * offset);
    HighJoined(high, value, offset);
    BytesDecide(HighAfter(high, value, offset), Le32(value)[4 - offset..] + Le32(high)[offset..]);
  }

  lemma HighJoined(high: u32, value: u32, offset: nat)
    requires 0 < offset < 4
    ensures value / Unit(4 - offset) + high / Unit(offset) * Unit(offset) == FromLe32(Le32(value)[4 - offset..] + Le32(high)[offset..])
  {
    hide Le32, FromLe32;
    var b, v := Le32(high), Le32(value);
    Digits(high);
    Digits(value);
    ValueParts(b[0], b[1], b[2], b[3]);
    ValueParts(v[0], v[1], v[2], v[3]);
    if offset == 1 {
      assert v[3..] + b[1..] == [v[3], b[1], b[2], b[3]];
      FromDigits([v[3], b[1], b[2], b[3]]);
    } else if offset == 2 {
      assert v[2..] + b[2..] == [v[2], v[3], b[2], b[3]];
      FromDigits([v[2], v[3], b[2], b[3]]);
    } else {
      assert v[1..] + b[3..] == [v[1], v[2], v[3], b[3]];
      FromDigits([v[1], v[2], v[3], b[3]]);
    }
  }

  // --- where the bytes lie ------------------------------------------------------------------

  /** Four bytes at an aligned address are one dword. */
  lemma AlignedBytes(words: seq<u32>, index: nat)
    requires index < |words|
    ensures Flat(words)[4 * index..4 * index + 4] == Le32(words[index])
  {
    hide Le32;
  }

  /** Four bytes at an unaligned address come from two dwords. */
  lemma UnalignedBytes(words: seq<u32>, index: nat, offset: nat)
    requires index + 1 < |words| && 0 < offset < 4
    ensures Flat(words)[4 * index + offset..4 * index + offset + 4] == Le32(words[index])[offset..] + Le32(words[index + 1])[..offset]
  {
    hide Le32;
    var a, b := Le32(words[index]), Le32(words[index + 1]);
    var flat, p := Flat(words), 4 * index + offset;
    forall k | 0 <= k < 4 ensures flat[p..p + 4][k] == (a[offset..] + b[..offset])[k] {
      assert (p + k) / 4 == if offset + k < 4 then index else index + 1;
    }
  }

  /** An aligned write replaces the four bytes of its dword. */
  lemma AlignedWrite(words: seq<u32>, index: nat, value: u32)
    requires index < |words|
    ensures Flat(words[index := value]) == Splice(Flat(words), 4 * index, value)
  {
    hide Le32;
    var after, spliced := Flat(words[index := value]), Splice(Flat(words), 4 * index, value);
    forall k | 0 <= k < 4 * |words| ensures after[k] == spliced[k] {
      if 4 * index <= k < 4 * index + 4 { assert k / 4 == index && k % 4 == k - 4 * index; }
    }
  }

  /** A straddling write replaces four bytes of two dwords and keeps their others. */
  lemma UnalignedWrite(words: seq<u32>, index: nat, offset: nat, value: u32)
    requires index + 1 < |words| && 0 < offset < 4
    ensures var after := words[index := LowAfter(words[index], value, offset)][index + 1 := HighAfter(words[index + 1], value, offset)];
            Flat(after) == Splice(Flat(words), 4 * index + offset, value)
  {
    hide Le32, LowAfter, HighAfter;
    var low, high := LowAfter(words[index], value, offset), HighAfter(words[index + 1], value, offset);
    LowAfterBytes(words[index], value, offset);
    HighAfterBytes(words[index + 1], value, offset);
    var after := words[index := low][index + 1 := high];
    var flat, p := Flat(words), 4 * index + offset;
    var spliced := Splice(flat, p, value);
    forall k | 0 <= k < 4 * |words| ensures Flat(after)[k] == spliced[k] {
      if 4 * index <= k < 4 * index + 4 {
        assert k / 4 == index && k % 4 == k - 4 * index;
      } else if 4 * index + 4 <= k < 4 * index + 8 {
        assert k / 4 == index + 1 && k % 4 == k - 4 * index - 4;
      }
    }
  }

  // --- the dword view ---------------------------------------------------------------------------

  class DwordRam {
    const slots: array<u32>

    constructor (slots: array<u32>)
      ensures this.slots == slots
    {
      this.slots := slots;
    }

    ghost function Bytes(): seq<u8>
      reads slots
    {
      Flat(slots[..])
    }

    /** The four bytes at any address, when all four are in RAM. */
    method ReadDword(physical: u32) returns (r: Option<u32>)
      ensures r == if physical + 4 <= |Bytes()| then Some(FromLe32(Bytes()[physical..physical + 4])) else None
    {
      hide Le32, FromLe32, Flat, Straddled;
      var index, offset := physical / 4, physical % 4;
      if index >= slots.Length { return None; }
      var low := slots[index];
      if offset == 0 {
        AlignedBytes(slots[..], index);
        WordBytes(low);
        return Some(low);
      }
      if index + 1 >= slots.Length { return None; }
      UnalignedBytes(slots[..], index, offset);
      StraddledBytes(low, slots[index + 1], offset);
      return Some(Straddled(low, slots[index + 1], offset));
    }

    /** Writes the four bytes at any address, when all four are in RAM; every other byte stays. */
    method WriteDword(physical: u32, value: u32) returns (ok: bool)
      modifies slots
      ensures ok == (physical + 4 <= old(|Bytes()|))
      ensures Bytes() == if ok then Splice(old(Bytes()), physical, value) else old(Bytes())
    {
      hide Le32, FromLe32, Flat, Splice, LowAfter, HighAfter;
      var index, offset := physical / 4, physical % 4;
      ghost var before: seq<u32> := slots[..];
      if offset == 0 {
        if index >= slots.Length { return false; }
        slots[index] := value;
        assert slots[..] == before[index := value];
        AlignedWrite(before, index, value);
        return true;
      }
      if index + 1 >= slots.Length { return false; }
      var low: u32, high: u32 := slots[index], slots[index + 1];
      slots[index] := LowAfter(low, value, offset);
      slots[index + 1] := HighAfter(high, value, offset);
      ghost var middle: seq<u32> := before[index := LowAfter(low, value, offset)];
      assert slots[..] == middle[index + 1 := HighAfter(high, value, offset)];
      UnalignedWrite(before, index, offset, value);
      return true;
    }

    /** Fills aligned dwords that are all in RAM, as that many writes would; otherwise does nothing. */
    method FillDwords(physical: u32, value: u32, count: u32) returns (filled: u32)
      modifies slots
      ensures filled == if physical % 4 == 0 && physical + 4 * count <= old(|Bytes()|) then count else 0
      ensures Bytes() == if physical % 4 == 0 && physical + 4 * count <= old(|Bytes()|)
                         then SpliceRun(old(Bytes()), physical, value, count) else old(Bytes())
    {
      hide Le32, Flat, Splice;
      var index := physical / 4;
      if physical % 4 != 0 { return 0; }
      if index + count > slots.Length { return 0; }
      ghost var before := Bytes();
      for k := 0 to count
        invariant Flat(slots[..]) == SpliceRun(before, physical, value, k)
      {
        ghost var words: seq<u32> := slots[..];
        slots[index + k] := value;
        assert slots[..] == words[index + k := value];
        AlignedWrite(words, index + k, value);
      }
      return count;
    }
  }

  /** What a write leaves to be read: its own value at its address, and every byte it does not cover. */
  lemma SpliceReads(bytes: seq<u8>, address: nat, value: u32, k: nat)
    requires address + 4 <= |bytes| && k < |bytes|
    ensures FromLe32(Splice(bytes, address, value)[address..address + 4]) == value
    ensures k < address || k >= address + 4 ==> Splice(bytes, address, value)[k] == bytes[k]
  {
    hide Le32, FromLe32;
    assert Splice(bytes, address, value)[address..address + 4] == Le32(value);
    WordBytes(value);
  }

  lemma WordBytes(w: u32)
    ensures FromLe32(Le32(w)) == w
  {}
}
