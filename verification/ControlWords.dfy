/**
 Control words bit by bit, and the budget of a submission in dwords (nv2a.rs,
 `submit_inner`): which bits tell the words apart and where their fields lie.
 */
module ControlWords {
  import opened Words
  import opened Bits
  import opened Pushbuffer

  /** A number made of a run of a word's bits. */
  ghost predicate Field(word: nat, low: nat, n: nat, value: nat) {
    value < Pow2(n) && forall k :: 0 <= k < n ==> Bit(value, k) == Bit(word, low + k)
  }

  lemma FieldIs(word: nat, low: nat, n: nat)
    ensures Field(word, low, n, word / Pow2(low) % Pow2(n))
  {
    hide Bit, Pow2;
    DivMod(word, Pow2(low));
    ShiftedBit(word, low, 0);
    var high := word / Pow2(low);
    LowBits(high, n, 0);
    forall k | 0 <= k < n ensures Bit(high % Pow2(n), k) == Bit(word, low + k) {
      LowBits(high, n, k);
      ShiftedBit(word, low, k);
    }
  }

  /** A word with some low and high bits cleared. */
  ghost predicate Kept(word: u32, from: nat, to: nat, value: u32) {
    forall k :: 0 <= k < 32 ==> Bit(value, k) == (from <= k < to && Bit(word, k))
  }

  lemma KeptIs(word: u32, to: nat)
    requires 2 <= to <= 32
    ensures 0 <= word % Pow2(to) - word % 4 <= word && Kept(word, 2, to, word % Pow2(to) - word % 4)
  {
    hide Bit, Pow2;
    var low := word % Pow2(to);
    LowWithin(word, to);
    CutTwice(word, to);
    forall k | 0 <= k < 32 ensures Bit(low - low % 4, k) == (2 <= k < to && Bit(word, k)) {
      LowBits(word, to, k);
      ClearTwo(low, k);
    }
  }

  lemma ClearTwo(x: nat, k: nat)
    ensures x - x % 4 >= 0 && Bit(x - x % 4, k) == (k >= 2 && Bit(x, k))
  {
    hide Bit, Pow2;
    FourIs();
    DivMod(x, 4);
    ScaledBit(x / 4, 2, k);
    if k >= 2 { ShiftedBit(x, 2, k - 2); }
  }

  lemma FourIs()
    ensures Pow2(2) == 4
  {}

  lemma LowWithin(word: u32, to: nat)
    ensures 0 <= word % Pow2(to) <= word
  {
    hide Pow2;
    MulDiv(word, Pow2(to));
  }

  lemma MulDiv(x: nat, d: nat)
    requires d > 0
    ensures 0 <= x % d <= x
  {}

  lemma CutTwice(word: nat, to: nat)
    requires to >= 2
    ensures word % Pow2(to) % 4 == word % 4
  {
    var p := Pow2(to - 2);
    assert Pow2(to) == 4 * p;
    var r := word % Pow2(to);
    DivMod(word, Pow2(to));
    hide Pow2;
    DivMod(r, 4);
    assert word == 4 * (p * (word / (4 * p)) + r / 4) + r % 4;
    DivUnique(word, 4, p * (word / (4 * p)) + r / 4, r % 4);
  }

  /** What a control word is, by its bits. */
  lemma ControlMeans(word: u32)
    ensures var c := DecodeControl(word);
            && (c.OldJump? <==> !Bit(word, 31) && !Bit(word, 30) && Bit(word, 29) && !Bit(word, 1) && !Bit(word, 0))
            && (c.NewJump? <==> !Bit(word, 1) && Bit(word, 0))
            && (c.Call? <==> Bit(word, 1) && !Bit(word, 0))
            && (c.Return? <==> word == 0x0002_0000)
            && (c.Methods? <==> !Bit(word, 31) && !Bit(word, 29) && !Bit(word, 17) && !Bit(word, 16) && !Bit(word, 1) && !Bit(word, 0))
            && (c.OldJump? ==> Kept(word, 2, 29, c.target)) && (c.NewJump? || c.Call? ==> Kept(word, 2, 32, c.target))
            && (c.Methods? ==> Field(word, 18, 11, c.count) && Field(word, 13, 3, c.subchannel) && Kept(word, 2, 13, c.number)
                               && c.nonIncreasing == Bit(word, 30))
  {
    hide Bit, Kept, Field, Top3, Middle2, Low2, DecodeControl;
    Split(word);
    Kinds(word);
    Fields(word);
  }

  lemma Kinds(word: u32)
    ensures var c := DecodeControl(word);
            && (c.OldJump? <==> Top3(word) == 1 && Low2(word) == 0) && (c.NewJump? <==> Low2(word) == 1) && (c.Call? <==> Low2(word) == 2)
            && (c.Return? <==> word == 0x0002_0000)
            && (c.Methods? <==> Middle2(word) == 0 && Low2(word) == 0 && Top3(word) in {0, 2}) && (c.Methods? ==> c.nonIncreasing == (Top3(word) == 2))
  {}

  lemma Fields(word: u32)
    ensures var c := DecodeControl(word);
            && (c.OldJump? ==> Kept(word, 2, 29, c.target)) && (c.NewJump? || c.Call? ==> Kept(word, 2, 32, c.target))
            && (c.Methods? ==> Field(word, 18, 11, c.count) && Field(word, 13, 3, c.subchannel) && Kept(word, 2, 13, c.number))
  {
    hide Bit, Kept, Field, Pow2, Top3, Middle2;
    PowTable();
    KeptIs(word, 29);
    KeptIs(word, 32);
    KeptIs(word, 13);
    FieldIs(word, 18, 11);
    FieldIs(word, 13, 3);
  }

  lemma PowTable()
    ensures Pow2(29) == 0x2000_0000 && Pow2(18) == 0x4_0000 && Pow2(11) == 0x800 && Pow2(13) == 0x2000 && Pow2(3) == 8
    ensures Pow2(16) == 0x1_0000 && Pow2(32) == TWO32 && Pow2(2) == 4
  {
    PowValues();
    assert Pow2(32) == 8 * Pow2(29);
    assert Pow2(18) == 4 * Pow2(16);
    assert Pow2(11) == 8 * Pow2(8);
    assert Pow2(16) == 8 * Pow2(13);
  }

  lemma Split(word: u32)
    ensures Low2(word) == BitOf(Bit(word, 0)) + 2 * BitOf(Bit(word, 1))
    ensures Middle2(word) == BitOf(Bit(word, 16)) + 2 * BitOf(Bit(word, 17))
    ensures Top3(word) == BitOf(Bit(word, 29)) + 2 * BitOf(Bit(word, 30)) + 4 * BitOf(Bit(word, 31))
  {
    hide Bit, Pow2;
    PowTable();
    LowDigits(word);
    Digits(word, 16, 0x1_0000);
    Digits(word, 29, 0x2000_0000);
  }

  /** The three bits from a place on, as numbers. */
  lemma Digits(word: u32, low: nat, unit: nat)
    requires unit == Pow2(low)
    ensures word / unit % 4 == BitOf(Bit(word, low)) + 2 * BitOf(Bit(word, low + 1))
    ensures word / unit < 8 ==> word / unit == BitOf(Bit(word, low)) + 2 * BitOf(Bit(word, low + 1)) + 4 * BitOf(Bit(word, low + 2))
  {
    hide Bit, Pow2;
    ShiftedBit(word, low, 0);
    ShiftedBit(word, low, 1);
    ShiftedBit(word, low, 2);
    LowDigits(word / unit);
  }

  lemma LowDigits(x: nat)
    ensures x % 4 == BitOf(Bit(x, 0)) + 2 * BitOf(Bit(x, 1))
    ensures x < 8 ==> x == BitOf(Bit(x, 0)) + 2 * BitOf(Bit(x, 1)) + 4 * BitOf(Bit(x, 2))
  {
    assert x / 2 / 2 == x / 4;
  }

  /** The range of a submission begins and ends on whole dwords: both addresses lose their two low bits. */
  lemma AlignMeans(address: u32)
    ensures Kept(address, 2, 32, AlignDown(address))
  {
    hide Bit, Pow2;
    forall k | 0 <= k < 32 ensures Bit(AlignDown(address), k) == (2 <= k < 32 && Bit(address, k)) { ClearTwo(address, k); }
  }

  /** A word that jumps to itself is read as often as the budget allows, and then the walk is abandoned. */
  lemma {:induction false} SelfJump<G>(d: Device<G>, g: G, cursor: u32, target: u32, budget: nat, back: Option<u32>)
    requires cursor != target && d.read(g, cursor).Some? && DecodeControl(d.read(g, cursor).value) == NewJump(cursor)
    ensures Walk(d, g, cursor, target, budget, back) == Walked(g, cursor, true, budget, 0)
    decreases budget
  {
    hide DecodeControl;
    if budget > 0 { SelfJump(d, g, cursor, target, budget - 1, back); }
  }

  /** A submission has a budget of 4194304 dwords. */
  lemma BudgetMeans<G>(d: Device<G>, g: G, cursor: u32, target: u32)
    requires cursor != target && d.read(g, cursor).Some? && DecodeControl(d.read(g, cursor).value) == NewJump(cursor)
    ensures Walk(d, g, cursor, target, MAX_DWORDS_PER_SUBMIT, None) == Walked(g, cursor, true, 4194304, 0)
  {
    SelfJump(d, g, cursor, target, MAX_DWORDS_PER_SUBMIT, None);
  }
}
