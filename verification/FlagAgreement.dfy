/**
 The host's flags, stated as facts about integers, are the guest oracle's flags,
 computed by exclusive-ors; and the emitter's pushfq/mask/merge sequence moves
 exactly the defined ones.
 */
module FlagAgreement {
  import opened Words
  import opened Bits
  import opened GuestCpu
  import opened RegisterOnly
  import opened HostMachine

  function HostOf(op: AluOp): HostAlu {
    match op
    case AluAdd => HostAdd case AluOr => HostOr case AluAnd => HostAnd case AluSub => HostSub case AluXor => HostXor
  }

  lemma {:induction false} ParityAgrees(x: nat, n: nat)
    ensures OddOnes(x, n) <==> CountOnes(x, n) % 2 == 1
    decreases n
  {
    if n > 0 { ParityAgrees(x / 2, n - 1); }
  }

  /** Bit 4 of `a ^ b ^ result` is the carry out of the low nibble. */
  lemma AddAuxiliary(a: u32, b: u32)
    ensures Bit(BitXor(BitXor(a, b), WrapAdd(a, b)), 4) <==> a % 16 + b % 16 >= 16
  {
    hide Bit, BitXor;
    var r := WrapAdd(a, b);
    BitXorBit(BitXor(a, b), r, 4);
    BitXorBit(a, b, 4);
    Bit4(a); Bit4(b); Bit4(r);
    NibbleSum(a, b, r);
  }

  lemma NibbleSum(a: u32, b: u32, r: u32)
    requires r == (a + b) % TWO32
    ensures r / 16 % 2 == (a / 16 % 2 + b / 16 % 2 + (if a % 16 + b % 16 >= 16 then 1 else 0)) % 2
  {
    var c := (a + b) / TWO32;
    assert a + b == r + TWO32 * c && 0 <= c <= 1;
    assert r / 16 + 0x1000_0000 * c == a / 16 + b / 16 + (if a % 16 + b % 16 >= 16 then 1 else 0);
  }

  lemma SubAuxiliary(a: u32, b: u32)
    ensures Bit(BitXor(BitXor(a, b), WrapSub(a, b)), 4) <==> a % 16 < b % 16
  {
    hide Bit, BitXor;
    var r := WrapSub(a, b);
    BitXorBit(BitXor(a, b), r, 4);
    BitXorBit(a, b, 4);
    NibbleDifference(a, b, r);
  }

  lemma NibbleDifference(a: u32, b: u32, r: u32)
    requires r == (a - b) % TWO32
    ensures (Bit(a, 4) != (Bit(b, 4) != Bit(r, 4))) <==> a % 16 < b % 16
  {
    hide Bit;
    Bit4(a); Bit4(b); Bit4(r);
    NibbleBorrow(a, b, r);
    NibbleSum(b, r, a);
    Parities(a / 16 % 2, b / 16 % 2, r / 16 % 2, a % 16 < b % 16);
  }

  lemma Parities(p: int, q: int, s: int, c: bool)
    requires 0 <= p < 2 && 0 <= q < 2 && 0 <= s < 2
    requires p == (q + s + (if c then 1 else 0)) % 2
    ensures ((p == 1) != ((q == 1) != (s == 1))) == c
  {}

  lemma NibbleBorrow(a: u32, b: u32, r: u32)
    requires r == (a - b) % TWO32
    ensures a == (b + r) % TWO32
    ensures a % 16 < b % 16 <==> b % 16 + r % 16 >= 16
  {
    var c := if a < b then 1 else 0;
    assert r == a - b + TWO32 * c;
    assert r % 16 == (a % 16 - b % 16) % 16;
  }

  /** The sign bits of `a ^ result` and `b ^ result` say that a signed sum left the range. */
  lemma AddOverflow(a: u32, b: u32)
    ensures Bit(BitAnd(BitXor(a, WrapAdd(a, b)), BitXor(b, WrapAdd(a, b))), 31) <==> !Fits32(Signed(a) + Signed(b))
  {
    hide Bit, BitXor, BitAnd;
    var r := WrapAdd(a, b);
    BitAndBit(BitXor(a, r), BitXor(b, r), 31);
    BitXorBit(a, r, 31);
    BitXorBit(b, r, 31);
    SignBit32(a); SignBit32(b); SignBit32(r);
  }

  lemma SubOverflow(a: u32, b: u32)
    ensures Bit(BitAnd(BitXor(a, b), BitXor(a, WrapSub(a, b))), 31) <==> !Fits32(Signed(a) - Signed(b))
  {
    hide Bit, BitXor, BitAnd;
    var r := WrapSub(a, b);
    BitAndBit(BitXor(a, b), BitXor(a, r), 31);
    BitXorBit(a, b, 31);
    BitXorBit(a, r, 31);
    SignBit32(a); SignBit32(b); SignBit32(r);
  }

  /**
   Host and oracle agree on every status flag, except the auxiliary carry after
   logic, which the host leaves undefined and the oracle does not define.
   */
  lemma StatusAgrees(op: AluOp, a: u32, b: u32, undefined: bool)
    ensures AluValue(HostOf(op), a, b) == AluResult(op, a, b)
    ensures HostStatus(HostOf(op), a, b, undefined) ==
            AluStatus(op, a, b).(auxiliary :=
              if op == AluAdd || op == AluSub then AluStatus(op, a, b).auxiliary else undefined)
  {
    hide Bit, BitXor, BitAnd, BitOr, CountOnes, OddOnes;
    var r := AluResult(op, a, b);
    ParityAgrees(r, 8);
    SignBit32(r);
    match op
    case AluAdd => AddAuxiliary(a, b); AddOverflow(a, b);
    case AluSub => SubAuxiliary(a, b); SubOverflow(a, b);
    case _ =>
  }

  /** The image PUSHFQ stores keeps all the status flags. */
  lemma PushMaskBit(k: nat)
    requires k < 12
    ensures Bit(0x00FC_FFFF, k)
  {
    assert Pow2(12) == 4096 by { assert Pow2(6) == 64; }
    ComplementBit(0, 12, k);
    ZeroBit(k);
    LowBit(4095, 0xFCF, 12, k);
  }

  /**
   Masking the pushed host flags into EFLAGS leaves exactly what the oracle
   leaves: its defined flags, and every other guest flag untouched.
   */
  lemma MergeAgrees(eflags: u32, rflags: u32, op: AluOp, a: u32, b: u32, undefined: bool)
    ensures MergeFlags(eflags, DefinedFlags(op), PushedFlags(AluRflags(rflags, HostStatus(HostOf(op), a, b, undefined))))
            == MergeFlags(eflags, DefinedFlags(op), FlagWord(AluStatus(op, a, b)))
  {
    hide Bit, BitAnd, MergeFlags, FlagWord, HostStatus, AluStatus;
    var mask := DefinedFlags(op);
    var host, guest := HostStatus(HostOf(op), a, b, undefined), AluStatus(op, a, b);
    var after := AluRflags(rflags, host);
    StatusAgrees(op, a, b, undefined);
    var x := MergeFlags(eflags, mask, PushedFlags(after));
    var y := MergeFlags(eflags, mask, FlagWord(guest));
    forall k | 0 <= k < 32 ensures Bit(x, k) == Bit(y, k) {
      MergeBit(eflags, mask, PushedFlags(after), k);
      MergeBit(eflags, mask, FlagWord(guest), k);
      MaskBit(k);
      if Bit(mask, k) {
        BitAndBit(after, 0x00FC_FFFF, k);
        PushMaskBit(k);
        MergeBit(rflags, ARITHMETIC, FlagWord(host), k);
        FlagBit(host, k);
        FlagBit(guest, k);
      }
    }
    SameWord(x, y);
  }
}
