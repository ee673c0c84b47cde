/**
 Shifts, rotates and bit tests bit by bit, over whole tier-0 steps (exec.rs,
 `shift` and `bit_test`): where each bit of the result came from, which bit left
 through the carry, and which flags were touched.
 */
module ShiftLaws {
  import opened Words
  import opened Bits
  import opened GuestCpu
  import opened Iced
  import opened AluFlags
  import opened GuestMemory
  import opened Rotates
  import opened Tier0
  import opened OperandLaws
  import opened InstructionLaws
  import opened StepLaws
  import opened MoveLaws
  import opened BitStrings

  // --- where bits come from --------------------------------------------------------------

  /** The place, in an operand of `n` bits with its carry at place `n`, that place `k` of the result is filled from. */
  function Origin(kind: ShiftKind, n: nat, count: nat, k: int): int
    requires n > 0
  {
    match kind
    case KShl => k - count
    case KShr => k + count
    case KSar => if k + count < n then k + count else n - 1
    case KRol => (k - count) % n
    case KRor => (k + count) % n
    case KRcl => (k - count) % (n + 1)
    case KRcr => (k + count) % (n + 1)
  }

  /** The bit found there: the operand's, its carry for the rotates that take it along, or none. */
  predicate Came(kind: ShiftKind, a: u32, carry: bool, n: nat, count: nat, k: int)
    requires n > 0
  {
    var place := Origin(kind, n, count, k);
    if 0 <= place < n then Bit(a, place) else place == n && kind in {KRcl, KRcr} && carry
  }

  /** The place the carry is taken from, as a place of the result. */
  function CarryPlace(kind: ShiftKind, n: nat): int {
    match kind
    case KShl => n
    case KShr => -1
    case KSar => -1
    case KRol => 0
    case KRor => n - 1
    case KRcl => n
    case KRcr => n
  }

  /** A result whose bits all came from where they should, and its carry too. */
  ghost predicate BitsMoved(kind: ShiftKind, a: u32, carry: bool, count: nat, w: Width, r: u32, out: bool) {
    && r < w.Modulus()
    && (forall k :: 0 <= k < w.Bits() ==> Bit(r, k) == Came(kind, a, carry, w.Bits(), count, k))
    && out == Came(kind, a, carry, w.Bits(), count, CarryPlace(kind, w.Bits()))
  }

  lemma ShlMoves(a: u32, carry: bool, count: nat, w: Width)
    requires a < w.Modulus() && 0 < count < 32
    ensures var r := ShiftSpec(KShl, a, carry, count, w); BitsMoved(KShl, a, carry, count, w, r.result, r.carry)
  {
    hide Bit, Mask, Pow2;
    WidthPowers(w);
    var n, wide := w.Bits(), a * Pow2(count);
    MaskBound(wide, w);
    forall k | 0 <= k <= n ensures Bit(wide, k) == Came(KShl, a, carry, n, count, k) { ScaledBit(a, count, k); }
    forall k | 0 <= k < n ensures Bit(Mask(wide, w), k) == Bit(wide, k) { MaskBits(wide, w, k); }
  }

  lemma ShrMoves(a: u32, carry: bool, count: nat, w: Width)
    requires a < w.Modulus() && 0 < count < 32
    ensures var r := ShiftSpec(KShr, a, carry, count, w); BitsMoved(KShr, a, carry, count, w, r.result, r.carry)
  {
    hide Bit, Mask, Pow2;
    WidthPowers(w);
    var n := w.Bits();
    DivLess(a, Pow2(count));
    var r := a / Pow2(count);
    MaskSmall(r, w);
    forall k | 0 <= k < n ensures Bit(r, k) == Came(KShr, a, carry, n, count, k) {
      ShiftedBit(a, count, k);
      if k + count >= n { HighBit(a, n, k + count); }
    }
    if count - 1 >= n { HighBit(a, n, count - 1); }
  }

  /** A number with ones above it, all the way up. */
  lemma OnesAbove(a: nat, n: nat, count: nat, ones: nat, j: nat)
    requires a < Pow2(n) && j < n + count && ones == Pow2(count) - 1
    ensures Bit(a + Pow2(n) * ones, j) == (if j < n then Bit(a, j) else true)
  {
    hide Bit, Pow2;
    if j < n {
      LowBit(a, ones, n, j);
    } else {
      UpperBit(a, ones, n, j - n);
      ZeroBit(j - n);
      ComplementBit(0, count, j - n);
    }
  }

  lemma UpperBit(x: nat, y: nat, n: nat, k: nat)
    requires x < Pow2(n)
    ensures Bit(x + Pow2(n) * y, n + k) == Bit(y, k)
  {
    hide Bit, Pow2;
    DivUnique(x + Pow2(n) * y, Pow2(n), y, x);
    ShiftedBit(x + Pow2(n) * y, n, k);
  }

  /** Floor division of a number that counts down from a power of two. */
  lemma FloorBelow(a: nat, m: nat, d: nat)
    requires a < m && d > 0
    ensures (a - m) / d == (a + m * (d - 1)) / d - m
  {
    var q, r := (a + m * (d - 1)) / d, (a + m * (d - 1)) % d;
    DivMod(a + m * (d - 1), d);
    DivUnique(a - m, d, q - m, r);
  }

  lemma {:induction false} FloorBits(a: u32, down: bool, count: nat, w: Width, k: nat)
    requires a < w.Modulus() && k < w.Bits() && down == Bit(a, w.Bits() - 1)
    ensures var x := if down then a - w.Modulus() else a;
            Bit(Mask(x / Pow2(count), w), k) == Bit(a, if k + count < w.Bits() then k + count else w.Bits() - 1)
  {
    hide Bit, Mask, Pow2;
    WidthPowers(w);
    var n, m := w.Bits(), w.Modulus();
    if down {
      var x := a + m * (Pow2(count) - 1);
      FloorBelow(a, m, Pow2(count));
      assert Mask(x / Pow2(count) - m, w) == Mask(x / Pow2(count), w) by { MaskLess(x / Pow2(count), w); }
      MaskBits(x / Pow2(count), w, k);
      ShiftedBit(x, count, k);
      OnesAbove(a, n, count, Pow2(count) - 1, k + count);
    } else {
      MaskBits(a / Pow2(count), w, k);
      ShiftedBit(a, count, k);
      if k + count >= n { HighBit(a, n, k + count); }
    }
  }

  lemma MaskLess(x: int, w: Width)
    ensures Mask(x - w.Modulus(), w) == Mask(x, w)
  {
    DivMod(x, w.Modulus());
    DivUnique(x - w.Modulus(), w.Modulus(), x / w.Modulus() - 1, x % w.Modulus());
  }

  lemma SarMoves(a: u32, carry: bool, count: nat, w: Width)
    requires a < w.Modulus() && 0 < count < 32
    ensures var r := ShiftSpec(KSar, a, carry, count, w); BitsMoved(KSar, a, carry, count, w, r.result, r.carry)
  {
    hide Bit, Mask, Pow2, SignExtend;
    var n, x := w.Bits(), SignExtend(a, w);
    SignBitOf(a, w);
    assert x == if Bit(a, n - 1) then a - w.Modulus() else a by { ExtendIs(a, w); }
    MaskBound(x / Pow2(count), w);
    forall k | 0 <= k < n ensures Bit(Mask(x / Pow2(count), w), k) == Came(KSar, a, carry, n, count, k) {
      FloorBits(a, Bit(a, n - 1), count, w, k);
    }
    FloorBits(a, Bit(a, n - 1), count - 1, w, 0);
    OddIs(x / Pow2(count - 1), w);
  }

  lemma ExtendIs(a: u32, w: Width)
    requires a < w.Modulus()
    ensures SignExtend(a, w) == if SignExtend(a, w) < 0 then a - w.Modulus() else a
  {}

  lemma OddIs(x: int, w: Width)
    ensures Bit(Mask(x, w), 0) <==> x % 2 == 1
  {
    hide Mask;
    WidthMaskIs(x, w);
    match w
    case Byte => Parity(x, 0x80);
    case Word => Parity(x, 0x8000);
    case Dword => Parity(x, 0x8000_0000);
  }

  lemma WidthMaskIs(x: int, w: Width)
    ensures Mask(x, w) == x % w.Modulus()
  {}

  lemma Parity(x: int, half: nat)
    requires half > 0
    ensures x % (2 * half) % 2 == x % 2
  {
    var r := x % (2 * half);
    DivMod(x, 2 * half);
    DivMod(r, 2);
    DivUnique(x, 2, half * (x / (2 * half)) + r / 2, r % 2);
  }

  /** A place counted down around `n`. */
  lemma AroundLeft(n: nat, count: nat, k: nat)
    requires 0 < n && k < n
    ensures (k - count) % n == if k >= count % n then k - count % n else k + n - count % n
  {
    DivMod(count, n);
    var c, q := count % n, count / n;
    if k >= c { DivUnique(k - count, n, 0 - q, k - c); } else { DivUnique(k - count, n, 0 - q - 1, k + n - c); }
  }

  lemma AroundRight(n: nat, count: nat, k: nat)
    requires 0 < n && k < n
    ensures (k + count) % n == if k + count % n < n then k + count % n else k + count % n - n
  {
    DivMod(count, n);
    var c, q := count % n, count / n;
    if k + c < n { DivUnique(k + count, n, q, k + c); } else { DivUnique(k + count, n, q + 1, k + c - n); }
  }

  /** Every bit of a rotated number, whatever the count. */
  lemma TurnedBit(v: nat, n: nat, count: nat, k: nat)
    requires n > 0 && v < Pow2(n) && k < n
    ensures Bit(RotLTimes(v, n, count), k) == Bit(v, (k - count) % n)
    ensures Bit(RotRTimes(v, n, count), k) == Bit(v, (k + count) % n)
  {
    hide Bit, Pow2, RotLTimes, RotRTimes;
    CountReduces(v, n, count);
    AroundLeft(n, count, k);
    AroundRight(n, count, k);
    RotLTimesBit(v, n, count % n, k);
    RightIsLeft(v, n, count % n);
    RotLTimesBit(v, n, n - count % n, k);
  }

  lemma RolMoves(a: u32, carry: bool, count: nat, w: Width)
    requires a < w.Modulus() && 0 < count < 32
    ensures var r := ShiftSpec(KRol, a, carry, count, w); BitsMoved(KRol, a, carry, count, w, r.result, r.carry)
    ensures var r := ShiftSpec(KRor, a, carry, count, w); BitsMoved(KRor, a, carry, count, w, r.result, r.carry)
  {
    hide Bit, Mask, Pow2, RotLTimes, RotRTimes;
    WidthPowers(w);
    var n := w.Bits();
    TimesBound(a, n, count);
    forall k | 0 <= k < n
      ensures Bit(RotLTimes(a, n, count), k) == Came(KRol, a, carry, n, count, k)
      ensures Bit(RotRTimes(a, n, count), k) == Came(KRor, a, carry, n, count, k)
    {
      TurnedBit(a, n, count, k);
      DivMod(k - count, n);
      DivMod(k + count, n);
    }
  }

  /** The bits of an operand with its carry on top. */
  lemma JoinedBit(a: u32, carry: bool, w: Width, k: nat)
    requires a < w.Modulus() && k <= w.Bits()
    ensures Joined(carry, a, w) < Pow2(w.Bits() + 1)
    ensures Bit(Joined(carry, a, w), k) == (if k < w.Bits() then Bit(a, k) else carry)
  {
    hide Bit, Pow2;
    WidthPowers(w);
    if k < w.Bits() { LowBit(a, BitOf(carry), w.Bits(), k); } else { TopBit(Joined(carry, a, w), w.Bits()); }
  }

  lemma RclMoves(a: u32, carry: bool, count: nat, w: Width)
    requires a < w.Modulus() && 0 < count < 32
    ensures var r := ShiftSpec(KRcl, a, carry, count, w); BitsMoved(KRcl, a, carry, count, w, r.result, r.carry)
    ensures var r := ShiftSpec(KRcr, a, carry, count, w); BitsMoved(KRcr, a, carry, count, w, r.result, r.carry)
  {
    hide Bit, Mask, Pow2, RotLTimes, RotRTimes, Joined;
    WidthPowers(w);
    var n, joined := w.Bits(), Joined(carry, a, w);
    JoinedBit(a, carry, w, 0);
    TimesBound(joined, n + 1, count);
    var left, right := RotLTimes(joined, n + 1, count), RotRTimes(joined, n + 1, count);
    MaskBound(left, w);
    MaskBound(right, w);
    forall k | 0 <= k <= n
      ensures Bit(left, k) == Came(KRcl, a, carry, n, count, k) && Bit(right, k) == Came(KRcr, a, carry, n, count, k)
    {
      TurnedBit(joined, n + 1, count, k);
      DivMod(k - count, n + 1);
      DivMod(k + count, n + 1);
      JoinedBit(a, carry, w, (k - count) % (n + 1));
      JoinedBit(a, carry, w, (k + count) % (n + 1));
    }
    forall k | 0 <= k < n ensures Bit(Mask(left, w), k) == Bit(left, k) && Bit(Mask(right, w), k) == Bit(right, k) {
      MaskBits(left, w, k);
      MaskBits(right, w, k);
    }
    TopBit(left, n);
    TopBit(right, n);
  }

  lemma ShiftMoves(kind: ShiftKind, a: u32, carry: bool, count: nat, w: Width)
    requires a < w.Modulus() && 0 < count < 32
    ensures var r := ShiftSpec(kind, a, carry, count, w); BitsMoved(kind, a, carry, count, w, r.result, r.carry)
  {
    hide ShiftSpec, BitsMoved;
    match kind
    case KShl => ShlMoves(a, carry, count, w);
    case KShr => ShrMoves(a, carry, count, w);
    case KSar => SarMoves(a, carry, count, w);
    case KRol => RolMoves(a, carry, count, w);
    case KRor => RolMoves(a, carry, count, w);
    case KRcl => RclMoves(a, carry, count, w);
    case KRcr => RclMoves(a, carry, count, w);
  }

  lemma SmallTurns(n: nat)
    requires n > 1
    ensures (0 - 1) % n == n - 1 && (n - 1) % (n + 1) == n - 1 && (n - 1 + 1) % (n + 1) == n && (n - 2 + 1) % n == n - 1
  {
    DivUnique(0 - 1, n, -1, n - 1);
  }

  /** After a count of one the overflow flag says that the sign changed. */
  lemma OverflowMeans(kind: ShiftKind, a: u32, carry: bool, w: Width)
    requires a < w.Modulus()
    ensures var r := ShiftSpec(kind, a, carry, 1, w); r.overflow == (Bit(r.result, w.Bits() - 1) != Bit(a, w.Bits() - 1))
  {
    hide Bit, Mask, Pow2, RotLTimes, RotRTimes, Joined, SignExtend;
    ShiftMoves(kind, a, carry, 1, w);
    var n, r := w.Bits(), ShiftSpec(kind, a, carry, 1, w);
    assert Bit(r.result, n - 1) == Came(kind, a, carry, n, 1, n - 1);
    assert Bit(r.result, n - 2) == Came(kind, a, carry, n, 1, n - 2);
    assert Bit(r.result, 0) == Came(kind, a, carry, n, 1, 0);
    SmallTurns(n);
  }

  // --- whole steps -------------------------------------------------------------------------

  /** The mnemonics of each operation. */
  predicate Spells(m: Mnemonic, kind: ShiftKind) {
    match kind
    case KShl => m in {Shl, Sal}
    case KShr => m == Shr
    case KSar => m == Sar
    case KRol => m == Rol
    case KRor => m == Ror
    case KRcl => m == Rcl
    case KRcr => m == Rcr
  }

  lemma ShiftDispatch(s: MState, i: Instruction, kind: ShiftKind)
    requires Spells(i.mnemonic, kind)
    ensures StraightLine(s, i) == ShiftOp(s, i, kind) && !IsBranch(i.mnemonic)
  {
    hide ShiftOp;
  }

  /** The count: the operand or CL, modulo 32. */
  predicate CountIs(s: MState, i: Instruction, count: nat) {
    match i.Op(1)
    case Immediate8(v) => count == v % 32
    case OpRegister(register) => register == NamedLow(1) && count == s.cpu.gpr[1] % 0x100 % 32
    case _ => false
  }

  lemma CountMeans(s: MState, i: Instruction, count: nat)
    ensures ShiftCount(s.cpu, i) == Ok(count) <==> CountIs(s, i, count)
  {
    assert s.cpu.gpr[1] % 0x100 % 32 == s.cpu.gpr[1] % 32;
  }

  /** Flags after a shift by some nonzero count: carry, overflow and what the number says, or as they were. */
  ghost predicate ShiftFlags(before: u32, after: u32, kind: ShiftKind, a: u32, count: nat, w: Width, r: u32, out: bool) {
    var n, rotate := w.Bits(), kind in {KRol, KRor, KRcl, KRcr};
    var number := NumberStatus(r, false, false, false, w);
    && Bit(after, 0) == (if kind in {KShl, KShr} && count >= n then Bit(before, 0) else out)
    && Bit(after, 2) == (if rotate then Bit(before, 2) else number.parity)
    && Bit(after, 6) == (if rotate then Bit(before, 6) else number.zero)
    && Bit(after, 7) == (if rotate then Bit(before, 7) else number.sign)
    && Bit(after, 11) == (if count == 1 then Bit(r, n - 1) != Bit(a, n - 1) else Bit(before, 11))
    && forall k :: 0 <= k < 32 && k !in {0, 2, 6, 7, 11} ==> Bit(after, k) == Bit(before, k)
  }

  /**
   A shift or rotate by some count writes the operand with its bits moved, and
   only the flags of the move change; by none it writes the operand back.
   */
  lemma ShiftMeans(s: MState, i: Instruction, kind: ShiftKind, w: Width, dst: Location, a: u32, count: nat, t: MState) returns (r: u32, out: bool)
    requires Spells(i.mnemonic, kind) && OneOperand(s, i, w, dst, a) && CountIs(s, i, count) && StepSpec(s, i) == Ok(t)
    ensures count == 0 ==> Moved(s, t, i, dst, w, a)
    ensures count > 0 ==> BitsMoved(kind, a, Bit(s.cpu.eflags, 0), count, w, r, out) && Wrote(s, t, i, dst, w, r)
                          && ShiftFlags(s.cpu.eflags, t.cpu.eflags, kind, a, count, w, r, out)
  {
    hide OneOperand, CountIs, StepSpec, StraightLine, ShiftOp, WriteAt, ShiftSpec, BitsMoved, ShiftFlags, Spells, Moved, Wrote, Bit;
    ShiftDispatch(s, i, kind);
    CountMeans(s, i, count);
    if count == 0 {
      r, out := 0, false;
      ShiftByNone(s, i, kind, w, dst, a);
      MoveStep(s, i, t, dst, w, a);
    } else {
      OperandFits(s, i, w, dst, a);
      CountSmall(s, i, count);
      var shifted := ShiftSpec(kind, a, Bit(s.cpu.eflags, 0), count, w);
      r, out := shifted.result, shifted.carry;
      ShiftMoves(kind, a, Bit(s.cpu.eflags, 0), count, w);
      var u := StraightStep(s, i, t);
      ShiftWrites(s, i, kind, w, dst, a, count, u);
      ShiftEnds(s, i, kind, w, dst, a, count, u, t);
    }
  }

  lemma CountSmall(s: MState, i: Instruction, count: nat)
    requires CountIs(s, i, count)
    ensures count < 32
  {}

  lemma ShiftByNone(s: MState, i: Instruction, kind: ShiftKind, w: Width, dst: Location, a: u32)
    requires OneOperand(s, i, w, dst, a) && ShiftCount(s.cpu, i) == Ok(0)
    ensures ShiftOp(s, i, kind) == WriteAt(s, dst, w, a)
  {
    hide ReadAt, WriteAt, Locate, OperandWidth, Sized, ShiftCount, ShiftSpec, Mask;
    MaskSmall(a, w);
  }

  lemma ShiftWrites(s: MState, i: Instruction, kind: ShiftKind, w: Width, dst: Location, a: u32, count: nat, u: MState)
    requires OneOperand(s, i, w, dst, a) && ShiftCount(s.cpu, i) == Ok(count) && 0 < count < 32 && ShiftOp(s, i, kind) == Ok(u)
    ensures var r := ShiftSpec(kind, a, Bit(s.cpu.eflags, 0), count, w);
            WriteAt(s, dst, w, r.result).Ok? && u == WithFlags(WriteAt(s, dst, w, r.result).value, ShiftMask(kind, count, w), ShiftStatus(r, w))
  {
    hide ReadAt, WriteAt, Locate, OperandWidth, Sized, ShiftCount, ShiftSpec, Mask, ShiftMask, ShiftStatus, WithFlags;
    MaskSmall(a, w);
  }

  lemma ShiftEnds(s: MState, i: Instruction, kind: ShiftKind, w: Width, dst: Location, a: u32, count: nat, u: MState, t: MState)
    requires a < w.Modulus() && 0 < count < 32 && t == Retire(JumpTo(u, WrapAdd(u.cpu.eip, i.len)))
    requires var r := ShiftSpec(kind, a, Bit(s.cpu.eflags, 0), count, w);
             WriteAt(s, dst, w, r.result).Ok? && u == WithFlags(WriteAt(s, dst, w, r.result).value, ShiftMask(kind, count, w), ShiftStatus(r, w))
    ensures var r := ShiftSpec(kind, a, Bit(s.cpu.eflags, 0), count, w);
            Wrote(s, t, i, dst, w, r.result) && ShiftFlags(s.cpu.eflags, t.cpu.eflags, kind, a, count, w, r.result, r.carry)
  {
    hide WriteAt, ShiftSpec, ShiftMask, ShiftStatus, WithFlags, Retire, JumpTo, WrapAdd, ShiftFlags, MergeFlags, FlagWord, Bit;
    var r := ShiftSpec(kind, a, Bit(s.cpu.eflags, 0), count, w);
    WriteKeeps(s, dst, w, r.result);
    FlagsFinish(s, WriteAt(s, dst, w, r.result).value, ShiftMask(kind, count, w), ShiftStatus(r, w), i, t);
    ShiftMoves(kind, a, Bit(s.cpu.eflags, 0), count, w);
    if count == 1 { OverflowMeans(kind, a, Bit(s.cpu.eflags, 0), w); }
    ShiftFlagsLeft(s.cpu.eflags, kind, a, count, w, r);
  }

  lemma ShiftFlagsLeft(before: u32, kind: ShiftKind, a: u32, count: nat, w: Width, r: Shifted)
    requires r.result < w.Modulus() && 0 < count < 32
    requires count == 1 ==> r.overflow == (Bit(r.result, w.Bits() - 1) != Bit(a, w.Bits() - 1))
    ensures ShiftFlags(before, MergeFlags(before, ShiftMask(kind, count, w), FlagWord(ShiftStatus(r, w))), kind, a, count, w, r.result, r.carry)
  {
    hide ResultBits, NumberStatus, Bit, MergeFlags, FlagWord, ShiftMask;
    LogicNumber(r.result, w);
    var defined, st := ShiftMask(kind, count, w), ShiftStatus(r, w);
    forall k | 0 <= k < 32 ensures Bit(MergeFlags(before, defined, FlagWord(st)), k) == if Defines(kind, count, w, k) then Bit(FlagWord(st), k) else Bit(before, k) {
      ShiftMaskBit(kind, count, w, k);
      MergeBit(before, defined, FlagWord(st), k);
    }
    FlagBit(st, 0); FlagBit(st, 2); FlagBit(st, 6); FlagBit(st, 7); FlagBit(st, 11);
  }

  /** The flag places a shift defines. */
  predicate Defines(kind: ShiftKind, count: nat, w: Width, k: nat) {
    || (k == 0 && !(kind in {KShl, KShr} && count >= w.Bits()))
    || (k in {2, 6, 7} && kind in {KShl, KShr, KSar})
    || (k == 11 && count == 1)
  }

  lemma ShiftMaskBit(kind: ShiftKind, count: nat, w: Width, k: nat)
    requires k < 32
    ensures Bit(ShiftMask(kind, count, w), k) == Defines(kind, count, w, k)
  {
    hide Bit;
    var rotate := kind in {KRol, KRor, KRcl, KRcr};
    var st := Status(!(kind in {KShl, KShr} && count >= w.Bits()), !rotate, false, !rotate, !rotate, count == 1);
    assert FlagWord(st) == ShiftMask(kind, count, w);
    FlagBit(st, k);
  }

  // --- bit tests ------------------------------------------------------------------------------

  /** The bit an instruction names: in a register or an operand in memory modulo the width, or in the string of bits around an address. */
  ghost predicate BitAt(s: MState, i: Instruction, w: Width, dst: Location, bit: nat) {
    && w in {Word, Dword} && OperandWidth(s.cpu, i, 0) == Ok(w)
    && match (i.Op(0), i.Op(1))
       case (OpRegister(register), _) =>
         dst == InRegister(register) && exists src, index :: Locate(s.cpu, i, 1) == Ok(src) && ReadAt(s, src, w) == Ok(index) && bit == index % w.Bits()
       case (OpMemory, Immediate8(v)) =>
         dst.InMemory? && EffectiveAddress(s.cpu, i.memory, true) == Ok(dst.address) && bit == v % w.Bits()
       case (OpMemory, OpRegister(register)) =>
         exists base, index :: EffectiveAddress(s.cpu, i.memory, true) == Ok(base) && ReadRegister(s.cpu, register) == Ok(index)
           && bit == SignExtend(index, w) % w.Bits() && dst == InMemory((base + SignExtend(index, w) / w.Bits() * w.Bytes()) % TWO32)
       case _ => false
  }

  lemma BitTargetIs(s: MState, i: Instruction, w: Width, dst: Location, bit: nat)
    requires BitAt(s, i, w, dst, bit)
    ensures BitLocation(s, i, w) == Ok(BitTarget(dst, bit))
  {
    hide OperandWidth, EffectiveAddress, ReadRegister, Locate, ReadAt, SignExtend;
  }

  /** Only the carry changed. */
  ghost predicate CarryLeft(before: u32, after: u32, carry: bool) {
    Bit(after, 0) == carry && forall k :: 0 < k < 32 ==> Bit(after, k) == Bit(before, k)
  }

  /** A bit test leaves the bit in the carry; BTS sets it, BTR clears it and BTC flips it, and every other bit stays. */
  lemma BitTestMeans(s: MState, i: Instruction, w: Width, dst: Location, bit: nat, value: u32, t: MState) returns (r: u32)
    requires i.mnemonic in {Bt, Bts, Btr, Btc} && BitAt(s, i, w, dst, bit) && ReadAt(s, dst, w) == Ok(value) && StepSpec(s, i) == Ok(t)
    ensures CarryLeft(s.cpu.eflags, t.cpu.eflags, Bit(value, bit))
    ensures i.mnemonic == Bt ==> OnlyFlags(s, t, i)
    ensures i.mnemonic != Bt ==> Wrote(s, t, i, dst, w, r)
    ensures forall k :: 0 <= k < 32 && k != bit ==> Bit(r, k) == Bit(value, k)
    ensures (i.mnemonic == Bts ==> Bit(r, bit)) && (i.mnemonic == Btr ==> !Bit(r, bit)) && (i.mnemonic == Btc ==> Bit(r, bit) != Bit(value, bit))
  {
    hide BitAt, ReadAt, WriteAt, StepSpec, StraightLine, BitTestOp, CarryLeft, Bit, Finished, Retire, JumpTo, WithFlags, WrapAdd;
    BitDispatch(s, i);
    var u := StraightStep(s, i, t);
    var v;
    r, v := BitTestParts(s, i, w, dst, bit, value, u);
    FlagsFinish(s, v, CARRY, CarryOnly(Bit(value, bit)), i, t);
    CarryMerges(s.cpu.eflags, Bit(value, bit));
  }

  lemma CarryMerges(before: u32, carry: bool)
    ensures CarryLeft(before, MergeFlags(before, CARRY, FlagWord(CarryOnly(carry))), carry)
  {
    hide Bit, MergeFlags, FlagWord;
    CarryMerge(before, carry);
  }

  lemma BitDispatch(s: MState, i: Instruction)
    requires i.mnemonic in {Bt, Bts, Btr, Btc}
    ensures StraightLine(s, i) == BitTestOp(s, i) && !IsBranch(i.mnemonic)
  {
    hide BitTestOp;
  }

  lemma BitTestParts(s: MState, i: Instruction, w: Width, dst: Location, bit: nat, value: u32, u: MState) returns (r: u32, v: MState)
    requires i.mnemonic in {Bt, Bts, Btr, Btc} && BitAt(s, i, w, dst, bit) && ReadAt(s, dst, w) == Ok(value) && BitTestOp(s, i) == Ok(u)
    ensures u == WithFlags(v, CARRY, CarryOnly(Bit(value, bit)))
    ensures v.cpu.eip == s.cpu.eip && v.cpu.tsc == s.cpu.tsc && v.cpu.eflags == s.cpu.eflags
    ensures if i.mnemonic == Bt then v == s else WriteAt(s, dst, w, r) == Ok(v)
    ensures bit < 32 && forall k :: 0 <= k < 32 && k != bit ==> Bit(r, k) == Bit(value, k)
    ensures (i.mnemonic == Bts ==> Bit(r, bit)) && (i.mnemonic == Btr ==> !Bit(r, bit)) && (i.mnemonic == Btc ==> Bit(r, bit) != Bit(value, bit))
  {
    hide ReadAt, WriteAt, OperandWidth, BitLocation, Bit, WithFlags, BitUpdate;
    BitTargetIs(s, i, w, dst, bit);
    var updated := BitUpdate(i.mnemonic, value, bit);
    UpdateIs(i.mnemonic, value, bit);
    r := if updated.Some? then updated.value else value;
    v := if updated.Some? then WriteAt(s, dst, w, r).value else s;
    if updated.Some? { WriteKeeps(s, dst, w, r); }
  }

  lemma UpdateIs(m: Mnemonic, value: u32, bit: nat)
    requires m in {Bt, Bts, Btr, Btc} && bit < 32
    ensures BitUpdate(m, value, bit).Some? <==> m != Bt
    ensures m != Bt ==> var r := BitUpdate(m, value, bit).value;
                        && (forall k :: 0 <= k < 32 && k != bit ==> Bit(r, k) == Bit(value, k))
                        && (m == Bts ==> Bit(r, bit)) && (m == Btr ==> !Bit(r, bit)) && (m == Btc ==> Bit(r, bit) != Bit(value, bit))
  {
    hide Bit, BitOr, BitAnd, BitXor, BitNot, Pow2;
    if m != Bt {
      forall k | 0 <= k < 32 ensures Bit(BitUpdate(m, value, bit).value, k) == if k == bit then NewBit(m, Bit(value, bit)) else Bit(value, k) {
        UpdateBits(m, value, bit, k);
      }
    }
  }
}
