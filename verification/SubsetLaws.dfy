/**
 Which instructions are register-only (subset.rs), by mnemonic and operands
 alone: exactly these are compiled, and all of them are.
 */
module SubsetLaws {
  import opened Words
  import opened GuestCpu
  import opened Iced
  import opened RegisterOnly
  import opened MoveLaws

  /** A 32-bit register. */
  ghost predicate Wide(o: Operand) { o.OpRegister? && exists k: nat :: k < 8 && o.register == Named(k) }

  /** NOP without operands, or a move or operation on a 32-bit register with one or with a 32-bit constant. */
  ghost predicate Direct(i: Instruction) {
    || (i.mnemonic == Nop && |i.operands| == 0)
    || (i.mnemonic in {Mov, Add, Sub, And, Or, Xor} && |i.operands| == 2
        && Wide(i.Op(0)) && (Wide(i.Op(1)) || i.Op(1).Immediate32? || i.Op(1).Immediate8to32?))
  }

  lemma ClassifyMeans(i: Instruction)
    ensures Classify(i).Some? <==> Direct(i)
  {
    hide AluOf, Wide, SignExtend8;
    WideIs(i.Op(0));
    WideIs(i.Op(1));
    AluIs(i.mnemonic);
    hide GprFromRegister;
  }

  lemma AluIs(m: Mnemonic)
    ensures AluOf(m).Some? <==> m in {Add, Sub, And, Or, Xor}
  {}

  lemma WideIs(o: Operand)
    ensures o.OpRegister? ==> (Wide(o) <==> GprFromRegister(o.register).Some?)
    ensures !o.OpRegister? ==> !Wide(o)
  {
    if o.OpRegister? && GprFromRegister(o.register).Some? {
      assert o.register == Named(Index(GprFromRegister(o.register).value));
    }
  }
}
