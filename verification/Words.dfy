/** Machine words as bounded integers: wrapping arithmetic and little-endian bytes. */
module Words {

  datatype Option<+T> = None | Some(value: T)

  datatype Result<+T, +E> = Ok(value: T) | Err(error: E)
  {
    predicate IsFailure() { Err? }

    function PropagateFailure<U>(): Result<U, E>
      requires Err?
    {
      Err(error)
    }

    function Extract(): T
      requires Ok?
    {
      value
    }
  }

  const TWO32: int := 0x1_0000_0000

  type u8 = x: int | 0 <= x < 0x100
  type u16 = x: int | 0 <= x < 0x1_0000
  type u32 = x: int | 0 <= x < 0x1_0000_0000
  type u64 = x: int | 0 <= x < 0x1_0000_0000_0000_0000

  function WrapAdd(a: u32, b: int): u32 { (a + b) % TWO32 }

  function WrapSub(a: u32, b: int): u32 { (a - b) % TWO32 }

  /** The two's complement reading of a word. */
  function Signed(a: u32): int { if a >= 0x8000_0000 then a - TWO32 else a }

  function Pow256(n: nat): (p: nat)
    ensures p > 0
  {
    if n == 0 then 1 else 256 * Pow256(n - 1)
  }

  /** The `n` low bytes of a number, lowest first. */
  function Le(v: nat, n: nat): (bytes: seq<u8>)
    ensures |bytes| == n
    decreases n
  {
    if n == 0 then [] else [v % 256] + Le(v / 256, n - 1)
  }

  /** The number little-endian bytes denote. */
  function FromLe(bytes: seq<u8>): nat {
    if bytes == [] then 0 else bytes[0] + 256 * FromLe(bytes[1..])
  }

  lemma {:induction false} FromLeBound(bytes: seq<u8>)
    ensures FromLe(bytes) < Pow256(|bytes|)
  {
    if bytes != [] { FromLeBound(bytes[1..]); }
  }

  /** Decoding what was encoded. */
  lemma {:induction false} FromLeOfLe(v: nat, n: nat)
    requires v < Pow256(n)
    ensures FromLe(Le(v, n)) == v
    decreases n
  {
    if n > 0 {
      FromLeOfLe(v / 256, n - 1);
      assert Le(v, n)[1..] == Le(v / 256, n - 1);
    }
  }

  /** Encoding what was decoded. */
  lemma {:induction false} LeOfFromLe(bytes: seq<u8>)
    ensures Le(FromLe(bytes), |bytes|) == bytes
  {
    if bytes != [] {
      LeOfFromLe(bytes[1..]);
      LowByte(bytes[0], FromLe(bytes[1..]));
      hide FromLe;
      assert [bytes[0]] + bytes[1..] == bytes;
    }
  }

  lemma LowByte(b: u8, rest: nat)
    ensures (b + 256 * rest) % 256 == b && (b + 256 * rest) / 256 == rest
  {}

  lemma Pow256Values()
    ensures Pow256(1) == 0x100 && Pow256(2) == 0x1_0000 && Pow256(4) == TWO32
  {
    assert Pow256(3) == 0x100_0000;
  }

  /** The little-endian bytes of a 32-bit word (`u32::to_le_bytes`). */
  function Le32(v: u32): (bytes: seq<u8>)
    ensures |bytes| == 4 && FromLe32(bytes) == v
  {
    Pow256Values();
    FromLeOfLe(v, 4);
    Le(v, 4)
  }

  /** The 32-bit word four little-endian bytes denote (`u32::from_le_bytes`). */
  function FromLe32(bytes: seq<u8>): u32
    requires |bytes| == 4
  {
    Pow256Values();
    FromLeBound(bytes);
    FromLe(bytes)
  }

  /** The concatenated images of a sequence. */
  function FlatMap<A, B>(f: A -> seq<B>, s: seq<A>): seq<B> {
    if s == [] then [] else FlatMap(f, s[..|s| - 1]) + f(s[|s| - 1])
  }

  lemma {:induction false} FlatMapAppend<A, B>(f: A -> seq<B>, a: seq<A>, b: seq<A>)
    ensures FlatMap(f, a + b) == FlatMap(f, a) + FlatMap(f, b)
  {
    if b == [] {
      assert a + b == a;
    } else {
      FlatMapAppend(f, a, b[..|b| - 1]);
      assert (a + b)[..|a + b| - 1] == a + b[..|b| - 1];
    }
  }
}
