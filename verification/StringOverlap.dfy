/**
 MOVS over overlapping ranges (exec.rs, `string_op`). Away from the direction of
 travel it is a true copy; ahead of it by whole elements it repeats the first
 ones as a pattern.
 */
module StringOverlap {
  import opened Words
  import opened Bits
  import opened GuestCpu
  import opened AluFlags
  import opened GuestMemory
  import opened Tier0
  import opened StringOps
  import opened StringMemory

  /** Byte `b` of element `j` is one of the first `k` elements'. */
  predicate Within(p: Plan, k: nat, j: nat, b: nat) { j < k && b < p.w.Bytes() }

  /** Bytes at different addresses of the two ranges lie in different physical bytes. */
  ghost predicate Unshared(s: MState, p: Plan, k: nat) {
    && (forall j: nat, b: nat, l: nat, c: nat :: Within(p, k, j, b) && Within(p, k, l, c) && Meets(WriteCell(s, p, j, b), ReadCell(s, p, l, c)) ==>
          DestinationAt(s, p, j) + b == SourceAt(s, p, l) + c)
    && (forall j: nat, b: nat, l: nat, c: nat :: Within(p, k, j, b) && Within(p, k, l, c) && Meets(WriteCell(s, p, j, b), WriteCell(s, p, l, c)) ==>
          DestinationAt(s, p, j) + b == DestinationAt(s, p, l) + c)
  }

  predicate Meets(a: Option<nat>, b: Option<nat>) { a.Some? && a == b }

  // --- where elements lie -----------------------------------------------------------------

  lemma NestedWrap(a: u32, y: u32, z: int)
    ensures WrapAdd(a, WrapAdd(y, z)) == WrapAdd(WrapAdd(a, y), z)
  {
    WrapSum(a, y, z);
    DivMod(y + z, TWO32);
    var q := (y + z) / TWO32;
    DivMod(a + (y + z), TWO32);
    var r := (a + (y + z)) / TWO32;
    assert a + WrapAdd(y, z) == TWO32 * (r - q) + (a + (y + z)) % TWO32;
    DivUnique(a + WrapAdd(y, z), TWO32, r - q, (a + (y + z)) % TWO32);
  }

  /** Elements follow the first one in steps of the width. */
  lemma ElementsFollow(s: MState, p: Plan, j: nat)
    ensures SourceAt(s, p, j) == WrapAdd(SourceAt(s, p, 0), j * Delta(s, p))
    ensures DestinationAt(s, p, j) == WrapAdd(DestinationAt(s, p, 0), j * Delta(s, p))
  {
    hide WrapAdd, Delta;
    var d := Delta(s, p);
    assert 0 * d == 0;
    WrapZero(Reg(s, Esi));
    WrapZero(Reg(s, Edi));
    NestedWrap(p.sourceBase, Reg(s, Esi), j * d);
    NestedWrap(p.destinationBase, Reg(s, Edi), j * d);
  }

  lemma StepIsWidth(s: MState, p: Plan)
    ensures Delta(s, p) == p.w.Bytes() || Delta(s, p) == -(p.w.Bytes() as int)
  {
    hide Bit;
  }

  /** Bytes of different elements have different addresses, unless they are an address space apart. */
  lemma BytesApart(a: u32, i: nat, j: nat, b: nat, c: nat, d: int, w: Width)
    requires (d == w.Bytes() || d == -(w.Bytes() as int)) && i < j && (j - i) * w.Bytes() < TWO32 && b < w.Bytes() && c < w.Bytes()
    ensures WrapAdd(a, i * d) + b != WrapAdd(a, j * d) + c
  {
    var n: nat := w.Bytes();
    var x, y := WrapAdd(a, i * d), WrapAdd(a, j * d);
    assert j * d - i * d == (j - i) * d;
    assert (j - i) * d == (j - i) * n || (j - i) * d == -((j - i) * n);
    MulGrows(n, j - i);
    if x + b == y + c {
      UnitAt(a, i, d, w);
      UnitAt(a, j, d, w);
      UnitCancel(x, b, y, c, n);
      SameWrap(a, i * d, j * d);
    }
  }

  lemma UnitAt(a: u32, j: nat, d: int, w: Width)
    requires d == w.Bytes() || d == -(w.Bytes() as int)
    ensures WrapAdd(a, j * d) % w.Bytes() == a % w.Bytes()
  {
    hide WrapAdd;
    WrapKeepsUnit(a, j * d, w);
    var n: int := w.Bytes();
    var sign := if d == n then 1 else -1;
    assert j * d == (sign * j) * n;
    MultipleOff(a, sign * j, n);
  }

  lemma SameWrap(a: u32, x: int, y: int)
    requires WrapAdd(a, x) == WrapAdd(a, y)
    ensures -TWO32 < y - x < TWO32 ==> x == y
  {
    DivMod(a + x, TWO32);
    DivMod(a + y, TWO32);
    var k := (a + y) / TWO32 - (a + x) / TWO32;
    if -TWO32 < y - x < TWO32 {
      assert TWO32 * k == y - x;
      SmallMultiple(TWO32, k, y - x);
    }
  }

  // --- away from the direction of travel -------------------------------------------------------

  /** Neither range wraps. */
  predicate Straight(s: MState, p: Plan, k: nat) {
    forall j :: 0 <= j < k ==>
      && SourceAt(s, p, j) == SourceAt(s, p, 0) + j * Delta(s, p)
      && DestinationAt(s, p, j) == DestinationAt(s, p, 0) + j * Delta(s, p)
  }

  /** The destination starts behind the source, seen in the direction of travel, or with it. */
  predicate Behind(s: MState, p: Plan) {
    if Delta(s, p) > 0 then DestinationAt(s, p, 0) <= SourceAt(s, p, 0) else DestinationAt(s, p, 0) >= SourceAt(s, p, 0)
  }

  lemma StepsApart(i: nat, j: nat, d: int, n: nat)
    requires i < j && n > 0 && (d == n || d == -(n as int))
    ensures d > 0 ==> j * d >= i * d + n
    ensures d <= 0 ==> j * d <= i * d - n
  {
    MulGrows(n, j - i);
    assert n * (j - i) == j * n - i * n;
    if d == n {
      assert j * d == j * n && i * d == i * n;
    } else {
      assert j * d == -(j * n) && i * d == -(i * n);
    }
  }

  lemma {:induction false} BehindLoadsFirst(s: MState, p: Plan, k: nat)
    requires Unshared(s, p, k) && Straight(s, p, k) && Behind(s, p)
    ensures LoadedFirst(s, p, k)
  {
    StepIsWidth(s, p);
    hide WriteCell, ReadCell, SourceAt, DestinationAt, Delta;
    forall j: nat, b: nat, l: nat, c: nat | j < l < k && b < p.w.Bytes() && c < p.w.Bytes() && WriteCell(s, p, j, b).Some?
      ensures WriteCell(s, p, j, b) != ReadCell(s, p, l, c) && WriteCell(s, p, j, b) != WriteCell(s, p, l, c)
    {
      StepsApart(j, l, Delta(s, p), p.w.Bytes());
      assert Within(p, k, j, b) && Within(p, k, l, c);
      assert SourceAt(s, p, l) == SourceAt(s, p, 0) + l * Delta(s, p);
      assert DestinationAt(s, p, j) == DestinationAt(s, p, 0) + j * Delta(s, p);
      assert DestinationAt(s, p, l) == DestinationAt(s, p, 0) + l * Delta(s, p);
    }
  }

  /**
   A true copy: ranges that overlap, with the destination behind the source in
   the direction of travel, end as if the source had been read first.
   */
  lemma OverlapCopies(s: MState, p: Plan, k: nat, j: nat, b: nat)
    requires p.kind.SMovs? && After(s, p, k).Ok? && Unshared(s, p, k) && Straight(s, p, k) && Behind(s, p) && j < k && b < p.w.Bytes()
    ensures WriteCell(s, p, j, b).Some? && ReadCell(s, p, j, b).Some?
    ensures WriteCell(s, p, j, b).value < |After(s, p, k).value.memory.physical| && ReadCell(s, p, j, b).value < |s.memory.physical|
    ensures After(s, p, k).value.memory.physical[WriteCell(s, p, j, b).value] == s.memory.physical[ReadCell(s, p, j, b).value]
  {
    hide Unshared, Straight, Behind, LoadedFirst, After, WriteCell, ReadCell;
    BehindLoadsFirst(s, p, k);
    MovsCopies(s, p, k, j, b);
  }

  // --- ahead of it by whole elements ------------------------------------------------------------------

  /** The destination lies `m` elements ahead of the source. */
  lemma AheadAt(s: MState, p: Plan, m: nat, j: nat)
    requires DestinationAt(s, p, 0) == SourceAt(s, p, m)
    ensures DestinationAt(s, p, j) == SourceAt(s, p, j + m)
  {
    hide WrapAdd, SourceAt, DestinationAt, Delta;
    ElementsFollow(s, p, j);
    ElementsFollow(s, p, m);
    ElementsFollow(s, p, j + m);
    WrapSum(SourceAt(s, p, 0), m * Delta(s, p), j * Delta(s, p));
    Gathers(m, j, Delta(s, p));
  }

  lemma Gathers(m: nat, j: nat, d: int)
    ensures m * d + j * d == (j + m) * d
  {}

  /** No byte of element `i` of the source range is one of element `j`. */
  lemma SourcesApart(s: MState, p: Plan, i: nat, j: nat, b: nat, c: nat)
    requires i != j && i * p.w.Bytes() < TWO32 && j * p.w.Bytes() < TWO32 && b < p.w.Bytes() && c < p.w.Bytes()
    ensures SourceAt(s, p, i) + b != SourceAt(s, p, j) + c
  {
    ElementsFollow(s, p, i);
    ElementsFollow(s, p, j);
    StepIsWidth(s, p);
    hide WrapAdd, SourceAt, Delta;
    var a, d, n := SourceAt(s, p, 0), Delta(s, p), p.w.Bytes();
    if i < j {
      assert (j - i) * n == j * n - i * n;
      BytesApart(a, i, j, b, c, d, p.w);
    } else {
      assert (i - j) * n == i * n - j * n;
      BytesApart(a, j, i, c, b, d, p.w);
    }
  }

  /** The same byte, read or written. */
  lemma SameByteCell(s: MState, p: Plan, j: nat, l: nat, b: nat)
    requires SourceAt(s, p, j) == DestinationAt(s, p, l) && ReadCell(s, p, j, b).Some? && WriteCell(s, p, l, b).Some?
    ensures ReadCell(s, p, j, b) == WriteCell(s, p, l, b)
  {
    hide SourceAt, DestinationAt;
  }

  lemma InBounds(k: nat, m: nat, i: nat, n: nat)
    requires (k + m) * n <= TWO32 && i < k + m && n > 0
    ensures i * n < TWO32
  {
    assert (k + m) * n == i * n + (k + m - i) * n;
    MulGrows(n, k + m - i);
  }

  /** What iteration `k` loads: the byte the pattern has there. */
  lemma LoadedByte(s: MState, p: Plan, k: nat, b: nat)
    requires p.kind.SMovs? && After(s, p, k + 1).Ok? && b < p.w.Bytes()
    ensures After(s, p, k).Ok? && StoredValue(After(s, p, k).value, p).Ok? && ReadCell(s, p, k, b).Some?
    ensures ReadCell(s, p, k, b).value < |s.memory.physical| == |After(s, p, k).value.memory.physical|
    ensures Le(StoredValue(After(s, p, k).value, p).value, p.w.Bytes())[b] ==
            After(s, p, k).value.memory.physical[ReadCell(s, p, k, b).value]
  {
    hide Iteration, Le, LoadWidth, StoreWidth, CellAt, DestinationAt, SourceAt;
    var t, u, value := StepStores(s, p, k);
    LoadedBytes(t.memory, SourceAt(s, p, k), p.w, b);
    SameCell(s.memory, t.memory, SourceAt(s, p, k), b, ReadAccess);
    WrittenInside(s, p, k, b);
  }

  /** A byte of the first `m` source elements is not stored before it is loaded. */
  lemma FirstUntouched(s: MState, p: Plan, m: nat, k: nat, b: nat)
    requires p.kind.SMovs? && After(s, p, k + 1).Ok? && Unshared(s, p, k + 1) && DestinationAt(s, p, 0) == SourceAt(s, p, m)
    requires k < m && (k + 1 + m) * p.w.Bytes() <= TWO32 && b < p.w.Bytes()
    ensures ReadCell(s, p, k, b).Some? && ReadCell(s, p, k, b).value < |s.memory.physical| == |After(s, p, k).value.memory.physical|
    ensures After(s, p, k).value.memory.physical[ReadCell(s, p, k, b).value] == s.memory.physical[ReadCell(s, p, k, b).value]
  {
    hide Iteration, WriteCell, ReadCell, SourceAt, DestinationAt, StoredValue, Le;
    LoadedByte(s, p, k, b);
    var y := ReadCell(s, p, k, b).value;
    forall i, c | 0 <= i < k && 0 <= c < p.w.Bytes() ensures WriteCell(s, p, i, c) != Some(y) {
      AheadAt(s, p, m, i);
      InBounds(k + 1, m, i + m, p.w.Bytes());
      InBounds(k + 1, m, k, p.w.Bytes());
      SourcesApart(s, p, i + m, k, c, b);
      assert Within(p, k + 1, i, c) && Within(p, k + 1, k, b);
    }
    StoresFrame(s, p, k, y);
  }

  /** A later element stores apart from an earlier one. */
  lemma LaterApart(s: MState, p: Plan, m: nat, k: nat, j: nat, b: nat, c: nat)
    requires Unshared(s, p, k + 1) && DestinationAt(s, p, 0) == SourceAt(s, p, m) && (k + 1 + m) * p.w.Bytes() <= TWO32
    requires j < k && b < p.w.Bytes() && c < p.w.Bytes() && WriteCell(s, p, j, b).Some?
    ensures WriteCell(s, p, k, c) != WriteCell(s, p, j, b)
  {
    hide WriteCell, ReadCell, SourceAt, DestinationAt;
    AheadAt(s, p, m, j);
    AheadAt(s, p, m, k);
    InBounds(k + 1, m, j + m, p.w.Bytes());
    InBounds(k + 1, m, k + m, p.w.Bytes());
    SourcesApart(s, p, j + m, k + m, b, c);
    assert Within(p, k + 1, j, b) && Within(p, k + 1, k, c);
  }

  lemma UnsharedEarlier(s: MState, p: Plan, k: nat)
    requires Unshared(s, p, k + 1)
    ensures Unshared(s, p, k)
  {
    hide WriteCell, ReadCell, SourceAt, DestinationAt;
  }

  lemma ModDown(j: nat, m: nat)
    requires 0 < m <= j
    ensures (j - m) % m == j % m
  {
    MultipleOff(j - m, 1, m);
  }

  lemma SmallMod(j: nat, m: nat)
    requires j < m
    ensures j % m == j
  {}

  /**
   A repeating pattern: with the destination `m` elements ahead of the source in
   the direction of travel, every destination byte is that of the source element
   `m` elements back, and so of one of the first `m`.
   */
  lemma {:induction false} MovsRepeats(s: MState, p: Plan, m: nat, k: nat, j: nat, b: nat)
    requires p.kind.SMovs? && After(s, p, k).Ok? && Unshared(s, p, k) && 0 < m && DestinationAt(s, p, 0) == SourceAt(s, p, m)
    requires (k + m) * p.w.Bytes() <= TWO32 && j < k && b < p.w.Bytes()
    ensures WriteCell(s, p, j, b).Some? && ReadCell(s, p, j % m, b).Some? && ReadCell(s, p, j % m, b).value < |s.memory.physical|
    ensures WriteCell(s, p, j, b).value < |s.memory.physical| == |After(s, p, k).value.memory.physical|
    ensures After(s, p, k).value.memory.physical[WriteCell(s, p, j, b).value] == s.memory.physical[ReadCell(s, p, j % m, b).value]
    decreases k
  {
    hide Iteration, Le, StoredValue, WriteCell, ReadCell, Unshared, SourceAt, DestinationAt;
    var last := k - 1;
    var t, value := StepWrites(s, p, last, b);
    WrittenInside(s, p, j, b);
    UnsharedEarlier(s, p, last);
    InBounds2(last, m, p.w.Bytes());
    if j == last {
      LoadedByte(s, p, last, b);
      if last < m {
        SmallMod(last, m);
        FirstUntouched(s, p, m, last, b);
      } else {
        ModDown(last, m);
        MovsRepeats(s, p, m, last, last - m, b);
        AheadAt(s, p, m, last - m);
        SameByteCell(s, p, last, last - m, b);
      }
    } else {
      MovsRepeats(s, p, m, last, j, b);
      forall c | 0 <= c < p.w.Bytes() ensures WriteCell(s, p, last, c) != WriteCell(s, p, j, b) { LaterApart(s, p, m, last, j, b, c); }
      StepFrames(s, p, last, WriteCell(s, p, j, b).value);
    }
  }

  lemma InBounds2(k: nat, m: nat, n: nat)
    requires (k + 1 + m) * n <= TWO32
    ensures (k + m) * n <= TWO32
  {
    assert (k + 1 + m) * n == (k + m) * n + n;
  }
}
