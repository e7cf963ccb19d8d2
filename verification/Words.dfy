/** Machine words, bytes and byte buffers as the unwinder sees them on x86_64. */
module Words {
  const TWO64: int := 0x1_0000_0000_0000_0000
  const TWO63: int := 0x8000_0000_0000_0000
  const TWO32: int := 0x1_0000_0000

  /** `sizeof` of the integer types. */
  const SHORT_SIZE: nat := 2
  const INT_SIZE: nat := 4
  const LONG_SIZE: nat := 8

  type Byte = b: int | 0 <= b < 256

  /** `unsigned long`; a `long` is kept as its two's complement pattern. */
  type Word = w: int | 0 <= w < 0x1_0000_0000_0000_0000

  datatype Option<+T> = None | Some(value: T)

  /** What the code did: the result, an error return, or a fault that does not return. */
  datatype Attempt<+T> = Done(value: T) | Refused | Faulted

  function Tried<T>(o: Option<T>): Attempt<T> {
    match o
    case Some(v) => Done(v)
    case None => Refused
  }

  function Wrap(x: int): Word {
    x % 0x1_0000_0000_0000_0000
  }

  /** The `long` that a pattern stands for. */
  function Signed(w: Word): int {
    if w < TWO63 then w else w - TWO64
  }

  /** A failure, whatever was tried. */
  function Propagate<T, U>(a: Attempt<T>): Attempt<U>
    requires !a.Done?
  {
    if a.Faulted? then Faulted else Refused
  }

  /** A product, named so that a proof that does not look inside can hide it. */
  function Product(x: int, y: int): int {
    x * y
  }

  /** A product taken modulo 2^64 may be taken on any representatives. */
  lemma WrapProduct(x: int, y: int)
    ensures Wrap(Wrap(x) * Wrap(y)) == Wrap(x * y)
  {
    var M := 0x1_0000_0000_0000_0000;
    var p, q := x / M, y / M;
    var a, b := x % M, y % M;
    assert x == M * p + a && y == M * q + b;
    assert x * y == M * (p * y + a * q) + a * b by {
      assert x * y == (M * p) * y + a * y;
      assert a * y == a * (M * q) + a * b;
      assert (M * p) * y == M * (p * y);
      assert a * (M * q) == M * (a * q);
    }
    WrapMultiple(p * y + a * q, a * b);
  }

  lemma WrapMultiple(k: int, r: int)
    ensures Wrap(0x1_0000_0000_0000_0000 * k + r) == Wrap(r)
  {
  }

  function Pow2(n: nat): (r: nat)
    ensures r >= 1
  {
    if n == 0 then 1 else 2 * Pow2(n - 1)
  }

  lemma Pow2Seven(n: nat)
    ensures Pow2(n + 7) == 128 * Pow2(n)
  {
    assert Pow2(n + 7) == 2 * Pow2(n + 6) == 4 * Pow2(n + 5) == 8 * Pow2(n + 4);
    assert Pow2(n + 4) == 2 * Pow2(n + 3) == 4 * Pow2(n + 2) == 8 * Pow2(n + 1);
  }

  lemma Pow2Byte(n: nat)
    ensures Pow2(n + 8) == 256 * Pow2(n)
  {
    Pow2Seven(n + 1);
  }

  lemma {:induction false} Pow2Monotone(m: nat, n: nat)
    requires m <= n
    ensures Pow2(m) <= Pow2(n)
  {
    if m < n {
      Pow2Monotone(m, n - 1);
    }
  }

  lemma Pow2Bytes()
    ensures Pow2(8) == 0x100 && Pow2(16) == 0x1_0000 && Pow2(32) == TWO32 && Pow2(64) == TWO64
  {
    assert Pow2(0) == 1;
    hide Pow2;
    Pow2Byte(0);
    Pow2Byte(8);
    Pow2Byte(16);
    Pow2Byte(24);
    Pow2Byte(32);
    Pow2Byte(40);
    Pow2Byte(48);
    Pow2Byte(56);
  }

  /** A left shift of an unbounded number. */
  function Shl(x: int, s: nat): int {
    if s == 0 then x else 2 * Shl(x, s - 1)
  }

  lemma {:induction false} ShlAdd(x: int, y: int, s: nat)
    ensures Shl(x + y, s) == Shl(x, s) + Shl(y, s)
  {
    if s != 0 {
      ShlAdd(x, y, s - 1);
    }
  }

  lemma {:induction false} ShlMonotone(x: int, y: int, s: nat)
    requires x <= y
    ensures Shl(x, s) <= Shl(y, s)
  {
    if s != 0 {
      ShlMonotone(x, y, s - 1);
    }
  }

  lemma {:induction false} ShlTwice(x: int, s: nat)
    ensures Shl(x, s + 1) == Shl(2 * x, s)
  {
    if s != 0 {
      ShlTwice(x, s - 1);
    }
  }

  lemma {:induction false} ShlSeven(x: int, s: nat)
    ensures Shl(x, s + 7) == Shl(128 * x, s)
  {
    ShlTwice(x, s + 6);
    ShlTwice(2 * x, s + 5);
    ShlTwice(4 * x, s + 4);
    ShlTwice(8 * x, s + 3);
    ShlTwice(16 * x, s + 2);
    ShlTwice(32 * x, s + 1);
    ShlTwice(64 * x, s);
  }

  lemma {:induction false} ShlPow2(n: nat, s: nat)
    ensures Shl(Pow2(n), s) == Pow2(n + s)
  {
    if s != 0 {
      ShlPow2(n, s - 1);
    }
  }

  /** The byte at an offset of a kernel buffer. Code that strays outside the buffer reads
      something the model does not know; it is taken to be 0 there. */
  function ByteAt(buf: seq<Byte>, i: nat): Byte {
    if i < |buf| then buf[i] else 0
  }

  /** Little-endian number of `n` bytes. */
  function LittleEndian(buf: seq<Byte>, pos: nat, n: nat): (r: nat)
    ensures r < Pow2(8 * n)
    decreases n
  {
    if n == 0 then 0 else
      Pow2Byte(8 * (n - 1));
      ByteAt(buf, pos) + 256 * LittleEndian(buf, pos + 1, n - 1)
  }

  function U16At(buf: seq<Byte>, pos: nat): (r: nat)
    ensures r < 0x1_0000
  {
    Pow2Bytes();
    LittleEndian(buf, pos, SHORT_SIZE)
  }

  function U32At(buf: seq<Byte>, pos: nat): (r: nat)
    ensures r < TWO32
  {
    Pow2Bytes();
    LittleEndian(buf, pos, INT_SIZE)
  }

  function U64At(buf: seq<Byte>, pos: nat): Word {
    Pow2Bytes();
    LittleEndian(buf, pos, LONG_SIZE)
  }

  /** Sign extension of an `n`-bit value to 64 bits. */
  function SignExtend(x: int, bits: nat): Word
    requires 0 < bits <= 64 && 0 <= x < Pow2(bits)
  {
    Pow2Bytes();
    Pow2Monotone(bits, 64);
    if x < Pow2(bits - 1) then x else Wrap(x - Pow2(bits))
  }

  /** `n` bytes of a number, least significant first: the inverse of `LittleEndian`. */
  function ToLittleEndian(x: nat, n: nat): (r: seq<Byte>)
    ensures |r| == n
  {
    if n == 0 then [] else [x % 256] + ToLittleEndian(x / 256, n - 1)
  }

  /** The last position, in table order, whose location is at or before `pc`. */
  function LastAtOrBefore(locs: seq<Word>, pc: Word): (r: Option<nat>)
    ensures r.Some? ==> r.value < |locs| && locs[r.value] <= pc
  {
    if locs == [] then None
    else if locs[|locs| - 1] <= pc then Some(|locs| - 1)
    else LastAtOrBefore(locs[..|locs| - 1], pc)
  }

  /** Everything from `from` on lies after `pc`. */
  ghost predicate AllAfter(locs: seq<Word>, pc: Word, from: nat) {
    forall i :: from <= i < |locs| ==> locs[i] > pc
  }

  lemma {:induction false} LastIs(locs: seq<Word>, pc: Word, at: nat)
    requires at < |locs| && locs[at] <= pc && AllAfter(locs, pc, at + 1)
    ensures LastAtOrBefore(locs, pc) == Some(at)
  {
    if at + 1 < |locs| {
      LastIs(locs[..|locs| - 1], pc, at);
    }
  }

  lemma {:induction false} NoLast(locs: seq<Word>, pc: Word)
    requires AllAfter(locs, pc, 0)
    ensures LastAtOrBefore(locs, pc).None?
  {
    if locs != [] {
      NoLast(locs[..|locs| - 1], pc);
    }
  }

  lemma {:induction false} LastOfCons(loc: Word, locs: seq<Word>, pc: Word)
    ensures LastAtOrBefore([loc] + locs, pc) ==
            match LastAtOrBefore(locs, pc)
            case Some(i) => Some(i + 1)
            case None => if loc <= pc then Some(0) else None
    decreases |locs|
  {
    var whole := [loc] + locs;
    if locs != [] {
      assert whole[..|whole| - 1] == [loc] + locs[..|locs| - 1];
      LastOfCons(loc, locs[..|locs| - 1], pc);
    } else {
      assert whole[..0] == [];
    }
  }

  /** `bytes` lies in the buffer at `pos`. */
  ghost predicate Holds(buf: seq<Byte>, pos: nat, bytes: seq<Byte>) {
    pos + |bytes| <= |buf| && buf[pos..pos + |bytes|] == bytes
  }

  lemma HoldsSplit(buf: seq<Byte>, pos: nat, a: seq<Byte>, b: seq<Byte>)
    requires Holds(buf, pos, a + b)
    ensures Holds(buf, pos, a) && Holds(buf, pos + |a|, b)
  {
    var whole := buf[pos..pos + |a + b|];
    assert whole[..|a|] == a && whole[|a|..] == b;
    assert whole[..|a|] == buf[pos..pos + |a|];
    assert whole[|a|..] == buf[pos + |a|..pos + |a| + |b|];
  }

  lemma HoldsHead(buf: seq<Byte>, pos: nat, bytes: seq<Byte>)
    requires Holds(buf, pos, bytes) && bytes != []
    ensures ByteAt(buf, pos) == bytes[0] && Holds(buf, pos + 1, bytes[1..])
  {
    assert bytes == [bytes[0]] + bytes[1..];
    HoldsSplit(buf, pos, [bytes[0]], bytes[1..]);
    assert buf[pos..pos + 1][0] == bytes[0];
  }

  lemma {:induction false} LittleEndianRoundTrip(buf: seq<Byte>, pos: nat, x: nat, n: nat)
    requires x < Pow2(8 * n)
    requires Holds(buf, pos, ToLittleEndian(x, n))
    ensures LittleEndian(buf, pos, n) == x
    decreases n
  {
    if n != 0 {
      HoldsHead(buf, pos, ToLittleEndian(x, n));
      assert ToLittleEndian(x, n)[1..] == ToLittleEndian(x / 256, n - 1);
      Pow2Byte(8 * (n - 1));
      LittleEndianRoundTrip(buf, pos + 1, x / 256, n - 1);
    }
  }

  // ----- bits -----

  /** The word whose `n` low bits are those of `a` and `b`, combined. */
  function Combine(op: (bool, bool) -> bool, a: nat, b: nat, n: nat): (r: nat)
    ensures r < Pow2(n)
    decreases n
  {
    if n == 0 then 0
    else (if op(a % 2 == 1, b % 2 == 1) then 1 else 0) + 2 * Combine(op, a / 2, b / 2, n - 1)
  }

  function And(a: Word, b: Word): Word {
    Pow2Bytes();
    Combine((x, y) => x && y, a, b, 64)
  }

  function Or(a: Word, b: Word): Word {
    Pow2Bytes();
    Combine((x, y) => x || y, a, b, 64)
  }

  function Xor(a: Word, b: Word): Word {
    Pow2Bytes();
    Combine((x, y) => x != y, a, b, 64)
  }

  /** Bit `k` of a number. */
  predicate Bit(x: nat, k: nat) {
    x / Pow2(k) % 2 == 1
  }

  lemma HalfAgain(x: nat, p: nat)
    requires p > 0
    ensures x / (2 * p) == x / 2 / p
  {
    var h, q, r := x / 2, x / 2 / p, x / 2 % p;
    assert h == q * p + r;
    var rest := 2 * r + x % 2;
    assert x == q * (2 * p) + rest && 0 <= rest < 2 * p;
    QuotientIs(x, 2 * p, q, rest);
  }

  lemma QuotientIs(x: nat, d: nat, q: nat, r: nat)
    requires d > 0 && x == Product(q, d) + r && r < d
    ensures x / d == q
  {
    hide Product;
    var q', r' := x / d, x % d;
    DivisionParts(x, d);
    if q > q' {
      Apart(q, q', d);
    } else if q < q' {
      Apart(q', q, d);
    }
  }

  lemma DivisionParts(x: nat, d: nat)
    requires d > 0
    ensures x == Product(x / d, d) + x % d
  {
  }

  lemma Apart(m: nat, n: nat, d: nat)
    requires m > n
    ensures Product(m, d) >= Product(n, d) + d
  {
    assert m * d == n * d + (m - n) * d;
    assert (m - n) * d == d + (m - n - 1) * d;
  }

  lemma {:induction false} BitOfCombined(op: (bool, bool) -> bool, a: nat, b: nat, n: nat, k: nat)
    requires k < n
    ensures Bit(Combine(op, a, b, n), k) == op(Bit(a, k), Bit(b, k))
    decreases n
  {
    var c := Combine(op, a, b, n);
    if k > 0 {
      BitOfCombined(op, a / 2, b / 2, n - 1, k - 1);
      assert c / 2 == Combine(op, a / 2, b / 2, n - 1);
      BitOfHalf(c, k);
      BitOfHalf(a, k);
      BitOfHalf(b, k);
    }
  }

  lemma BitOfHalf(x: nat, k: nat)
    requires k > 0
    ensures Bit(x, k) == Bit(x / 2, k - 1)
  {
    HalfAgain(x, Pow2(k - 1));
  }

  /** The bitwise operators are what their names say, bit by bit. */
  lemma BitwiseMeaning(a: Word, b: Word, k: nat)
    requires k < 64
    ensures And(a, b) / Pow2(k) % 2 == 1 <==> a / Pow2(k) % 2 == 1 && b / Pow2(k) % 2 == 1
    ensures Or(a, b) / Pow2(k) % 2 == 1 <==> a / Pow2(k) % 2 == 1 || b / Pow2(k) % 2 == 1
    ensures Xor(a, b) / Pow2(k) % 2 == 1 <==> (a / Pow2(k) % 2 == 1) != (b / Pow2(k) % 2 == 1)
  {
    hide Pow2;
    assert Bit(And(a, b), k) == (Bit(a, k) && Bit(b, k)) by { BitOfCombined((x, y) => x && y, a, b, 64, k); }
    assert Bit(Or(a, b), k) == (Bit(a, k) || Bit(b, k)) by { BitOfCombined((x, y) => x || y, a, b, 64, k); }
    assert Bit(Xor(a, b), k) == (Bit(a, k) != Bit(b, k)) by { BitOfCombined((x, y) => x != y, a, b, 64, k); }
  }
}
