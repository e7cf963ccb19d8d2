/** The two LEB128 readers (section 7.6 of DWARF 4), their encoders, and how far the readers
    invert the encoders. A cursor one past `end` is the readers' only error signal. */
module Leb128 {
  import opened Words

  datatype Decoded = Decoded(value: Word, cur: nat)

  /** The seven payload bits of a byte, in place. Payload at 64 bits or above (the eleventh
      byte on, an undefined shift in C) is dropped. */
  function Payload(b: Byte, shift: nat): int {
    if shift < 64 then Shl(b % 128, shift) else 0
  }

  /** Payload that does not fit the bits left in the word. */
  predicate Overflows(b: Byte, shift: nat) {
    57 < shift < 64 && b % 128 >= Pow2(64 - shift)
  }

  predicate Fits(value: int, shift: nat) {
    0 <= value < if shift < 64 then Pow2(shift) else TWO64
  }

  lemma PayloadFits(b: Byte, shift: nat, value: nat)
    requires Fits(value, shift) && !Overflows(b, shift)
    ensures Fits(value + Payload(b, shift), shift + 7) && value + Payload(b, shift) < TWO64
    ensures Payload(b, shift) >= 0
  {
    if shift <= 57 {
      PayloadBelow(b, shift, value);
    } else if shift < 64 {
      PayloadTop(b, shift, value);
    }
  }

  lemma PayloadBelow(b: Byte, shift: nat, value: nat)
    requires shift <= 57 && value < Pow2(shift)
    ensures 0 <= Shl(b % 128, shift) && value + Shl(b % 128, shift) < Pow2(shift + 7) <= TWO64
  {
    ShlBetween(b % 128, 128, shift);
    Pow2Seven(0);
    ShlPow2(7, shift);
    Pow2Bytes();
    Pow2Monotone(shift + 7, 64);
  }

  lemma PayloadTop(b: Byte, shift: nat, value: nat)
    requires 57 < shift < 64 && value < Pow2(shift) && b % 128 < Pow2(64 - shift)
    ensures 0 <= Shl(b % 128, shift) && value + Shl(b % 128, shift) < TWO64
  {
    ShlBetween(b % 128, Pow2(64 - shift), shift);
    ShlPow2(64 - shift, shift);
    Pow2Bytes();
  }

  lemma ShlBetween(x: nat, y: nat, s: nat)
    requires x < y
    ensures 0 <= Shl(x, s) && Shl(x, s) + Pow2(s) <= Shl(y, s)
  {
    ShlPow2(0, s);
    ShlAdd(x, 1, s);
    ShlMonotone(x + 1, y, s);
    ShlAdd(0, 0, s);
    ShlMonotone(0, x, s);
  }

  /** What the unsigned reader returns when it has `value` from `shift` bits already. */
  function Uleb(buf: seq<Byte>, cur: nat, end: nat, shift: nat, value: nat): (r: Decoded)
    requires Fits(value, shift)
    ensures r.cur >= cur
    ensures cur <= end ==> r.cur <= end + 1
    ensures cur < end ==> r.cur > cur
    ensures cur >= end ==> r.cur == cur
    decreases end - cur
  {
    if cur >= end then
      assert value < TWO64 by { Pow2Bytes(); if shift < 64 { Pow2Monotone(shift, 64); } }
      Decoded(value, cur)
    else
      var b := ByteAt(buf, cur);
      if Overflows(b, shift) then
        assert value < TWO64 by { Pow2Bytes(); Pow2Monotone(shift, 64); }
        Decoded(value, end + 1)
      else
        PayloadFits(b, shift, value);
        var v := value + Payload(b, shift);
        if b < 128 then Decoded(v, cur + 1) else Uleb(buf, cur + 1, end, shift + 7, v)
  }

  /** The `k` low bits of a number. */
  function LowBits(v: nat, k: nat): (r: nat)
    ensures r < Pow2(k)
    decreases k
  {
    if k == 0 then 0 else v % 2 + 2 * LowBits(v / 2, k - 1)
  }

  /** `value |= -64 << shift` with the left operand an `int`: the shift happens in 32 bits
      (count taken modulo 32) before the result is widened. */
  function SignFill(v: Word, shift: nat): Word {
    var k := shift % 32;
    if k <= 25 then
      assert Pow2(6 + k) <= TWO64 by { Pow2Bytes(); Pow2Monotone(6 + k, 64); }
      LowBits(v, 6 + k) + (TWO64 - Pow2(6 + k))
    else
      v
  }

  /** What the signed reader returns; the value is a two's complement pattern. */
  function Sleb(buf: seq<Byte>, cur: nat, end: nat, shift: nat, value: nat): (r: Decoded)
    requires Fits(value, shift)
    ensures r.cur >= cur
    ensures cur <= end ==> r.cur <= end + 1
    ensures cur < end ==> r.cur > cur
    ensures cur >= end ==> r.cur == cur
    decreases end - cur
  {
    if cur >= end then
      assert value < TWO64 by { Pow2Bytes(); if shift < 64 { Pow2Monotone(shift, 64); } }
      Decoded(value, cur)
    else
      var b := ByteAt(buf, cur);
      if Overflows(b, shift) then
        assert value < TWO64 by { Pow2Bytes(); Pow2Monotone(shift, 64); }
        Decoded(value, end + 1)
      else
        PayloadFits(b, shift, value);
        var v := value + Payload(b, shift);
        if b < 128 then Decoded(if b >= 64 then SignFill(v, shift) else v, cur + 1)
        else Sleb(buf, cur + 1, end, shift + 7, v)
  }

  function GetUleb(buf: seq<Byte>, cur: nat, end: nat): (r: Decoded)
    ensures r.cur >= cur
  {
    Uleb(buf, cur, end, 0, 0)
  }

  function GetSleb(buf: seq<Byte>, cur: nat, end: nat): (r: Decoded)
    ensures r.cur >= cur
  {
    Sleb(buf, cur, end, 0, 0)
  }

  /** The unsigned reader with no bound: outside the buffer the model has only zero bytes, so
      any group ends by then. */
  function GetUnbounded(buf: seq<Byte>, cur: nat): Decoded {
    GetUleb(buf, cur, cur + |buf| + 1)
  }

  method ReadUleb128(buf: seq<Byte>, start: nat, end: nat) returns (value: Word, cur: nat)
    ensures Decoded(value, cur) == GetUleb(buf, start, end)
  {
    cur, value := start, 0;
    var shift := 0;
    while cur < end
      invariant Fits(value, shift)
      invariant Uleb(buf, cur, end, shift, value) == GetUleb(buf, start, end)
      decreases end - cur
    {
      var b := ByteAt(buf, cur);
      if shift + 7 > 64 && Overflows(b, shift) {
        cur := end + 1;
        break;
      }
      PayloadFits(b, shift, value);
      value := value + Payload(b, shift);
      cur := cur + 1;
      if b < 128 {
        return;
      }
      shift := shift + 7;
    }
  }

  method ReadSleb128(buf: seq<Byte>, start: nat, end: nat) returns (value: Word, cur: nat)
    ensures Decoded(value, cur) == GetSleb(buf, start, end)
  {
    cur, value := start, 0;
    var shift := 0;
    while cur < end
      invariant Fits(value, shift)
      invariant Sleb(buf, cur, end, shift, value) == GetSleb(buf, start, end)
      decreases end - cur
    {
      var b := ByteAt(buf, cur);
      if shift + 7 > 64 && Overflows(b, shift) {
        cur := end + 1;
        break;
      }
      PayloadFits(b, shift, value);
      value := value + Payload(b, shift);
      cur := cur + 1;
      if b < 128 {
        if b >= 64 {
          value := SignFill(value, shift);
        }
        return;
      }
      shift := shift + 7;
    }
  }

  // ----- unsigned numbers -----

  /** A complete LEB128 group: every byte but the last asks for another. */
  ghost predicate Group(g: seq<Byte>) {
    && g != []
    && g[|g| - 1] < 128
    && forall i :: 0 <= i < |g| - 1 ==> g[i] >= 128
  }

  /** The number a group denotes: base 128, least significant digit first. */
  function Number(g: seq<Byte>): nat {
    if g == [] then 0 else g[0] % 128 + 128 * Number(g[1..])
  }

  /** The reader computes exactly the number a group of at most ten bytes denotes, or flags
      it with a cursor past the end when that number does not fit in 64 bits. */
  lemma {:induction false} UlebReadsGroup(buf: seq<Byte>, cur: nat, end: nat, shift: nat, value: nat, g: seq<Byte>)
    requires Group(g) && Holds(buf, cur, g) && cur + |g| <= end
    requires shift + 7 * (|g| - 1) < 64 && value < Pow2(shift)
    ensures var total := value + Shl(Number(g), shift);
            if 0 <= total < TWO64 then Uleb(buf, cur, end, shift, value) == Decoded(total, cur + |g|)
            else Uleb(buf, cur, end, shift, value).cur == end + 1
    decreases |g|
  {
    HoldsHead(buf, cur, g);
    if |g| == 1 {
      assert Number(g) == g[0];
      UlebReadsLast(buf, cur, end, shift, value);
    } else {
      var rest := g[1..];
      NumberShifted(g, shift);
      PayloadBelow(g[0], shift, value);
      UlebReadsGroup(buf, cur + 1, end, shift + 7, value + Shl(g[0] % 128, shift), rest);
    }
  }

  lemma NumberShifted(g: seq<Byte>, shift: nat)
    requires g != []
    ensures Shl(Number(g), shift) == Shl(g[0] % 128, shift) + Shl(Number(g[1..]), shift + 7)
  {
    ShlAdd(g[0] % 128, 128 * Number(g[1..]), shift);
    ShlSeven(Number(g[1..]), shift);
  }

  lemma UlebReadsLast(buf: seq<Byte>, cur: nat, end: nat, shift: nat, value: nat)
    requires ByteAt(buf, cur) < 128 && cur < end && shift < 64 && value < Pow2(shift)
    ensures var total := value + Shl(ByteAt(buf, cur), shift);
            if 0 <= total < TWO64 then Uleb(buf, cur, end, shift, value) == Decoded(total, cur + 1)
            else Uleb(buf, cur, end, shift, value).cur == end + 1
  {
    hide Pow2, Shl;
    var b := ByteAt(buf, cur);
    if Overflows(b, shift) {
      ShlMonotone(Pow2(64 - shift), b, shift);
      ShlPow2(64 - shift, shift);
      Pow2Bytes();
    } else {
      PayloadFits(b, shift, value);
    }
  }

  lemma GetUlebReadsGroup(buf: seq<Byte>, cur: nat, end: nat, g: seq<Byte>)
    requires Group(g) && Holds(buf, cur, g) && cur + |g| <= end && |g| <= 10
    ensures if Number(g) < TWO64 then GetUleb(buf, cur, end) == Decoded(Number(g), cur + |g|)
            else GetUleb(buf, cur, end).cur == end + 1
  {
    UlebReadsGroup(buf, cur, end, 0, 0, g);
  }

  function UlebEncode(n: nat): seq<Byte> {
    if n < 128 then [n] else [128 + n % 128] + UlebEncode(n / 128)
  }

  lemma {:induction false} UlebEncodeIsGroup(n: nat)
    ensures Group(UlebEncode(n)) && Number(UlebEncode(n)) == n
  {
    var g := UlebEncode(n);
    if n < 128 {
      assert g[1..] == [];
    } else {
      UlebEncodeIsGroup(n / 128);
      assert g[1..] == UlebEncode(n / 128);
    }
  }

  lemma {:induction false} UlebEncodeLength(n: nat, m: nat)
    requires m > 0 && n < Pow2(7 * m)
    ensures |UlebEncode(n)| <= m
    decreases m
  {
    if n >= 128 {
      Pow2Seven(7 * (m - 1));
      UlebEncodeLength(n / 128, m - 1);
    }
  }

  /** Decoding inverts encoding for every 64-bit number, wherever it lies in the buffer. */
  lemma UlebRoundTrip(buf: seq<Byte>, cur: nat, end: nat, n: Word)
    requires Holds(buf, cur, UlebEncode(n)) && cur + |UlebEncode(n)| <= end
    ensures GetUleb(buf, cur, end) == Decoded(n, cur + |UlebEncode(n)|)
  {
    Pow2Bytes();
    Pow2Monotone(64, 70);
    UlebEncodeLength(n, 10);
    UlebEncodeIsGroup(n);
    GetUlebReadsGroup(buf, cur, end, UlebEncode(n));
  }

  /** A tenth byte that carries more than the one bit left is flagged, whatever follows. */
  lemma {:induction false} UlebFlagsTenthByte(buf: seq<Byte>, cur: nat, end: nat, done: nat, value: nat)
    requires done <= 9 && cur + (9 - done) < end && value < Pow2(7 * done)
    requires forall j :: cur <= j < cur + (9 - done) ==> ByteAt(buf, j) >= 128
    requires ByteAt(buf, cur + (9 - done)) % 128 > 1
    ensures Uleb(buf, cur, end, 7 * done, value).cur == end + 1
    decreases 9 - done
  {
    if done == 9 {
      assert Pow2(1) == 2;
    } else {
      var b := ByteAt(buf, cur);
      PayloadFits(b, 7 * done, value);
      UlebFlagsTenthByte(buf, cur + 1, end, done + 1, value + Payload(b, 7 * done));
    }
  }

  /** Bounds do not matter to a group that ends before them: re-reading a length with no
      bound, as the expression evaluator does, gives what the bounded read gave. */
  lemma {:induction false} UlebBoundIrrelevant(buf: seq<Byte>, cur: nat, end: nat, end': nat, shift: nat, value: nat)
    requires Fits(value, shift) && cur < end <= end'
    requires Uleb(buf, cur, end, shift, value).cur <= end
    requires ByteAt(buf, Uleb(buf, cur, end, shift, value).cur - 1) < 128
    ensures Uleb(buf, cur, end', shift, value) == Uleb(buf, cur, end, shift, value)
    decreases end - cur
  {
    var b := ByteAt(buf, cur);
    if b >= 128 {
      PayloadFits(b, shift, value);
      UlebBoundIrrelevant(buf, cur + 1, end, end', shift + 7, value + Payload(b, shift));
    }
  }

  // ----- signed numbers -----

  function SlebEncode(n: int): seq<Byte>
    decreases if n < 0 then -n else n
  {
    if -64 <= n < 64 then [n % 128] else [128 + n % 128] + SlebEncode(n / 128)
  }

  /** `m` bytes hold exactly the numbers of `7m` signed bits. */
  lemma {:induction false} SlebEncodeLength(n: int, m: nat)
    requires m > 0
    ensures |SlebEncode(n)| <= m <==> 0 - Pow2(7 * m - 1) <= n < Pow2(7 * m - 1)
    decreases m
  {
    if m == 1 {
      assert Pow2(6) == 64;
    } else {
      Pow2Seven(7 * (m - 1) - 1);
      assert Pow2(6) == 64;
      Pow2Monotone(6, 7 * m - 1);
      if !(-64 <= n < 64) {
        SlebEncodeLength(n / 128, m - 1);
      }
    }
  }

  lemma {:induction false} SlebEncodeIsGroup(n: int)
    ensures Group(SlebEncode(n))
    ensures var g := SlebEncode(n); g[|g| - 1] >= 64 <==> n < 0
    decreases if n < 0 then -n else n
  {
    var g := SlebEncode(n);
    if !(-64 <= n < 64) {
      SlebEncodeIsGroup(n / 128);
      assert g[1..] == SlebEncode(n / 128);
    }
  }

  lemma {:induction false} SlebEncodeNumber(n: int)
    ensures Number(SlebEncode(n)) == n + (if n < 0 then Pow2(7 * |SlebEncode(n)|) else 0)
    decreases if n < 0 then -n else n
  {
    var g := SlebEncode(n);
    if -64 <= n < 64 {
      assert g[1..] == [];
      assert Pow2(7) == 128;
    } else {
      SlebEncodeNumber(n / 128);
      var rest := SlebEncode(n / 128);
      assert g[1..] == rest && g[0] % 128 == n % 128;
      assert Number(g) == n % 128 + 128 * Number(rest);
      Pow2Seven(7 * |rest|);
    }
  }

  /** The two readers walk the same bytes; they differ only in the sign fill at the last one. */
  lemma {:induction false} SlebIsUlebFilled(buf: seq<Byte>, cur: nat, end: nat, shift: nat, value: nat)
    requires Fits(value, shift) && cur < end
    ensures var u := Uleb(buf, cur, end, shift, value);
            Sleb(buf, cur, end, shift, value) ==
            if u.cur <= end && 64 <= ByteAt(buf, u.cur - 1) < 128
            then Decoded(SignFill(u.value, shift + 7 * (u.cur - 1 - cur)), u.cur) else u
    decreases end - cur
  {
    hide SignFill, Pow2, Shl;
    var b := ByteAt(buf, cur);
    if b >= 128 && !Overflows(b, shift) && cur + 1 < end {
      PayloadFits(b, shift, value);
      SlebIsUlebFilled(buf, cur + 1, end, shift + 7, value + Payload(b, shift));
    }
  }

  /** The range in which the sign extension, done in `int`, is right. */
  predicate SlebExact(n: int) {
    -0x800_0000 <= n < TWO63
  }

  lemma SlebEncodeAtMostTen(n: int)
    requires -TWO63 <= n < TWO63
    ensures |SlebEncode(n)| <= 10
  {
    Pow2Bytes();
    Pow2Monotone(64, 69);
    SlebEncodeLength(n, 10);
  }

  lemma SlebEncodeAtMostFour(n: int)
    ensures |SlebEncode(n)| <= 4 <==> -0x800_0000 <= n < 0x800_0000
  {
    assert Pow2(6) == 64;
    hide Pow2, SlebEncode;
    SlebEncodeLength(n, 4);
    Pow2Seven(20);
    Pow2Seven(13);
    Pow2Seven(6);
  }

  /** What the signed reader makes of any encoded 64-bit number. */
  lemma SlebReads(buf: seq<Byte>, cur: nat, end: nat, n: int)
    requires -TWO63 <= n < TWO63
    requires Holds(buf, cur, SlebEncode(n)) && cur + |SlebEncode(n)| <= end
    ensures var len := |SlebEncode(n)|; var v := n + if n < 0 then Pow2(7 * len) else 0;
            if 0 <= v < TWO64
            then GetSleb(buf, cur, end) == Decoded(if n < 0 then SignFill(v, 7 * (len - 1)) else v, cur + len)
            else GetSleb(buf, cur, end).cur == end + 1
  {
    hide Uleb, Sleb, SignFill;
    var g := SlebEncode(n);
    SlebEncodeAtMostTen(n);
    SlebEncodeIsGroup(n);
    SlebEncodeNumber(n);
    GetUlebReadsGroup(buf, cur, end, g);
    SlebIsUlebFilled(buf, cur, end, 0, 0);
    assert ByteAt(buf, cur + |g| - 1) == g[|g| - 1];
  }

  /** Decoding inverts encoding on 64-bit numbers exactly when the number is at least -2^27:
      a negative number of five bytes or more comes back wrong or is rejected. */
  lemma SlebRoundTrip(buf: seq<Byte>, cur: nat, end: nat, n: int)
    requires -TWO63 <= n < TWO63
    requires Holds(buf, cur, SlebEncode(n)) && cur + |SlebEncode(n)| <= end
    ensures GetSleb(buf, cur, end) == Decoded(Wrap(n), cur + |SlebEncode(n)|) <==> SlebExact(n)
  {
    hide Uleb, Sleb, SlebEncode, SignFill;
    SlebReads(buf, cur, end, n);
    if n < 0 {
      var len := |SlebEncode(n)|;
      if 0 <= n + Pow2(7 * len) < TWO64 {
        NegativeRoundTrip(n, len, n + Pow2(7 * len));
      } else if SlebExact(n) {
        ExactFits(n, len);
      }
    }
  }

  /** The sign fill of a negative number's payload gives the number back for at most four
      bytes and never beyond. */
  lemma NegativeRoundTrip(n: int, len: nat, v: Word)
    requires -TWO63 <= n < 0 && |SlebEncode(n)| == len && v == n + Pow2(7 * len)
    ensures SignFill(v, 7 * (len - 1)) == Wrap(n) <==> SlebExact(n)
  {
    hide SignFill;
    SlebEncodeAtMostFour(n);
    if len <= 4 {
      SlebEncodeLength(n, len);
      SignFillExact(n, 7 * (len - 1), v);
    } else {
      SignFillWrong(n, len, v);
    }
  }

  /** A negative number in the exact range has a payload that fits a word. */
  lemma ExactFits(n: int, len: nat)
    requires -0x800_0000 <= n < 0 && |SlebEncode(n)| == len
    ensures 0 <= n + Pow2(7 * len) < TWO64
  {
    SlebEncodeAtMostFour(n);
    SlebEncodeLength(n, len);
    Pow2Monotone(7 * len, 32);
    Pow2Bytes();
  }

  lemma SignFillExact(n: int, s: nat, v: Word)
    requires s <= 21 && 0 - Pow2(s + 6) <= n < 0 && v == n + Pow2(s + 7) && -TWO63 <= n
    ensures SignFill(v, s) == Wrap(n)
  {
    assert s % 32 == s;
    assert LowBits(v, 6 + s) == n + Pow2(s + 6) by { LowBitsBelowTwice(v, s + 6); }
    assert SignFill(v, s) == n + TWO64;
  }

  lemma {:induction false} LowBitsBelowTwice(v: nat, k: nat)
    requires Pow2(k) <= v < 2 * Pow2(k)
    ensures LowBits(v, k) == v - Pow2(k)
    decreases k
  {
    if k != 0 {
      LowBitsBelowTwice(v / 2, k - 1);
    }
  }

  lemma SignFillFloor(v: Word, s: nat, k: nat)
    requires k == s % 32 <= 25
    ensures SignFill(v, s) >= TWO64 - Pow2(6 + k)
  {
  }

  lemma TenBytesTooWide(n: int, len: nat)
    requires 10 <= len && -TWO63 <= n
    ensures n + Pow2(7 * len) >= TWO64
  {
    Pow2Monotone(65, 7 * len);
    Pow2Bytes();
  }

  lemma FiveBytesBelow(n: int)
    requires n < 0
    ensures n + Pow2(35) < TWO63
  {
    Pow2Bytes();
    Pow2Monotone(35, 40);
    Pow2Byte(32);
  }

  lemma SixBytesBelow(n: int, k: nat)
    requires n < 0 && |SlebEncode(n)| > 5 && k <= 24
    ensures n < 0 - Pow2(6 + k)
  {
    SlebEncodeLength(n, 5);
    Pow2Monotone(6 + k, 34);
  }

  lemma SignFillWrong(n: int, len: nat, v: Word)
    requires 5 <= len && -TWO63 <= n < 0 && |SlebEncode(n)| == len
    requires v == n + Pow2(7 * len)
    ensures SignFill(v, 7 * (len - 1)) != Wrap(n)
  {
    hide Pow2, LowBits, SlebEncode;
    assert Wrap(n) == n + TWO64;
    if len >= 10 {
      TenBytesTooWide(n, len);
      assert false;
    } else if len == 5 {
      FiveBytesBelow(n);
    } else {
      var s := 7 * (len - 1);
      var k := if s == 35 then 3 else if s == 42 then 10 else if s == 49 then 17 else 24;
      SignFillFloor(v, s, k);
      SixBytesBelow(n, k);
    }
  }
}
