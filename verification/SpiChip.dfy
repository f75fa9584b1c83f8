/** Bits on the wire, and the serial EEPROM that listens to them. */
module SpiChip {
  import opened Arithmetic
  import opened Common

  // ----- bits, most significant first

  function Num(s: seq<bool>): nat {
    if s == [] then 0 else 2 * Num(s[..|s| - 1]) + (if s[|s| - 1] then 1 else 0)
  }

  /** The low `count` bits of a number. */
  function Bits(x: nat, count: nat): (s: seq<bool>)
    ensures |s| == count
  {
    if count == 0 then [] else Bits(x / 2, count - 1) + [x % 2 == 1]
  }

  function Zeros(n: nat): (s: seq<bool>) {
    seq(n, i => false)
  }

  lemma {:induction false} NumBits(x: nat, count: nat)
    ensures Num(Bits(x, count)) == x % Pow2(count)
  {
    if count == 0 {
      Pow2Step(0);
      DivModUnique(x, 1, x, 0);
    } else {
      hide Pow2;
      NumBits(x / 2, count - 1);
      var s := Bits(x, count);
      assert s[..|s| - 1] == Bits(x / 2, count - 1);
      var y: int, b: int := x / 2, Pow2(count - 1);
      Pow2Step(count - 1);
      DivModEq(y, b);
      TwoDigits(x, 2, b, y, y / b, y % b, x % 2);
    }
  }

  lemma {:induction false} NumAppend(s: seq<bool>, t: seq<bool>)
    ensures Num(s + t) == Num(s) * Pow2(|t|) + Num(t)
  {
    if t == [] {
      assert s + t == s;
    } else {
      var u, n := t[..|t| - 1], Num(s);
      NumAppend(s, u);
      assert (s + t)[..|s + t| - 1] == s + u;
      MulAssoc(2, n, Pow2(|u|));
      MulAssoc(n, 2, Pow2(|u|));
    }
  }

  lemma {:induction false} NumBound(s: seq<bool>)
    ensures Num(s) < Pow2(|s|)
  {
    if s != [] {
      NumBound(s[..|s| - 1]);
    }
  }

  /** Shift right. */
  function Shr(x: nat, n: nat): nat {
    if n == 0 then x else Shr(x, n - 1) / 2
  }

  lemma {:induction false} ShrPow2(x: nat, n: nat)
    ensures x / Pow2(n) == Shr(x, n)
  {
    if n > 0 {
      ShrPow2(x, n - 1);
      DivDiv(x, Pow2(n - 1), 2);
    }
  }

  /** One more bit from the top of a number. */
  lemma BitsStep(x: nat, n: nat, i: nat)
    ensures Bits(Shr(x, n), i + 1) == Bits(Shr(x, n + 1), i) + [Shr(x, n) % 2 == 1]
  {
  }

  lemma Pow2Step(n: nat)
    ensures Pow2(n + 1) == 2 * Pow2(n) && Pow2(0) == 1
  {
  }

  lemma TwoIsTwo()
    ensures Pow2(0) == 1 && Pow2(1) == 2 && Pow2(8) == 256 && Pow2(16) == 65536
  {
    assert Pow2(4) == 16;
    Pow2Add(4, 4);
    Pow2Add(8, 8);
  }

  // ----- the chip

  const READ: nat := 3
  const READ_HIGH: nat := 11
  const READ_STATUS: nat := 5

  /** `bits` address bits, 8 or 16, and its contents. */
  datatype Chip = Chip(bits: nat, bytes: seq<Byte>)

  predicate ChipOk(c: Chip) {
    (c.bits == 8 || c.bits == 16) && |c.bytes| > 0
  }

  function ByteAt(c: Chip, addr: nat): Byte
    requires ChipOk(c)
  {
    c.bytes[addr % |c.bytes|]
  }

  /** The word whose first byte is at this address, low byte first. */
  function WordAt(c: Chip, addr: nat): (w: nat)
    requires ChipOk(c)
    ensures w < 65536
  {
    ByteAt(c, addr) + 256 * ByteAt(c, addr + 1)
  }

  /** What the chip puts on its output after having sampled these bits since it was
      selected: nothing before a whole command; then the status byte over and over, or
      the bytes from the address on. Chips with 8 address bits take a ninth from bit 3
      of the opcode. A busy chip only answers status reads. */
  function Out(c: Chip, busy: bool, hist: seq<bool>): bool
    requires ChipOk(c)
  {
    if |hist| < 8 then false
    else
      var op := Num(hist[..8]);
      if op == READ_STATUS then Bits(if busy then 1 else 0, 8)[(|hist| - 8) % 8]
      else if !busy && |hist| >= 8 + c.bits && (op == READ || (op == READ_HIGH && c.bits == 8)) then
        var addr := Num(hist[8..8 + c.bits]) + (if op == READ_HIGH then 256 else 0);
        var k := |hist| - 8 - c.bits;
        Bits(ByteAt(c, addr + k / 8), 8)[k % 8]
      else false
  }

  /** The next `count` bits of output while zeros are clocked in. */
  function Outs(c: Chip, busy: bool, hist: seq<bool>, count: nat): (s: seq<bool>)
    requires ChipOk(c)
    ensures |s| == count
  {
    seq(count, (k: nat) => Out(c, busy, hist + Zeros(k)))
  }

  /** After a status command, eight bits give the status. */
  lemma StatusAnswer(c: Chip, busy: bool)
    requires ChipOk(c)
    ensures Num(Outs(c, busy, Bits(READ_STATUS, 8), 8)) == if busy then 1 else 0
  {
    hide Pow2, Num, Bits;
    var cmd, st := Bits(READ_STATUS, 8), if busy then 1 else 0;
    TwoIsTwo();
    NumBits(READ_STATUS, 8);
    NumBits(st, 8);
    var outs := Outs(c, busy, cmd, 8);
    forall k | 0 <= k < 8
      ensures outs[k] == Bits(st, 8)[k]
    {
      assert (cmd + Zeros(k))[..8] == cmd;
    }
    assert outs == Bits(st, 8);
  }

  /** The byte address a read command asks for. */
  function Asked(c: Chip, op: nat, addr: nat): nat {
    addr % Pow2(c.bits) + (if op == READ_HIGH then 256 else 0)
  }

  lemma ReadBit(c: Chip, op: nat, addr: nat, k: nat)
    requires ChipOk(c) && (op == READ || (op == READ_HIGH && c.bits == 8)) && k < 16
    ensures var a := Asked(c, op, addr);
            Out(c, false, Bits(op, 8) + Bits(addr, c.bits) + Zeros(k))
            == if k < 8 then Bits(ByteAt(c, a), 8)[k] else Bits(ByteAt(c, a + 1), 8)[k - 8]
  {
    hide Pow2, Num, Bits, ByteAt;
    TwoIsTwo();
    NumBits(op, 8);
    NumBits(addr, c.bits);
    var h := Bits(op, 8) + Bits(addr, c.bits) + Zeros(k);
    assert h[..8] == Bits(op, 8) && h[8..8 + c.bits] == Bits(addr, c.bits);
    assert k / 8 == (if k < 8 then 0 else 1) && k % 8 == if k < 8 then k else k - 8;
  }

  lemma TwoBytes(x: Byte, y: Byte)
    ensures Num(Bits(x, 8) + Bits(y, 8)) == 256 * x + y
  {
    hide Pow2, Num, Bits;
    TwoIsTwo();
    NumBits(x, 8);
    NumBits(y, 8);
    NumAppend(Bits(x, 8), Bits(y, 8));
  }

  /** After a read command, sixteen bits give the two bytes at the address, the first one
      as the high half. */
  lemma ReadAnswer(c: Chip, op: nat, addr: nat)
    requires ChipOk(c) && (op == READ || (op == READ_HIGH && c.bits == 8))
    ensures var a := Asked(c, op, addr);
            Num(Outs(c, false, Bits(op, 8) + Bits(addr, c.bits), 16)) == 256 * ByteAt(c, a) + ByteAt(c, a + 1)
  {
    hide Pow2, Num, Bits, ByteAt, Out, Asked;
    var a := Asked(c, op, addr);
    var b0, b1 := ByteAt(c, a), ByteAt(c, a + 1);
    TwoBytes(b0, b1);
    var outs := Outs(c, false, Bits(op, 8) + Bits(addr, c.bits), 16);
    forall k | 0 <= k < 16
      ensures outs[k] == (Bits(b0, 8) + Bits(b1, 8))[k]
    {
      ReadBit(c, op, addr, k);
    }
    assert outs == Bits(b0, 8) + Bits(b1, 8);
  }
}
