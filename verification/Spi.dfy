/** Reading the EEPROM: bit by bit through the EEC register, or through EERD. */
module Spi {
  import opened Arithmetic
  import opened Common
  import opened SpiChip

  const GRANT_ATTEMPTS: nat := 1000
  const MAX_RETRY: nat := 5000
  const EERD_ATTEMPTS: nat := 100000
  const EERD_MAX_ADDR: nat := 0x3FFF

  datatype Kind = Uninitialized | Absent | Serial

  /** 16-bit words come back, or one of the driver's error codes. */
  datatype Result = Ok(value: nat) | NoSync | Failed | InvalidArgument

  /** How the world answers during one read: whether the EEPROM lock is obtained, after
      how many polls the access request is granted, and after how many an EERD read is
      done. */
  datatype World = World(lock: bool, grant: nat, eerd: nat)

  /** The opcode for reading a word: chips with 8 address bits get the ninth in bit 3. */
  function Opcode(bits: nat, word: nat): nat {
    if bits == 8 && word >= 128 then READ_HIGH else READ
  }

  /** Where in the chip a read of this word ends up. */
  function Target(c: Chip, word: nat): nat {
    Asked(c, Opcode(c.bits, word), (2 * word) % 65536)
  }

  /** The command reaches the word's own bytes exactly for words below 256, with 8
      address bits, or below 32768, with 16. */
  lemma TargetIff(c: Chip, word: nat)
    requires c.bits == 8 || c.bits == 16
    ensures Target(c, word) == 2 * word <==> word < if c.bits == 8 then 256 else 32768
  {
    hide Pow2;
    TwoIsTwo();
    var x: int := 2 * word;
    if c.bits == 8 {
      assert (x % 65536) % 256 == x % 256;
    } else {
      assert (x % 65536) % 65536 == x % 65536;
    }
  }

  /** Words for a value of the size field, as stored in 16 bits. */
  function WordCount(sizeField: nat): nat {
    Pow2(sizeField + 6) % 65536
  }

  class Eeprom {
    const chip: Chip
    const present: bool
    /** The size field of EEC. */
    const sizeField: nat

    // the pins of EEC, and what the chip has seen since it was selected
    var cs: bool
    var sk: bool
    var di: bool
    var req: bool
    var dout: bool
    var hist: seq<bool>
    /** For how many more selections the chip is still busy. */
    var busy: nat

    var locked: bool
    var kind: Kind
    var wordSize: nat
    var addressBits: nat

    constructor (chip: Chip, present: bool, sizeField: nat, busy: nat)
      requires ChipOk(chip) && sizeField < 16
      ensures Valid() && AtRest() && kind == Uninitialized && this.busy == busy
      ensures this.chip == chip && this.present == present && this.sizeField == sizeField
    {
      this.chip, this.present, this.sizeField := chip, present, sizeField;
      cs, sk, di, req, dout, hist := true, false, false, false, false, [];
      this.busy, locked := busy, false;
      kind, wordSize, addressBits := Uninitialized, 0, 0;
    }

    /** The number of words the size field stands for, as stored in 16 bits. */
    function Words(): nat {
      WordCount(sizeField)
    }

    ghost predicate Valid()
      reads this
    {
      && ChipOk(chip)
      && (kind == Uninitialized ==> wordSize == 0)
      && (kind != Uninitialized ==>
            && addressBits == chip.bits
            && kind == (if present then Serial else Absent)
            && wordSize == if present then Words() else 0)
    }

    /** No request, no lock, chip not selected. */
    ghost predicate AtRest()
      reads this
    {
      cs && !sk && !req && !locked && hist == []
    }

    /** The driver has the chip, which is selected and has seen `hist`. */
    ghost predicate Talking()
      reads this
    {
      ChipOk(chip) && !cs && !sk && req && locked
    }

    // ----- the wires

    /** A write of EEC. Raising CS deselects the chip; while it is selected it samples DI
        when the clock rises and puts out the next bit when the clock falls. */
    method WriteEec(cs: bool, sk: bool, di: bool, req: bool)
      requires ChipOk(chip)
      modifies this`cs, this`sk, this`di, this`req, this`dout, this`hist, this`busy
      ensures this.cs == cs && this.sk == sk && this.di == di && this.req == req
      ensures hist == if cs then [] else if !old(this.sk) && sk then old(hist) + [di] else old(hist)
      ensures dout == if cs then false else if old(this.sk) && !sk then Out(chip, busy > 0, hist) else old(dout)
      ensures busy == if cs && !old(this.cs) && old(busy) > 0 then old(busy) - 1 else old(busy)
    {
      if cs {
        if !this.cs && busy > 0 {
          busy := busy - 1;
        }
        hist, dout := [], false;
      } else if !this.sk && sk {
        hist := hist + [di];
      } else if this.sk && !sk {
        dout := Out(chip, busy > 0, hist);
      }
      this.cs, this.sk, this.di, this.req := cs, sk, di, req;
    }

    /** Raise the clock, look at the output, lower the clock. */
    method Clock(bit: bool) returns (out: bool)
      requires Talking()
      modifies this`cs, this`sk, this`di, this`req, this`dout, this`hist, this`busy
      ensures Talking() && di == bit && busy == old(busy) && out == old(dout)
      ensures hist == old(hist) + [bit] && dout == Out(chip, busy > 0, hist)
    {
      hide Out;
      WriteEec(cs, sk, bit, req);
      WriteEec(cs, true, di, req);
      out := dout;
      WriteEec(cs, false, di, req);
    }

    method ShiftOut(data: nat, count: nat)
      requires Talking() && count > 0
      modifies this`cs, this`sk, this`di, this`req, this`dout, this`hist, this`busy
      ensures Talking() && !di && busy == old(busy)
      ensures hist == old(hist) + Bits(data, count) && dout == Out(chip, busy > 0, hist)
    {
      hide Bits, Out, Pow2, Shr;
      var mask, i := Pow2(count - 1), 0;
      ghost var h := hist;
      ShiftNone(data, count);
      while i < count
        invariant i <= count && Talking() && busy == old(busy)
        invariant i < count ==> mask == Pow2(count - 1 - i)
        invariant hist == h + Bits(Shr(data, count - i), i)
        invariant i > 0 ==> dout == Out(chip, busy > 0, hist)
      {
        ShrPow2(data, count - 1 - i);
        BitsStep(data, count - 1 - i, i);
        HalveMask(count - 1 - i);
        var _ := Clock((data / mask) % 2 == 1);
        mask := mask / 2;
        i := i + 1;
      }
      WriteEec(cs, sk, false, req);
    }

    method ShiftIn(count: nat) returns (data: nat)
      requires Talking() && count <= 16 && dout == Out(chip, busy > 0, hist)
      modifies this`cs, this`sk, this`di, this`req, this`dout, this`hist, this`busy
      ensures Talking() && busy == old(busy)
      ensures data == Num(Outs(chip, old(busy > 0), old(hist), count))
    {
      hide Out, Pow2, Num;
      data := 0;
      var i := 0;
      ghost var h := hist;
      ghost var outs := Outs(chip, busy > 0, h, count);
      NumStep(outs, 0);
      assert h + Zeros(0) == h;
      while i < count
        invariant i <= count && Talking() && busy == old(busy)
        invariant hist == h + Zeros(i) && dout == Out(chip, busy > 0, hist)
        invariant data == Num(outs[..i])
      {
        NumStep(outs, i);
        data := (data * 2) % 65536;
        var out := Clock(false);
        if out {
          data := data + 1;
        }
        assert h + Zeros(i) + [false] == h + Zeros(i + 1);
        i := i + 1;
      }
      assert outs[..count] == outs;
    }

    /** Deselect and select again. */
    method Standby()
      requires Talking()
      modifies this`cs, this`sk, this`di, this`req, this`dout, this`hist, this`busy
      ensures Talking() && hist == [] && busy == if old(busy) > 0 then old(busy) - 1 else 0
    {
      WriteEec(true, sk, di, req);
      WriteEec(false, sk, di, req);
    }

    // ----- the sequence of a read

    /** Get the lock, ask for access and select the chip; if access is refused, withdraw
        the request and give the lock back. */
    method Acquire(w: World) returns (r: Result)
      requires ChipOk(chip) && AtRest()
      modifies this`cs, this`sk, this`di, this`req, this`dout, this`hist, this`busy, this`locked
      ensures busy == old(busy)
      ensures r == if !w.lock then NoSync else if w.grant < GRANT_ATTEMPTS then Ok(0) else Failed
      ensures if r == Ok(0) then Talking() && hist == [] else AtRest()
    {
      if !w.lock {
        return NoSync;
      }
      locked := true;
      WriteEec(cs, sk, di, true);
      var i, granted := 0, false;
      while i < GRANT_ATTEMPTS && !granted
        invariant i <= GRANT_ATTEMPTS && granted == (i > w.grant)
        invariant !granted ==> i <= w.grant
        decreases GRANT_ATTEMPTS - i
      {
        granted := i >= w.grant;
        i := i + 1;
      }
      if !granted {
        WriteEec(cs, sk, di, false);
        locked := false;
        return Failed;
      }
      WriteEec(false, false, di, req);
      r := Ok(0);
    }

    /** Poll the status byte until the chip is ready. */
    method Ready() returns (ok: bool)
      requires Talking() && hist == []
      modifies this`cs, this`sk, this`di, this`req, this`dout, this`hist, this`busy
      ensures Talking() && (ok <==> old(busy) < MAX_RETRY / 5) && (ok ==> busy == 0)
    {
      hide Out, Outs, Num, Bits, Pow2;
      var i := 0;
      while i < MAX_RETRY
        invariant 0 <= i <= MAX_RETRY && i % 5 == 0 && Talking() && hist == []
        invariant busy == if old(busy) >= i / 5 then old(busy) - i / 5 else 0
        invariant old(busy) >= i / 5
      {
        ShiftOut(READ_STATUS, 8);
        assert [] + Bits(READ_STATUS, 8) == Bits(READ_STATUS, 8);
        StatusAnswer(chip, busy > 0);
        var status := ShiftIn(8);
        if status % 2 == 0 {
          return true;
        }
        Standby();
        i := i + 5;
      }
      ok := false;
    }

    method Release()
      requires Talking()
      modifies this`cs, this`sk, this`di, this`req, this`dout, this`hist, this`busy, this`locked
      ensures AtRest() && busy == if old(busy) > 0 then old(busy) - 1 else 0
    {
      WriteEec(true, false, di, req);
      WriteEec(cs, sk, di, false);
      locked := false;
    }

    /** One word: select, command, address, sixteen bits, and the two bytes swapped. */
    method ReadWord(opcode: nat, word: nat) returns (data: nat)
      requires Talking() && busy == 0 && opcode == Opcode(chip.bits, word)
      modifies this`cs, this`sk, this`di, this`req, this`dout, this`hist, this`busy
      ensures Talking() && busy == 0 && data == WordAt(chip, Target(chip, word))
    {
      hide Out, Outs, Num, Bits, Pow2, ByteAt, Asked;
      Standby();
      ShiftOut(opcode, 8);
      ShiftOut((word * 2) % 65536, chip.bits);
      assert [] + Bits(opcode, 8) == Bits(opcode, 8);
      ReadAnswer(chip, opcode, (2 * word) % 65536);
      var x := ShiftIn(16);
      ghost var a := Target(chip, word);
      SwapBytes(ByteAt(chip, a), ByteAt(chip, a + 1));
      data := x / 256 + (x * 256) % 65536;
    }

    method ReadBuffer(offset: nat, words: nat, w: World) returns (r: Result, data: seq<nat>)
      requires Valid() && AtRest() && addressBits == chip.bits
      modifies this`cs, this`sk, this`di, this`req, this`dout, this`hist, this`busy, this`locked
      ensures Valid() && AtRest()
      ensures r.Ok? <==> w.lock && w.grant < GRANT_ATTEMPTS && old(busy) < MAX_RETRY / 5
      ensures r == NoSync <==> !w.lock
      ensures r.Ok? ==>
                |data| == words && forall i | 0 <= i < words :: data[i] == WordAt(chip, Target(chip, offset + i))
    {
      hide WordAt, Target;
      data := [];
      r := Acquire(w);
      if r == Ok(0) {
        var ready := Ready();
        if !ready {
          Release();
          r := Failed;
        }
      }
      if r == Ok(0) {
        var i, opcode := 0, READ;
        while i < words
          invariant i <= words && Talking() && busy == 0 && |data| == i
          invariant opcode == if i > 0 then Opcode(chip.bits, offset + i - 1) else READ
          invariant forall j | 0 <= j < i :: data[j] == WordAt(chip, Target(chip, offset + j))
        {
          if addressBits == 8 && offset + i >= 128 {
            opcode := READ_HIGH;
          }
          var x := ReadWord(opcode, offset + i);
          data := data + [x];
          i := i + 1;
        }
        Release();
      }
    }

    // ----- what the rest of the driver calls

    method InitParams()
      requires Valid()
      modifies this`kind, this`wordSize, this`addressBits
      ensures Valid() && kind != Uninitialized && (old(kind) != Uninitialized ==> kind == old(kind))
    {
      if kind == Uninitialized {
        kind := Absent;
        if present {
          kind := Serial;
          wordSize := WordCount(sizeField);
        }
        addressBits := chip.bits;
      }
    }

    method ReadBitBang(offset: nat, w: World) returns (r: Result)
      requires Valid() && AtRest()
      modifies this
      ensures Valid() && AtRest() && kind != Uninitialized
      ensures r.Ok? <==>
                && present && offset < Words()
                && w.lock && w.grant < GRANT_ATTEMPTS && old(busy) < MAX_RETRY / 5
      ensures r.Ok? ==> r.value == WordAt(chip, Target(chip, offset))
    {
      hide WordAt, Target, Pow2;
      InitParams();
      if offset >= wordSize {
        return Failed;
      }
      var data;
      r, data := ReadBuffer(offset, 1, w);
      if r.Ok? {
        r := Ok(data[0]);
      }
    }

    /** The controller reads the chip by itself: the word address is in bits 2 to 15 of the
        request, the word in the upper half of the answer. */
    method EerdAnswer(request: nat, polls: nat, w: World) returns (done: bool, answer: nat)
      requires ChipOk(chip)
      ensures done <==> polls >= w.eerd
      ensures done ==> answer / 65536 == WordAt(chip, 2 * ((request / 4) % 0x4000))
    {
      var word := (request / 4) % 0x4000;
      done := polls >= w.eerd;
      answer := if done then WordAt(chip, 2 * word) * 65536 + word * 4 + 2 else word * 4;
    }

    method ReadEerdBuffer(offset: nat, words: nat, w: World) returns (r: Result, data: seq<nat>)
      requires Valid()
      modifies this`kind, this`wordSize, this`addressBits
      ensures Valid() && kind != Uninitialized && (old(kind) != Uninitialized ==> kind == old(kind))
      ensures r == InvalidArgument <==> words == 0
      ensures r.Ok? <==> words > 0 && present && offset < Words() && w.eerd < EERD_ATTEMPTS
      ensures r.Ok? ==>
                |data| == words && forall i | 0 <= i < words :: data[i] == WordAt(chip, 2 * ((offset + i) % 0x4000))
    {
      hide WordAt, Pow2;
      InitParams();
      data := [];
      if words == 0 {
        return InvalidArgument, data;
      }
      if offset >= wordSize {
        return Failed, data;
      }
      var i := 0;
      while i < words
        modifies {}
        invariant i <= words && |data| == i && (i > 0 ==> w.eerd < EERD_ATTEMPTS)
        invariant forall j | 0 <= j < i :: data[j] == WordAt(chip, 2 * ((offset + j) % 0x4000))
      {
        var polls, done, answer := 0, false, 0;
        while polls < EERD_ATTEMPTS && !done
          modifies {}
          invariant polls <= EERD_ATTEMPTS
          invariant done <==> polls > w.eerd
          invariant !done ==> polls <= w.eerd
          invariant done ==> answer / 65536 == WordAt(chip, 2 * ((offset + i) % 0x4000))
          decreases EERD_ATTEMPTS - polls
        {
          done, answer := EerdAnswer((offset + i) * 4 + 1, polls, w);
          assert ((offset + i) * 4 + 1) / 4 == offset + i;
          polls := polls + 1;
        }
        if !done {
          return Failed, data;
        }
        data := data + [answer / 65536];
        i := i + 1;
      }
      r := Ok(0);
    }

    /** The two ways to read a word, and the choice between them. */
    method Read(offset: nat, w: World) returns (r: Result)
      requires Valid() && AtRest()
      modifies this
      ensures Valid() && AtRest() && kind != Uninitialized
      ensures r.Ok? <==>
                && present && offset < Words()
                && if old(kind) == Serial && offset <= EERD_MAX_ADDR then w.eerd < EERD_ATTEMPTS
                   else w.lock && w.grant < GRANT_ATTEMPTS && old(busy) < MAX_RETRY / 5
      ensures r.Ok? && Matches() ==> 2 * offset + 1 < |chip.bytes| && r.value == Stored(offset)
    {
      hide Target, Pow2, WordAt, Matches, Stored;
      if kind == Serial && offset <= EERD_MAX_ADDR {
        var data;
        r, data := ReadEerdBuffer(offset, 1, w);
        if r.Ok? {
          assert (offset + 0) % 0x4000 == offset;
          r := Ok(data[0]);
        }
      } else {
        r := ReadBitBang(offset, w);
      }
      if r.Ok? && Matches() {
        InRange(offset);
      }
    }

    /** The chip is as large as the size field says, and its address bits reach all of it. */
    ghost predicate Matches()
      requires ChipOk(chip)
    {
      |chip.bytes| == 2 * Words() && Words() <= if chip.bits == 8 then 256 else 32768
    }

    lemma InRange(i: nat)
      requires ChipOk(chip) && Matches() && i < Words()
      ensures 2 * i + 1 < |chip.bytes| && WordAt(chip, 2 * i) == WordAt(chip, Target(chip, i)) == Stored(i)
    {
      hide Pow2, Target;
      TargetIff(chip, i);
      DivModUnique(2 * i, |chip.bytes|, 0, 2 * i);
      DivModUnique(2 * i + 1, |chip.bytes|, 0, 2 * i + 1);
    }

    /** The stored word. */
    function Stored(i: nat): nat
      requires 2 * i + 1 < |chip.bytes|
    {
      var low: nat, high: nat := chip.bytes[2 * i], chip.bytes[2 * i + 1];
      low + 256 * high
    }
  }

  /** The word count survives being stored in 16 bits exactly for size fields below 10;
      from 10 on it becomes 0, and then every read fails. */
  lemma SizeFieldLimit(s: nat)
    ensures WordCount(s) == if s < 10 then 64 * Pow2(s) else 0
    ensures WordCount(s) <= 32768
  {
    hide Pow2;
    assert Pow2(6) == 64 by { SixtyFour(); }
    Pow2Add(s, 6);
    if s < 10 {
      Pow2Below(s + 6, 15);
    } else {
      TwoIsTwo();
      Pow2Add(16, s - 10);
      DivModUnique(Pow2(s + 6), 65536, Pow2(s - 10), 0);
    }
  }

  lemma SixtyFour()
    ensures Pow2(6) == 64
  {
  }

  lemma SwapBytes(x: Byte, y: Byte)
    ensures var w := 256 * x + y; w / 256 + (w * 256) % 65536 == x + 256 * y
  {
    var w := 256 * x + y;
    assert w / 256 == x;
    assert w * 256 == 65536 * x + 256 * y;
  }

  lemma ShiftNone(x: nat, count: nat)
    ensures Shr(x, 0) == x && Bits(Shr(x, count), 0) == []
  {
  }

  lemma NumStep(s: seq<bool>, i: nat)
    requires i <= |s| <= 16
    ensures Num(s[..0]) == 0
    ensures i < |s| ==> Num(s[..i]) < 32768 && Num(s[..i + 1]) == 2 * Num(s[..i]) + if s[i] then 1 else 0
  {
    if i < |s| {
      assert s[..i + 1][..i] == s[..i];
      NumBound(s[..i]);
      Pow2Below(i, 15);
    }
  }

  lemma {:induction false} Pow2Below(m: nat, n: nat)
    requires m <= n <= 15
    ensures Pow2(m) <= Pow2(n) && Pow2(15) == 32768
  {
    if m < n {
      Pow2Below(m, n - 1);
    }
    Pow2Add(8, 7);
  }

  lemma HalveMask(n: nat)
    ensures n > 0 ==> Pow2(n) / 2 == Pow2(n - 1)
  {
  }
}
