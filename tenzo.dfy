/** The Tenzo-M binary protocol as the weighing service speaks it: the checksum
    step of the vendor's assembler routine, the checksum over a frame body, the
    weight-frame decoder and the simulator's frame builder
    (weighing_service/scales/tenzo_m/utils.py). */
module TenzoUtils {
  import opened Common
  import opened Weights

  /** The two 8-bit registers of the vendor routine: AL holds the input byte,
      AH the running checksum. */
  datatype Regs = Regs(al: bv8, ah: bv8)

  /** One round: rotate AL left, then rotate AH left through AL's carry, and
      XOR 0x69 into AH when a bit falls out of AH. */
  function Round(r: Regs): Regs
  {
    Regs(Rotate(r.al), NextAh(r.al, r.ah))
  }

  function Rotate(al: bv8): bv8 { (al << 1) | (al >> 7) }

  /** AH after a round: rotated left with AL's top bit carried in, and XORed with
      the generator 0x69 when its own top bit fell out. */
  function NextAh(al: bv8, ah: bv8): bv8
  {
    Carried(al, ah) ^ Feedback(ah)
  }

  /** AH rotated left with AL's top bit carried in. */
  function Carried(al: bv8, ah: bv8): bv8 { (ah << 1) | (al >> 7) }

  /** What a round XORs into AH: the generator when AH's top bit falls out. */
  function Feedback(ah: bv8): bv8 { if ah >> 7 == 1 then 0x69 else 0 }

  function Rounds(r: Regs, n: nat): Regs
    decreases n
  {
    if n == 0 then r else Rounds(Round(r), n - 1)
  }

  /** The number of rounds `_crc_step` runs. */
  const StepRounds: nat := 8

  /** The value `_crc_step(input, crc)` computes: AH after eight rounds. */
  function Step(input: Byte, crc: Byte): Byte
  {
    Rounds(Regs(input as bv8, crc as bv8), StepRounds).ah as int
  }

  /** `_crc_step`: exactly eight rotate/XOR rounds; the result is a byte. */
  method CrcStep(bInput: Byte, bCrc: Byte) returns (r: Byte)
    ensures r == Step(bInput, bCrc)
  {
    var al: bv8 := bInput as bv8;
    var ah: bv8 := bCrc as bv8;
    var i := 0;
    while i < StepRounds
      invariant 0 <= i <= StepRounds
      invariant Rounds(Regs(al, ah), StepRounds - i) == Rounds(Regs(bInput as bv8, bCrc as bv8), StepRounds)
    {
      var carryAl := al >> 7;
      al := (al << 1) | carryAl;
      var carryAh := ah >> 7;
      ah := (ah << 1) | carryAl;
      if carryAh == 1 {
        ah := ah ^ 0x69;
      }
      i := i + 1;
    }
    r := ah as int;
  }

  /** The checksum register after feeding `data`, starting from `crc`. */
  function Fold(data: seq<Byte>, crc: Byte): Byte
  {
    if data == [] then crc else Fold(data[1..], Step(data[0], crc))
  }

  /** The protocol checksum of a frame body: every byte, then one 0x00. */
  function CrcOf(data: seq<Byte>): Byte
  {
    Fold(data + [0], 0)
  }

  datatype Crc = CrcInt(n: Byte) | CrcHex(s: string)

  /** `_compute_crc`: the integer checksum, or two upper-case hex digits of it. */
  method ComputeCrc(data: seq<Byte>, asHex: bool) returns (r: Crc)
    ensures r == if asHex then CrcHex(HexPad(CrcOf(data), 2)) else CrcInt(CrcOf(data))
    ensures r.CrcHex? ==> |r.s| == 2 && AllHexDigits(r.s) && HexNumValue(r.s) == CrcOf(data)
  {
    var all := data + [0];
    var crc: Byte := 0;
    var i := 0;
    while i < |all|
      invariant 0 <= i <= |all|
      invariant Fold(all[i..], crc) == Fold(all, 0)
    {
      assert all[i..][1..] == all[i + 1..];
      crc := CrcStep(all[i], crc);
      i := i + 1;
    }
    HexPadExact(crc, 2);
    r := if asHex then CrcHex(HexPad(crc, 2)) else CrcInt(crc);
  }

  // ---------------------------------------------------------------------
  // The same checksum as a textbook CRC register.

  /** The bits of a byte, most significant first. */
  function BitsOf(b: bv8): (bits: seq<bool>)
    ensures |bits| == 8
  {
    [b & 0x80 != 0, b & 0x40 != 0, b & 0x20 != 0, b & 0x10 != 0,
     b & 0x08 != 0, b & 0x04 != 0, b & 0x02 != 0, b & 0x01 != 0]
  }

  /** An MSB-first CRC-8 shift register with generator x^8 + 0x69, no reflection. */
  function ShiftIn(reg: bv8, bits: seq<bool>): bv8
    decreases |bits|
  {
    if bits == [] then reg
    else
      var shifted := (reg << 1) | (if bits[0] then 1 else 0);
      ShiftIn(if reg >> 7 == 1 then shifted ^ 0x69 else shifted, bits[1..])
  }

  function MessageBits(data: seq<Byte>): seq<bool>
  {
    if data == [] then [] else BitsOf(data[0] as bv8) + MessageBits(data[1..])
  }

  /** Shifting a concatenation is shifting one part after the other. */
  lemma {:induction false} ShiftInAppend(reg: bv8, a: seq<bool>, b: seq<bool>)
    ensures ShiftIn(reg, a + b) == ShiftIn(ShiftIn(reg, a), b)
    decreases |a|
  {
    if a != [] {
      assert (a + b)[1..] == a[1..] + b;
      var shifted := (reg << 1) | (if a[0] then 1 else 0);
      ShiftInAppend(if reg >> 7 == 1 then shifted ^ 0x69 else shifted, a[1..], b);
    } else {
      assert a + b == b;
    }
  }

  /** Rotating AL left moves its bits up by one place. */
  lemma RotateBits(al: bv8)
    ensures BitsOf((al << 1) | (al >> 7))[..7] == BitsOf(al)[1..]
  {
  }

  /** After `n` rounds AH is the register with the top `n` bits of AL shifted in. */
  lemma {:induction false} RoundsShift(al: bv8, ah: bv8, n: nat)
    requires n <= 8
    ensures Rounds(Regs(al, ah), n).ah == ShiftIn(ah, BitsOf(al)[..n])
    decreases n
  {
    if n > 0 {
      var r := Round(Regs(al, ah));
      RoundsShift(r.al, r.ah, n - 1);
      RotateBits(al);
      assert BitsOf(r.al)[..n - 1] == BitsOf(al)[1..n];
      assert r.ah == ShiftIn(ah, BitsOf(al)[..1]);
      ShiftInAppend(ah, BitsOf(al)[..1], BitsOf(al)[1..n]);
      assert BitsOf(al)[..1] + BitsOf(al)[1..n] == BitsOf(al)[..n];
    }
  }

  /** `_crc_step` is one byte of an MSB-first CRC-8 with generator 0x69. */
  lemma StepIsShiftIn(input: Byte, crc: Byte)
    ensures Step(input, crc) == ShiftIn(crc as bv8, BitsOf(input as bv8)) as int
  {
    RoundsShift(input as bv8, crc as bv8, 8);
    assert BitsOf(input as bv8)[..8] == BitsOf(input as bv8);
  }

  /** The folded checksum is the register after the message's bits. */
  lemma {:induction false} FoldIsShiftIn(data: seq<Byte>, crc: Byte)
    ensures Fold(data, crc) == ShiftIn(crc as bv8, MessageBits(data)) as int
    decreases |data|
  {
    if data != [] {
      var next := Step(data[0], crc);
      StepIsShiftIn(data[0], crc);
      FoldIsShiftIn(data[1..], next);
      ShiftInAppend(crc as bv8, BitsOf(data[0] as bv8), MessageBits(data[1..]));
      FoldCons(data, crc);
      MessageBitsCons(data);
      BvIntRoundTrip(ShiftIn(crc as bv8, BitsOf(data[0] as bv8)));
    } else {
      ByteBvRoundTrip(crc);
    }
  }

  lemma BvIntRoundTrip(x: bv8)
    ensures (x as int) as bv8 == x
  {
  }

  lemma FoldCons(data: seq<Byte>, crc: Byte)
    requires data != []
    ensures Fold(data, crc) == Fold(data[1..], Step(data[0], crc))
  {
  }

  lemma MessageBitsCons(data: seq<Byte>)
    requires data != []
    ensures MessageBits(data) == BitsOf(data[0] as bv8) + MessageBits(data[1..])
  {
  }

  /** The protocol checksum is the augmented CRC-8 (generator 0x69, initial register 0):
      the register after the message's bits followed by eight zero bits. */
  lemma CrcOfIsAugmentedCrc8(data: seq<Byte>)
    ensures CrcOf(data) == ShiftIn(0, MessageBits(data) + BitsOf(0)) as int
  {
    FoldIsShiftIn(data + [0], 0);
    MessageBitsAppend(data, [0]);
    assert MessageBits([0]) == BitsOf(0) + MessageBits([]) == BitsOf(0);
  }

  lemma {:induction false} MessageBitsAppend(a: seq<Byte>, b: seq<Byte>)
    ensures MessageBits(a + b) == MessageBits(a) + MessageBits(b)
    decreases |a|
  {
    if a != [] {
      assert (a + b)[1..] == a[1..] + b;
      MessageBitsAppend(a[1..], b);
    } else {
      assert a + b == b;
    }
  }

  // ---------------------------------------------------------------------
  // Error detection.

  function XorRegs(x: Regs, y: Regs): Regs { Regs(x.al ^ y.al, x.ah ^ y.ah) }

  lemma FeedbackLinear(c: bv8, d: bv8)
    ensures Feedback(c ^ d) == Feedback(c) ^ Feedback(d)
  {
    if c >> 7 == 1 {
      if d >> 7 == 1 { assert (c ^ d) >> 7 == 0; } else { assert (c ^ d) >> 7 == 1; }
    } else {
      if d >> 7 == 1 { assert (c ^ d) >> 7 == 1; } else { assert (c ^ d) >> 7 == 0; }
    }
  }

  lemma NextAhLinear(a1: bv8, h1: bv8, a2: bv8, h2: bv8)
    ensures NextAh(a1 ^ a2, h1 ^ h2) == NextAh(a1, h1) ^ NextAh(a2, h2)
  {
    FeedbackLinear(h1, h2);
    CarriedLinear(a1, h1, a2, h2);
    XorRegroup(Carried(a1, h1), Carried(a2, h2), Feedback(h1), Feedback(h2));
  }

  lemma XorRegroup(s1: bv8, s2: bv8, f1: bv8, f2: bv8)
    ensures (s1 ^ s2) ^ (f1 ^ f2) == (s1 ^ f1) ^ (s2 ^ f2)
  {
  }

  /** Carrying AL's top bit into AH commutes with XOR. */
  lemma CarriedLinear(a1: bv8, h1: bv8, a2: bv8, h2: bv8)
    ensures Carried(a1 ^ a2, h1 ^ h2) == Carried(a1, h1) ^ Carried(a2, h2)
  {
  }

  lemma RotateLinear(a: bv8, b: bv8)
    ensures Rotate(a ^ b) == Rotate(a) ^ Rotate(b)
  {
  }

  lemma RoundOfXor(x: Regs, y: Regs)
    ensures Round(XorRegs(x, y)) == Regs(Rotate(x.al ^ y.al), NextAh(x.al ^ y.al, x.ah ^ y.ah))
  {
  }

  lemma XorOfRounds(x: Regs, y: Regs)
    ensures XorRegs(Round(x), Round(y)) == Regs(Rotate(x.al) ^ Rotate(y.al), NextAh(x.al, x.ah) ^ NextAh(y.al, y.ah))
  {
  }

  /** A round is linear over GF(2): it has no constant term. */
  lemma RoundLinear(x: Regs, y: Regs)
    ensures Round(XorRegs(x, y)) == XorRegs(Round(x), Round(y))
  {
    RoundOfXor(x, y);
    XorOfRounds(x, y);
    RotateLinear(x.al, y.al);
    NextAhLinear(x.al, x.ah, y.al, y.ah);
  }

  lemma {:induction false} RoundsLinear(x: Regs, y: Regs, n: nat)
    ensures Rounds(XorRegs(x, y), n) == XorRegs(Rounds(x, n), Rounds(y, n))
    decreases n
  {
    if n > 0 {
      RoundLinear(x, y);
      RoundsLinear(Round(x), Round(y), n - 1);
    }
  }

  lemma Rounds8(r: Regs)
    ensures Rounds(r, 8) == Round(Round(Round(Round(Round(Round(Round(Round(r))))))))
  {
    var r1 := Round(r);
    var r2 := Round(r1);
    var r3 := Round(r2);
    var r4 := Round(r3);
    var r5 := Round(r4);
    var r6 := Round(r5);
    var r7 := Round(r6);
    assert Rounds(r, 8) == Rounds(r1, 7) == Rounds(r2, 6) == Rounds(r3, 5) == Rounds(r4, 4);
    assert Rounds(r4, 4) == Rounds(r5, 3) == Rounds(r6, 2) == Rounds(r7, 1);
  }

  /** From a clear register, eight rounds move AL into AH unchanged. */
  lemma ClearRegisterRounds(d: bv8)
    ensures Rounds(Regs(d, 0), StepRounds).ah == d
  {
    Rounds8(Regs(d, 0));
  }

  /** The difference two input bytes make to AH is the difference they make from a
      clear register. */
  lemma RoundsXorInput(a: bv8, b: bv8, crc: bv8)
    ensures Rounds(Regs(a, crc), StepRounds).ah ^ Rounds(Regs(b, crc), StepRounds).ah == Rounds(Regs(a ^ b, 0), StepRounds).ah
  {
    RoundsLinear(Regs(a, crc), Regs(b, crc), StepRounds);
    assert XorRegs(Regs(a, crc), Regs(b, crc)) == Regs(a ^ b, 0);
  }

  lemma RoundsInjectiveInput(a: bv8, b: bv8, crc: bv8)
    requires a != b
    ensures Rounds(Regs(a, crc), StepRounds).ah != Rounds(Regs(b, crc), StepRounds).ah
  {
    var x := Rounds(Regs(a, crc), StepRounds).ah;
    var y := Rounds(Regs(b, crc), StepRounds).ah;
    var z := Rounds(Regs(a ^ b, 0), StepRounds).ah;
    RoundsXorInput(a, b, crc);
    ClearRegisterRounds(a ^ b);
    XorDistinct(x, y, z, a, b);
  }

  lemma XorDistinct(x: bv8, y: bv8, z: bv8, a: bv8, b: bv8)
    requires x ^ y == z && z == a ^ b && a != b
    ensures x != y
  {
  }

  /** A round maps distinct registers with the same AL to distinct registers with the
      same AL: the carry out of AH reappears as AH's low bit, since 0x69 is odd. */
  lemma RoundInjectiveCrc(al: bv8, c: bv8, d: bv8)
    requires c != d
    ensures Round(Regs(al, c)).al == Round(Regs(al, d)).al
    ensures Round(Regs(al, c)).ah != Round(Regs(al, d)).ah
  {
  }

  lemma {:induction false} RoundsInjectiveCrc(al: bv8, c: bv8, d: bv8, n: nat)
    requires c != d
    ensures Rounds(Regs(al, c), n).ah != Rounds(Regs(al, d), n).ah
    decreases n
  {
    if n > 0 {
      RoundInjectiveCrc(al, c, d);
      RoundsInjectiveCrc(Round(Regs(al, c)).al, Round(Regs(al, c)).ah, Round(Regs(al, d)).ah, n - 1);
    }
  }

  lemma ByteBvRoundTrip(a: Byte)
    ensures (a as bv8) as int == a
  {
    var wide: bv16 := a as bv16;
    assert wide < 256;
  }

  lemma ByteAsBv(a: Byte, b: Byte)
    requires a != b
    ensures a as bv8 != b as bv8
  {
    ByteBvRoundTrip(a);
    ByteBvRoundTrip(b);
  }

  lemma BvAsInt(x: bv8, y: bv8)
    requires x != y
    ensures x as int != y as int
  {
    BvIntRoundTrip(x);
    BvIntRoundTrip(y);
  }

  /** For a fixed register, distinct input bytes give distinct checksums. */
  lemma StepInjectiveInput(a: Byte, b: Byte, crc: Byte)
    requires a != b
    ensures Step(a, crc) != Step(b, crc)
  {
    ByteAsBv(a, b);
    RoundsInjectiveInput(a as bv8, b as bv8, crc as bv8);
    BvAsInt(Rounds(Regs(a as bv8, crc as bv8), StepRounds).ah, Rounds(Regs(b as bv8, crc as bv8), StepRounds).ah);
  }

  /** For a fixed input byte, distinct registers give distinct checksums. */
  lemma StepInjectiveCrc(input: Byte, c: Byte, d: Byte)
    requires c != d
    ensures Step(input, c) != Step(input, d)
  {
    ByteAsBv(c, d);
    RoundsInjectiveCrc(input as bv8, c as bv8, d as bv8, StepRounds);
    BvAsInt(Rounds(Regs(input as bv8, c as bv8), StepRounds).ah, Rounds(Regs(input as bv8, d as bv8), StepRounds).ah);
  }

  lemma {:induction false} FoldAppend(p: seq<Byte>, q: seq<Byte>, crc: Byte)
    ensures Fold(p + q, crc) == Fold(q, Fold(p, crc))
    decreases |p|
  {
    if p == [] {
      assert p + q == q;
    } else {
      assert (p + q)[1..] == p[1..] + q;
      FoldAppend(p[1..], q, Step(p[0], crc));
    }
  }

  lemma {:induction false} FoldInjectiveCrc(data: seq<Byte>, c: Byte, d: Byte)
    requires c != d
    ensures Fold(data, c) != Fold(data, d)
    decreases |data|
  {
    if data != [] {
      StepInjectiveCrc(data[0], c, d);
      FoldInjectiveCrc(data[1..], Step(data[0], c), Step(data[0], d));
    }
  }

  /** The checksum catches every corruption confined to one byte of the body. */
  lemma CrcDetectsSingleByteError(x: seq<Byte>, a: Byte, b: Byte, y: seq<Byte>)
    requires a != b
    ensures CrcOf(x + [a] + y) != CrcOf(x + [b] + y)
  {
    var c := Fold(x, 0);
    assert x + [a] + y + [0] == x + ([a] + (y + [0]));
    assert x + [b] + y + [0] == x + ([b] + (y + [0]));
    FoldAppend(x, [a] + (y + [0]), 0);
    FoldAppend(x, [b] + (y + [0]), 0);
    assert ([a] + (y + [0]))[1..] == y + [0];
    assert ([b] + (y + [0]))[1..] == y + [0];
    StepInjectiveInput(a, b, c);
    FoldInjectiveCrc(y + [0], Step(a, c), Step(b, c));
  }

  // ---------------------------------------------------------------------
  // Weight frames: FF Adr COP W0 W1 W2 CON CRC FF FF.

  /** A packed-BCD byte: both nibbles are decimal digits. */
  predicate IsBcd(b: Byte) { b / 16 < 10 && b % 16 < 10 }

  /** The two-digit number a packed-BCD byte stands for. */
  function BcdValue(b: Byte): nat { (b / 16) * 10 + b % 16 }

  /** `f"{b:02X}"` of a byte is its high nibble's digit, then its low nibble's. */
  lemma HexPadByte(b: Byte)
    ensures HexPad(b, 2) == [HexDigit(b / 16), HexDigit(b % 16)]
  {
    if b < 16 {
      assert HexDigits(b) == [HexDigit(b)];
      assert HexDigit(0) == '0';
    } else {
      assert HexDigits(b / 16) == [HexDigit(b / 16)];
    }
  }

  /** The fields of W0 W1 W2 CON, as `decode_weight_frame` reads them: the six hex
      digits of W2 W1 W0 go through `int()`, which refuses anything but decimal
      digits; the sign is CON bit 7, the decimal position bits 0-2, stable bit 4
      and overload bit 3. */
  function DecodeFields(w0: Byte, w1: Byte, w2: Byte, con: Byte): Option<Reading>
  {
    var digits := HexPad(w2, 2) + HexPad(w1, 2) + HexPad(w0, 2);
    if AllDigits(digits) then
      Some(Reading(Decimal(con >= 128, DecValue(digits), con % 8), (con / 16) % 2 == 1, (con / 8) % 2 == 1))
    else
      None
  }

  lemma DecValueSix(s: string)
    requires |s| == 6
    ensures DecValue(s) == HexValue(s[0]) * 100000 + HexValue(s[1]) * 10000 + HexValue(s[2]) * 1000
                         + HexValue(s[3]) * 100 + HexValue(s[4]) * 10 + HexValue(s[5])
  {
    assert s[..5][..4] == s[..4] && s[..4][..3] == s[..3] && s[..3][..2] == s[..2];
    assert s[..2][..1] == s[..1] && s[..1][..0] == [];
    assert DecValue(s[..1]) == HexValue(s[0]);
    assert DecValue(s[..2]) == HexValue(s[0]) * 10 + HexValue(s[1]);
    assert DecValue(s[..3]) == DecValue(s[..2]) * 10 + HexValue(s[2]);
    assert DecValue(s[..4]) == DecValue(s[..3]) * 10 + HexValue(s[3]);
    assert DecValue(s[..5]) == DecValue(s[..4]) * 10 + HexValue(s[4]);
    assert s[..6] == s;
  }

  /** The fields decode exactly when W0, W1 and W2 are packed BCD, and then the weight
      is the six-digit number W2 W1 W0 with CON's sign and decimal position. */
  lemma DecodeFieldsSpec(w0: Byte, w1: Byte, w2: Byte, con: Byte)
    ensures DecodeFields(w0, w1, w2, con).Some? <==> IsBcd(w0) && IsBcd(w1) && IsBcd(w2)
    ensures DecodeFields(w0, w1, w2, con).Some? ==>
      DecodeFields(w0, w1, w2, con).value
        == Reading(Decimal(con >= 128, BcdValue(w2) * 10000 + BcdValue(w1) * 100 + BcdValue(w0), con % 8),
                   (con / 16) % 2 == 1, (con / 8) % 2 == 1)
  {
    HexPadByte(w0);
    HexPadByte(w1);
    HexPadByte(w2);
    var digits := HexPad(w2, 2) + HexPad(w1, 2) + HexPad(w0, 2);
    assert digits == [HexDigit(w2 / 16), HexDigit(w2 % 16), HexDigit(w1 / 16), HexDigit(w1 % 16),
                      HexDigit(w0 / 16), HexDigit(w0 % 16)];
    if IsBcd(w0) && IsBcd(w1) && IsBcd(w2) {
      DecValueSix(digits);
    } else if !IsBcd(w2) {
      assert !IsAsciiDigit(digits[if w2 / 16 >= 10 then 0 else 1]);
    } else if !IsBcd(w1) {
      assert !IsAsciiDigit(digits[if w1 / 16 >= 10 then 2 else 3]);
    } else {
      assert !IsAsciiDigit(digits[if w0 / 16 >= 10 then 4 else 5]);
    }
  }

  /** `decode_weight_frame`: None for a short frame, a wrong start byte, a wrong
      trailer, a checksum mismatch or a non-BCD weight byte. */
  function DecodeWeightFrame(data: seq<Byte>): Option<Reading>
  {
    if |data| < 10 then None
    else if data[0] != 0xFF || data[|data| - 2..] != [0xFF, 0xFF] then None
    else if CrcOf(data[1..7]) != data[7] then None
    else DecodeFields(data[3], data[4], data[5], data[6])
  }

  /** What `decode_weight_frame` accepts, and what it reads from an accepted frame. */
  lemma DecodeWeightFrameSpec(data: seq<Byte>)
    ensures DecodeWeightFrame(data).Some? <==>
      |data| >= 10 && data[0] == 0xFF && data[|data| - 2] == 0xFF && data[|data| - 1] == 0xFF
      && data[7] == CrcOf(data[1..7]) && IsBcd(data[3]) && IsBcd(data[4]) && IsBcd(data[5])
    ensures DecodeWeightFrame(data).Some? ==>
      DecodeWeightFrame(data).value
        == Reading(Decimal(data[6] >= 128, BcdValue(data[5]) * 10000 + BcdValue(data[4]) * 100 + BcdValue(data[3]),
                           data[6] % 8),
                   (data[6] / 16) % 2 == 1, (data[6] / 8) % 2 == 1)
  {
    if |data| >= 10 {
      DecodeFieldsSpec(data[3], data[4], data[5], data[6]);
      assert data[0] == 0xFF && data[|data| - 2] == 0xFF && data[|data| - 1] == 0xFF
        <==> data[0] == 0xFF && data[|data| - 2..] == [0xFF, 0xFF];
    }
  }

  /** Bytes between the checksum and the trailer are ignored. */
  lemma DecodeLongFrame(data: seq<Byte>)
    requires |data| >= 10
    ensures DecodeWeightFrame(data) == DecodeWeightFrame(data[..8] + data[|data| - 2..])
  {
    var short := data[..8] + data[|data| - 2..];
    assert short[1..7] == data[1..7];
    assert short[|short| - 2..] == data[|data| - 2..];
  }

  /** A frame that decodes stops decoding once any one of Adr..CRC is changed. */
  lemma CorruptedFrameRejected(data: seq<Byte>, i: nat, b: Byte)
    requires DecodeWeightFrame(data).Some?
    requires 1 <= i <= 7 && b != data[i]
    ensures DecodeWeightFrame(data[i := b]) == None
  {
    var bad := data[i := b];
    assert bad[|bad| - 2..] == data[|data| - 2..];
    if i < 7 {
      var x, y := data[1..i], data[i + 1..7];
      assert data[1..7] == x + [data[i]] + y;
      assert bad[1..7] == x + [b] + y;
      CrcDetectsSingleByteError(x, data[i], b, y);
    }
  }

  // ---------------------------------------------------------------------
  // The simulator's frame builder (the randomness of
  // `generate_random_weight_response` becomes parameters).

  /** `to_bcd_pair`: two decimal digits packed into one byte, first digit high. */
  function BcdPair(a: char, b: char): (r: Byte)
    requires IsAsciiDigit(a) && IsAsciiDigit(b)
    ensures IsBcd(r) && BcdValue(r) == HexValue(a) * 10 + HexValue(b)
  {
    HexValue(a) * 16 + HexValue(b)
  }

  /** The frame for `weightScaled` (the weight times 10^decimals). A negative weight
      puts a '-' into the `%06d` text, which `int()` refuses, so there is no frame;
      only the first six digits of a longer text are packed. */
  function BuildFrame(weightScaled: int, decimals: nat, stable: bool, overload: bool): (r: Option<seq<Byte>>)
    requires decimals == 2 || decimals == 3
    ensures r.Some? <==> weightScaled >= 0
    ensures r.Some? ==> |r.value| == 10
  {
    if weightScaled < 0 then None
    else
      DecPadNat(weightScaled, 6);
      Some(Frame(Core(DecPad(weightScaled, 6), ConByte(decimals, stable, overload))))
  }

  /** CON: bit 4 for a stable reading, bit 3 for overload, the decimal position below. */
  function ConByte(decimals: nat, stable: bool, overload: bool): Byte
    requires decimals == 2 || decimals == 3
  {
    (if stable then 16 else 0) + (if overload then 8 else 0) + decimals
  }

  /** Adr 01, COP C3, then W0 W1 W2 packed from the first six digits, then CON. */
  function Core(text: string, con: Byte): (core: seq<Byte>)
    requires |text| >= 6 && AllDigits(text)
    ensures |core| == 6
  {
    [1, 0xC3, BcdPair(text[4], text[5]), BcdPair(text[2], text[3]), BcdPair(text[0], text[1]), con]
  }

  /** `FF + core + CRC + FF FF`. */
  function Frame(core: seq<Byte>): (f: seq<Byte>)
    ensures |f| == |core| + 4
  {
    [0xFF] + core + [CrcOf(core), 0xFF, 0xFF]
  }

  /** The CON byte the builder writes reads back as the same flags and position. */
  lemma ConFields(decimals: nat, stable: bool, overload: bool)
    requires decimals == 2 || decimals == 3
    ensures var con := ConByte(decimals, stable, overload);
      con < 128 && con % 8 == decimals && ((con / 16) % 2 == 1) == stable && ((con / 8) % 2 == 1) == overload
  {
  }

  /** A frame assembled around a body with its own checksum passes the framing and
      checksum checks, leaving only the weight fields to decide. */
  lemma WellFormedFrame(core: seq<Byte>)
    requires |core| == 6
    ensures DecodeWeightFrame(Frame(core)) == DecodeFields(core[2], core[3], core[4], core[5])
  {
    var f := Frame(core);
    assert f[1..7] == core;
    assert f[|f| - 2..] == [0xFF, 0xFF];
  }

  /** Packing six decimal digits two by two gives BCD bytes worth those digits. */
  lemma PackedDigits(text: string, con: Byte)
    requires |text| >= 6 && AllDigits(text)
    ensures var core := Core(text, con);
      DecodeFields(core[2], core[3], core[4], core[5])
        == Some(Reading(Decimal(con >= 128, DecValue(text[..6]), con % 8), (con / 16) % 2 == 1, (con / 8) % 2 == 1))
  {
    var w0 := BcdPair(text[4], text[5]);
    var w1 := BcdPair(text[2], text[3]);
    var w2 := BcdPair(text[0], text[1]);
    DecodeFieldsSpec(w0, w1, w2, con);
    DecValueSix(text[..6]);
  }

  /** A built frame passes every check of the decoder and carries the first six
      digits of the `%06d` text, the decimal position and both flags. */
  lemma BuildFrameDecodes(weightScaled: nat, decimals: nat, stable: bool, overload: bool)
    requires decimals == 2 || decimals == 3
    ensures BuildFrame(weightScaled, decimals, stable, overload).Some?
    ensures DecodeWeightFrame(BuildFrame(weightScaled, decimals, stable, overload).value)
      == Some(Reading(Decimal(false, DecValue(DecPad(weightScaled, 6)[..6]), decimals), stable, overload))
  {
    DecPadNat(weightScaled, 6);
    var text := DecPad(weightScaled, 6);
    var con := ConByte(decimals, stable, overload);
    var core := Core(text, con);
    assert BuildFrame(weightScaled, decimals, stable, overload) == Some(Frame(core));
    WellFormedFrame(core);
    PackedDigits(text, con);
    ConFields(decimals, stable, overload);
    ConReading(con, DecValue(text[..6]), decimals, stable, overload);
  }

  lemma ConReading(con: Byte, raw: nat, decimals: nat, stable: bool, overload: bool)
    requires decimals == 2 || decimals == 3
    requires con < 128 && con % 8 == decimals && ((con / 16) % 2 == 1) == stable && ((con / 8) % 2 == 1) == overload
    ensures Reading(Decimal(con >= 128, raw, con % 8), (con / 16) % 2 == 1, (con / 8) % 2 == 1)
      == Reading(Decimal(false, raw, decimals), stable, overload)
  {
  }

  /** Round trip: every weight of at most six digits comes back unchanged. */
  lemma BuildFrameRoundTrip(weightScaled: nat, decimals: nat, stable: bool, overload: bool)
    requires weightScaled <= 999999 && (decimals == 2 || decimals == 3)
    ensures BuildFrame(weightScaled, decimals, stable, overload).Some?
    ensures DecodeWeightFrame(BuildFrame(weightScaled, decimals, stable, overload).value)
      == Some(Reading(Decimal(false, weightScaled, decimals), stable, overload))
  {
    BuildFrameDecodes(weightScaled, decimals, stable, overload);
    DecPadExact(weightScaled, 6);
    assert DecPad(weightScaled, 6)[..6] == DecPad(weightScaled, 6);
  }

  /** A seven-digit weight loses its last digit: 12345.67 kg is sent as 1234.56 kg. */
  lemma BuildFrameTruncates(weightScaled: nat, decimals: nat, stable: bool, overload: bool)
    requires 1000000 <= weightScaled <= 9999999 && (decimals == 2 || decimals == 3)
    ensures BuildFrame(weightScaled, decimals, stable, overload).Some?
    ensures DecodeWeightFrame(BuildFrame(weightScaled, decimals, stable, overload).value)
      == Some(Reading(Decimal(false, weightScaled / 10, decimals), stable, overload))
  {
    BuildFrameDecodes(weightScaled, decimals, stable, overload);
    var head := DecDigits(weightScaled / 10);
    assert DecDigits(weightScaled) == head + [DecDigit(weightScaled % 10)];
    DecDigitsLength(weightScaled / 10, 6);
    DecDigitsLengthAtLeast(weightScaled / 10, 6);
    assert DecPad(weightScaled, 6)[..6] == head;
    DecDigitsFacts(weightScaled / 10);
  }
}
