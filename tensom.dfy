/** The older Tenzo-M client of the weighing service
    (weighing_service/scales/tenso_m.py): its own copy of the checksum routine,
    the three request commands with their checksums written in, and a weight
    decoder that reads bytes 3..6 without any check. */
module TensoM {
  import opened Common
  import opened Weights
  import opened TenzoUtils

  /** A request command: FF Adr COP CRC FF FF, the checksum taken over Adr and COP. */
  function RequestFrame(adr: Byte, cop: Byte): (f: seq<Byte>)
    ensures |f| == 6 && f[0] == 0xFF && f[1] == adr && f[2] == cop && f[4] == 0xFF && f[5] == 0xFF
    ensures f[3] == CrcOf([adr, cop])
  {
    [0xFF, adr, cop, CrcOf([adr, cop]), 0xFF, 0xFF]
  }

  const GetGrossCommand: seq<Byte> := [0xFF, 0x01, 0xC3, 0xE3, 0xFF, 0xFF]
  const GetNetCommand: seq<Byte> := [0xFF, 0x01, 0xC2, 0x8A, 0xFF, 0xFF]
  const SetTareCommand: seq<Byte> := [0xFF, 0x01, 0xC0, 0x58, 0xFF, 0xFF]

  /** `crc_maker`: the same eight rounds as `_crc_step` (the final `& 0xFF` there
      changes nothing, since AH never leaves 0..255). */
  method CrcMaker(bInput: Byte, bCrc: Byte) returns (r: Byte)
    ensures r == Step(bInput, bCrc)
  {
    var al: bv8 := bInput as bv8;
    var ah: bv8 := bCrc as bv8;
    for i := 0 to 8
      invariant Rounds(Regs(al, ah), 8 - i) == Rounds(Regs(bInput as bv8, bCrc as bv8), 8)
    {
      var carryAl := al >> 7;
      al := (al << 1) | carryAl;
      var carryAh := ah >> 7;
      ah := (ah << 1) | carryAl;
      if carryAh == 1 {
        ah := ah ^ 0x69;
      }
    }
    r := ah as int;
  }

  /** `_calculate_crc_with_null`: the data bytes, then one 0x00, as two upper-case hex
      digits; the same value as `_compute_crc(data, as_hex=True)`. */
  method CalculateCrcWithNull(dataBytes: seq<Byte>) returns (s: string)
    ensures s == HexPad(CrcOf(dataBytes), 2)
    ensures |s| == 2 && AllHexDigits(s) && HexNumValue(s) == CrcOf(dataBytes)
  {
    var crc: Byte := 0;
    for i := 0 to |dataBytes|
      invariant Fold(dataBytes, 0) == Fold(dataBytes[i..], crc)
    {
      assert dataBytes[i..][1..] == dataBytes[i + 1..];
      crc := CrcMaker(dataBytes[i], crc);
    }
    crc := CrcMaker(0, crc);
    FoldAppend(dataBytes, [0], 0);
    HexPadExact(crc, 2);
    s := HexPad(crc, 2);
  }

  /** The written-in checksums are right: each command is the request frame for
      address 1 and its operation code. */
  lemma CommandsAreRequestFrames()
    ensures GetGrossCommand == RequestFrame(1, 0xC3)
    ensures GetNetCommand == RequestFrame(1, 0xC2)
    ensures SetTareCommand == RequestFrame(1, 0xC0)
  {
    GrossCrc();
    NetCrc();
    TareCrc();
  }

  lemma GrossCrc()
    ensures CrcOf([1, 0xC3]) == 0xE3
  {
    CrcOfPair(0xC3);
    StepAddress();
    StepC3();
    StepAA();
  }

  lemma NetCrc()
    ensures CrcOf([1, 0xC2]) == 0x8A
  {
    CrcOfPair(0xC2);
    StepAddress();
    StepC2();
    StepAB();
  }

  lemma TareCrc()
    ensures CrcOf([1, 0xC0]) == 0x58
  {
    CrcOfPair(0xC0);
    StepAddress();
    StepC0();
    StepA9();
  }

  /** Eight rounds written out, so that a step on known bytes can be evaluated. */
  lemma StepAt(input: Byte, crc: Byte)
    ensures Step(input, crc)
      == Round(Round(Round(Round(Round(Round(Round(Round(Regs(input as bv8, crc as bv8))))))))).ah as int
  {
    Rounds8(Regs(input as bv8, crc as bv8));
  }

  // Single steps on the bytes of the three commands and of one zero-weight body.
  lemma StepAddress() ensures Step(1, 0) == 0x01 { StepAt(1, 0); }
  lemma StepC3() ensures Step(0xC3, 0x01) == 0xAA { StepAt(0xC3, 0x01); }
  lemma StepC2() ensures Step(0xC2, 0x01) == 0xAB { StepAt(0xC2, 0x01); }
  lemma StepC0() ensures Step(0xC0, 0x01) == 0xA9 { StepAt(0xC0, 0x01); }
  lemma StepAA() ensures Step(0, 0xAA) == 0xE3 { StepAt(0, 0xAA); }
  lemma StepAB() ensures Step(0, 0xAB) == 0x8A { StepAt(0, 0xAB); }
  lemma StepA9() ensures Step(0, 0xA9) == 0x58 { StepAt(0, 0xA9); }
  lemma StepE3() ensures Step(0, 0xE3) == 0x97 { StepAt(0, 0xE3); }
  lemma Step97() ensures Step(0, 0x97) == 0x4C { StepAt(0, 0x97); }
  lemma Step4C() ensures Step(0, 0x4C) == 0xD0 { StepAt(0, 0x4C); }
  lemma StepD0() ensures Step(0, 0xD0) == 0xD4 { StepAt(0, 0xD0); }

  lemma CrcOfPair(cop: Byte)
    ensures CrcOf([1, cop]) == Step(0, Step(cop, Step(1, 0)))
  {
    var all: seq<Byte> := [1, cop] + [0];
    var c1 := Step(1, 0);
    var c2 := Step(cop, c1);
    var c3 := Step(0, c2);
    assert Fold(all, 0) == Fold(all[1..], c1);
    assert Fold(all[1..], c1) == Fold(all[2..], c2);
    assert Fold(all[2..], c2) == Fold(all[3..], c3);
    assert all[3..] == [];
  }

  /** `_decode_weight_frame`: unpacks bytes 3..6 as W0 W1 W2 CON with no length,
      marker or checksum check. None stands for the exceptions it lets escape:
      fewer than seven bytes, or a non-BCD weight byte. */
  function DecodeUnchecked(data: seq<Byte>): Option<Reading>
  {
    if |data| < 7 then None else DecodeFields(data[3], data[4], data[5], data[6])
  }

  /** On every frame the checked decoder accepts, the unchecked one reads the same. */
  lemma DecodeUncheckedAgrees(data: seq<Byte>)
    requires DecodeWeightFrame(data).Some?
    ensures DecodeUnchecked(data) == DecodeWeightFrame(data)
  {
  }

  /** The unchecked decoder takes a frame whose checksum is wrong. */
  lemma DecodeUncheckedIgnoresCrc()
    ensures DecodeWeightFrame([0xFF, 1, 0xC3, 0, 0, 0, 0, 0, 0xFF, 0xFF]) == None
    ensures DecodeUnchecked([0xFF, 1, 0xC3, 0, 0, 0, 0, 0, 0xFF, 0xFF])
      == Some(Reading(Decimal(false, 0, 0), false, false))
  {
    var f: seq<Byte> := [0xFF, 1, 0xC3, 0, 0, 0, 0, 0, 0xFF, 0xFF];
    assert f[1..7] == [1, 0xC3, 0, 0, 0, 0];
    FrameBodyCrc();
    ZeroFields();
  }

  lemma ZeroFields()
    ensures DecodeFields(0, 0, 0, 0) == Some(Reading(Decimal(false, 0, 0), false, false))
  {
    DecodeFieldsSpec(0, 0, 0, 0);
  }

  /** The checksum of the body 01 C3 00 00 00 00 is D4, not 00. */
  lemma FrameBodyCrc()
    ensures CrcOf([1, 0xC3, 0, 0, 0, 0]) == 0xD4
  {
    var body: seq<Byte> := [1, 0xC3, 0, 0, 0, 0];
    assert body + [0] == [1, 0xC3] + [0, 0, 0, 0, 0];
    FoldAppend([1, 0xC3], [0, 0, 0, 0, 0], 0);
    FoldPair();
    ZeroRun();
  }

  /** The first two bytes leave the register at AA. */
  lemma FoldPair()
    ensures Fold([1, 0xC3], 0) == 0xAA
  {
    StepAddress();
    StepC3();
    FoldCons([1, 0xC3], 0);
    FoldCons([0xC3], 1);
    assert [1, 0xC3][1..] == [0xC3];
    assert [0xC3][1..] == [];
  }

  /** Five zero bytes take the register from AA to D4. */
  lemma ZeroRun()
    ensures Fold([0, 0, 0, 0, 0], 0xAA) == 0xD4
  {
    StepAA();
    StepE3();
    Step97();
    Step4C();
    StepD0();
    var z: seq<Byte> := [0, 0, 0, 0, 0];
    FoldCons(z, 0xAA);
    FoldCons(z[1..], 0xE3);
    FoldCons(z[2..], 0x97);
    FoldCons(z[3..], 0x4C);
    FoldCons(z[4..], 0xD0);
    assert z[1..][1..] == z[2..] && z[2..][1..] == z[3..] && z[3..][1..] == z[4..];
    assert z[4..][1..] == [];
  }
}
