/** The payload checksum of utils/qris.ts: CRC-16/CCITT-FALSE (polynomial 0x1021,
    initial register 0xFFFF, most significant bit first, no reflection, no final XOR),
    formatted as four upper-case hexadecimal digits. */
module Crc {
  import opened JsBuiltins

  const Initial: bv32 := 0xFFFF

  // ---------------------------------------------------------------------------
  // The reference definition: a 16-bit register, masked after every shift.

  /** The low 16 bits of a register. */
  function Low(c: bv32): bv32 {
    c & 0xFFFF
  }

  /** One shift of the 16-bit register: shift left, and XOR in the polynomial 0x1021 when
      the bit shifted out was set. */
  function Shift(r: bv32): (r': bv32)
  {
    Low(if r & 0x8000 != 0 then (r << 1) ^ 0x1021 else r << 1)
  }

  /** n shifts of the register. */
  function ShiftN(r: bv32, n: nat): (r': bv32)
  {
    if n == 0 then r else Shift(ShiftN(r, n - 1))
  }

  /** The byte of a character that reaches the 16-bit register: charCodeAt(i) << 8 puts
      every higher bit of the code unit above bit 15. */
  function LowByte(c: char): bv32 {
    (c as bv32) & 0xFF
  }

  /** XOR-ing a byte (or a character code) into the register, above its low eight bits. */
  function Mix(r: bv32, b: bv32): bv32 {
    r ^ (b << 8)
  }

  /** Feeding one byte: XOR it into the high byte, then eight shifts. */
  function Update(r: bv32, b: bv32): (r': bv32)
  {
    ShiftN(Mix(r, b), 8)
  }

  /** The register after feeding the characters of s, in order, to a register holding r. */
  function Feed(r: bv32, s: string): bv32
    decreases s, r
  {
    if s == [] then r else Feed(Update(r, LowByte(s[0])), s[1..])
  }

  /** CRC-16/CCITT-FALSE of s. */
  function Checksum(s: string): bv32 {
    Feed(Initial, s)
  }

  /** Feeding the rest of data from position i is feeding data[i], then the rest after it. */
  lemma FeedStep(r: bv32, data: string, i: nat)
    requires i < |data|
    ensures Feed(r, data[i..]) == Feed(Update(r, LowByte(data[i])), data[i + 1..])
  {
    assert data[i..][1..] == data[i + 1..];
  }

  lemma {:induction false} FeedBound(r: bv32, s: string)
    requires r <= 0xFFFF
    ensures Feed(r, s) <= 0xFFFF
    decreases |s|
  {
    if s != [] {
      FeedBound(Update(r, LowByte(s[0])), s[1..]);
    }
  }

  /** The checksum is a 16-bit value. */
  lemma ChecksumBound(s: string)
    ensures Checksum(s) <= 0xFFFF
  {
    FeedBound(Initial, s);
  }

  /** The four-character form of a 16-bit register: toString(16), toUpperCase,
      padStart(4, '0'). */
  function Hex4(r: bv32): string {
    PadStart(ToUpper(ToRadix(r as nat, 16)), 4, '0')
  }

  /** toString(16) of a 16-bit value has at most four digits, so padding gives exactly four. */
  lemma Hex4Length(r: bv32)
    requires r <= 0xFFFF
    ensures |ToRadix(r as nat, 16)| <= 4 && |Hex4(r)| == 4
  {
    assert Pow(16, 4) == 0x10000;
    ToRadixLength(r as nat, 16, 4);
  }

  /** The four characters are upper-case hexadecimal digits. */
  lemma Hex4Digits(r: bv32)
    ensures forall k :: 0 <= k < |Hex4(r)| ==> IsUpperHexDigit(Hex4(r)[k])
  {
    var d := ToRadix(r as nat, 16);
    ToRadixDigits(r as nat, 16);
    UpperHexDigits(d);
    PadDigits(ToUpper(d), 4);
  }

  /** The four characters read back, as hexadecimal, as the value. */
  lemma Hex4Value(r: bv32)
    requires r <= 0xFFFF
    ensures RadixValue(Hex4(r), 16) == r as nat
  {
    var d := ToRadix(r as nat, 16);
    ToRadixValue(r as nat, 16);
    UpperValue(d, 16);
    Hex4Length(r);
    LeadingZerosValue(ToUpper(d), 4 - |d|, 16);
  }

  /** The checksum in the form crc16ccitt returns it. */
  function CrcHex(s: string): string {
    Hex4(Checksum(s))
  }

  /** The checksum text is exactly four upper-case hexadecimal digits that read back as
      the 16-bit checksum. */
  lemma CrcHexShape(s: string)
    ensures |CrcHex(s)| == 4
    ensures forall k :: 0 <= k < 4 ==> IsUpperHexDigit(CrcHex(s)[k])
    ensures RadixValue(CrcHex(s), 16) == Checksum(s) as nat
  {
    ChecksumBound(s);
    Hex4Length(Checksum(s));
    Hex4Digits(Checksum(s));
    Hex4Value(Checksum(s));
  }

  // ---------------------------------------------------------------------------
  // crc16ccitt as written: a 32-bit register (JavaScript's bitwise operators work on
  // int32 values) that is never masked inside the loops and is masked once at the end.

  /** One pass of the inner loop on the unmasked 32-bit register: shift left, and XOR in
      the polynomial when bit 15 was set. */
  function Step32(c: bv32): bv32 {
    if c & 0x8000 != 0 then (c << 1) ^ 0x1021 else c << 1
  }

  /** n passes of the inner loop. */
  function Step32N(c: bv32, n: nat): bv32 {
    if n == 0 then c else Step32(Step32N(c, n - 1))
  }

  /** One pass of the outer loop: crc ^= charCodeAt(i) << 8, then eight inner passes. */
  function Byte32(c: bv32, ch: char): bv32 {
    Step32N(Mix(c, ch as bv32), 8)
  }

  /** The unmasked register after the outer loop has run over s. */
  function Feed32(c: bv32, s: string): bv32
    decreases s, c
  {
    if s == [] then c else Feed32(Byte32(c, s[0]), s[1..])
  }

  lemma HighBitKept(c: bv32)
    ensures Low(c) & 0x8000 == c & 0x8000
  {
  }

  lemma ShiftXorLow(c: bv32, m: bv32)
    requires m == c & 0xFFFF
    ensures Low((c << 1) ^ 0x1021) == Low((m << 1) ^ 0x1021)
  {
  }

  lemma ShiftLow(c: bv32, m: bv32)
    requires m == c & 0xFFFF
    ensures Low(c << 1) == Low(m << 1)
  {
  }

  lemma StepLowAt(c: bv32, m: bv32)
    requires m == c & 0xFFFF
    ensures Low(Step32(c)) == Shift(m)
  {
    if c & 0x8000 != 0 {
      ShiftXorLow(c, m);
    } else {
      ShiftLow(c, m);
    }
  }

  /** The low 16 bits of one unmasked 32-bit step are one masked 16-bit step: shifting
      left and XOR-ing the polynomial never carry bit 16 or above back into bits 0-15,
      and bit 15 is the same in both registers. */
  lemma StepLow(c: bv32)
    ensures Low(Step32(c)) == Shift(Low(c))
  {
    HighBitKept(c);
    StepLowAt(c, c & 0xFFFF);
  }

  lemma {:induction false} StepNLow(c: bv32, n: nat)
    ensures Low(Step32N(c, n)) == ShiftN(Low(c), n)
  {
    if n > 0 {
      StepNLow(c, n - 1);
      StepLow(Step32N(c, n - 1));
    }
  }

  /** XOR-ing charCodeAt(i) << 8 into the 32-bit register changes its low 16 bits exactly
      as XOR-ing the low byte into the 16-bit register's high byte does. */
  lemma MixLow(c: bv32, ch: char)
    ensures Low(Mix(c, ch as bv32)) == Mix(Low(c), LowByte(ch))
  {
  }

  /** One outer pass on the unmasked register is one byte fed to the masked register. */
  lemma ByteLow(c: bv32, ch: char)
    ensures Low(Byte32(c, ch)) == Update(Low(c), LowByte(ch))
  {
    StepNLow(Mix(c, ch as bv32), 8);
    MixLow(c, ch);
  }

  /** Masking once at the end gives what masking after every step gives. */
  lemma {:induction false} FeedLow(c: bv32, s: string)
    ensures Low(Feed32(c, s)) == Feed(Low(c), s)
    decreases s
  {
    if s != [] {
      ByteLow(c, s[0]);
      FeedLow(Byte32(c, s[0]), s[1..]);
    }
  }

  /** Feeding the rest of data from position i is one outer pass on data[i], then the rest
      after it. */
  lemma Feed32Step(c: bv32, data: string, i: nat)
    requires i < |data|
    ensures Feed32(c, data[i..]) == Feed32(Byte32(c, data[i]), data[i + 1..])
  {
    assert data[i..][1..] == data[i + 1..];
  }

  /** The register the loops leave, masked once, is the reference checksum. */
  lemma MaskedRegister(crc: bv32, data: string)
    requires crc == Feed32(0xFFFF, data)
    ensures Low(crc) == Checksum(data) <= 0xFFFF
  {
    FeedLow(0xFFFF, data);
    assert Low(0xFFFF) == Initial;
    ChecksumBound(data);
  }

  /** The inner loop of crc16ccitt: eight passes of Step32 over the register. */
  method ShiftByte(crc0: bv32) returns (crc: bv32)
    ensures crc == Step32N(crc0, 8)
  {
    crc := crc0;
    var j := 0;
    while j < 8
      invariant 0 <= j <= 8
      invariant crc == Step32N(crc0, j)
    {
      crc := Step32(crc);
      j := j + 1;
    }
  }

  /** crc16ccitt. Its result is the reference CRC-16/CCITT-FALSE in four-digit form. */
  method Crc16Ccitt(data: string) returns (hex: string)
    ensures hex == CrcHex(data)
  {
    var crc: bv32 := 0xFFFF;
    var i := 0;
    while i < |data|
      invariant 0 <= i <= |data|
      invariant Feed32(crc, data[i..]) == Feed32(0xFFFF, data)
    {
      ghost var before := crc;
      crc := crc ^ ((data[i] as bv32) << 8);
      crc := ShiftByte(crc);
      Feed32Step(before, data, i);
      i := i + 1;
    }
    assert data[i..] == [];
    MaskedRegister(crc, data);
    hex := Hex4(Low(crc));
  }

  // ---------------------------------------------------------------------------
  // The standard check values

  /** The checksum of the empty string is the initial register. */
  lemma EmptyCheckValue()
    ensures Checksum("") == 0xFFFF
    ensures CrcHex("") == "FFFF"
  {
    assert ToRadix(0xFFFF, 16) == "ffff";
  }

  /** The eight shifts of one byte, written out. */
  lemma ShiftEight(r: bv32)
    ensures ShiftN(r, 8) == Shift(Shift(Shift(Shift(Shift(Shift(Shift(Shift(r))))))))
  {
    assert ShiftN(r, 1) == Shift(r);
    assert ShiftN(r, 2) == Shift(ShiftN(r, 1));
    assert ShiftN(r, 3) == Shift(ShiftN(r, 2));
    assert ShiftN(r, 4) == Shift(ShiftN(r, 3));
    assert ShiftN(r, 5) == Shift(ShiftN(r, 4));
    assert ShiftN(r, 6) == Shift(ShiftN(r, 5));
    assert ShiftN(r, 7) == Shift(ShiftN(r, 6));
  }

  lemma CheckHex()
    ensures Hex4(0x29B1) == "29B1"
  {
    assert ToRadix(0x29B1, 16) == "29b1";
  }

  const CheckInput := "123456789"

  lemma CheckStep0()
    ensures Feed(0xFFFF, CheckInput[0..]) == Feed(0xC782, CheckInput[1..])
  {
    assert LowByte(CheckInput[0]) == 0x31;
    ShiftEight(Mix(0xFFFF, 0x31));
    FeedStep(0xFFFF, CheckInput, 0);
  }

  lemma CheckStep1()
    ensures Feed(0xC782, CheckInput[1..]) == Feed(0x3DBA, CheckInput[2..])
  {
    assert LowByte(CheckInput[1]) == 0x32;
    ShiftEight(Mix(0xC782, 0x32));
    FeedStep(0xC782, CheckInput, 1);
  }

  lemma CheckStep2()
    ensures Feed(0x3DBA, CheckInput[2..]) == Feed(0x5BCE, CheckInput[3..])
  {
    assert LowByte(CheckInput[2]) == 0x33;
    ShiftEight(Mix(0x3DBA, 0x33));
    FeedStep(0x3DBA, CheckInput, 2);
  }

  lemma CheckStep3()
    ensures Feed(0x5BCE, CheckInput[3..]) == Feed(0x5349, CheckInput[4..])
  {
    assert LowByte(CheckInput[3]) == 0x34;
    ShiftEight(Mix(0x5BCE, 0x34));
    FeedStep(0x5BCE, CheckInput, 3);
  }

  lemma CheckStep4()
    ensures Feed(0x5349, CheckInput[4..]) == Feed(0x4560, CheckInput[5..])
  {
    assert LowByte(CheckInput[4]) == 0x35;
    ShiftEight(Mix(0x5349, 0x35));
    FeedStep(0x5349, CheckInput, 4);
  }

  lemma CheckStep5()
    ensures Feed(0x4560, CheckInput[5..]) == Feed(0x2EF4, CheckInput[6..])
  {
    assert LowByte(CheckInput[5]) == 0x36;
    ShiftEight(Mix(0x4560, 0x36));
    FeedStep(0x4560, CheckInput, 5);
  }

  lemma CheckStep6()
    ensures Feed(0x2EF4, CheckInput[6..]) == Feed(0x7718, CheckInput[7..])
  {
    assert LowByte(CheckInput[6]) == 0x37;
    ShiftEight(Mix(0x2EF4, 0x37));
    FeedStep(0x2EF4, CheckInput, 6);
  }

  lemma CheckStep7()
    ensures Feed(0x7718, CheckInput[7..]) == Feed(0xA12B, CheckInput[8..])
  {
    assert LowByte(CheckInput[7]) == 0x38;
    ShiftEight(Mix(0x7718, 0x38));
    FeedStep(0x7718, CheckInput, 7);
  }

  lemma CheckStep8()
    ensures Feed(0xA12B, CheckInput[8..]) == Feed(0x29B1, CheckInput[9..])
  {
    assert LowByte(CheckInput[8]) == 0x39;
    ShiftEight(Mix(0xA12B, 0x39));
    FeedStep(0xA12B, CheckInput, 8);
  }

  /** The standard check value of CRC-16/CCITT-FALSE: "123456789" gives 29B1. */
  lemma StandardCheckValue()
    ensures Checksum("123456789") == 0x29B1
    ensures CrcHex("123456789") == "29B1"
  {
    assert CheckInput[0..] == CheckInput;
    CheckStep0();
    CheckStep1();
    CheckStep2();
    CheckStep3();
    CheckStep4();
    CheckStep5();
    CheckStep6();
    CheckStep7();
    CheckStep8();
    assert CheckInput[9..] == [];
    CheckHex();
  }
}
