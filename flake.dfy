/**
 * The `Snowflake` id: an immutable wrapper around the decimal text of the
 * packed value, with the three field extractors as the code defines them.
 *
 * `Snowflake` extends `String` and does not override `toString`, and
 * `String.prototype.toString` takes no radix, so `this.toString(2)` in the
 * extractors yields the DECIMAL text. Each extractor therefore pads the
 * decimal digits with '0' to 64 characters, takes characters [0,42), [42,52)
 * or [52,64), and reads them with `parseInt(_, 2)`, which stops at the first
 * digit other than '0' or '1'. None stands for NaN.
 */
module Flake {
  import opened Wrappers
  import opened BinaryText
  import opened Layout

  /** The text a Snowflake holds; every id the generator produces is one. */
  type DecimalText = s: string | IsDecimal(s)

  datatype Snowflake = Snowflake(text: DecimalText)

  /** `new Snowflake(flake)` for the BigInt `flake` that `generate` packs: it keeps `flake.toString()`. */
  function FromBigInt(flake: nat): (f: Snowflake)
    ensures DecimalValue(f.text) == flake
  {
    ToDecimalValue(flake);
    Snowflake(ToDecimal(flake))
  }

  /**
   * `toString()` of a Snowflake: the text it wraps, so `new Snowflake(f.toString())`
   * is `f` again.
   */
  function ToString(f: Snowflake): (r: DecimalText)
    ensures Snowflake(r) == f
  {
    f.text
  }

  /** `this.toString(2).padStart(64, '0')`: the decimal text padded with '0' to 64 characters. */
  function Bits(f: Snowflake): (b: string)
    ensures IsDecimal(b)
    ensures |b| == if |f.text| < ID_WIDTH then ID_WIDTH else |f.text|
    ensures forall i :: 0 <= i < ID_WIDTH - |f.text| ==> b[i] == '0'
    ensures b[|b| - |f.text|..] == f.text
  {
    PadZerosDecimal(f.text, ID_WIDTH);
    PadStart(f.text, ID_WIDTH, '0')
  }

  /**
   * `extractTimestamp`: characters [0,42) read as binary, plus EPOCH, in
   * milliseconds. A text shorter than 64 digits always has a number here,
   * and one of at most 22 digits decodes to EPOCH itself.
   */
  function ExtractTimestamp(f: Snowflake): (r: Option<nat>)
    ensures r.Some? ==> EPOCH <= r.value < EPOCH + Pow2(TIMESTAMP_WIDTH)
    ensures |f.text| < ID_WIDTH ==> r.Some?
    ensures |f.text| <= ID_WIDTH - TIMESTAMP_WIDTH ==> r == Some(EPOCH)
  {
    var timeBinary := Bits(f)[..TIMESTAMP_WIDTH];
    assert |f.text| <= ID_WIDTH - TIMESTAMP_WIDTH ==> ParseIntBinary(timeBinary) == Some(0) by {
      if |f.text| <= ID_WIDTH - TIMESTAMP_WIDTH {
        ZerosValue(timeBinary);
      }
    }
    var t := ParseIntBinary(timeBinary);
    if t.None? then None else Some(t.value + EPOCH)
  }

  /**
   * `extractMachineId`: characters [42,52) read as binary. When it is a
   * number it is at most 1023; a text shorter than 22 digits always has a
   * number here, and one of at most 12 digits decodes to machine id 0.
   */
  function ExtractMachineId(f: Snowflake): (r: Option<nat>)
    ensures r.Some? ==> r.value <= MAX_MACHINE_ID
    ensures |f.text| < ID_WIDTH - TIMESTAMP_WIDTH ==> r.Some?
    ensures |f.text| <= SEQUENCE_BITS ==> r == Some(0)
  {
    var machineBinary := Bits(f)[TIMESTAMP_WIDTH..TIMESTAMP_WIDTH + MACHINE_BITS];
    assert Pow2(MACHINE_BITS) == MAX_MACHINE_ID + 1;
    assert |f.text| <= SEQUENCE_BITS ==> ParseIntBinary(machineBinary) == Some(0) by {
      if |f.text| <= SEQUENCE_BITS {
        ZerosValue(machineBinary);
      }
    }
    ParseIntBinary(machineBinary)
  }

  /**
   * `extractTimeOffset`: characters [52,64) read as binary. When it is a
   * number it is at most 4095; a text shorter than 12 digits always has a
   * number here.
   */
  function ExtractTimeOffset(f: Snowflake): (r: Option<nat>)
    ensures r.Some? ==> r.value <= MAX_SEQUENCE
    ensures |f.text| < SEQUENCE_BITS ==> r.Some?
  {
    var offsetBinary := Bits(f)[TIMESTAMP_WIDTH + MACHINE_BITS..ID_WIDTH];
    assert Pow2(SEQUENCE_BITS) == MAX_SEQUENCE + 1;
    ParseIntBinary(offsetBinary)
  }

  /**
   * Decoding depends on the text alone: `new Snowflake(x.toString())`
   * decodes to the same timestamp, machine id and time offset as `x`.
   */
  lemma ReparseKeepsFields(x: Snowflake)
    ensures ExtractTimestamp(Snowflake(ToString(x))) == ExtractTimestamp(x)
    ensures ExtractMachineId(Snowflake(ToString(x))) == ExtractMachineId(x)
    ensures ExtractTimeOffset(Snowflake(ToString(x))) == ExtractTimeOffset(x)
  {
  }

  /**
   * The extractors do not recover the packed fields: the id of timestamp 0,
   * machine id 420 and sequence 0 is 1720320, whose text "1720320" decodes
   * to machine id 0 and time offset 1.
   */
  lemma MachineIdNotRecovered()
    ensures Pack(0, 420, 0) == 1720320
    ensures FromBigInt(Pack(0, 420, 0)).text == "1720320"
    ensures ExtractMachineId(FromBigInt(Pack(0, 420, 0))) == Some(0)
    ensures ExtractTimeOffset(FromBigInt(Pack(0, 420, 0))) == Some(1)
  {
    PackValue(0, 420, 0);
    DecimalText1720320();
    OffsetOf1720320(FromBigInt(1720320));
  }

  lemma DecimalText1720320()
    ensures ToDecimal(1720320) == "1720320"
  {
    assert ToDecimal(1) == "1";
    assert ToDecimal(17) == "17";
    assert ToDecimal(172) == "172";
    assert ToDecimal(1720) == "1720";
    assert ToDecimal(17203) == "17203";
    assert ToDecimal(172032) == "172032";
  }

  lemma OffsetOf1720320(f: Snowflake)
    requires f.text == "1720320"
    ensures ExtractTimeOffset(f) == Some(1)
  {
    var offsetBinary := Bits(f)[TIMESTAMP_WIDTH + MACHINE_BITS..ID_WIDTH];
    assert offsetBinary == "000001720320";
    ParseLeadingOne();
  }

  lemma ParseLeadingOne()
    ensures ParseIntBinary("000001720320") == Some(1)
  {
    var run := "000001720320";
    assert BinaryRunLength(run[6..]) == 0;
    assert BinaryRunLength(run[5..]) == 1;
    assert BinaryRunLength(run[4..]) == 2;
    assert BinaryRunLength(run[3..]) == 3;
    assert BinaryRunLength(run[2..]) == 4;
    assert BinaryRunLength(run[1..]) == 5;
    assert BinaryRunLength(run) == 6;
    assert run[..6] == "000001";
    assert BinaryValue("00000") == 0 by {
      ZerosValue("00000");
    }
    assert "000001"[..5] == "00000";
  }

  /** 2^64 < 10^20: a 64-bit value has at most 20 decimal digits. */
  lemma SixtyFourBitsTwentyDigits()
    ensures Pow2(ID_WIDTH) < Pow10(20)
  {
    assert Pow2(4) == 16;
    Pow2Add(4, 4);
    Pow2Add(8, 8);
    Pow2Add(16, 16);
    Pow2Add(32, 32);
    assert Pow10(1) == 10 && Pow10(4) == 10000;
    Pow10Add(4, 1);
    Pow10Add(5, 5);
    Pow10Add(10, 10);
  }

  lemma {:induction false} Pow10Add(j: nat, k: nat)
    ensures Pow10(j + k) == Pow10(j) * Pow10(k)
  {
    if k > 0 {
      Pow10Add(j, k - 1);
      assert Pow10(j + k) == 10 * Pow10(j + (k - 1));
      ScaleTen(Pow10(j), Pow10(k - 1));
    }
  }

  lemma ScaleTen(x: int, y: int)
    ensures 10 * (x * y) == x * (10 * y)
  {
  }

  /**
   * Every id below 2^64 has a text of at most 20 digits, so the 42 characters
   * `extractTimestamp` reads are all padding zeros: the timestamp decoded from
   * any such id is EPOCH itself.
   */
  lemma IdDecodesToEpoch(v: nat)
    requires v < Pow2(ID_WIDTH)
    ensures |FromBigInt(v).text| <= 20
    ensures ExtractTimestamp(FromBigInt(v)) == Some(EPOCH)
  {
    SixtyFourBitsTwentyDigits();
    ToDecimalLength(v, 20);
  }

  /**
   * The same on an id of the present day: timestamp 160000000000 (mid-2026),
   * machine id 420 and sequence 0 pack to 671088640001720320, whose text
   * decodes to machine id 0 and to no time offset at all (NaN).
   */
  lemma PresentDayIdNotRecovered()
    ensures Pack(160000000000, 420, 0) == 671088640001720320
    ensures FromBigInt(Pack(160000000000, 420, 0)).text == "671088640001720320"
    ensures ExtractTimestamp(FromBigInt(Pack(160000000000, 420, 0))) == Some(EPOCH)
    ensures ExtractMachineId(FromBigInt(Pack(160000000000, 420, 0))) == Some(0)
    ensures ExtractTimeOffset(FromBigInt(Pack(160000000000, 420, 0))) == None
  {
    PackValue(160000000000, 420, 0);
    PresentDayText();
    PresentDayFields(FromBigInt(671088640001720320));
  }

  lemma PresentDayText()
    ensures ToDecimal(671088640001720320) == "671088640001720320"
  {
    assert ToDecimal(6) == "6";
    assert ToDecimal(67) == "67";
    assert ToDecimal(671) == "671";
    assert ToDecimal(6710) == "6710";
    assert ToDecimal(67108) == "67108";
    assert ToDecimal(671088) == "671088";
    assert ToDecimal(6710886) == "6710886";
    assert ToDecimal(67108864) == "67108864";
    assert ToDecimal(671088640) == "671088640";
    assert ToDecimal(6710886400) == "6710886400";
    assert ToDecimal(67108864000) == "67108864000";
    assert ToDecimal(671088640001) == "671088640001";
    assert ToDecimal(6710886400017) == "6710886400017";
    assert ToDecimal(67108864000172) == "67108864000172";
    assert ToDecimal(671088640001720) == "671088640001720";
    assert ToDecimal(6710886400017203) == "6710886400017203";
    assert ToDecimal(67108864000172032) == "67108864000172032";
  }

  lemma PresentDayFields(f: Snowflake)
    requires f.text == "671088640001720320"
    ensures ExtractTimestamp(f) == Some(EPOCH)
    ensures ExtractMachineId(f) == Some(0)
    ensures ExtractTimeOffset(f) == None
  {
    var b := Bits(f);
    assert b[46..] == f.text;
    assert b[46] == '6' && b[52] == '6';
    var machine := b[TIMESTAMP_WIDTH..TIMESTAMP_WIDTH + MACHINE_BITS];
    assert machine[4] == b[46];
    LeadingZerosParse(machine, 4);
    assert b[TIMESTAMP_WIDTH + MACHINE_BITS..ID_WIDTH][0] == b[52];
  }

  /**
   * What `this.toString(2)` evidently means: the binary text of the id's
   * numeric value, padded with '0' to 64 characters.
   */
  function IntendedBits(f: Snowflake): (b: string)
    ensures IsBinary(b) && IsDecimal(b)
    ensures |b| >= ID_WIDTH
  {
    PadZerosValue(ToBinary(DecimalValue(f.text)), ID_WIDTH);
    PadStart(ToBinary(DecimalValue(f.text)), ID_WIDTH, '0')
  }

  function IntendedExtractTimestamp(f: Snowflake): (r: Option<nat>)
    ensures r.Some? && EPOCH <= r.value < EPOCH + Pow2(TIMESTAMP_WIDTH)
  {
    BinarySlice(IntendedBits(f), 0, TIMESTAMP_WIDTH);
    Some(ParseIntBinary(IntendedBits(f)[..TIMESTAMP_WIDTH]).value + EPOCH)
  }

  function IntendedExtractMachineId(f: Snowflake): (r: Option<nat>)
    ensures r.Some? && r.value <= MAX_MACHINE_ID
  {
    BinarySlice(IntendedBits(f), TIMESTAMP_WIDTH, TIMESTAMP_WIDTH + MACHINE_BITS);
    assert Pow2(MACHINE_BITS) == MAX_MACHINE_ID + 1;
    ParseIntBinary(IntendedBits(f)[TIMESTAMP_WIDTH..TIMESTAMP_WIDTH + MACHINE_BITS])
  }

  function IntendedExtractTimeOffset(f: Snowflake): (r: Option<nat>)
    ensures r.Some? && r.value <= MAX_SEQUENCE
  {
    BinarySlice(IntendedBits(f), TIMESTAMP_WIDTH + MACHINE_BITS, ID_WIDTH);
    assert Pow2(SEQUENCE_BITS) == MAX_SEQUENCE + 1;
    ParseIntBinary(IntendedBits(f)[TIMESTAMP_WIDTH + MACHINE_BITS..ID_WIDTH])
  }

  /** A non-empty slice of binary digits is read by parseInt as its binary value. */
  lemma BinarySlice(b: string, i: nat, j: nat)
    requires IsBinary(b) && IsDecimal(b) && i < j <= |b|
    ensures IsDecimal(b[i..j])
    ensures ParseIntBinary(b[i..j]) == Some(BinaryValue(b[i..j]))
    ensures BinaryValue(b[i..j]) < Pow2(j - i)
  {
    assert IsBinary(b[i..j]);
  }

  /**
   * A binary text made of a timestamp part, a 10-digit machine part and a
   * 12-digit sequence part has the value of those three fields composed.
   */
  lemma SplitFields(t: string, m: string, s: string)
    requires IsBinary(t) && IsBinary(m) && IsBinary(s)
    requires |m| == MACHINE_BITS && |s| == SEQUENCE_BITS
    ensures IsBinary(t + m + s)
    ensures BinaryValue(t + m + s) == BinaryValue(t) * 4194304 + BinaryValue(m) * 4096 + BinaryValue(s)
    ensures BinaryValue(m) <= MAX_MACHINE_ID && BinaryValue(s) <= MAX_SEQUENCE
  {
    BinaryValueAppend(t, m);
    BinaryValueAppend(t + m, s);
    Pow2Widths();
    Recompose(BinaryValue(t), BinaryValue(m), BinaryValue(s), Pow2(|m|), Pow2(|s|));
  }

  /** Shifting by 10 and then by 12 binary places is shifting by 22. */
  lemma Recompose(high: int, machine: int, sequence: int, p10: int, p12: int)
    requires p10 == 1024 && p12 == 4096
    ensures (high * p10 + machine) * p12 + sequence == high * 4194304 + machine * 4096 + sequence
  {
  }

  lemma ScaleBy(x: int, p: int, q: int)
    requires p == q
    ensures x * p == x * q
  {
  }

  lemma BelowNextMultiple(t: nat, p: nat, rest: nat)
    requires t < p && rest < 4194304
    ensures t * 4194304 + rest < p * 4194304
  {
  }

  /** A value below 2^64, read in binary, is a 64-digit binary text. */
  lemma IntendedBitsOf(f: Snowflake)
    requires DecimalValue(f.text) < Pow2(ID_WIDTH)
    ensures |IntendedBits(f)| == ID_WIDTH
    ensures BinaryValue(IntendedBits(f)) == DecimalValue(f.text)
  {
    var v := DecimalValue(f.text);
    ToBinaryLength(v, ID_WIDTH);
    ToBinaryValue(v);
    PadZerosValue(ToBinary(v), ID_WIDTH);
  }

  /**
   * Read in binary, the text of any value composed of fields within their
   * widths decodes to those fields.
   */
  lemma IntendedDecode(f: Snowflake, timestamp: nat, machineId: nat, sequence: nat)
    requires timestamp < Pow2(TIMESTAMP_WIDTH)
    requires machineId <= MAX_MACHINE_ID && sequence <= MAX_SEQUENCE
    requires DecimalValue(f.text) == timestamp * 4194304 + machineId * 4096 + sequence
    ensures IntendedExtractTimestamp(f) == Some(EPOCH + timestamp)
    ensures IntendedExtractMachineId(f) == Some(machineId)
    ensures IntendedExtractTimeOffset(f) == Some(sequence)
  {
    ComposedFits(timestamp, machineId, sequence);
    IntendedBitsOf(f);
    var w := IntendedBits(f);
    FieldsOf(w, timestamp, machineId, sequence);
    IntendedTimestampField(f, w, timestamp);
    IntendedMachineField(f, w);
    IntendedOffsetField(f, w);
  }

  /** The intended timestamp is the first slice of the binary text, plus EPOCH. */
  lemma IntendedTimestampField(f: Snowflake, w: string, timestamp: nat)
    requires w == IntendedBits(f)
    requires ParseIntBinary(w[..TIMESTAMP_WIDTH]) == Some(timestamp)
    ensures IntendedExtractTimestamp(f) == Some(EPOCH + timestamp)
  {
  }

  /** The intended machine id is the second slice of the binary text. */
  lemma IntendedMachineField(f: Snowflake, w: string)
    requires w == IntendedBits(f)
    ensures IntendedExtractMachineId(f) == ParseIntBinary(w[TIMESTAMP_WIDTH..TIMESTAMP_WIDTH + MACHINE_BITS])
  {
  }

  /** The intended time offset is the third slice of the binary text. */
  lemma IntendedOffsetField(f: Snowflake, w: string)
    requires w == IntendedBits(f)
    ensures IntendedExtractTimeOffset(f) == ParseIntBinary(w[TIMESTAMP_WIDTH + MACHINE_BITS..ID_WIDTH])
  {
  }

  /** Fields within their widths compose to a value below 2^64. */
  lemma ComposedFits(timestamp: nat, machineId: nat, sequence: nat)
    requires timestamp < Pow2(TIMESTAMP_WIDTH)
    requires machineId <= MAX_MACHINE_ID && sequence <= MAX_SEQUENCE
    ensures timestamp * 4194304 + machineId * 4096 + sequence < Pow2(ID_WIDTH)
  {
    var p := Pow2(TIMESTAMP_WIDTH);
    Pow2Widths();
    assert Pow2(22) == 4194304;
    Pow2Add(42, 22);
    ScaleBy(p, Pow2(22), 4194304);
    assert Pow2(ID_WIDTH) == p * 4194304;
    BelowNextMultiple(timestamp, p, machineId * 4096 + sequence);
  }

  /** A 64-digit binary text of a composed value is read field by field as those fields. */
  lemma FieldsOf(w: string, timestamp: nat, machineId: nat, sequence: nat)
    requires IsBinary(w) && IsDecimal(w) && |w| == ID_WIDTH
    requires machineId <= MAX_MACHINE_ID && sequence <= MAX_SEQUENCE
    requires BinaryValue(w) == timestamp * 4194304 + machineId * 4096 + sequence
    ensures ParseIntBinary(w[..TIMESTAMP_WIDTH]) == Some(timestamp)
    ensures ParseIntBinary(w[TIMESTAMP_WIDTH..TIMESTAMP_WIDTH + MACHINE_BITS]) == Some(machineId)
    ensures ParseIntBinary(w[TIMESTAMP_WIDTH + MACHINE_BITS..ID_WIDTH]) == Some(sequence)
  {
    PartsOf(w, TIMESTAMP_WIDTH, TIMESTAMP_WIDTH + MACHINE_BITS, ID_WIDTH);
    ComposedFields(w[..TIMESTAMP_WIDTH], w[TIMESTAMP_WIDTH..TIMESTAMP_WIDTH + MACHINE_BITS],
                   w[TIMESTAMP_WIDTH + MACHINE_BITS..ID_WIDTH], timestamp, machineId, sequence);
  }

  /** Three consecutive slices of a binary text are binary texts that make it up. */
  lemma PartsOf(w: string, i: nat, j: nat, k: nat)
    requires IsBinary(w) && IsDecimal(w) && i <= j <= k == |w|
    ensures w == w[..i] + w[i..j] + w[j..k]
    ensures IsBinary(w[..i]) && IsBinary(w[i..j]) && IsBinary(w[j..k])
    ensures IsDecimal(w[..i]) && IsDecimal(w[i..j]) && IsDecimal(w[j..k])
  {
  }

  /** parseInt reads each part of a text of composed fields as its field. */
  lemma ComposedFields(t: string, m: string, s: string, timestamp: nat, machineId: nat, sequence: nat)
    requires IsBinary(t) && IsBinary(m) && IsBinary(s) && IsDecimal(t) && IsDecimal(m) && IsDecimal(s)
    requires |t| > 0 && |m| == MACHINE_BITS && |s| == SEQUENCE_BITS
    requires machineId <= MAX_MACHINE_ID && sequence <= MAX_SEQUENCE
    requires BinaryValue(t + m + s) == timestamp * 4194304 + machineId * 4096 + sequence
    ensures ParseIntBinary(t) == Some(timestamp)
    ensures ParseIntBinary(m) == Some(machineId)
    ensures ParseIntBinary(s) == Some(sequence)
  {
    SplitFields(t, m, s);
    ComposeOrder(timestamp, machineId, sequence, BinaryValue(t), BinaryValue(m), BinaryValue(s));
  }

  /**
   * With the binary reading, every id whose timestamp fits its 42 bits
   * decodes back to the fields it was packed from.
   */
  lemma IntendedRoundTrip(timestamp: nat, machineId: nat, sequence: nat)
    requires timestamp < Pow2(TIMESTAMP_WIDTH)
    requires machineId <= MAX_MACHINE_ID && sequence <= MAX_SEQUENCE
    ensures IntendedExtractTimestamp(FromBigInt(Pack(timestamp, machineId, sequence))) == Some(EPOCH + timestamp)
    ensures IntendedExtractMachineId(FromBigInt(Pack(timestamp, machineId, sequence))) == Some(machineId)
    ensures IntendedExtractTimeOffset(FromBigInt(Pack(timestamp, machineId, sequence))) == Some(sequence)
  {
    PackValue(timestamp, machineId, sequence);
    IntendedDecode(FromBigInt(Pack(timestamp, machineId, sequence)), timestamp, machineId, sequence);
  }
}
