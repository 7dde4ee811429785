/**
 * The shared constants of the snowflake scheme and the packing of
 * (timestamp, machine id, sequence) into one number, done as the generator
 * does it: through zero-padded binary text.
 */
module Layout {
  import opened BinaryText

  /** Milliseconds from the Unix epoch to 2021-08-01 16:00:00 UTC. */
  const EPOCH: nat := 1627833600000
  const SEQUENCE_BITS: nat := 12
  const MACHINE_BITS: nat := 10
  /** 2^SEQUENCE_BITS - 1 */
  const MAX_SEQUENCE: nat := 4095
  /** 2^MACHINE_BITS - 1 */
  const MAX_MACHINE_ID: nat := 1023
  /** The width the timestamp's binary text is padded to. */
  const TIMESTAMP_WIDTH: nat := 42
  /** The width the whole id's text is padded to before it is split. */
  const ID_WIDTH: nat := 64

  /** The maxima are the all-ones values of their bit widths, and the three widths fill 64 bits. */
  lemma WidthsAgree()
    ensures MAX_SEQUENCE == Pow2(SEQUENCE_BITS) - 1
    ensures MAX_MACHINE_ID == Pow2(MACHINE_BITS) - 1
    ensures TIMESTAMP_WIDTH + MACHINE_BITS + SEQUENCE_BITS == ID_WIDTH
  {
  }

  /** The powers of two the field widths stand for. */
  lemma Pow2Widths()
    ensures Pow2(MACHINE_BITS) == 1024 && Pow2(SEQUENCE_BITS) == 4096
    ensures Pow2(MACHINE_BITS + SEQUENCE_BITS) == 4194304
  {
    assert Pow2(10) == 1024 && Pow2(12) == 4096;
    Pow2Add(10, 12);
  }

  /**
   * The packing step of `generate`: the binary text of each field, padded
   * with '0' to 42, 10 and 12 characters, concatenated and read back as one
   * binary number. Padding never truncates, so an over-wide field simply
   * makes the text longer.
   */
  function Pack(timestamp: nat, machineId: nat, sequence: nat): (flake: nat)
    ensures timestamp < Pow2(TIMESTAMP_WIDTH) && machineId <= MAX_MACHINE_ID && sequence <= MAX_SEQUENCE
            ==> flake < Pow2(ID_WIDTH)
  {
    var timeBinary := PadStart(ToBinary(timestamp), TIMESTAMP_WIDTH, '0');
    var machineBinary := PadStart(ToBinary(machineId), MACHINE_BITS, '0');
    var sequenceBinary := PadStart(ToBinary(sequence), SEQUENCE_BITS, '0');
    assert timestamp < Pow2(TIMESTAMP_WIDTH) && machineId <= MAX_MACHINE_ID && sequence <= MAX_SEQUENCE
           ==> |timeBinary + machineBinary + sequenceBinary| == ID_WIDTH by {
      if timestamp < Pow2(TIMESTAMP_WIDTH) && machineId <= MAX_MACHINE_ID && sequence <= MAX_SEQUENCE {
        Pow2Widths();
        ToBinaryLength(timestamp, TIMESTAMP_WIDTH);
        ToBinaryLength(machineId, MACHINE_BITS);
        ToBinaryLength(sequence, SEQUENCE_BITS);
      }
    }
    PadZerosValue(ToBinary(timestamp), TIMESTAMP_WIDTH);
    PadZerosValue(ToBinary(machineId), MACHINE_BITS);
    PadZerosValue(ToBinary(sequence), SEQUENCE_BITS);
    BinaryValueAppend(timeBinary, machineBinary);
    BinaryValueAppend(timeBinary + machineBinary, sequenceBinary);
    BinaryValue(timeBinary + machineBinary + sequenceBinary)
  }

  /**
   * With the machine id and the sequence within their widths, the packed
   * value is timestamp * 2^22 + machineId * 2^12 + sequence, for every
   * timestamp, including one of more than 42 bits.
   */
  lemma PackValue(timestamp: nat, machineId: nat, sequence: nat)
    requires machineId <= MAX_MACHINE_ID && sequence <= MAX_SEQUENCE
    ensures Pack(timestamp, machineId, sequence) == timestamp * 4194304 + machineId * 4096 + sequence
  {
    var timeBinary := PadStart(ToBinary(timestamp), TIMESTAMP_WIDTH, '0');
    var machineBinary := PadStart(ToBinary(machineId), MACHINE_BITS, '0');
    var sequenceBinary := PadStart(ToBinary(sequence), SEQUENCE_BITS, '0');
    ToBinaryValue(timestamp);
    ToBinaryValue(machineId);
    ToBinaryValue(sequence);
    PadZerosValue(ToBinary(timestamp), TIMESTAMP_WIDTH);
    PadZerosValue(ToBinary(machineId), MACHINE_BITS);
    PadZerosValue(ToBinary(sequence), SEQUENCE_BITS);
    assert Pow2(10) == 1024 && Pow2(12) == 4096;
    ToBinaryLength(machineId, MACHINE_BITS);
    ToBinaryLength(sequence, SEQUENCE_BITS);
    assert |machineBinary| == 10 && |sequenceBinary| == 12;
    BinaryValueAppend(timeBinary, machineBinary);
    BinaryValueAppend(timeBinary + machineBinary, sequenceBinary);
    assert Pack(timestamp, machineId, sequence) == (timestamp * 1024 + machineId) * 4096 + sequence;
  }

  /** On fields within their widths, the composed value orders like the fields, timestamp first. */
  lemma ComposeOrder(t1: nat, m1: nat, s1: nat, t2: nat, m2: nat, s2: nat)
    requires m1 <= MAX_MACHINE_ID && s1 <= MAX_SEQUENCE
    requires m2 <= MAX_MACHINE_ID && s2 <= MAX_SEQUENCE
    ensures t1 * 4194304 + m1 * 4096 + s1 < t2 * 4194304 + m2 * 4096 + s2
            <==> t1 < t2 || (t1 == t2 && (m1 < m2 || (m1 == m2 && s1 < s2)))
    ensures t1 * 4194304 + m1 * 4096 + s1 == t2 * 4194304 + m2 * 4096 + s2
            <==> t1 == t2 && m1 == m2 && s1 == s2
  {
    if t1 < t2 {
      assert t1 * 4194304 + 4194304 <= t2 * 4194304;
    } else if t2 < t1 {
      assert t2 * 4194304 + 4194304 <= t1 * 4194304;
    } else if m1 < m2 {
      assert m1 * 4096 + 4096 <= m2 * 4096;
    } else if m2 < m1 {
      assert m2 * 4096 + 4096 <= m1 * 4096;
    }
  }

  /** Packed ids order lexicographically by (timestamp, machine id, sequence). */
  lemma PackOrder(t1: nat, m1: nat, s1: nat, t2: nat, m2: nat, s2: nat)
    requires m1 <= MAX_MACHINE_ID && s1 <= MAX_SEQUENCE
    requires m2 <= MAX_MACHINE_ID && s2 <= MAX_SEQUENCE
    ensures Pack(t1, m1, s1) < Pack(t2, m2, s2)
            <==> t1 < t2 || (t1 == t2 && (m1 < m2 || (m1 == m2 && s1 < s2)))
  {
    PackValue(t1, m1, s1);
    PackValue(t2, m2, s2);
    ComposeOrder(t1, m1, s1, t2, m2, s2);
  }

  /** Distinct fields within their widths pack to distinct ids. */
  lemma PackInjective(t1: nat, m1: nat, s1: nat, t2: nat, m2: nat, s2: nat)
    requires m1 <= MAX_MACHINE_ID && s1 <= MAX_SEQUENCE
    requires m2 <= MAX_MACHINE_ID && s2 <= MAX_SEQUENCE
    ensures Pack(t1, m1, s1) == Pack(t2, m2, s2) <==> t1 == t2 && m1 == m2 && s1 == s2
  {
    PackValue(t1, m1, s1);
    PackValue(t2, m2, s2);
    ComposeOrder(t1, m1, s1, t2, m2, s2);
  }
}
