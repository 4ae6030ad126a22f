/** Worked decodings of concrete codes against small definitions. */
module Scenarios {
  import opened Schema
  import opened Bits
  import opened Decoder
  import opened Decimal

  function MaskEntry(bit: nat, name: string): Field
  {
    Field(Some("mask"), Some(bit), None, None, Some(name), None)
  }

  function ModeEntry(): Field
  {
    Field(Some("enum"), None, Some(4), Some(3), Some("Mode"), Some(map[0 := "Idle", 1 := "Active"]))
  }

  /** 17 is binary 10001: the entries for bits 0 and 4 are both active, in list order. */
  lemma TwoMaskBits()
    ensures Flags(17, [MaskEntry(0, "A"), MaskEntry(4, "B")]) == ["A", "B"]
    ensures Warnings(17, [MaskEntry(0, "A"), MaskEntry(4, "B")]) == []
  {
    SeventeenBits();
    assert DecodeField(17, MaskEntry(0, "A")) == Active("A");
    assert DecodeField(17, MaskEntry(4, "B")) == Active("B");
    DecodeSingle(17, MaskEntry(0, "A"));
    DecodeSingle(17, MaskEntry(4, "B"));
    assert [MaskEntry(0, "A")] + [MaskEntry(4, "B")] == [MaskEntry(0, "A"), MaskEntry(4, "B")];
    DecodeConcat(17, [MaskEntry(0, "A")], [MaskEntry(4, "B")]);
  }

  lemma SeventeenBits()
    ensures Bit(17, 0) && Bit(17, 4)
  {
  }

  /** (16 >> 4) & 3 is 1, which the table names. */
  lemma EnumKnownValue()
    ensures Flags(16, [ModeEntry()]) == ["Mode: Active"]
    ensures Warnings(16, [ModeEntry()]) == []
  {
    DecodeSingle(16, ModeEntry());
    ModeAt16();
  }

  lemma ModeAt16()
    ensures DecodeField(16, ModeEntry()) == Active("Mode: Active")
  {
    assert DecodeField(16, ModeEntry()) == Active("Mode" + ": " + "Active") by {
      ModeValues();
    }
    assert "Mode" + ": " + "Active" == "Mode: Active";
  }

  /** (48 >> 4) & 3 is 3, which the table does not name. */
  lemma EnumUnknownValue()
    ensures Flags(48, [ModeEntry()]) == ["Mode: Unknown Value (3)"]
    ensures Warnings(48, [ModeEntry()]) == []
  {
    DecodeSingle(48, ModeEntry());
    ModeAt48();
    UnknownModeLabel();
  }

  lemma ModeAt48()
    ensures DecodeField(48, ModeEntry()) == Active("Mode" + ": " + UnknownValue(3))
  {
    ModeValues();
    assert 3 !in ModeEntry().values.value;
  }

  /** The flag text for the unnamed value 3 of the Mode entry. */
  lemma UnknownModeLabel()
    ensures "Mode" + ": " + UnknownValue(3) == "Mode: Unknown Value (3)"
  {
    UnknownThree();
  }

  lemma ModeValues()
    ensures BitAnd(ShiftRight(16, 4), 3) == 1 && BitAnd(ShiftRight(48, 4), 3) == 3
  {
  }

  lemma UnknownThree()
    ensures UnknownValue(3) == "Unknown Value (3)"
  {
    assert DecimalString(3) == [DigitChar(3)] == "3";
  }

  /** A mask entry without `bit` adds nothing and is reported once. */
  lemma MaskWithoutBit(code: nat)
    ensures Flags(code, [Field(Some("mask"), None, None, None, Some("A"), None)]) == []
    ensures Warnings(code, [Field(Some("mask"), None, None, None, Some("A"), None)]) ==
      ["Skipping a malformed field in YAML definition: Missing key 'bit'"]
  {
    DecodeSingle(code, Field(Some("mask"), None, None, None, Some("A"), None));
    BitWarningText();
  }

  lemma BitWarningText()
    ensures MissingKeyWarning(BitKey) == "Skipping a malformed field in YAML definition: Missing key 'bit'"
  {
  }

  /** A mask entry without `name` whose bit is clear is neither active nor reported. */
  lemma MaskWithoutNameBitClear()
    ensures Flags(16, [Field(Some("mask"), Some(0), None, None, None, None)]) == []
    ensures Warnings(16, [Field(Some("mask"), Some(0), None, None, None, None)]) == []
  {
  }
}
