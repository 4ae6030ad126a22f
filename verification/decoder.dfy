/** Decoding a status code against one status definition.

    Every entry of the definition's `fields` list is looked at in order. A mask
    entry tests one bit of the code; an enum entry extracts a bit group with
    shift-then-AND and names it through its `values` table, falling back to
    "Unknown Value (n)". An entry that lacks a key the decoder reads is skipped
    with a warning, and decoding goes on with the next entry. */
module Decoder {
  import opened Schema
  import opened Bits
  import opened Decimal

  /** What one field entry contributes: an active flag, nothing, or a warning about a missing key. */
  datatype Outcome = Active(flag: string) | Inactive | Malformed(missing: Key)

  const WarningPrefix := "Skipping a malformed field in YAML definition: Missing key "

  /** The warning shown for a skipped entry: a fixed text followed by the missing key in single
      quotes, which is how Python renders the KeyError. */
  function MissingKeyWarning(k: Key): (w: string)
    ensures |w| == |WarningPrefix| + |KeyName(k)| + 2
    ensures w[..|WarningPrefix|] == WarningPrefix
    ensures w[|WarningPrefix|] == '\'' == w[|w| - 1]
    ensures w[|WarningPrefix| + 1..|w| - 1] == KeyName(k)
  {
    WarningPrefix + "'" + KeyName(k) + "'"
  }

  const UnknownPrefix := "Unknown Value ("

  /** The label of an enum value that has no entry in `values`: the value in decimal, in
      parentheses. The digits between the parentheses read back as the value. */
  function UnknownValue(v: nat): (text: string)
    ensures |text| > |UnknownPrefix| + 1
    ensures text[..|UnknownPrefix|] == UnknownPrefix && text[|text| - 1] == ')'
    ensures AllDigits(text[|UnknownPrefix|..|text| - 1])
    ensures DecimalValue(text[|UnknownPrefix|..|text| - 1]) == v
    ensures text[|UnknownPrefix|] == '0' ==> v == 0 && text == UnknownPrefix + "0)"
  {
    DecimalRoundTrip(v);
    DecimalStringDigits(v);
    var text := UnknownPrefix + DecimalString(v) + ")";
    assert text[|UnknownPrefix|..|text| - 1] == DecimalString(v);
    text
  }

  /** The try-block of the decoding loop for one entry: the `type` key selects the branch. */
  function DecodeField(code: nat, f: Field): (o: Outcome)
    ensures o.Active? ==> f.kind == Some("mask") || f.kind == Some("enum")
    ensures o.Malformed? ==> !Has(f, o.missing)
    ensures f.kind.Some? && f.kind.value != "mask" && f.kind.value != "enum" ==> o == Inactive
  {
    if f.kind.None? then Malformed(TypeKey)
    else if f.kind.value == "mask" then DecodeMask(code, f)
    else if f.kind.value == "enum" then DecodeEnum(code, f)
    else Inactive
  }

  /** The mask branch: `bit` is read, then `name` only if that bit of the code is set. */
  function DecodeMask(code: nat, f: Field): (o: Outcome)
    ensures o.Malformed? <==> f.bit.None? || (Bit(code, f.bit.value) && f.name.None?)
    ensures o.Malformed? ==> o.missing == (if f.bit.None? then BitKey else NameKey)
    ensures o.Active? <==> f.bit.Some? && Bit(code, f.bit.value) && f.name.Some?
    ensures o.Active? ==> o.flag == f.name.value
  {
    if f.bit.None? then Malformed(BitKey)
    else
      var bitValue := Pow2(f.bit.value);
      AndWithPow2(code, f.bit.value);
      if BitAnd(code, bitValue) == bitValue then
        if f.name.None? then Malformed(NameKey) else Active(f.name.value)
      else Inactive
  }

  /** The enum branch: `shift`, `mask`, `values` and `name` are read in that order. An enum entry
      is never silently inactive: it yields a flag headed by its name, or it is skipped. */
  function DecodeEnum(code: nat, f: Field): (o: Outcome)
    ensures o.Active? <==> f.shift.Some? && f.mask.Some? && f.values.Some? && f.name.Some?
    ensures !o.Inactive?
    ensures o.Malformed? ==> o.missing in [ShiftKey, MaskKey, ValuesKey, NameKey] && !Has(f, o.missing)
    ensures o.Active? ==> f.name.value + ": " <= o.flag
  {
    if f.shift.None? then Malformed(ShiftKey)
    else if f.mask.None? then Malformed(MaskKey)
    else
      var enumVal := BitAnd(ShiftRight(code, f.shift.value), f.mask.value);
      if f.values.None? then Malformed(ValuesKey)
      else
        var enumName := if enumVal in f.values.value then f.values.value[enumVal] else UnknownValue(enumVal);
        if f.name.None? then Malformed(NameKey) else Active(f.name.value + ": " + enumName)
  }

  /** The outcome of every entry of a field list, in list order. */
  function Outcomes(code: nat, fields: seq<Field>): seq<Outcome>
  {
    seq(|fields|, i requires 0 <= i < |fields| => DecodeField(code, fields[i]))
  }

  function FlagOf(o: Outcome): seq<string>
  {
    if o.Active? then [o.flag] else []
  }

  function WarningOf(o: Outcome): seq<string>
  {
    if o.Malformed? then [MissingKeyWarning(o.missing)] else []
  }

  /** The flags among a sequence of outcomes, in order. */
  function FlagsOf(os: seq<Outcome>): seq<string>
  {
    if os == [] then [] else FlagOf(os[0]) + FlagsOf(os[1..])
  }

  /** The warnings among a sequence of outcomes, in order. */
  function WarningsOf(os: seq<Outcome>): seq<string>
  {
    if os == [] then [] else WarningOf(os[0]) + WarningsOf(os[1..])
  }

  /** The active flags decode_status returns for a field list. */
  function Flags(code: nat, fields: seq<Field>): seq<string>
  {
    FlagsOf(Outcomes(code, fields))
  }

  /** The warnings decode_status emits for a field list. */
  function Warnings(code: nat, fields: seq<Field>): seq<string>
  {
    WarningsOf(Outcomes(code, fields))
  }

  lemma {:induction false} FlagsOfConcat(os: seq<Outcome>, ps: seq<Outcome>)
    ensures FlagsOf(os + ps) == FlagsOf(os) + FlagsOf(ps)
  {
    if os == [] {
      assert os + ps == ps;
    } else {
      assert (os + ps)[0] == os[0];
      assert (os + ps)[1..] == os[1..] + ps;
      FlagsOfConcat(os[1..], ps);
    }
  }

  lemma {:induction false} WarningsOfConcat(os: seq<Outcome>, ps: seq<Outcome>)
    ensures WarningsOf(os + ps) == WarningsOf(os) + WarningsOf(ps)
  {
    if os == [] {
      assert os + ps == ps;
    } else {
      assert (os + ps)[0] == os[0];
      assert (os + ps)[1..] == os[1..] + ps;
      WarningsOfConcat(os[1..], ps);
    }
  }

  lemma OutcomesConcat(code: nat, xs: seq<Field>, ys: seq<Field>)
    ensures Outcomes(code, xs + ys) == Outcomes(code, xs) + Outcomes(code, ys)
  {
  }

  /** Decoding a list made of two parts is decoding each part, one after the other. */
  lemma DecodeConcat(code: nat, xs: seq<Field>, ys: seq<Field>)
    ensures Flags(code, xs + ys) == Flags(code, xs) + Flags(code, ys)
    ensures Warnings(code, xs + ys) == Warnings(code, xs) + Warnings(code, ys)
  {
    OutcomesConcat(code, xs, ys);
    FlagsOfConcat(Outcomes(code, xs), Outcomes(code, ys));
    WarningsOfConcat(Outcomes(code, xs), Outcomes(code, ys));
  }

  /** A one-entry list yields that entry's flag or warning, if any. */
  lemma DecodeSingle(code: nat, f: Field)
    ensures Flags(code, [f]) == FlagOf(DecodeField(code, f))
    ensures Warnings(code, [f]) == WarningOf(DecodeField(code, f))
  {
    var o := DecodeField(code, f);
    assert Outcomes(code, [f]) == [o];
    assert [o][1..] == [];
    assert FlagsOf([o]) == FlagOf(o) + FlagsOf([]);
    assert WarningsOf([o]) == WarningOf(o) + WarningsOf([]);
  }

  /** Decoding one more entry of a list appends that entry's contribution. */
  lemma DecodeStep(code: nat, fields: seq<Field>, i: nat)
    requires i < |fields|
    ensures Flags(code, fields[..i + 1]) == Flags(code, fields[..i]) + FlagOf(DecodeField(code, fields[i]))
    ensures Warnings(code, fields[..i + 1]) == Warnings(code, fields[..i]) + WarningOf(DecodeField(code, fields[i]))
  {
    assert fields[..i + 1] == fields[..i] + [fields[i]];
    DecodeConcat(code, fields[..i], [fields[i]]);
    DecodeSingle(code, fields[i]);
  }

  /** decode_status: the flags of the active conditions, and the warnings emitted along the way. */
  method DecodeStatus(code: nat, definition: StatusDefinition) returns (activeFlags: seq<string>, warnings: seq<string>)
    ensures activeFlags == Flags(code, if definition.fields.Some? then definition.fields.value else [])
    ensures warnings == Warnings(code, if definition.fields.Some? then definition.fields.value else [])
    ensures definition.fields.None? || definition.fields == Some([]) ==> activeFlags == [] && warnings == []
  {
    activeFlags, warnings := [], [];
    // A missing `fields` key reads as the empty list.
    var fieldsToCheck := if definition.fields.Some? then definition.fields.value else [];
    for i := 0 to |fieldsToCheck|
      invariant activeFlags == Flags(code, fieldsToCheck[..i])
      invariant warnings == Warnings(code, fieldsToCheck[..i])
    {
      var field := fieldsToCheck[i];
      // The try-block either appends one flag, appends nothing, or raises KeyError, which the
      // except-clause turns into a warning; the loop then moves on to the next entry.
      var outcome := DecodeField(code, field);
      match outcome {
        case Active(flag) =>
          activeFlags := activeFlags + [flag];
        case Inactive =>
        case Malformed(key) =>
          warnings := warnings + [MissingKeyWarning(key)];
      }
      DecodeStep(code, fieldsToCheck, i);
    }
    assert fieldsToCheck[..|fieldsToCheck|] == fieldsToCheck;
  }

  /** A complete mask entry yields its name exactly when its bit of the code is 1, and nothing otherwise. */
  lemma MaskFieldFlag(code: nat, f: Field, b: nat, n: string)
    requires f.kind == Some("mask") && f.bit == Some(b) && f.name == Some(n)
    ensures DecodeField(code, f) == if Bit(code, b) then Active(n) else Inactive
  {
  }

  /** A complete enum entry always yields exactly one entry, "name: label". The value v is the
      bit group whose bit i is bit shift + i of the code masked by bit i of mask; it never exceeds
      the mask, and the label is its `values` entry or "Unknown Value (v)" in decimal. */
  lemma EnumFieldEntry(code: nat, f: Field, s: nat, m: nat, vs: map<int, string>, n: string, v: nat)
    requires f.kind == Some("enum") && f.shift == Some(s) && f.mask == Some(m)
    requires f.values == Some(vs) && f.name == Some(n)
    requires forall i: nat :: Bit(v, i) == (Bit(code, s + i) && Bit(m, i))
    ensures v <= m
    ensures v in vs ==> DecodeField(code, f) == Active(n + ": " + vs[v])
    ensures v !in vs ==> DecodeField(code, f) == Active(n + ": " + UnknownValue(v))
  {
    EnumValueByBits(code, s, m, v);
  }

  /** A complete enum entry, whatever the code, adds exactly one flag headed by its name and no
      warning to the output. */
  lemma EnumFieldYieldsOne(code: nat, f: Field)
    requires f.kind == Some("enum") && f.shift.Some? && f.mask.Some? && f.values.Some? && f.name.Some?
    ensures DecodeField(code, f).Active?
    ensures Flags(code, [f]) == [DecodeField(code, f).flag] && Warnings(code, [f]) == []
    ensures f.name.value + ": " <= DecodeField(code, f).flag
  {
    DecodeSingle(code, f);
  }

  /** The bit characterisation determines the extracted value. */
  lemma EnumValueByBits(code: nat, s: nat, m: nat, v: nat)
    requires forall i: nat :: Bit(v, i) == (Bit(code, s + i) && Bit(m, i))
    ensures BitAnd(ShiftRight(code, s), m) == v
  {
    var enumVal := BitAnd(ShiftRight(code, s), m);
    forall i: nat
      ensures Bit(enumVal, i) == Bit(v, i)
    {
      ExtractBits(code, s, m, i);
    }
    BitsDetermineValue(enumVal, v);
  }

  /** The keys the decoder reads from an entry, in order, when none of them is missing.
      A mask entry's name is read only when its bit is set. */
  function AccessOrder(code: nat, f: Field): seq<Key>
  {
    if f.kind == Some("mask") then
      [TypeKey, BitKey] + (if f.bit.Some? && Bit(code, f.bit.value) then [NameKey] else [])
    else if f.kind == Some("enum") then [TypeKey, ShiftKey, MaskKey, ValuesKey, NameKey]
    else [TypeKey]
  }

  /** k is missing from f and every key read before it is present. */
  predicate FirstMissing(f: Field, order: seq<Key>, k: Key)
  {
    exists i :: 0 <= i < |order| && order[i] == k && !Has(f, k) && forall j :: 0 <= j < i ==> Has(f, order[j])
  }

  /** An entry is skipped exactly when a key the decoder reads is missing, and its warning names
      the first such key. A key that is not read (the name of a mask entry whose bit is clear,
      any key but `type` of an entry of another type) is never reported. */
  lemma MalformedIffKeyMissing(code: nat, f: Field)
    ensures DecodeField(code, f).Malformed? <==> exists k :: k in AccessOrder(code, f) && !Has(f, k)
    ensures DecodeField(code, f).Malformed? ==> FirstMissing(f, AccessOrder(code, f), DecodeField(code, f).missing)
  {
    var order := AccessOrder(code, f);
    if f.kind.None? {
      assert order == [TypeKey] && DecodeField(code, f) == Malformed(TypeKey);
      assert FirstMissing(f, order, TypeKey) by { assert order[0] == TypeKey; }
    } else if f.kind.value == "mask" {
      MaskKeysRead(code, f);
    } else if f.kind.value == "enum" {
      EnumKeysRead(code, f);
    } else {
      assert order == [TypeKey] && DecodeField(code, f) == Inactive;
    }
  }

  lemma MaskKeysRead(code: nat, f: Field)
    requires f.kind == Some("mask")
    ensures DecodeField(code, f).Malformed? <==> exists k :: k in AccessOrder(code, f) && !Has(f, k)
    ensures DecodeField(code, f).Malformed? ==> FirstMissing(f, AccessOrder(code, f), DecodeField(code, f).missing)
  {
    var order := AccessOrder(code, f);
    if f.bit.None? {
      assert order == [TypeKey, BitKey];
      assert FirstMissing(f, order, BitKey) by { assert order[1] == BitKey; }
    } else if Bit(code, f.bit.value) {
      assert order == [TypeKey, BitKey, NameKey];
      if f.name.None? {
        assert FirstMissing(f, order, NameKey) by { assert order[2] == NameKey; }
      }
    } else {
      assert order == [TypeKey, BitKey];
    }
  }

  lemma EnumKeysRead(code: nat, f: Field)
    requires f.kind == Some("enum")
    ensures DecodeField(code, f).Malformed? <==> exists k :: k in AccessOrder(code, f) && !Has(f, k)
    ensures DecodeField(code, f).Malformed? ==> FirstMissing(f, AccessOrder(code, f), DecodeField(code, f).missing)
  {
    var order := AccessOrder(code, f);
    assert order == [TypeKey, ShiftKey, MaskKey, ValuesKey, NameKey];
    if f.shift.None? {
      assert FirstMissing(f, order, ShiftKey) by { assert order[1] == ShiftKey; }
    } else if f.mask.None? {
      assert FirstMissing(f, order, MaskKey) by { assert order[2] == MaskKey; }
    } else if f.values.None? {
      assert FirstMissing(f, order, ValuesKey) by { assert order[3] == ValuesKey; }
    } else if f.name.None? {
      assert FirstMissing(f, order, NameKey) by { assert order[4] == NameKey; }
    }
  }

  lemma {:induction false} OutcomesBounded(os: seq<Outcome>)
    ensures |FlagsOf(os)| + |WarningsOf(os)| <= |os|
  {
    if os != [] {
      OutcomesBounded(os[1..]);
    }
  }

  /** Each entry contributes at most one flag or one warning, never both. */
  lemma OutputBounded(code: nat, fields: seq<Field>)
    ensures |Flags(code, fields)| + |Warnings(code, fields)| <= |fields|
  {
    OutcomesBounded(Outcomes(code, fields));
  }

  /** A skipped entry adds its warning and no flag, and leaves the output of the entries
      before and after it exactly as if it were not there. */
  lemma MalformedFieldSkipped(code: nat, fields: seq<Field>, i: nat)
    requires i < |fields| && DecodeField(code, fields[i]).Malformed?
    ensures Flags(code, fields) == Flags(code, fields[..i]) + Flags(code, fields[i + 1..])
    ensures Warnings(code, fields) ==
      Warnings(code, fields[..i]) + [MissingKeyWarning(DecodeField(code, fields[i]).missing)] + Warnings(code, fields[i + 1..])
  {
    var os := Outcomes(code, fields);
    assert Outcomes(code, fields[..i]) == os[..i];
    assert Outcomes(code, fields[i + 1..]) == os[i + 1..];
    assert os == os[..i] + [os[i]] + os[i + 1..];
    SkippedFlags(os[..i], os[i], os[i + 1..]);
    SkippedWarnings(os[..i], os[i], os[i + 1..]);
  }

  lemma SkippedFlags(before: seq<Outcome>, o: Outcome, after: seq<Outcome>)
    requires o.Malformed?
    ensures FlagsOf(before + [o] + after) == FlagsOf(before) + FlagsOf(after)
  {
    FlagsOfConcat(before + [o], after);
    FlagsOfConcat(before, [o]);
    SingleOutcome(o);
  }

  lemma SkippedWarnings(before: seq<Outcome>, o: Outcome, after: seq<Outcome>)
    requires o.Malformed?
    ensures WarningsOf(before + [o] + after) == WarningsOf(before) + [MissingKeyWarning(o.missing)] + WarningsOf(after)
  {
    WarningsOfConcat(before + [o], after);
    WarningsOfConcat(before, [o]);
    SingleOutcome(o);
  }

  lemma SingleOutcome(o: Outcome)
    ensures FlagsOf([o]) == FlagOf(o)
    ensures WarningsOf([o]) == WarningOf(o)
  {
  }

  /** The warning identifies the missing key: different keys give different warnings. */
  lemma MissingKeyWarningInjective(k1: Key, k2: Key)
    requires MissingKeyWarning(k1) == MissingKeyWarning(k2)
    ensures k1 == k2
  {
  }
}
