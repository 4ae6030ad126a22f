# SBG status decoder — Dafny model

A model of `decode_status`, the core of a small decoder for SBG Systems status codes. It
takes an integer status code and one status definition loaded from a YAML configuration
file. The definition's `fields` list holds entries of two types:

- a **mask** entry names one bit of the code;
- an **enum** entry extracts a bit group with `(code >> shift) & mask` and names the value
  through a `values` table, falling back to `Unknown Value (n)`.

The function walks the list in order and returns the active flags. An entry that lacks a key
the decoder reads is skipped with a warning, and decoding continues with the next entry.

Modules:

- `Schema` (schema.dfy): the loaded configuration as an immutable value. A field entry is a
  YAML mapping, so every key the decoder reads (`type`, `bit`, `shift`, `mask`, `name`,
  `values`) is an `Option`. A missing key is the `KeyError` case.
- `Bits` (bits.dfy): Python's `1 << n`, `x >> s` and `a & b` on unbounded non-negative
  integers. `Bit(x, i)` is the reference meaning of all three, with lemmas connecting them.
- `Decimal` (decimal.dfy): the decimal text Python gives a non-negative integer in an
  f-string, and a parser that reads it back.
- `Decoder` (decoder.dfy):
  - `DecodeField` (with its `mask` and `enum` branches `DecodeMask` and `DecodeEnum`) is the
    body of the `try` block for one entry. It reads the keys in the source's order and yields
    an active flag, nothing, or the key whose `KeyError` the `except` clause catches.
  - `Flags` and `Warnings` are the specification of the whole pass.
  - `DecodeStatus` is the loop itself. For each entry it appends the flag or the warning that
    entry yields. It is proved to return exactly `Flags` and `Warnings`.
- `Scenarios` (scenarios.dfy): concrete decodings. Examples: code 17 against bits 0 and 4;
  16 and 48 against a two-bit enum; an entry without `bit`.

Modelling choices:

- No bit width is fixed. Python integers are unbounded, so the code is a `nat`.
- A mask entry without `name` is reported only when its bit is set, because `name` is read
  only then (streamlit_app.py:24-26). When the bit is clear, the entry produces neither a flag
  nor a warning.
- Entries are read key by key inside the loop, as raw mappings. There is no separate step
  that classifies them first.
- `st.warning` becomes a returned list of warning texts. Each text is exactly the one the
  code shows: Python renders `KeyError('bit')` as `'bit'`, so the text ends with
  `Missing key 'bit'`.
- A status definition keeps only its `fields` key. `decode_status` reads no other key.

## Model

| member | source | states |
|---|---|---|
| Decoder.DecodeStatus | streamlit_app.py:9-36 | The loop returns exactly the specified flags and warnings: each entry's contribution, concatenated in list order. A definition with no `fields` key, or an empty list, gives no flags and no warnings. |
| Decoder.DecodeField | streamlit_app.py:22-34 | Only entries of type `mask` or `enum` produce a flag. A skipped entry names a key that is really absent. An entry of any other type produces nothing and no warning. |
| Decoder.DecodeMask | streamlit_app.py:23-26 | A mask entry is skipped iff `bit` is absent, or its bit is set and `name` is absent. The warning names `bit` in the first case and `name` in the second. It yields a flag iff `bit` and `name` are present and bit `bit` of the code is 1, and the flag is the name. |
| Decoder.DecodeEnum | streamlit_app.py:28-31 | An enum entry yields a flag iff `shift`, `mask`, `values` and `name` are all present, and the flag begins with `name: `. Otherwise it is skipped, naming one of those four keys that is really absent. It is never silently inactive. |
| Decoder.UnknownValue | streamlit_app.py:30 | The fallback label is `Unknown Value (`, then digits, then `)`. The digits read back as the enum value, and they start with `0` only when the value is 0, where the label is `Unknown Value (0)`. |
| Decoder.MissingKeyWarning | streamlit_app.py:32-34 | The warning is the fixed text `Skipping a malformed field in YAML definition: Missing key ` followed by the key name in single quotes. |
| Decoder.MaskFieldFlag | streamlit_app.py:23-26 | A mask entry with `bit` b and `name` n yields n exactly when bit b of the code is 1, and nothing otherwise. |
| Decoder.EnumFieldEntry | streamlit_app.py:28-31 | A complete enum entry always yields exactly one entry, `name: label`. The value v is characterised bit by bit: bit i of v is bit shift+i of the code AND bit i of mask. v never exceeds mask. The label is `values[v]` when present, else `UnknownValue(v)`, which is `Unknown Value (` + decimal v + `)`. |
| Decoder.EnumFieldYieldsOne | streamlit_app.py:28-31 | A complete enum entry, for every code, adds exactly one flag, which begins with `name: `, and no warning. |
| Decoder.EnumValueByBits | streamlit_app.py:29 | The value whose bit i is bit shift+i of the code AND bit i of mask is exactly `(code >> shift) & mask`. |
| Decoder.MalformedIffKeyMissing | streamlit_app.py:22-34 | An entry is skipped iff a key the decoder actually reads is absent. The warning names the first absent key in reading order: mask reads `type`, `bit`, then `name` only if the bit is set; enum reads `type`, `shift`, `mask`, `values`, `name`. |
| Decoder.MaskKeysRead | streamlit_app.py:23-26 | The same two statements for a mask entry, whose read order is `type`, `bit`, then `name` only if the bit is set. |
| Decoder.EnumKeysRead | streamlit_app.py:28-31 | The same two statements for an enum entry, whose read order is `type`, `shift`, `mask`, `values`, `name`. |
| Decoder.DecodeConcat | streamlit_app.py:18-21 | Decoding a concatenated field list gives the concatenation of the two decodings, for flags and for warnings. |
| Decoder.OutputBounded | streamlit_app.py:21-34 | Flags plus warnings number at most the entries: each entry contributes at most one of the two. |
| Decoder.MalformedFieldSkipped | streamlit_app.py:21-34 | A skipped entry adds its one warning and no flag. The output of the entries before and after it is exactly what it would be without it, so decoding carries on. |
| Decoder.MissingKeyWarningInjective | streamlit_app.py:32-34 | Different missing keys give different warning texts, so the warning identifies the key. |
| Decoder.DecodeSingle | streamlit_app.py:21-34 | A one-entry list yields that entry's flag or warning, if any, and nothing else. |
| Decoder.DecodeStep | streamlit_app.py:21-34 | Decoding one more entry of a list appends exactly that entry's flag or warning to the output so far. |
| Bits.Pow2 | streamlit_app.py:24 | `1 << n` is at least 1. Its bits are given by Bits.Pow2Bits. |
| Bits.ShiftRight | streamlit_app.py:29 | `x >> s` never exceeds x. Bits.ShiftRightDivides and Bits.ShiftRightBits give its value. |
| Bits.AndWithPow2 | streamlit_app.py:24-25 | `code & (1 << b)` equals `1 << b` when bit b of the code is 1, and 0 otherwise, so the mask test is a bit test. |
| Bits.Pow2Bits | streamlit_app.py:24 | `1 << n` has bit n set and no other bit. |
| Bits.BitAndBits | streamlit_app.py:29 | Bit i of `a & b` is set iff bit i is set in both operands. |
| Bits.ShiftRightBits | streamlit_app.py:29 | Bit i of `x >> s` is bit s+i of x. |
| Bits.ExtractBits | streamlit_app.py:29 | Bit i of `(x >> s) & m` is set iff bit s+i of x and bit i of m are set. |
| Bits.BitAnd | streamlit_app.py:25-29 | `a & b` is at most a and at most b. Its bits are given by Bits.BitAndBits. |
| Bits.BitsDetermineValue | streamlit_app.py:29 | Two non-negative integers with the same bits are equal, so the bit characterisation fixes the extracted enum value. |
| Bits.ShiftRightDivides | streamlit_app.py:29 | `x >> s` is floor division of x by 2 to the power s. |
| Decimal.DecimalString | streamlit_app.py:30 | The decimal text of an integer is non-empty and starts with `0` only for zero, which is exactly `0`. |
| Decimal.DecimalStringDigits | streamlit_app.py:30 | The decimal text of an integer consists of digits only. |
| Decimal.DecimalRoundTrip | streamlit_app.py:30 | The decimal text of n is all digits, and reading it back gives n. |
| Decimal.DecimalStringInjective | streamlit_app.py:30 | Different values get different decimal texts in the fallback label. |
| Scenarios.TwoMaskBits | streamlit_app.py:23-26 | Code 17 against mask entries for bits 0 and 4 gives `["A", "B"]`, with no warning. |
| Scenarios.EnumKnownValue | streamlit_app.py:28-31 | Code 16 against an enum with shift 4 and mask 3 gives `["Mode: Active"]`, with no warning. |
| Scenarios.EnumUnknownValue | streamlit_app.py:28-31 | Code 48 against the same enum gives `["Mode: Unknown Value (3)"]`, with no warning. |
| Scenarios.MaskWithoutBit | streamlit_app.py:22-34 | A mask entry without `bit` gives no flag and exactly one warning naming `'bit'`, for every code. |
| Scenarios.BitWarningText | streamlit_app.py:34 | The warning for a missing `bit` is `Skipping a malformed field in YAML definition: Missing key 'bit'`. |
| Scenarios.MaskWithoutNameBitClear | streamlit_app.py:24-26 | A mask entry without `name` whose bit is clear gives neither a flag nor a warning. |

## Left out

- The Streamlit page (streamlit_app.py:42-142): page setup, styling, the status-type selector, the code input, the button and the rendering of results. This is presentation only.
- `load_definitions` (streamlit_app.py:76-91): file reading, YAML parsing and caching. The model takes one loaded definition as an input value (`Schema.StatusDefinition`). Other keys of a definition, such as its description, and the map from status-type names to definitions are not represented, because `decode_status` never reads them.
- Parsing the typed code with Python's `int()` (streamlit_app.py:124, 139). That is library behaviour (signs, whitespace, underscores). The model starts from the parsed integer.
- `st.warning` as a side effect on the page. The model returns the warning texts as a list beside the flags.
- Negative status codes. Python's `&` and `>>` on negative integers use infinite two's complement. The code is a `nat`.
- Negative `mask` values. Python accepts one without error: `(code >> shift) & m` with negative m keeps the bits where m's infinite two's complement has a 1, so `& -1` leaves `code >> shift` unchanged (streamlit_app.py:29). The model's `mask` is a `nat`, so such entries are not represented.
- Errors other than `KeyError` escape the source's handler and stop the whole pass. The model's types rule them out. Examples: a negative `bit` (`ValueError` from `1 <<`), non-integer `bit`/`shift`/`mask`, a `values` that is not a mapping, a `fields:` key present but empty (YAML null, `TypeError` on iteration), an entry that is not a mapping.
- Non-string `type` and `name` values, and non-string labels in `values`. They are `string` here. A `type` that is not one of the two strings is an unrecognised type either way. The f-string rendering of other YAML scalars is not modelled.
- `values` maps integers to labels. Keys of other kinds are not represented. `yaml.safe_load` reads unquoted `true`/`false`/`yes`/`no`/`on`/`off` keys as booleans and keys such as `1.0` as floats. Python's `values.get(v)` (streamlit_app.py:30) finds such a key when it equals the integer v: a boolean key matches 0 or 1, and a float key with an integral value matches that integer. The source then prints that key's label where the model can only give the fallback. Quoted string keys never match an integer, so leaving those out changes no output.
- Determinism of `decode_status` is not stated as a lemma: `Flags` and `Warnings` are functions, so equal inputs give equal outputs by construction.
