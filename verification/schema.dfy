/** The schema loaded from the status-code configuration file, as an immutable value.

    A field entry is a mapping whose keys may be absent; every key the decoder
    reads is therefore an `Option`. Keys the decoder never reads are not kept. */
module Schema {

  datatype Option<T> = None | Some(value: T)

  /** The keys of a field entry that the decoder reads. */
  datatype Key = TypeKey | BitKey | ShiftKey | MaskKey | ValuesKey | NameKey

  /** The key as it is spelled in the configuration file. */
  function KeyName(k: Key): string
  {
    match k
    case TypeKey => "type"
    case BitKey => "bit"
    case ShiftKey => "shift"
    case MaskKey => "mask"
    case ValuesKey => "values"
    case NameKey => "name"
  }

  /** One entry of a definition's `fields` list. `kind` is the `type` key. */
  datatype Field = Field(
    kind: Option<string>,
    bit: Option<nat>,
    shift: Option<nat>,
    mask: Option<nat>,
    name: Option<string>,
    values: Option<map<int, string>>)

  predicate Has(f: Field, k: Key)
  {
    match k
    case TypeKey => f.kind.Some?
    case BitKey => f.bit.Some?
    case ShiftKey => f.shift.Some?
    case MaskKey => f.mask.Some?
    case ValuesKey => f.values.Some?
    case NameKey => f.name.Some?
  }

  /** The definition of one status type, reduced to its optional `fields` list: the other keys
      of a definition are never read by the decoder. */
  datatype StatusDefinition = StatusDefinition(fields: Option<seq<Field>>)
}
