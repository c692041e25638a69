/** The decoded form of a Valve KeyValues document. Turning text into this
    tree and back is done by a foreign library and is not part of the
    model; every operation here starts from, or produces, the tree. */
module KeyValues {
  import opened Wrappers

  /** A KeyValues value: a quoted string, or a braced section of named
      children. */
  datatype Node = Str(text: string) | Section(children: map<string, Node>)

  /** A whole document: its root key and the section under it. */
  datatype Document = Document(key: string, body: Node)

  /** `Value::deserialize_into::<BTreeMap<String, Value>>()`: a section's
      children, or a type error for a string. */
  function AsSection(n: Node): (r: Outcome<map<string, Node>>)
    ensures r.Ok? <==> n.Section?
    ensures r.Ok? ==> Section(r.value) == n
    ensures !r.Ok? ==> r == Err(InvalidType)
  {
    match n
    case Section(children) => Ok(children)
    case Str(_) => Err(InvalidType)
  }

  /** `Value::deserialize_into::<String>()` (also `PathBuf`). */
  function AsString(n: Node): (r: Outcome<string>)
    ensures r.Ok? <==> n.Str?
    ensures r.Ok? ==> Str(r.value) == n
    ensures !r.Ok? ==> r == Err(InvalidType)
  {
    match n
    case Str(text) => Ok(text)
    case Section(_) => Err(InvalidType)
  }

  /** All children of a section are strings. */
  predicate AllStrings(children: map<string, Node>)
  {
    forall k | k in children :: children[k].Str?
  }

  /** `Value::deserialize_into::<BTreeMap<String, String>>()`: succeeds
      only on a section whose every child is a string. */
  function AsStringMap(n: Node): (r: Outcome<map<string, string>>)
    ensures r.Ok? <==> n.Section? && AllStrings(n.children)
    ensures r.Ok? ==> r.value.Keys == n.children.Keys
    ensures !r.Ok? ==> r == Err(InvalidType)
  {
    match n
    case Str(_) => Err(InvalidType)
    case Section(children) =>
      if AllStrings(children) then Ok(map k | k in children :: children[k].text)
      else Err(InvalidType)
  }

  /** A required struct field, by its exact (case-sensitive) name. */
  function Field(children: map<string, Node>, name: string): (r: Outcome<Node>)
    ensures r.Ok? <==> name in children
    ensures r.Ok? ==> r.value == children[name]
    ensures !r.Ok? ==> r == Err(MissingField(name))
  {
    if name in children then Ok(children[name]) else Err(MissingField(name))
  }
}
