/** The shape of a parsed StrictYAML node, as far as an entry reads it. In
    StrictYAML every scalar is a string and every mapping key is a string. */
module StrictYaml {
  import opened Base

  datatype Yaml =
    | Str(s: string)
    | Array(items: seq<Yaml>)
    | Hash(entries: map<string, Yaml>)
    | BadValue

  /** `Yaml::as_str`. */
  function AsStr(y: Yaml): (r: Option<string>)
    ensures r.Some? <==> y.Str?
    ensures r.Some? ==> y == Str(r.value)
  {
    if y.Str? then Some(y.s) else None
  }

  /** `yaml[key]`: the value under `key` in a mapping; `BadValue` for a
      missing key or a node that is not a mapping. */
  function Index(y: Yaml, key: string): (r: Yaml)
    ensures y.Hash? && key in y.entries ==> r == y.entries[key]
    ensures !(y.Hash? && key in y.entries) ==> r == BadValue
  {
    match y
    case Hash(m) => if key in m then m[key] else BadValue
    case _ => BadValue
  }
}
