/**
 * The part of a driftctl resource that the modelled components look at:
 * its Terraform type, its id, and a flat view of its attributes.
 */
module Resources {
  import opened Wrappers

  /** An attribute value: a string, or anything else (map, list, number, ...). */
  datatype AttrValue = Str(s: string) | NonString

  datatype Resource = Resource(resourceType: string, id: string, attributes: map<string, AttrValue>)

  /** `Attributes().GetString(key)`: the string stored under key, or nil. */
  function GetString(r: Resource, key: string): Option<string>
  {
    if key in r.attributes && r.attributes[key].Str? then Some(r.attributes[key].s) else None
  }
}
