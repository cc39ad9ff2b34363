/**
 * The XMP sections an element is read from and written to, abstracted from
 * their XML form: a section is a map from a (namespace prefix, property name)
 * pair to the property's text value.  Reading a property is a lookup;
 * writing one goes through a serializer object whose writes may be refused.
 */
module XmlSections {
  import opened Wrappers
  import Base64Codec

  datatype Key = Key(prefix: string, name: string)

  type Section = map<Key, string>

  /** The standard and the extended XMP section of one file. */
  datatype XmpData = XmpData(standard: Section, extended: Section)

  /** The text of property `prefix:name`, or None when the section lacks it. */
  function ParseString(section: Section, prefix: string, name: string): (r: Option<string>)
    ensures r.Some? <==> Key(prefix, name) in section
    ensures r.Some? ==> r.value == section[Key(prefix, name)]
  {
    var key := Key(prefix, name);
    if key in section then Some(section[key]) else None
  }

  /**
   * The bytes property `prefix:name` holds in base64, or None when the
   * property is missing or its text does not decode.
   */
  function ParseBase64(section: Section, prefix: string, name: string): (r: Option<seq<Base64Codec.Byte>>)
    ensures r.Some? <==>
      Key(prefix, name) in section && Base64Codec.DecodeBase64(section[Key(prefix, name)]).Some?
    ensures r.Some? ==> r == Base64Codec.DecodeBase64(section[Key(prefix, name)])
  {
    match ParseString(section, prefix, name)
    case None => None
    case Some(text) => Base64Codec.DecodeBase64(text)
  }

  /**
   * A section being written.  `accepts` decides which writes succeed (the
   * XML back end may refuse one); `log` records every write attempted, in
   * order, whether or not it succeeded.
   */
  class Serializer {
    var properties: Section
    var log: seq<(Key, string)>
    const accepts: (Key, string) -> bool

    constructor (accepts: (Key, string) -> bool)
      ensures properties == map[] && log == [] && this.accepts == accepts
    {
      properties := map[];
      log := [];
      this.accepts := accepts;
    }

    /** Writes `value` as property `prefix:name`; reports whether the write was accepted. */
    method WriteProperty(prefix: string, name: string, value: string) returns (ok: bool)
      modifies this
      ensures ok == accepts(Key(prefix, name), value)
      ensures log == old(log) + [(Key(prefix, name), value)]
      ensures properties == if ok then old(properties)[Key(prefix, name) := value] else old(properties)
    {
      var key := Key(prefix, name);
      ok := accepts(key, value);
      log := log + [(key, value)];
      if ok {
        properties := properties[key := value];
      }
    }
  }

  /** The caller's namespace-prefix to namespace-URI map. */
  class NamespaceMap {
    var entries: map<string, string>

    constructor (entries: map<string, string>)
      ensures this.entries == entries
    {
      this.entries := entries;
    }
  }
}
