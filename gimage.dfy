/**
 * The GImage XMP element: an image (its bytes and MIME type) stored in the
 * standard section as property `GImage:Mime` and in the extended section as
 * property `GImage:Data`, base64-encoded.
 *
 * The element never changes after it is built, so it is a value; the two
 * operations that change state change the caller's serializers and
 * namespace map, which are objects.
 */
module GImageElement {
  import opened Wrappers
  import opened XmlSections
  import Base64Codec

  const Prefix := "GImage"
  const MimeField := "Mime"
  const DataField := "Data"
  const NamespaceHref := "http://ns.google.com/photos/1.0/image/"

  /** Where the MIME type lives in the standard section. */
  const MimeKey := Key(Prefix, MimeField)
  /** Where the encoded bytes live in the extended section. */
  const DataKey := Key(Prefix, DataField)

  datatype GImage = GImage(data: seq<Base64Codec.Byte>, mime: string)
  {
    /** The image bytes; with the MIME type they make up the whole element. */
    function GetData(): (r: seq<Base64Codec.Byte>)
      ensures GImage(r, mime) == this
    {
      data
    }

    /** The MIME type; with the image bytes it makes up the whole element. */
    function GetMime(): (r: string)
      ensures GImage(data, r) == this
    {
      mime
    }

    /** An element from its parts; both must be non-empty. */
    static function CreateFromData(data: seq<Base64Codec.Byte>, mime: string): (r: Option<GImage>)
      ensures r.None? <==> data == [] || mime == []
      ensures r.Some? ==> r.value.GetData() == data && r.value.GetMime() == mime
    {
      if data == [] || mime == [] then None else Some(GImage(data, mime))
    }

    /**
     * The element an XMP packet describes: the MIME type from the standard
     * section and the decoded bytes from the extended section, or nothing
     * when either is missing or the bytes do not decode.
     */
    static function FromXmp(xmp: XmpData): (r: Option<GImage>)
      ensures r.Some? <==>
        MimeKey in xmp.standard && DataKey in xmp.extended &&
        Base64Codec.DecodeBase64(xmp.extended[DataKey]).Some?
      ensures r.Some? ==>
        r.value.mime == xmp.standard[MimeKey] &&
        r.value.data == Base64Codec.DecodeBase64(xmp.extended[DataKey]).value
    {
      match ParseString(xmp.standard, Prefix, MimeField)
      case None => None
      case Some(mime) =>
        match ParseBase64(xmp.extended, Prefix, DataField)
        case None => None
        case Some(data) => Some(GImage(data, mime))
    }

    /** Whether the standard section names a GImage MIME type. */
    static function IsPresent(xmp: XmpData): (r: bool)
      ensures r <==> MimeKey in xmp.standard
    {
      ParseString(xmp.standard, Prefix, MimeField).Some?
    }

    /**
     * The element in a JPEG file.  `readXmpHeader(filename, skipExtended)`
     * stands for the file reader, which is not part of this model; the
     * element needs the extended section, so it is not skipped.
     */
    static function FromJpegFile(filename: string, readXmpHeader: (string, bool) -> Option<XmpData>): (r: Option<GImage>)
      ensures r.Some? <==>
        readXmpHeader(filename, false).Some? &&
        var xmp := readXmpHeader(filename, false).value;
        MimeKey in xmp.standard && DataKey in xmp.extended &&
        Base64Codec.DecodeBase64(xmp.extended[DataKey]).Some?
      ensures r.Some? ==>
        var xmp := readXmpHeader(filename, false).value;
        r.value == GImage(Base64Codec.DecodeBase64(xmp.extended[DataKey]).value, xmp.standard[MimeKey])
    {
      match readXmpHeader(filename, false)
      case None => None
      case Some(xmp) => FromXmp(xmp)
    }

    /** Whether a JPEG file holds the element; only the standard section is read. */
    static function IsPresentInFile(filename: string, readXmpHeader: (string, bool) -> Option<XmpData>): (r: bool)
      ensures r <==> readXmpHeader(filename, true).Some? && MimeKey in readXmpHeader(filename, true).value.standard
    {
      match readXmpHeader(filename, true)
      case None => false
      case Some(xmp) => IsPresent(xmp)
    }

    /**
     * Writes the MIME type to the standard serializer and then, only if that
     * write succeeded, the encoded bytes to the extended one.  Nothing is
     * written when a serializer is missing or encoding fails.  The byte codec
     * here never fails, and the header does not say when the source's encoder
     * does, so `encoderFails` says whether it did.  The two serializers may be
     * the same object.
     */
    method Serialize(std: Serializer?, ext: Serializer?, encoderFails: bool) returns (ok: bool)
      modifies std, ext
      ensures std == null || ext == null || encoderFails ==>
        !ok && (std != null ==> unchanged(std)) && (ext != null ==> unchanged(ext))
      ensures std != null && ext != null && !encoderFails && std != ext ==>
        var encoded := Base64Codec.EncodeBase64(data);
        var mimeOk := std.accepts(MimeKey, mime);
        var dataOk := mimeOk && ext.accepts(DataKey, encoded);
        && ok == dataOk
        && std.log == old(std.log) + [(MimeKey, mime)]
        && std.properties == (if mimeOk then old(std.properties)[MimeKey := mime] else old(std.properties))
        && ext.log == old(ext.log) + (if mimeOk then [(DataKey, encoded)] else [])
        && ext.properties == (if dataOk then old(ext.properties)[DataKey := encoded] else old(ext.properties))
      ensures std != null && !encoderFails && std == ext ==>
        var encoded := Base64Codec.EncodeBase64(data);
        var mimeOk := std.accepts(MimeKey, mime);
        var dataOk := mimeOk && std.accepts(DataKey, encoded);
        && ok == dataOk
        && std.log == old(std.log) + [(MimeKey, mime)] + (if mimeOk then [(DataKey, encoded)] else [])
        && std.properties == (
          if dataOk then old(std.properties)[MimeKey := mime][DataKey := encoded]
          else if mimeOk then old(std.properties)[MimeKey := mime]
          else old(std.properties))
      ensures ok ==> FromXmp(XmpData(std.properties, ext.properties)) == Some(this)
    {
      if std == null || ext == null {
        return false;
      }
      var encoded := Base64Codec.EncodeBase64(data);
      if encoderFails {
        return false;
      }
      ok := std.WriteProperty(Prefix, MimeField, mime);
      if !ok {
        return false;
      }
      ok := ext.WriteProperty(Prefix, DataField, encoded);
      if ok {
        ParseAfterWrite(this, std.properties, ext.properties);
      }
    }

    /** Registers the element's namespace, keeping a prefix the map already binds. */
    method GetNamespaces(nsMap: NamespaceMap?)
      modifies nsMap
      ensures nsMap != null ==>
        nsMap.entries == if Prefix in old(nsMap.entries) then old(nsMap.entries)
                         else old(nsMap.entries)[Prefix := NamespaceHref]
    {
      if nsMap == null {
        return;
      }
      if Prefix !in nsMap.entries {
        nsMap.entries := nsMap.entries[Prefix := NamespaceHref];
      }
    }
  }

  /**
   * Sections holding an element's MIME type and encoded bytes under its keys
   * parse back to that element, whatever else they hold.
   */
  lemma ParseAfterWrite(g: GImage, standard: Section, extended: Section)
    requires MimeKey in standard && standard[MimeKey] == g.mime
    requires DataKey in extended && extended[DataKey] == Base64Codec.EncodeBase64(g.data)
    ensures GImage.FromXmp(XmpData(standard, extended)) == Some(g)
  {
    Base64Codec.DecodeEncode(g.data);
  }

  /** Without a MIME type the extended section is never consulted. */
  lemma FromXmpIgnoresExtendedWithoutMime(standard: Section, extended: Section)
    requires MimeKey !in standard
    ensures GImage.FromXmp(XmpData(standard, extended)) == None
  {
  }

  /** A successful parse implies the presence probe succeeds; the converse fails. */
  lemma FromXmpImpliesPresent(xmp: XmpData)
    ensures GImage.FromXmp(xmp).Some? ==> GImage.IsPresent(xmp)
    ensures GImage.IsPresent(XmpData(map[MimeKey := "image/png"], map[])) &&
            GImage.FromXmp(XmpData(map[MimeKey := "image/png"], map[])) == None
  {
  }

  /**
   * Unlike CreateFromData, FromXmp does not insist on non-empty parts:
   * an empty MIME type and empty data parse to an empty element.
   */
  lemma FromXmpAdmitsEmptyElement()
    ensures GImage.FromXmp(XmpData(map[MimeKey := ""], map[DataKey := ""])) == Some(GImage([], ""))
    ensures GImage.CreateFromData([], "") == None
  {
    assert Base64Codec.DecodeBase64("") == Some([]) by {
      Base64Codec.DecodeEncode([]);
      assert Base64Codec.EncodeBase64([]) == "";
    }
  }

  /** FromJpegFile depends only on the full header, read with the extended section. */
  lemma FromJpegFileReadsExtended(filename: string, read1: (string, bool) -> Option<XmpData>,
                                  read2: (string, bool) -> Option<XmpData>)
    requires read1(filename, false) == read2(filename, false)
    ensures GImage.FromJpegFile(filename, read1) == GImage.FromJpegFile(filename, read2)
  {
  }

  /** IsPresentInFile depends only on the header read without the extended section. */
  lemma IsPresentInFileSkipsExtended(filename: string, read1: (string, bool) -> Option<XmpData>,
                                     read2: (string, bool) -> Option<XmpData>)
    requires read1(filename, true) == read2(filename, true)
    ensures GImage.IsPresentInFile(filename, read1) == GImage.IsPresentInFile(filename, read2)
  {
  }

  /** Serializing into two fresh sections that accept every write, then parsing them, gives the element back. */
  method SerializeRoundTrip(g: GImage) returns (ok: bool, parsed: Option<GImage>)
    ensures ok && parsed == Some(g)
  {
    var acceptAll := (k: Key, v: string) => true;
    var std := new Serializer(acceptAll);
    var ext := new Serializer(acceptAll);
    ok := g.Serialize(std, ext, false);
    parsed := GImage.FromXmp(XmpData(std.properties, ext.properties));
  }
}
