# xmpmeta core in Dafny

A model of three self-contained pieces of the xmpmeta library, with proofs
of what they promise:

- **Base64 codec** (`internal/xmpmeta/base64.h`), written against RFC 4648.
  The encoder emits the regular alphabet (section 4 of RFC 4648) padded with
  `=`. The decoder accepts the regular alphabet and the web-safe alphabet
  (section 5 of RFC 4648: `-` and `_`, padding omitted), and rebuilds missing
  padding from the text length modulo 4. The integer-array variants pack each
  32-bit `int` into four bytes, in a byte order given as a parameter
  (little-endian unless the caller says otherwise), and go through the byte
  codec. Module `Base64Codec` in `base64.dfy`.
- **The GImage XMP element** (`internal/xmpmeta/gimage.cc`): an image's bytes
  and MIME type. The MIME type is the standard-section property `GImage:Mime`.
  The bytes are the extended-section property `GImage:Data`, in base64. The
  element is an immutable value (datatype `GImage` in module `GImageElement`,
  `gimage.dfy`). Reading is an `Option`-returning function. Writing changes
  the caller's serializer objects, and registering the namespace changes the
  caller's namespace map; both are methods on classes with map fields.
- **The XMP sections** the element talks to (module `XmlSections`,
  `xml_sections.dfy`). A section is a map from a (prefix, name) key to text.
  Reading a property is a lookup, and reading a base64 property is a lookup
  followed by `DecodeBase64`. A `Serializer` holds such a map, a fixed
  `accepts` oracle that decides which writes succeed, and a log of every
  write attempted.
- **`JoinPath`** (`internal/xmpmeta/file.cc`), module `FilePath` in `file.dfy`,
  with the path separator as a parameter (`/` by default).

`CreateFromData` refuses empty data or an empty MIME type
(internal/xmpmeta/gimage.cc:59-61). `FromXmp` (internal/xmpmeta/gimage.cc:68-81)
makes no such check, so the model has no non-empty invariant, and
`FromXmpAdmitsEmptyElement` exhibits an empty element that `FromXmp` returns.

## Model

| member | source | states |
|---|---|---|
| Base64Codec.SextetOfDefined | internal/xmpmeta/base64.h:25-27 | a character has a 6-bit value exactly when it belongs to the regular or the web-safe alphabet |
| Base64Codec.SextetOfCharOf | internal/xmpmeta/base64.h:25-27 | every value's character, in either alphabet, decodes back to that value and is never `=`; the web-safe character is the regular one with `+`/`/` replaced by `-`/`_` |
| Base64Codec.JoinSplit | internal/xmpmeta/base64.h:30-31 | a group of one to three bytes, cut into 6-bit values and joined again, is unchanged |
| Base64Codec.EncodeAlphabet | internal/xmpmeta/base64.h:30-31 | every character of an encoding is in the chosen alphabet, except that the regular encoding ends in exactly as many `=` as the last group lacks bytes |
| Base64Codec.EncodeBase64 | internal/xmpmeta/base64.h:30-31 | the output has 4·⌈n/3⌉ characters for n bytes, uses only the regular alphabet and `=`, and has `=` exactly in its last (3 − n mod 3) mod 3 positions |
| Base64Codec.DecodeBase64 | internal/xmpmeta/base64.h:25-28 | text whose length, with or without its trailing `=` padding, is 1 modulo 4 is rejected; text that decodes consists of characters of either alphabet, with `=` allowed only in the last two positions |
| Base64Codec.ShortUnpaddedTextRejected | internal/xmpmeta/base64.h:25-28 | once the missing padding is rebuilt, text whose unpadded length is 1 modulo 4 does not decode, because its first `=` falls at the second position of a group of four |
| Base64Codec.ForeignCharacterRejected | internal/xmpmeta/base64.h:25-28 | a character in neither alphabet, other than `=`, anywhere in the text makes decoding fail |
| Base64Codec.GroupRoundTrip | internal/xmpmeta/base64.h:25-31 | one encoded group, in either alphabet and with its padding rebuilt, decodes to the bytes it came from |
| Base64Codec.EncodeRoundTrip | internal/xmpmeta/base64.h:25-31 | for both alphabets, an encoding never has length 1 modulo 4 and, padded back, decodes to the original bytes |
| Base64Codec.DecodeEncode | internal/xmpmeta/base64.h:25-31 | decoding the encoding of any byte string succeeds and gives that byte string |
| Base64Codec.ToWebSafeOfEncode | internal/xmpmeta/base64.h:25-27 | the regular encoding, with `+`→`-`, `/`→`_` and trailing `=` dropped, is exactly the web-safe encoding of the same bytes |
| Base64Codec.DecodeWebSafeForm | internal/xmpmeta/base64.h:25-28 | the decoder accepts the web-safe form of any regular encoding and gives the same bytes as from the regular text, namely the original ones |
| Base64Codec.KnownVector | internal/xmpmeta/base64.h:25-31 | bytes 00 FF 10 encode to `AP8Q`, which is its own web-safe form and decodes back to those bytes |
| Base64Codec.UnpackPackInt | internal/xmpmeta/base64.h:33-37 | a 32-bit int packed into four bytes (two's complement, either byte order) unpacks to itself |
| Base64Codec.PackIntsAt | internal/xmpmeta/base64.h:33-34 | element k of an int array occupies exactly bytes 4k to 4k+3 of the packing |
| Base64Codec.UnpackPackInts | internal/xmpmeta/base64.h:33-37 | unpacking the packing of an int array gives the array back |
| Base64Codec.PackUnpackInt | internal/xmpmeta/base64.h:36-37 | any four bytes unpacked to an int and packed again, in the same byte order, are unchanged |
| Base64Codec.PackUnpackInts | internal/xmpmeta/base64.h:36-37 | any byte string whose length is a multiple of 4, unpacked to ints and packed again, is unchanged |
| Base64Codec.EncodeIntArrayBase64 | internal/xmpmeta/base64.h:33-34 | n ints encode to 4·⌈4n/3⌉ characters |
| Base64Codec.DecodeIntArrayBase64 | internal/xmpmeta/base64.h:36-37 | decoding an int array succeeds exactly when the text decodes to a byte count that is a multiple of 4; it then yields a quarter as many ints as bytes, and those ints pack back to exactly the decoded bytes |
| Base64Codec.DecodeEncodeIntArray | internal/xmpmeta/base64.h:33-37 | decoding the encoding of any int array, in the same byte order, gives the array back |
| XmlSections.ParseString | internal/xmpmeta/gimage.cc:72-74 | reading a string property succeeds exactly when the section has the key, and gives its text |
| XmlSections.ParseBase64 | internal/xmpmeta/gimage.cc:75-79 | reading a base64 property succeeds exactly when the key is present and its text decodes, and gives the decoded bytes |
| XmlSections.Serializer.WriteProperty | internal/xmpmeta/gimage.cc:121-124 | a write is logged, succeeds exactly when the serializer accepts it, and changes the property map only when it succeeds |
| GImageElement.GImage.GetData | internal/xmpmeta/gimage.cc:53 | returns the element's bytes: the element is exactly those bytes together with its MIME type |
| GImageElement.GImage.GetMime | internal/xmpmeta/gimage.cc:55 | returns the element's MIME type: the element is exactly its bytes together with that MIME type |
| GImageElement.GImage.CreateFromData | internal/xmpmeta/gimage.cc:53-66 | no element exactly when the data or the MIME type is empty; otherwise GetData and GetMime return the inputs unchanged |
| GImageElement.GImage.FromXmp | internal/xmpmeta/gimage.cc:68-81 | all or nothing: an element exactly when the standard section has `GImage:Mime` and the extended section has a `GImage:Data` that decodes, and then its MIME type and data are those two |
| GImageElement.FromXmpIgnoresExtendedWithoutMime | internal/xmpmeta/gimage.cc:69-74 | without `GImage:Mime` in the standard section there is no element, whatever the extended section holds |
| GImageElement.FromXmpAdmitsEmptyElement | internal/xmpmeta/gimage.cc:57-81 | an empty MIME type and empty data parse to an empty element, which CreateFromData refuses |
| GImageElement.GImage.IsPresent | internal/xmpmeta/gimage.cc:92-97 | true exactly when the standard section has `GImage:Mime`; the extended section plays no part |
| GImageElement.FromXmpImpliesPresent | internal/xmpmeta/gimage.cc:68-97 | a parsed element implies the presence probe succeeds, and a packet with a MIME type but no data shows the converse fails |
| GImageElement.GImage.FromJpegFile | internal/xmpmeta/gimage.cc:83-90 | an element exactly when the header read with the extended section kept succeeds, its standard section has `GImage:Mime` and its extended section has a `GImage:Data` that decodes; the element is then that MIME type and the decoded bytes |
| GImageElement.FromJpegFileReadsExtended | internal/xmpmeta/gimage.cc:83-90 | the element read from a file depends only on the header read with the extended section kept |
| GImageElement.GImage.IsPresentInFile | internal/xmpmeta/gimage.cc:99-106 | true exactly when the header read with the extended section skipped succeeds and its standard section has `GImage:Mime` |
| GImageElement.IsPresentInFileSkipsExtended | internal/xmpmeta/gimage.cc:99-106 | the presence probe on a file depends only on the header read with the extended section skipped |
| GImageElement.GImage.Serialize | internal/xmpmeta/gimage.cc:108-125 | with a missing serializer or a failed encoding it fails and writes nothing; otherwise it writes the MIME type to the standard serializer, writes the encoded data to the extended one only if the first write succeeded, and succeeds exactly when both writes do (also when both serializers are one object); after success the two sections parse back to the element |
| GImageElement.ParseAfterWrite | internal/xmpmeta/gimage.cc:72-124 | sections that hold an element's MIME type and base64 data under its keys parse back to that element, whatever else they hold |
| GImageElement.SerializeRoundTrip | internal/xmpmeta/gimage.cc:108-125 | serializing into two empty sections that accept every write succeeds and parses back to the original element |
| GImageElement.GImage.GetNamespaces | internal/xmpmeta/gimage.cc:44-51 | a missing map is left alone; otherwise `GImage` is bound to `http://ns.google.com/photos/1.0/image/` unless the map already binds it, and no other entry changes |
| FilePath.JoinPath | internal/xmpmeta/file.cc:59-73 | the joined path ends with `basename` and is at most one character longer than both names; an absolute `basename` or an empty `dirname` gives `basename`; otherwise the part before `basename` starts with `dirname` and ends with the separator, which is added exactly when `dirname` does not already end with it |
| FilePath.JoinPathDetermined | internal/xmpmeta/file.cc:66-71 | any path with the shape JoinPath's contract describes is the one JoinPath returns |
| FilePath.JoinPathAssociative | internal/xmpmeta/file.cc:66-71 | joining three names gives the same path however the two joins are grouped |

## Left out

- `ReadFileToStringOrDie` and `WriteStringToFileOrDie` (internal/xmpmeta/file.cc:24-57): file I/O that ends the process on failure.
- `EncodeFloatArrayBase64` and `DecodeFloatArrayBase64` (internal/xmpmeta/base64.h:39-43): IEEE-754 floats are not modelled.
- The base64 implementation file is not part of this model. The decoder is modelled per RFC 4648. It accepts `=` only as padding at the end, and it ignores leftover low bits in the last group rather than rejecting them.
- Base64Codec.EncodeBase64: always succeeds. internal/xmpmeta/base64.h:30-31 does not say when encoding fails, so the model treats `EncodeBase64` as total and passes a failure into `GImage.Serialize` as `encoderFails`.
- Base64Codec.EncodeIntArrayBase64: the byte order of the packing is a parameter, because the implementation that fixes it is not part of this model.
- The XML layer (`DeserializerImpl`, `GetFirstDescriptionElement`, `xml::Serializer`) is replaced by keyed maps. A serializer's `accepts` oracle depends only on the key and value written.
- `ReadXmpHeader` is not part of this model. `FromJpegFile` and `IsPresentInFile` receive it as a function of the file name and the skip-extended flag.
- `LOG(ERROR)` and `LOG(WARNING)` have no effect on results and are not modelled.
- The `_WIN32` choice of `\` as the separator in `JoinPath` (internal/xmpmeta/file.cc:60-64) is the `separator` parameter.
- The constants `kMimePng` and `kMimeJpeg` (internal/xmpmeta/gimage.cc:36-37) are not used by any operation shown.
- Ownership through `std::unique_ptr` is not modelled. A missing element is `None`, and elements are values.
