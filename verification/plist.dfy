/**
 * Property-list values as `plistlib` hands them to the handshake, and the one
 * loop the handshake runs over them: before the second-factor step every
 * top-level `bytes` entry of the decrypted payload is replaced by its Base64
 * text. Parsing and serialising property lists is not modelled.
 */
module Plist {
  import opened Wrappers
  import opened Encoding

  datatype PValue =
    | PString(text: string)
    | PBytes(bytes: seq<Byte>)
    | PInt(number: int)
    | PBool(flag: bool)
    | PArray(items: seq<PValue>)
    | PDict(entries: map<string, PValue>)

  /**
   * The XML preamble prepended, as a bytes literal, to the decrypted payload
   * before parsing; the server's document lacks it. In ASCII it reads
   *   <?xml version='1.0' encoding='UTF-8'?>
   *   <!DOCTYPE plist PUBLIC '-//Apple//DTD PLIST 1.0//EN' 'http://www.apple.com/DTDs/PropertyList-1.0.dtd'>
   * with a line feed after each line.
   */
  const PlistHeader: seq<Byte> := [
    0x3c, 0x3f, 0x78, 0x6d, 0x6c, 0x20, 0x76, 0x65, 0x72, 0x73, 0x69, 0x6f, 0x6e, 0x3d, 0x27, 0x31,
    0x2e, 0x30, 0x27, 0x20, 0x65, 0x6e, 0x63, 0x6f, 0x64, 0x69, 0x6e, 0x67, 0x3d, 0x27, 0x55, 0x54,
    0x46, 0x2d, 0x38, 0x27, 0x3f, 0x3e, 0xa, 0x3c, 0x21, 0x44, 0x4f, 0x43, 0x54, 0x59, 0x50, 0x45,
    0x20, 0x70, 0x6c, 0x69, 0x73, 0x74, 0x20, 0x50, 0x55, 0x42, 0x4c, 0x49, 0x43, 0x20, 0x27, 0x2d,
    0x2f, 0x2f, 0x41, 0x70, 0x70, 0x6c, 0x65, 0x2f, 0x2f, 0x44, 0x54, 0x44, 0x20, 0x50, 0x4c, 0x49,
    0x53, 0x54, 0x20, 0x31, 0x2e, 0x30, 0x2f, 0x2f, 0x45, 0x4e, 0x27, 0x20, 0x27, 0x68, 0x74, 0x74,
    0x70, 0x3a, 0x2f, 0x2f, 0x77, 0x77, 0x77, 0x2e, 0x61, 0x70, 0x70, 0x6c, 0x65, 0x2e, 0x63, 0x6f,
    0x6d, 0x2f, 0x44, 0x54, 0x44, 0x73, 0x2f, 0x50, 0x72, 0x6f, 0x70, 0x65, 0x72, 0x74, 0x79, 0x4c,
    0x69, 0x73, 0x74, 0x2d, 0x31, 0x2e, 0x30, 0x2e, 0x64, 0x74, 0x64, 0x27, 0x3e, 0xa
  ]

  /** What one turn of the loop does to an entry: bytes become Base64 text, anything else stays. */
  function Textified(v: PValue): (r: PValue)
    ensures !r.PBytes?
    ensures v.PBytes? ==> r.PString? && Base64Decode(r.text) == Some(v.bytes)
    ensures !v.PBytes? ==> r == v
  {
    if v.PBytes? then
      Base64RoundTrip(v.bytes);
      PString(Base64Encode(v.bytes))
    else v
  }

  /**
   * The `for k, v in spd.items()` loop: every bytes-valued entry becomes its
   * Base64 string; the key set and all other entries are unchanged. Only the
   * top level is visited.
   */
  method ReplaceBytesWithBase64(spd: map<string, PValue>) returns (out: map<string, PValue>)
    ensures out.Keys == spd.Keys
    ensures forall k :: k in spd ==> out[k] == Textified(spd[k])
    ensures forall k :: k in out ==> !out[k].PBytes?
  {
    out := spd;
    var pending := spd.Keys;
    while pending != {}
      invariant pending <= spd.Keys
      invariant out.Keys == spd.Keys
      invariant forall k :: k in spd && k !in pending ==> out[k] == Textified(spd[k])
      invariant forall k :: k in pending ==> out[k] == spd[k]
      decreases pending
    {
      var k :| k in pending;
      var v := out[k];
      if v.PBytes? {
        out := out[k := PString(Base64Encode(v.bytes))];
      }
      pending := pending - {k};
    }
  }
}
