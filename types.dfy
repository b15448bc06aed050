/** Type names in the read-only data section: a type descriptor's `str` field
    is the offset of its name, stored as a tag byte, the name's length as a
    varint, then the name's bytes. */
module TypeNames {
  import opened Machine
  import opened Codec

  /** `typeName`: the name at offset `str` of `rodata`. Slicing at a negative
      or too large offset, reading a varint that runs off the buffer, or taking
      the name past the end of the buffer stops the program. A zero length is
      the empty name, whatever follows it. */
  function TypeName(rodata: seq<byte>, str: i32): (r: Result<seq<byte>>)
    ensures r.Ok? && r.value != [] ==> 0 <= str && str + 1 < |rodata|
  {
    if str < 0 || str + 1 > |rodata| then Fault
    else
      match DecodeVarint(rodata, str + 1)
      case None => Fault
      case Some(v) =>
        var start := str + 1 + v.read;
        if v.value == 0 then Ok([])
        else if start + v.value > |rodata| then Fault
        else Ok(rodata[start .. start + v.value])
  }

  /** The layout the writer produces: any tag byte, the length, the name. */
  function EncodeName(tag: byte, name: seq<byte>): (r: seq<byte>)
    requires |name| < 0x1_0000_0000
  {
    [tag] + EncodeVarint(|name|) + name
  }

  /** Round trip: a name written at offset `str` reads back as itself. */
  lemma TypeNameEncoded(rodata: seq<byte>, str: i32, tag: byte, name: seq<byte>)
    requires 0 <= str
    requires |name| < 0x1_0000_0000
    requires BytesAt(rodata, str, EncodeName(tag, name))
    ensures TypeName(rodata, str) == Ok(name)
  {
    var len := EncodeVarint(|name|);
    assert EncodeName(tag, name) == [tag] + (len + name);
    BytesAtAppend(rodata, str, [tag], len + name);
    BytesAtAppend(rodata, str + 1, len, name);
    DecodeAt(rodata, str + 1, |name|);
    var start := str + 1 + |len|;
    if name != [] {
      assert rodata[start .. start + |name|] == name by {
        forall i | 0 <= i < |name|
          ensures rodata[start .. start + |name|][i] == name[i]
        {
          assert rodata[start + i] == name[i];
        }
      }
    }
  }

  /** The name read is the bytes that follow the length in the buffer, as many
      as the length says; an empty read comes from a zero length. */
  lemma TypeNameSpec(rodata: seq<byte>, str: i32)
    requires TypeName(rodata, str).Ok?
    ensures 0 <= str < |rodata|
    ensures DecodeVarint(rodata, str + 1).Some?
    ensures var v := DecodeVarint(rodata, str + 1).value;
      |TypeName(rodata, str).value| == v.value &&
      BytesAt(rodata, str + 1 + v.read, TypeName(rodata, str).value)
  {
  }
}
