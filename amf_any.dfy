/** The base of the AMF0 value hierarchy (src/mmedia/rtmp/amf/AMFAny.cpp):
    the name given at construction, the default answers of the type
    predicates, and the AMF0 String decoder (section 2.4 of the AMF0
    specification: a 16-bit big-endian length followed by that many bytes). */
module AmfAny {
  import opened BytesReader

  /** An AMF value seen through the base class: only `name_` is state. */
  datatype AMFAny = AMFAny(name: string) {
    // Default answers of the virtual type predicates; subclasses override them.
    predicate IsString() { false }
    predicate IsNumber() { false }
    predicate IsBoolean() { false }
    predicate IsDate() { false }
    predicate IsObject() { false }

    /** Number of child values; a plain value counts as one. */
    function Count(): int { 1 }

    function Name(): string { name }
  }

  /** The default constructor leaves the name empty. */
  function Unnamed(): (a: AMFAny)
    ensures a.Name() == []
  {
    AMFAny([])
  }

  /** The base-class defaults: no type predicate holds, Count is 1, and Name
      is exactly the name given at construction. */
  lemma BaseDefaults(name: string)
    ensures var a := AMFAny(name);
      !a.IsString() && !a.IsNumber() && !a.IsBoolean() && !a.IsDate() && !a.IsObject()
      && a.Count() == 1 && a.Name() == name
  {
  }

  /** AMFAny::DecodeString: the caller guarantees that the length prefix and the
      bytes it announces are present (the C++ reads through a raw `const char *`). */
  function DecodeString(data: seq<byte>): (s: seq<byte>)
    requires |data| >= 2 && |data| >= 2 + ReadUint16(data)
    ensures |s| == BigEndian(data[..2])
    ensures data[..2] + s <= data
  {
    ReadersAreBigEndian(data);
    var len := ReadUint16(data);
    if len > 0 then data[2..2 + len] else []
  }

  /** The AMF0 String body: the 16-bit big-endian length, then the bytes. */
  function EncodeString(s: seq<byte>): (e: seq<byte>)
    requires |s| < 0x1_0000
    ensures |e| == 2 + |s|
  {
    WriteUint16(|s|) + s
  }

  /** Decoding an encoded string gives it back, whatever bytes follow it. */
  lemma {:induction false} DecodeEncodeString(s: seq<byte>, rest: seq<byte>)
    requires |s| < 0x1_0000
    ensures |EncodeString(s) + rest| >= 2 + ReadUint16(EncodeString(s) + rest)
    ensures DecodeString(EncodeString(s) + rest) == s
  {
    var e := EncodeString(s) + rest;
    ReadAfterWrite16(|s|, s + rest);
    assert e == WriteUint16(|s|) + (s + rest);
    assert e[2..2 + |s|] == s;
  }

  /** A zero length prefix decodes to the empty string. */
  lemma DecodeEmptyString(data: seq<byte>)
    requires |data| >= 2 && data[0] == 0 && data[1] == 0
    ensures DecodeString(data) == []
  {
  }
}
