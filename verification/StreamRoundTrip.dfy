/** A value through both streams, on hosts of any byte order. */
module StreamRoundTrip {
  import opened Bytes
  import opened Words
  import opened StreamBase
  import opened StreamFormat
  import GrowingBuffer
  import InStream
  import OutStream

  /** A stream of its own for one value. */
  method Pack(host: bool, little: bool, t: Type, v: Value) returns (bytes: seq<byte>)
    requires WellFormed(t) && Typed(t, v)
    ensures bytes == Encode(little, t, v)
  {
    hide Encode, Typed;
    var buf := new GrowingBuffer.GrowingBuffer.Reserve(1024);
    var sink := new OutStream.OutStream(buf, host, true);
    sink.LittleEndian(little);
    sink.Write(t, v);
    sink.Finish();
    bytes := buf.buf;
  }

  /** One value, and nothing after it. */
  method Unpack(host: bool, little: bool, t: Type, bytes: seq<byte>) returns (ok: bool, w: Value)
    requires WellFormed(t) && |bytes| < TOP
    ensures
      var r := Parse(little, t, bytes, 0, |bytes|);
      && (ok <==> r.Some? && r.value.1 == |bytes|)
      && (r.Some? ==> w == r.value.0)
  {
    hide Parse;
    var source := new InStream.InStream(bytes, host, true);
    source.LittleEndian(little);
    w := source.Read(t);
    source.End();
    ok := source.status == 0;
  }

  /** Packed on one host and unpacked on another, in either order of the data: the value comes back, all of
      the data is taken and the reader ends well, exactly when every array fits its count and its limit. */
  method Transfer(outHost: bool, inHost: bool, little: bool, t: Type, v: Value) returns (ok: bool, w: Value)
    requires WellFormed(t) && Typed(t, v) && |Encode(little, t, v)| < TOP
    ensures Fits(t, v) <==> ok && w == v
  {
    hide Encode, Parse, Fits, Typed;
    var bytes := Pack(outHost, little, t, v);
    assert bytes[0..|bytes|] == bytes;
    RoundTrip(little, t, v, bytes, 0, |bytes|);
    ok, w := Unpack(inHost, little, t, bytes);
  }
}
