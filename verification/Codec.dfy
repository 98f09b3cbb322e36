/** The whole way: a message through the Writer onto bytes and through the Reader back. */
module Codec {
  import opened Words
  import opened Reading
  import opened Schemas
  import opened Wire
  import opened Encoding
  import opened Decoding
  import opened Projection
  import opened RoundTrip
  import Encoder
  import Decoder

  /** A sender with schema s2 and a receiver with schema s: the receiver gets what arrives, which
      is the projection if and only if all strings and map keys that both know survive. */
  method Transmit(s: Schema, s2: Schema, i: nat, m: Message) returns (v: Outcome<Value>)
    requires ValidSchema(s) && ValidSchema(s2) && Evolves(s, s2)
    requires TypedMessage(s2, i, m)
    requires |EncodeBytes(s2, i, m)| < U32
    ensures v == Ok(Msg(Received(s, s2, i, m)), |EncodeBytes(s2, i, m)|)
    ensures v == Ok(Msg(Project(s, s2, i, m)), |EncodeBytes(s2, i, m)|) <==> Faithful(s, s2, i, m)
  {
    hide ValidSchema, Evolves, TypedMessage, MessageRecs, Print, DecodeMessage, Received, Project, Faithful;
    var buf := Encoder.Encode(s2, i, m);
    v := Decoder.DecodeBuffer(s, i, buf[..]);
    DecodeReceives(s, s2, i, m);
    MessageFaithful(s, s2, i, m);
  }
}
