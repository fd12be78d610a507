/**
  Framed messages: length-prefixed (pb_encode_delimited / pb_decode_delimited) and
  zero-terminated (pb_encode_nullterminated / pb_decode_nullterminated).
 */
module Framing {
  import opened Bytes
  import opened Varint
  import opened Wire
  import opened Message
  import opened EncodeSpec
  import opened DecodeSpec
  import opened Normal
  import opened RoundTrip

  /** pb_encode_delimited is pb_encode_submessage at top level. */
  function EncDelimited(fields: seq<Field>, m: Msg): Option<seq<byte>> {
    var body :- Enc(fields, m);
    Some(EncString(body))
  }

  /** pb_decode_delimited: a substream of the given length, closed wherever the decoder stopped in it. */
  function DecDelimited(fields: seq<Field>, bs: seq<byte>): (r: Parse<Msg>)
    ensures r.Ok? ==> |r.rest| < |bs|
  {
    var (body, rest) :- DecString(bs);
    var (m, _) :- Decode(fields, body);
    Ok(m, rest)
  }

  /** Several messages written back to back. */
  function EncAll(fields: seq<Field>, ms: seq<Msg>): Option<seq<byte>> {
    if |ms| == 0 then Some([])
    else
      var first :- EncDelimited(fields, ms[0]);
      var others :- EncAll(fields, ms[1..]);
      Some(first + others)
  }

  /** `n` messages read in turn. */
  function DecAll(fields: seq<Field>, bs: seq<byte>, n: nat): Parse<seq<Msg>>
    decreases n
  {
    if n == 0 then Ok([], bs)
    else
      var (m, rest) :- DecDelimited(fields, bs);
      var (ms, rest') :- DecAll(fields, rest, n - 1);
      Ok([m] + ms, rest')
  }

  predicate Framable(fields: seq<Field>, m: Msg) {
    Enc(fields, m).Some? && |Enc(fields, m).value| < TWO_32 && Readable(fields, fields, m)
  }

  lemma DelimitedTrip(fields: seq<Field>, m: Msg, rest: seq<byte>)
    requires WfFields(fields) && Framable(fields, m)
    ensures DecDelimited(fields, EncDelimited(fields, m).value + rest) == Ok(NormMsg(fields, m), rest)
  {
    hide Enc, Decode, DecString, EncString, NormMsg, Readable;
    DecodeInvertsEncode(fields, m);
    StringRoundTrip(Enc(fields, m).value, rest);
  }

  function NormAll(fields: seq<Field>, ms: seq<Msg>): (r: seq<Msg>)
    ensures |r| == |ms|
    ensures forall i :: 0 <= i < |ms| ==> r[i] == NormMsg(fields, ms[i])
  {
    seq(|ms|, i requires 0 <= i < |ms| => NormMsg(fields, ms[i]))
  }

  /** Delimited messages are read back in order and leave exactly the bytes that follow them. */
  lemma {:induction false} StreamTrip(fields: seq<Field>, ms: seq<Msg>, rest: seq<byte>)
    requires WfFields(fields) && forall i :: 0 <= i < |ms| ==> Framable(fields, ms[i])
    ensures EncAll(fields, ms).Some?
    ensures DecAll(fields, EncAll(fields, ms).value + rest, |ms|) == Ok(NormAll(fields, ms), rest)
  {
    hide EncDelimited, DecDelimited, NormMsg, Readable, Framable, WfFields;
    if |ms| == 0 {
      assert [] + rest == rest;
    } else {
      assert Framable(fields, ms[0]);
      Encodes(fields, ms[0]);
      StreamTrip(fields, ms[1..], rest);
      var a, b := EncDelimited(fields, ms[0]).value, EncAll(fields, ms[1..]).value;
      assert (a + b) + rest == a + (b + rest);
      DelimitedTrip(fields, ms[0], b + rest);
      assert NormAll(fields, ms) == [NormMsg(fields, ms[0])] + NormAll(fields, ms[1..]);
    }
  }

  lemma Encodes(fields: seq<Field>, m: Msg)
    requires Framable(fields, m)
    ensures EncDelimited(fields, m).Some?
  {
  }

  /** pb_encode_nullterminated. */
  function EncNullTerminated(fields: seq<Field>, m: Msg): Option<seq<byte>> {
    var body :- Enc(fields, m);
    Some(body + [0])
  }

  /** A zero-terminated message followed by anything is decoded up to just after the zero. */
  lemma NullTerminatedTrip(fields: seq<Field>, m: Msg, rest: seq<byte>)
    requires WfFields(fields) && Enc(fields, m).Some? && Readable(fields, fields, m)
    ensures Decode(fields, EncNullTerminated(fields, m).value + rest) == Ok(NormMsg(fields, m), rest)
  {
    hide Enc, Run, NormMsg, Readable, Narrow, Final, Finished, WfFields, Defaults;
    NarrowRefl(fields);
    var body := Enc(fields, m).value;
    DistinctOf(fields);
    MessageTrip(fields, fields, m, [0] + rest);
    assert (body + [0]) + rest == body + ([0] + rest);
    StopsAtZero(fields, rest, Final(fields, fields, m));
    FinalIsFinished(fields, fields, m);
  }

  lemma DistinctOf(fields: seq<Field>)
    requires WfFields(fields)
    ensures DistinctSlots(fields)
  {
  }

  lemma StopsAtZero(fields: seq<Field>, rest: seq<byte>, st: State)
    ensures Run(fields, [0] + rest, st) == Ok(st, rest)
  {
    var bs: seq<byte> := [0] + rest;
    assert bs[1..] == rest;
    assert DecVarint32(bs) == Ok(0, rest);
  }
}
