/**
 The messages a guest sends while it runs a command: their CBOR form, as the guest writes it
 and as the host reads it back.
 */
module Protocol {
  import opened Common
  import opened Cbor
  import opened Framing

  datatype Stream = Stdout | Stderr

  datatype Message =
    | Output(id: nat, stream: Stream, data: seq<Byte>)
    | Response(id: nat, code: int, signal: Option<int>)

  const MAX_CHUNK: nat := 8192

  ghost predicate MessageOk(m: Message) {
    && m.id < TWO_32
    && match m
       case Output(_, _, data) => |data| <= MAX_CHUNK
       case Response(_, code, signal) =>
         -0x8000_0000 <= code < 0x8000_0000 && (signal.Some? ==> -0x8000_0000 <= signal.value < 0x8000_0000)
  }

  function Ascii(s: string): (bs: seq<Byte>)
    ensures |bs| == |s|
  {
    seq(|s|, i requires 0 <= i < |s| => (s[i] as int) % 256)
  }

  function StreamName(s: Stream): string {
    if s == Stdout then "stdout" else "stderr"
  }

  function Field(key: string, value: Value): Entry {
    Entry(Text(Ascii(key)), value)
  }

  function Envelope(typ: string, id: int, payload: seq<Entry>): Value {
    Map([Field("v", Int(1)), Field("t", Text(Ascii(typ))), Field("id", Int(id)), Field("p", Map(payload))])
  }

  function OutputFields(m: Message): seq<Entry>
    requires m.Output?
  {
    [Field("stream", Text(Ascii(StreamName(m.stream)))), Field("data", Bytes(m.data))]
  }

  function ResponseFields(m: Message): seq<Entry>
    requires m.Response?
  {
    [Field("exit_code", Int(m.code))] + if m.signal.Some? then [Field("signal", Int(m.signal.value))] else []
  }

  function ToValue(m: Message): Value {
    if m.Output? then Envelope("exec_output", m.id, OutputFields(m))
    else Envelope("exec_response", m.id, ResponseFields(m))
  }

  // ----- Writing -----

  lemma FieldValid(key: string, value: Value)
    requires |key| < 24 && Valid(value)
    ensures Valid(Field(key, value).key) && Valid(Field(key, value).value)
    ensures EncodeEntry(Field(key, value)) == Head(3, |key|) + Ascii(key) + Encode(value)
    ensures |EncodeEntry(Field(key, value))| == 1 + |key| + |Encode(value)|
  {
  }

  lemma TwoEntries(a: Entry, b: Entry)
    requires Valid(a.key) && Valid(a.value) && Valid(b.key) && Valid(b.value)
    ensures Valid(Map([a, b])) && Encode(Map([a, b])) == Head(5, 2) + EncodeEntry(a) + EncodeEntry(b)
  {
    EntriesCons(b, []);
    EntriesCons(a, [b]);
    assert [b] + [] == [b] && [a] + [b] == [a, b];
    assert EncodeEntries([b]) == EncodeEntry(b);
  }

  lemma OneEntry(a: Entry)
    requires Valid(a.key) && Valid(a.value)
    ensures Valid(Map([a])) && Encode(Map([a])) == Head(5, 1) + EncodeEntry(a)
  {
    EntriesCons(a, []);
    assert [a] + [] == [a];
  }

  /** The octets of a message up to its payload map. */
  ghost function EnvelopePrefix(typ: string, id: nat): seq<Byte>
    requires |typ| < 24 && id < TWO_32
  {
    var version: seq<Byte> := Encode(Text(Ascii("v"))) + Encode(Int(1));
    var kind: seq<Byte> := Encode(Text(Ascii("t"))) + Encode(Text(Ascii(typ)));
    var ident: seq<Byte> := Encode(Text(Ascii("id"))) + Encode(Int(id));
    Head(5, 4) + version + kind + ident + Encode(Text(Ascii("p")))
  }

  ghost predicate EntriesValid(es: seq<Entry>) {
    forall k :: 0 <= k < |es| ==> Valid(es[k].key) && Valid(es[k].value)
  }

  lemma EntriesHead(es: seq<Entry>)
    requires EntriesValid(es) && es != []
    ensures EncodeEntries(es) == EncodeEntry(es[0]) + EncodeEntries(es[1..])
  {
  }

  lemma EntriesOfFour(es: seq<Entry>)
    requires EntriesValid(es) && |es| == 4
    ensures EncodeEntries(es) == EncodeEntry(es[0]) + (EncodeEntry(es[1]) + (EncodeEntry(es[2]) + EncodeEntry(es[3])))
  {
    EntriesHead(es);
    EntriesHead(es[1..]);
    EntriesHead(es[2..]);
    EntriesHead(es[3..]);
    hide EncodeEntry; hide Valid;
    assert es[1..][1..] == es[2..] && es[2..][1..] == es[3..] && es[3..][1..] == [];
    assert EncodeEntry(es[3]) + [] == EncodeEntry(es[3]);
  }

  lemma FourEntries(es: seq<Entry>)
    requires EntriesValid(es) && |es| == 4
    ensures Valid(Map(es))
    ensures Encode(Map(es)) == Head(5, 4) + EncodeEntry(es[0]) + EncodeEntry(es[1]) + EncodeEntry(es[2]) + EncodeEntry(es[3])
  {
    EntriesOfFour(es);
    Regroup4(Head(5, 4), EncodeEntry(es[0]), EncodeEntry(es[1]), EncodeEntry(es[2]), EncodeEntry(es[3]));
    hide EncodeEntry; hide EncodeEntries; hide Head;
  }

  lemma Regroup4(o: seq<Byte>, a: seq<Byte>, b: seq<Byte>, c: seq<Byte>, d: seq<Byte>)
    ensures o + (a + (b + (c + d))) == o + a + b + c + d
  {
  }

  lemma EnvelopeEncodes(typ: string, id: nat, payload: seq<Entry>)
    requires |typ| < 24 && id < TWO_32 && Valid(Map(payload))
    ensures Valid(Envelope(typ, id, payload))
    ensures Encode(Envelope(typ, id, payload)) == EnvelopePrefix(typ, id) + Encode(Map(payload))
  {
    FourEntries(Envelope(typ, id, payload).entries);
    hide Encode; hide Head;
    LastSplit(Head(5, 4) + EncodeEntry(Field("v", Int(1))) + EncodeEntry(Field("t", Text(Ascii(typ)))) + EncodeEntry(Field("id", Int(id))),
              Encode(Text(Ascii("p"))), Encode(Map(payload)));
  }

  lemma LastSplit(a: seq<Byte>, b: seq<Byte>, c: seq<Byte>)
    ensures a + (b + c) == a + b + c
  {
  }

  lemma PrefixSize(typ: string, id: nat)
    requires |typ| < 24 && id < TWO_32
    ensures |EnvelopePrefix(typ, id)| <= 17 + |typ|
  {
  }

  lemma OutputFieldsEncode(m: Message)
    requires m.Output? && MessageOk(m)
    ensures Valid(Map(OutputFields(m)))
    ensures Encode(Map(OutputFields(m))) ==
            Head(5, 2)
            + (Encode(Text(Ascii("stream"))) + Encode(Text(Ascii(StreamName(m.stream)))))
            + (Encode(Text(Ascii("data"))) + Encode(Bytes(m.data)))
    ensures |Encode(Map(OutputFields(m)))| <= 23 + |m.data|
  {
    FieldValid("stream", Text(Ascii(StreamName(m.stream))));
    FieldValid("data", Bytes(m.data));
    TwoEntries(OutputFields(m)[0], OutputFields(m)[1]);
    assert OutputFields(m) == [OutputFields(m)[0], OutputFields(m)[1]];
  }

  lemma ResponseFieldsEncode(m: Message)
    requires m.Response? && MessageOk(m)
    ensures Valid(Map(ResponseFields(m)))
    ensures Encode(Map(ResponseFields(m))) ==
            Head(5, if m.signal.None? then 1 else 2)
            + (Encode(Text(Ascii("exit_code"))) + Encode(Int(m.code)))
            + (if m.signal.None? then [] else Encode(Text(Ascii("signal"))) + Encode(Int(m.signal.value)))
    ensures |Encode(Map(ResponseFields(m)))| <= 28
  {
    FieldValid("exit_code", Int(m.code));
    if m.signal.Some? {
      FieldValid("signal", Int(m.signal.value));
      TwoEntries(ResponseFields(m)[0], ResponseFields(m)[1]);
      assert ResponseFields(m) == [ResponseFields(m)[0], ResponseFields(m)[1]];
    } else {
      OneEntry(ResponseFields(m)[0]);
      assert ResponseFields(m) == [ResponseFields(m)[0]];
    }
  }

  /** Every message has an encoding; an output message adds at most 51 octets to its data. */
  lemma MessageEncodes(m: Message)
    requires MessageOk(m)
    ensures Valid(ToValue(m))
    ensures m.Output? ==> |Encode(ToValue(m))| <= 51 + |m.data|
    ensures |Encode(ToValue(m))| <= 51 + MAX_CHUNK
  {
    if m.Output? {
      OutputFieldsEncode(m);
      EnvelopeEncodes("exec_output", m.id, OutputFields(m));
      PrefixSize("exec_output", m.id);
    } else {
      ResponseFieldsEncode(m);
      EnvelopeEncodes("exec_response", m.id, ResponseFields(m));
      PrefixSize("exec_response", m.id);
    }
    hide Encode; hide Valid; hide EnvelopePrefix;
  }

  ghost function EncodeMessage(m: Message): (p: Payload)
    requires MessageOk(m)
    ensures |p| <= 51 + MAX_CHUNK
  {
    MessageEncodes(m);
    Encode(ToValue(m))
  }

  method WriteEnvelope(w: ByteBuffer, typ: string, id: nat)
    requires |typ| < 24 && id < TWO_32
    modifies w
    ensures w.items == old(w.items) + EnvelopePrefix(typ, id)
  {
    hide Encode;
    w.WriteTypeAndLen(5, 4);
    w.WriteText(Ascii("v"));
    w.WriteInt(1);
    w.WriteText(Ascii("t"));
    w.WriteText(Ascii(typ));
    w.WriteText(Ascii("id"));
    w.WriteInt(id);
    w.WriteText(Ascii("p"));
  }

  lemma Regroup(o: seq<Byte>, a: seq<Byte>, b: seq<Byte>, c: seq<Byte>, d: seq<Byte>, e: seq<Byte>)
    ensures o + a + b + c + d + e == o + (a + (b + c) + (d + e))
    ensures o + a + b + c == o + (a + (b + c) + [])
  {
  }

  method WriteOutputFields(w: ByteBuffer, stream: Stream, data: seq<Byte>, ghost m: Message)
    requires m == Output(m.id, stream, data) && MessageOk(m)
    modifies w
    ensures Valid(Map(OutputFields(m))) && w.items == old(w.items) + Encode(Map(OutputFields(m)))
  {
    OutputFieldsEncode(m);
    hide Encode; hide Head;
    Regroup(w.items, Head(5, 2), Encode(Text(Ascii("stream"))), Encode(Text(Ascii(StreamName(stream)))),
            Encode(Text(Ascii("data"))), Encode(Bytes(data)));
    w.WriteTypeAndLen(5, 2);
    w.WriteText(Ascii("stream"));
    w.WriteText(Ascii(StreamName(stream)));
    w.WriteText(Ascii("data"));
    w.WriteBytes(data);
  }

  method EncodeExecOutput(id: nat, stream: Stream, data: seq<Byte>) returns (payload: Payload)
    requires id < TWO_32 && |data| <= MAX_CHUNK
    ensures payload == EncodeMessage(Output(id, stream, data))
  {
    ghost var m := Output(id, stream, data);
    var w := new ByteBuffer();
    WriteEnvelope(w, "exec_output", id);
    hide Encode; hide EnvelopePrefix;
    assert w.items == EnvelopePrefix("exec_output", id);
    WriteOutputFields(w, stream, data, m);
    EnvelopeEncodes("exec_output", id, OutputFields(m));
    payload := w.items;
  }

  method WriteResponseFields(w: ByteBuffer, code: int, signal: Option<int>, ghost m: Message)
    requires m == Response(m.id, code, signal) && MessageOk(m)
    modifies w
    ensures Valid(Map(ResponseFields(m))) && w.items == old(w.items) + Encode(Map(ResponseFields(m)))
  {
    ResponseFieldsEncode(m);
    hide Encode; hide Head;
    var n := if signal.None? then 1 else 2;
    ghost var sig := if signal.None? then 0 else signal.value;
    Regroup(w.items, Head(5, n), Encode(Text(Ascii("exit_code"))), Encode(Int(code)),
            Encode(Text(Ascii("signal"))), Encode(Int(sig)));
    w.WriteTypeAndLen(5, n);
    w.WriteText(Ascii("exit_code"));
    w.WriteInt(code);
    if signal.Some? {
      w.WriteText(Ascii("signal"));
      w.WriteInt(signal.value);
    }
  }

  method EncodeExecResponse(id: nat, code: int, signal: Option<int>) returns (payload: Payload)
    requires MessageOk(Response(id, code, signal))
    ensures payload == EncodeMessage(Response(id, code, signal))
  {
    ghost var m := Response(id, code, signal);
    var w := new ByteBuffer();
    WriteEnvelope(w, "exec_response", id);
    hide Encode; hide EnvelopePrefix;
    assert w.items == EnvelopePrefix("exec_response", id);
    WriteResponseFields(w, code, signal, m);
    EnvelopeEncodes("exec_response", id, ResponseFields(m));
    payload := w.items;
  }

  // ----- Reading back -----

  function GetText(entries: seq<Entry>, key: string): Option<seq<Byte>> {
    match GetMapValue(entries, Ascii(key))
    case Some(Text(t)) => Some(t)
    case _ => None
  }

  function GetInt(entries: seq<Entry>, key: string): Option<int> {
    match GetMapValue(entries, Ascii(key))
    case Some(Int(i)) => Some(i)
    case _ => None
  }

  /** Conversion of an integer to 32 bits, unsigned and signed. */
  function U32Of(i: int): nat {
    i % TWO_32
  }

  function I32Of(i: int): int {
    (i + 0x8000_0000) % TWO_32 - 0x8000_0000
  }

  /** How the host reads a message; None where it reports a decoding error. */
  function FromValue(v: Value): Option<Message> {
    if !v.Map? then None
    else
      var typ, id := GetText(v.entries, "t"), GetInt(v.entries, "id");
      if id.None? || id.value < 0 then None
      else
        var payload := match GetMapValue(v.entries, Ascii("p")) { case Some(Map(es)) => es case _ => [] };
        if typ == Some(Ascii("exec_output")) then
          var data := match GetMapValue(payload, Ascii("data")) { case Some(Bytes(d)) => d case _ => [] };
          Some(Output(U32Of(id.value), if GetText(payload, "stream") == Some(Ascii("stderr")) then Stderr else Stdout, data))
        else if typ == Some(Ascii("exec_response")) then
          var code := GetInt(payload, "exit_code");
          if code.None? then None
          else
            var signal := GetInt(payload, "signal");
            Some(Response(U32Of(id.value), I32Of(code.value), if signal.Some? then Some(I32Of(signal.value)) else None))
        else None
  }

  lemma KeysDiffer()
    ensures Ascii("v") != Ascii("t") && Ascii("v") != Ascii("id") && Ascii("v") != Ascii("p")
    ensures Ascii("t") != Ascii("id") && Ascii("t") != Ascii("p") && Ascii("id") != Ascii("p")
    ensures Ascii("stream") != Ascii("data") && Ascii("exit_code") != Ascii("signal")
    ensures Ascii("exec_output") != Ascii("exec_response") && Ascii("stdout") != Ascii("stderr")
  {
    assert Ascii("v")[0] == 118 && Ascii("t")[0] == 116 && Ascii("p")[0] == 112;
    assert |Ascii("id")| == 2 && |Ascii("stream")| == 6 && |Ascii("data")| == 4;
    assert |Ascii("exit_code")| == 9 && |Ascii("signal")| == 6;
    assert |Ascii("exec_output")| == 11 && |Ascii("exec_response")| == 13;
    assert Ascii("stdout")[3] == 111 && Ascii("stderr")[3] == 101;
  }

  lemma GetCons(e: Entry, es: seq<Entry>, key: seq<Byte>)
    ensures GetMapValue([e] + es, key) == if e.key == Text(key) then Some(e.value) else GetMapValue(es, key)
  {
  }

  lemma GetOfFour(a: Entry, b: Entry, c: Entry, d: Entry, key: seq<Byte>)
    ensures GetMapValue([a, b, c, d], key) ==
            if a.key == Text(key) then Some(a.value)
            else if b.key == Text(key) then Some(b.value)
            else if c.key == Text(key) then Some(c.value)
            else if d.key == Text(key) then Some(d.value) else None
  {
    var none: seq<Entry> := [];
    var ds: seq<Entry> := [d];
    var cs: seq<Entry> := [c, d];
    var bs: seq<Entry> := [b, c, d];
    assert [d] + none == ds;
    assert [c] + ds == cs;
    assert [b] + cs == bs;
    assert [a] + bs == [a, b, c, d];
    GetCons(d, none, key);
    GetCons(c, ds, key);
    GetCons(b, cs, key);
    GetCons(a, bs, key);
  }

  lemma EnvelopeReads(typ: string, id: int, payload: seq<Entry>)
    ensures var es := Envelope(typ, id, payload).entries;
            && GetText(es, "t") == Some(Ascii(typ)) && GetInt(es, "id") == Some(id)
            && GetMapValue(es, Ascii("p")) == Some(Map(payload))
  {
    KeysDiffer();
    hide Ascii; hide GetMapValue;
    var es := Envelope(typ, id, payload).entries;
    GetOfFour(es[0], es[1], es[2], es[3], Ascii("t"));
    GetOfFour(es[0], es[1], es[2], es[3], Ascii("id"));
    GetOfFour(es[0], es[1], es[2], es[3], Ascii("p"));
  }

  lemma PayloadReads(m: Message)
    ensures m.Output? ==> GetText(OutputFields(m), "stream") == Some(Ascii(StreamName(m.stream)))
                          && GetMapValue(OutputFields(m), Ascii("data")) == Some(Bytes(m.data))
    ensures m.Response? ==> GetInt(ResponseFields(m), "exit_code") == Some(m.code)
                            && GetInt(ResponseFields(m), "signal") == m.signal
  {
    KeysDiffer();
    hide Ascii;
    var fields := if m.Output? then OutputFields(m) else ResponseFields(m);
    var rest := fields[1..];
    assert fields == [fields[0]] + rest;
    forall key
      ensures GetMapValue(fields, key) == if fields[0].key == Text(key) then Some(fields[0].value) else GetMapValue(rest, key)
    {
      GetCons(fields[0], rest, key);
    }
    if rest != [] {
      assert rest == [fields[1]] + [];
      GetCons(fields[1], [], Ascii("data"));
      GetCons(fields[1], [], Ascii("signal"));
    }
  }

  /** The host reads back exactly the message the guest wrote, from a frame with that encoding. */
  lemma MessageRoundTrip(m: Message, rest: seq<Byte>)
    requires MessageOk(m)
    ensures var r := Decode(EncodeMessage(m) + rest, 0);
            r.Ok? && r.value.pos == |EncodeMessage(m)| && FromValue(r.value.item) == Some(m)
  {
    MessageEncodes(m);
    RoundTrip(ToValue(m), rest);
    FieldsReadBack(m);
    hide Decode; hide Encode; hide FromValue; hide Valid;
  }

  lemma FieldsReadBack(m: Message)
    requires MessageOk(m)
    ensures FromValue(ToValue(m)) == Some(m)
  {
    hide Ascii; hide GetMapValue; hide GetText; hide GetInt; hide OutputFields; hide ResponseFields; hide U32Of; hide I32Of;
    hide Field;
    if m.Output? {
      EnvelopeReads("exec_output", m.id, OutputFields(m));
    } else {
      EnvelopeReads("exec_response", m.id, ResponseFields(m));
    }
    PayloadReads(m);
    KeysDiffer();
    NumbersKept(m);
  }

  /** Numbers that fit are not changed by the conversions. */
  lemma NumbersKept(m: Message)
    requires MessageOk(m)
    ensures U32Of(m.id) == m.id
    ensures m.Response? ==> I32Of(m.code) == m.code && (m.signal.Some? ==> I32Of(m.signal.value) == m.signal.value)
  {
  }

  function PayloadOf(entries: seq<Entry>): Option<Value> {
    GetMapValue(entries, Ascii("p"))
  }

  /**
   Exactly which maps the host takes for a message: the id is an integer that is not negative,
   and the type is exec_output, or exec_response with an integer exit code. A missing payload
   counts as an empty map, missing data as empty, a stream other than stderr as stdout, and a
   missing signal as none.
   */
  lemma HostAccepts(entries: seq<Entry>)
    ensures var payload := if PayloadOf(entries).Some? && PayloadOf(entries).value.Map? then PayloadOf(entries).value.entries else [];
            var m := FromValue(Map(entries));
            var id := GetMapValue(entries, Ascii("id"));
            var typ := GetMapValue(entries, Ascii("t"));
            && (m.Some? <==> id.Some? && id.value.Int? && id.value.i >= 0
                             && (typ == Some(Text(Ascii("exec_output")))
                                 || (typ == Some(Text(Ascii("exec_response")))
                                     && GetMapValue(payload, Ascii("exit_code")).Some?
                                     && GetMapValue(payload, Ascii("exit_code")).value.Int?)))
            && (m.Some? ==> m.value.id == id.value.i % 0x1_0000_0000 && (m.value.Output? <==> typ == Some(Text(Ascii("exec_output")))))
            && (m.Some? && m.value.Output? ==>
                  && (m.value.stream == Stderr <==> GetMapValue(payload, Ascii("stream")) == Some(Text(Ascii("stderr"))))
                  && (GetMapValue(payload, Ascii("data")).None? ==> m.value.data == []))
            && (m.Some? && m.value.Response? && GetMapValue(payload, Ascii("signal")).None? ==> m.value.signal.None?)
  {
    KeysDiffer();
    hide Ascii; hide GetMapValue;
  }
}
