/**
 The guest's CBOR subset (RFC 8949, sections 3 and 4.2.1): values, their encoding, and the
 decoder. `Encode` and `Decode` are the specification; the classes `ByteBuffer` and `Decoder`
 are the writer calls and the position-advancing reader, proved to compute them.
 */
module Cbor {
  import opened Common

  datatype Value =
    | Int(i: int)
    | Bytes(bytes: seq<Byte>)
    | Text(text: seq<Byte>)
    | Array(items: seq<Value>)
    | Map(entries: seq<Entry>)
    | Bool(b: bool)
    | Null

  datatype Entry = Entry(key: Value, value: Value)

  datatype Error = EndOfBuffer | Malformed | Unsupported | Overflow

  const MAX_I64: int := 0x7FFF_FFFF_FFFF_FFFF
  const TWO_64: int := 0x1_0000_0000_0000_0000

  /** Integers fit in 64 signed bits and lengths in 64 unsigned ones. */
  ghost predicate Valid(v: Value) {
    match v
    case Int(i) => -MAX_I64 - 1 <= i <= MAX_I64
    case Bytes(bytes) => |bytes| < TWO_64
    case Text(text) => |text| < TWO_64
    case Array(items) => |items| < TWO_64 && forall k :: 0 <= k < |items| ==> Valid(items[k])
    case Map(entries) =>
      |entries| < TWO_64 && forall k :: 0 <= k < |entries| ==> Valid(entries[k].key) && Valid(entries[k].value)
    case Bool(_) => true
    case Null => true
  }

  // ----- Integers in network byte order -----

  function Pow256(k: nat): (p: nat)
    ensures p >= 1
  {
    if k == 0 then 1 else 256 * Pow256(k - 1)
  }

  /** The n low-order octets of value, most significant first. */
  function BigEndian(value: nat, n: nat): (bs: seq<Byte>)
    ensures |bs| == n
  {
    if n == 0 then [] else BigEndian(value / 256, n - 1) + [value % 256]
  }

  function FromBigEndian(bs: seq<Byte>): (v: nat)
    ensures v < Pow256(|bs|)
  {
    if bs == [] then 0 else FromBigEndian(bs[..|bs| - 1]) * 256 + bs[|bs| - 1]
  }

  lemma {:induction false} BigEndianRoundTrip(value: nat, n: nat)
    requires value < Pow256(n)
    ensures FromBigEndian(BigEndian(value, n)) == value
  {
    if n > 0 {
      assert value / 256 < Pow256(n - 1);
      BigEndianRoundTrip(value / 256, n - 1);
      var bs := BigEndian(value, n);
      assert bs[..|bs| - 1] == BigEndian(value / 256, n - 1);
    }
  }

  // ----- Encoding -----

  /** Octets that follow the initial byte for a given argument, in shortest form. */
  function ArgBytes(n: nat): nat
    requires n < TWO_64
  {
    if n < 24 then 0 else if n <= 0xff then 1 else if n <= 0xffff then 2 else if n <= 0xffff_ffff then 4 else 8
  }

  /** Additional information that announces k following octets. */
  function AddFor(k: nat): Byte {
    if k == 1 then 24 else if k == 2 then 25 else if k == 4 then 26 else 27
  }

  /** Initial byte and argument. */
  function Head(major: nat, n: nat): (bs: seq<Byte>)
    requires major < 8 && n < TWO_64
    ensures |bs| == 1 + ArgBytes(n)
  {
    if n < 24 then [major * 32 + n] else [major * 32 + AddFor(ArgBytes(n))] + BigEndian(n, ArgBytes(n))
  }

  ghost function Encode(v: Value): seq<Byte>
    requires Valid(v)
  {
    match v
    case Int(i) => if i >= 0 then Head(0, i) else Head(1, -(i + 1))
    case Bytes(bytes) => Head(2, |bytes|) + bytes
    case Text(text) => Head(3, |text|) + text
    case Array(items) => Head(4, |items|) + EncodeItems(items)
    case Map(entries) => Head(5, |entries|) + EncodeEntries(entries)
    case Bool(b) => [7 * 32 + if b then 21 else 20]
    case Null => [7 * 32 + 22]
  }

  ghost function EncodeItems(items: seq<Value>): seq<Byte>
    requires forall k :: 0 <= k < |items| ==> Valid(items[k])
  {
    if items == [] then [] else Encode(items[0]) + EncodeItems(items[1..])
  }

  ghost function EncodeEntries(entries: seq<Entry>): seq<Byte>
    requires forall k :: 0 <= k < |entries| ==> Valid(entries[k].key) && Valid(entries[k].value)
  {
    if entries == [] then [] else EncodeEntry(entries[0]) + EncodeEntries(entries[1..])
  }

  ghost function EncodeEntry(e: Entry): seq<Byte>
    requires Valid(e.key) && Valid(e.value)
  {
    Encode(e.key) + Encode(e.value)
  }

  // ----- Decoding -----

  /** A decoded item and the position after it. */
  datatype At<T> = At(item: T, pos: nat)

  function ReadArg(buf: seq<Byte>, pos: nat, add: nat): (r: Result<At<nat>, Error>)
    requires pos <= |buf|
    ensures r.Ok? ==> pos <= r.value.pos <= |buf| && r.value.item < TWO_64
  {
    if add < 24 then Ok(At(add, pos))
    else if add == 31 then Err(Unsupported)
    else if add > 27 then Err(Malformed)
    else
      var n := if add == 24 then 1 else if add == 25 then 2 else if add == 26 then 4 else 8;
      if pos + n > |buf| then Err(EndOfBuffer)
      else
        assert Pow256(1) == 256 && Pow256(2) == 65536 && Pow256(4) == 0x1_0000_0000 && Pow256(8) == TWO_64 by {
          PowersOf256();
        }
        Ok(At(FromBigEndian(buf[pos..pos + n]), pos + n))
  }

  lemma PowersOf256()
    ensures Pow256(1) == 256 && Pow256(2) == 65536 && Pow256(4) == 0x1_0000_0000 && Pow256(8) == TWO_64
  {
  }

  function ReadSlice(buf: seq<Byte>, pos: nat, n: nat): Result<At<seq<Byte>>, Error>
    requires pos <= |buf|
  {
    if pos + n > |buf| then Err(EndOfBuffer) else Ok(At(buf[pos..pos + n], pos + n))
  }

  /** One value; every success consumes at least the initial byte, so decoding ends on every input. */
  function Decode(buf: seq<Byte>, pos: nat): (r: Result<At<Value>, Error>)
    requires pos <= |buf|
    ensures r.Ok? ==> pos < r.value.pos <= |buf|
    decreases |buf| - pos, 0
  {
    if pos >= |buf| then Err(EndOfBuffer)
    else
      var major, add := buf[pos] / 32, buf[pos] % 32;
      if major == 6 then Err(Unsupported)
      else if major == 7 then
        if add == 20 then Ok(At(Bool(false), pos + 1))
        else if add == 21 then Ok(At(Bool(true), pos + 1))
        else if add == 22 then Ok(At(Null, pos + 1))
        else Err(Unsupported)
      else
        var arg :- ReadArg(buf, pos + 1, add);
        var n, p := arg.item, arg.pos;
        if major == 0 then (if n > MAX_I64 then Err(Overflow) else Ok(At(Int(n), p)))
        else if major == 1 then (if n > MAX_I64 then Err(Overflow) else Ok(At(Int(-1 - n), p)))
        else if major == 2 then
          var s :- ReadSlice(buf, p, n);
          Ok(At(Bytes(s.item), s.pos))
        else if major == 3 then
          var s :- ReadSlice(buf, p, n);
          Ok(At(Text(s.item), s.pos))
        else if major == 4 then
          var items :- DecodeItems(buf, p, n);
          Ok(At(Array(items.item), items.pos))
        else
          var entries :- DecodeEntries(buf, p, n);
          Ok(At(Map(entries.item), entries.pos))
  }

  function DecodeItems(buf: seq<Byte>, pos: nat, count: nat): (r: Result<At<seq<Value>>, Error>)
    requires pos <= |buf|
    ensures r.Ok? ==> pos <= r.value.pos <= |buf| && |r.value.item| == count
    decreases |buf| - pos, 1
  {
    if count == 0 then Ok(At([], pos))
    else
      var first :- Decode(buf, pos);
      var rest :- DecodeItems(buf, first.pos, count - 1);
      Ok(At([first.item] + rest.item, rest.pos))
  }

  function DecodeEntry(buf: seq<Byte>, pos: nat): (r: Result<At<Entry>, Error>)
    requires pos <= |buf|
    ensures r.Ok? ==> pos < r.value.pos <= |buf|
    decreases |buf| - pos, 1
  {
    var key :- Decode(buf, pos);
    var value :- Decode(buf, key.pos);
    Ok(At(Entry(key.item, value.item), value.pos))
  }

  function DecodeEntries(buf: seq<Byte>, pos: nat, count: nat): (r: Result<At<seq<Entry>>, Error>)
    requires pos <= |buf|
    ensures r.Ok? ==> pos <= r.value.pos <= |buf| && |r.value.item| == count
    decreases |buf| - pos, 2
  {
    if count == 0 then Ok(At([], pos))
    else
      var first :- DecodeEntry(buf, pos);
      var rest :- DecodeEntries(buf, first.pos, count - 1);
      Ok(At([first.item] + rest.item, rest.pos))
  }

  // ----- Theorem: decoding undoes encoding and stops at the end of the value -----

  /** The octets bs stand in buf at pos. */
  ghost predicate StandsAt(buf: seq<Byte>, pos: nat, bs: seq<Byte>) {
    pos + |bs| <= |buf| && buf[pos..pos + |bs|] == bs
  }

  lemma StandsSplit(buf: seq<Byte>, pos: nat, a: seq<Byte>, b: seq<Byte>)
    requires StandsAt(buf, pos, a + b)
    ensures StandsAt(buf, pos, a) && StandsAt(buf, pos + |a|, b)
  {
    var s := buf[pos..pos + |a + b|];
    assert s[..|a|] == a && s[|a|..] == b;
    assert buf[pos..pos + |a|] == s[..|a|];
    assert buf[pos + |a|..pos + |a| + |b|] == s[|a|..];
  }

  lemma HeadReadsBack(buf: seq<Byte>, pos: nat, major: nat, n: nat)
    requires major < 8 && n < TWO_64 && StandsAt(buf, pos, Head(major, n))
    ensures pos < |buf| && buf[pos] / 32 == major
    ensures ReadArg(buf, pos + 1, buf[pos] % 32) == Ok(At(n, pos + |Head(major, n)|))
  {
    assert buf[pos] == buf[pos..pos + |Head(major, n)|][0];
    if n >= 24 {
      var k := ArgBytes(n);
      StandsSplit(buf, pos, [major * 32 + AddFor(k)], BigEndian(n, k));
      PowersOf256();
      BigEndianRoundTrip(n, k);
    }
  }

  lemma SliceReadsBack(buf: seq<Byte>, pos: nat, bs: seq<Byte>)
    requires StandsAt(buf, pos, bs)
    ensures pos <= |buf| && ReadSlice(buf, pos, |bs|) == Ok(At(bs, pos + |bs|))
    ensures |bs| == 1 ==> pos < |buf| && buf[pos] == bs[0]
  {
  }

  lemma ScalarDecodesAt(v: Value, buf: seq<Byte>, pos: nat)
    requires Valid(v) && !v.Array? && !v.Map? && StandsAt(buf, pos, Encode(v))
    ensures pos <= |buf| && Decode(buf, pos) == Ok(At(v, pos + |Encode(v)|))
  {
    hide StandsAt; hide ReadArg; hide Head; hide ReadSlice;
    match v {
      case Int(i) =>
        if i >= 0 { HeadReadsBack(buf, pos, 0, i); } else { HeadReadsBack(buf, pos, 1, -(i + 1)); }
      case Bytes(bytes) =>
        StandsSplit(buf, pos, Head(2, |bytes|), bytes);
        HeadReadsBack(buf, pos, 2, |bytes|);
        SliceReadsBack(buf, pos + |Head(2, |bytes|)|, bytes);
      case Text(text) =>
        StandsSplit(buf, pos, Head(3, |text|), text);
        HeadReadsBack(buf, pos, 3, |text|);
        SliceReadsBack(buf, pos + |Head(3, |text|)|, text);
      case Bool(_) => SliceReadsBack(buf, pos, Encode(v));
      case Null => SliceReadsBack(buf, pos, Encode(v));
    }
  }

  lemma {:induction false} DecodesAt(v: Value, buf: seq<Byte>, pos: nat)
    requires Valid(v) && StandsAt(buf, pos, Encode(v))
    ensures pos <= |buf| && Decode(buf, pos) == Ok(At(v, pos + |Encode(v)|))
    decreases v
  {
    hide StandsAt; hide ReadArg; hide Head;
    if v.Array? {
      StandsSplit(buf, pos, Head(4, |v.items|), EncodeItems(v.items));
      HeadReadsBack(buf, pos, 4, |v.items|);
      ItemsDecodeAt(v.items, buf, pos + |Head(4, |v.items|)|);
    } else if v.Map? {
      StandsSplit(buf, pos, Head(5, |v.entries|), EncodeEntries(v.entries));
      HeadReadsBack(buf, pos, 5, |v.entries|);
      EntriesDecodeAt(v.entries, buf, pos + |Head(5, |v.entries|)|);
    } else {
      ScalarDecodesAt(v, buf, pos);
    }
  }

  lemma {:induction false} ItemsDecodeAt(items: seq<Value>, buf: seq<Byte>, pos: nat)
    requires forall k :: 0 <= k < |items| ==> Valid(items[k])
    requires StandsAt(buf, pos, EncodeItems(items))
    ensures pos <= |buf| && DecodeItems(buf, pos, |items|) == Ok(At(items, pos + |EncodeItems(items)|))
    decreases items
  {
    hide StandsAt; hide Decode; hide Encode; hide Valid; hide ReadSlice;
    SliceReadsBack(buf, pos, EncodeItems(items));
    if items != [] {
      StandsSplit(buf, pos, Encode(items[0]), EncodeItems(items[1..]));
      DecodesAt(items[0], buf, pos);
      ItemsDecodeAt(items[1..], buf, pos + |Encode(items[0])|);
      assert [items[0]] + items[1..] == items;
    }
  }

  lemma {:induction false} EntriesDecodeAt(entries: seq<Entry>, buf: seq<Byte>, pos: nat)
    requires forall k :: 0 <= k < |entries| ==> Valid(entries[k].key) && Valid(entries[k].value)
    requires StandsAt(buf, pos, EncodeEntries(entries))
    ensures pos <= |buf| && DecodeEntries(buf, pos, |entries|) == Ok(At(entries, pos + |EncodeEntries(entries)|))
    decreases entries
  {
    hide StandsAt; hide DecodeEntry; hide EncodeEntry; hide Valid; hide ReadSlice;
    SliceReadsBack(buf, pos, EncodeEntries(entries));
    if entries != [] {
      StandsSplit(buf, pos, EncodeEntry(entries[0]), EncodeEntries(entries[1..]));
      EntryDecodesAt(entries[0], buf, pos);
      EntriesDecodeAt(entries[1..], buf, pos + |EncodeEntry(entries[0])|);
      assert [entries[0]] + entries[1..] == entries;
    }
  }

  lemma {:induction false} EntryDecodesAt(e: Entry, buf: seq<Byte>, pos: nat)
    requires Valid(e.key) && Valid(e.value) && StandsAt(buf, pos, EncodeEntry(e))
    ensures pos <= |buf| && DecodeEntry(buf, pos) == Ok(At(e, pos + |EncodeEntry(e)|))
    decreases e
  {
    hide StandsAt; hide Decode; hide Encode; hide Valid;
    StandsSplit(buf, pos, Encode(e.key), Encode(e.value));
    DecodesAt(e.key, buf, pos);
    DecodesAt(e.value, buf, pos + |Encode(e.key)|);
  }

  /** Decoding the encoding of any value, whatever follows it, gives the value back and stops right after it. */
  lemma RoundTrip(v: Value, rest: seq<Byte>)
    requires Valid(v)
    ensures Decode(Encode(v) + rest, 0) == Ok(At(v, |Encode(v)|))
  {
    assert (Encode(v) + rest)[0..|Encode(v)|] == Encode(v);
    DecodesAt(v, Encode(v) + rest, 0);
  }

  /** No encoding is a proper prefix of another, and distinct values have distinct encodings. */
  lemma PrefixFree(v: Value, w: Value)
    requires Valid(v) && Valid(w) && Encode(v) <= Encode(w)
    ensures v == w
  {
    var rest := Encode(w)[|Encode(v)|..];
    assert Encode(w) == Encode(v) + rest && Encode(w) == Encode(w) + [];
    RoundTrip(v, rest);
    RoundTrip(w, []);
  }

  // ----- Theorem: the octets are those of RFC 8949, section 3.1 -----

  function Pair(high: nat, low: nat): nat {
    high * 256 + low
  }

  /** The 32-bit number in four octets, most significant first. */
  function Word(bs: seq<Byte>, at: nat): nat
    requires at + 4 <= |bs|
  {
    Pair(Pair(Pair(bs[at], bs[at + 1]), bs[at + 2]), bs[at + 3])
  }

  /** bs starts with the initial octet of a major type, whose first is base, and the argument n; body follows. */
  ghost predicate Opens(bs: seq<Byte>, base: nat, n: nat, body: seq<Byte>) {
    if n < 24 then |bs| >= 1 && bs[0] == base + n && bs[1..] == body
    else if n < 0x100 then |bs| >= 2 && bs[0] == base + 24 && bs[1] == n && bs[2..] == body
    else if n < 0x1_0000 then |bs| >= 3 && bs[0] == base + 25 && Pair(bs[1], bs[2]) == n && bs[3..] == body
    else if n < 0x1_0000_0000 then |bs| >= 5 && bs[0] == base + 26 && Word(bs, 1) == n && bs[5..] == body
    else |bs| >= 9 && bs[0] == base + 27 && Word(bs, 1) * 0x1_0000_0000 + Word(bs, 5) == n && bs[9..] == body
  }

  lemma OneMoreOctet(bs: seq<Byte>, k: nat)
    requires k < |bs|
    ensures FromBigEndian(bs[..k + 1]) == Pair(FromBigEndian(bs[..k]), bs[k])
  {
    assert bs[..k + 1][..k] == bs[..k];
  }

  lemma OctetsInOrder(bs: seq<Byte>)
    ensures |bs| >= 1 ==> FromBigEndian(bs[..1]) == bs[0]
    ensures |bs| >= 2 ==> FromBigEndian(bs[..2]) == Pair(bs[0], bs[1])
    ensures |bs| >= 4 ==> FromBigEndian(bs[..4]) == Word(bs, 0)
    ensures |bs| >= 8 ==> FromBigEndian(bs[..8]) == Word(bs, 0) * 0x1_0000_0000 + Word(bs, 4)
  {
    hide FromBigEndian; hide Pair;
    if |bs| >= 1 { StartOctet(bs); }
    if |bs| >= 2 { OneMoreOctet(bs, 1); }
    if |bs| >= 4 { OneMoreOctet(bs, 2); OneMoreOctet(bs, 3); }
    if |bs| >= 8 {
      OneMoreOctet(bs, 4); OneMoreOctet(bs, 5); OneMoreOctet(bs, 6); OneMoreOctet(bs, 7);
      TwoWords(Word(bs, 0), bs[4], bs[5], bs[6], bs[7]);
    }
  }

  lemma StartOctet(bs: seq<Byte>)
    requires bs != []
    ensures FromBigEndian(bs[..1]) == bs[0]
  {
    assert bs[..1][..0] == [];
  }

  lemma TwoWords(high: nat, a: nat, b: nat, c: nat, d: nat)
    ensures Pair(Pair(Pair(Pair(high, a), b), c), d) == high * 0x1_0000_0000 + Pair(Pair(Pair(a, b), c), d)
  {
  }

  lemma HeadOpens(major: nat, n: nat, body: seq<Byte>)
    requires major < 8 && n < TWO_64
    ensures Opens(Head(major, n) + body, major * 32, n, body)
  {
    hide BigEndian; hide FromBigEndian; hide Pow256; hide Pair;
    var bs := Head(major, n) + body;
    assert bs[|Head(major, n)|..] == body;
    if n >= 24 {
      var arg := BigEndian(n, ArgBytes(n));
      PowersOf256();
      BigEndianRoundTrip(n, ArgBytes(n));
      assert bs == [major * 32 + AddFor(ArgBytes(n))] + (arg + body);
      var tail := bs[1..];
      assert tail[..|arg|] == arg;
      OctetsInOrder(tail);
    }
  }

  /**
   The octets of every value: integers open with 0x00 or 0x20, byte and text strings with 0x40
   and 0x60, arrays and maps with 0x80 and 0xA0, each raised by the additional information;
   false, true and null are the single octets 0xF4, 0xF5 and 0xF6.
   */
  lemma WireForm(v: Value)
    requires Valid(v)
    ensures v.Int? && v.i >= 0 ==> Opens(Encode(v), 0x00, v.i, [])
    ensures v.Int? && v.i < 0 ==> Opens(Encode(v), 0x20, -1 - v.i, [])
    ensures v.Bytes? ==> Opens(Encode(v), 0x40, |v.bytes|, v.bytes)
    ensures v.Text? ==> Opens(Encode(v), 0x60, |v.text|, v.text)
    ensures v.Array? ==> Opens(Encode(v), 0x80, |v.items|, EncodeItems(v.items))
    ensures v.Map? ==> Opens(Encode(v), 0xA0, |v.entries|, EncodeEntries(v.entries))
    ensures v == Bool(false) ==> Encode(v) == [0xF4]
    ensures v == Bool(true) ==> Encode(v) == [0xF5]
    ensures v == Null ==> Encode(v) == [0xF6]
  {
    hide Opens; hide Head; hide EncodeItems; hide EncodeEntries;
    match v {
      case Int(i) =>
        var n := if i >= 0 then i else -1 - i;
        var major := if i >= 0 then 0 else 1;
        HeadOpens(major, n, []);
        assert Head(major, n) + [] == Head(major, n);
      case Bytes(bytes) => HeadOpens(2, |bytes|, bytes);
      case Text(text) => HeadOpens(3, |text|, text);
      case Array(items) => HeadOpens(4, |items|, EncodeItems(items));
      case Map(entries) => HeadOpens(5, |entries|, EncodeEntries(entries));
      case _ =>
    }
  }

  /** A sequence of items is their encodings in order; in a map every key comes before its value. */
  lemma {:induction false} BodyInOrder(items: seq<Value>, entries: seq<Entry>, k: nat)
    requires Valid(Array(items)) && Valid(Map(entries))
    ensures EncodeItems([]) == [] && EncodeEntries([]) == []
    ensures k < |items| ==> EncodeItems(items[k..]) == Encode(items[k]) + EncodeItems(items[k + 1..])
    ensures k < |entries| ==>
              EncodeEntries(entries[k..]) == Encode(entries[k].key) + Encode(entries[k].value) + EncodeEntries(entries[k + 1..])
  {
    if k < |items| {
      assert items[k..] == [items[k]] + items[k + 1..];
      ItemsCons(items[k], items[k + 1..]);
    }
    if k < |entries| {
      assert entries[k..] == [entries[k]] + entries[k + 1..];
      EntriesCons(entries[k], entries[k + 1..]);
    }
  }

  /**
   What is refused, by the initial octet: tags (0xC0 and above), every simple value but false,
   true and null, and indefinite lengths are Unsupported, reserved additional information is
   Malformed, an integer of 2^63 or more is Overflow, and a missing octet EndOfBuffer.
   */
  lemma Refused(buf: seq<Byte>, pos: nat)
    requires pos <= |buf|
    ensures pos == |buf| ==> Decode(buf, pos) == Err(EndOfBuffer)
    ensures pos < |buf| && 0xC0 <= buf[pos] && !(0xF4 <= buf[pos] <= 0xF6) ==> Decode(buf, pos) == Err(Unsupported)
    ensures pos < |buf| && buf[pos] in {0x1F, 0x3F, 0x5F, 0x7F, 0x9F, 0xBF} ==> Decode(buf, pos) == Err(Unsupported)
    ensures pos < |buf| && buf[pos] < 0xC0 && 28 <= buf[pos] % 32 <= 30 ==> Decode(buf, pos) == Err(Malformed)
    ensures pos + 9 <= |buf| && (buf[pos] == 0x1B || buf[pos] == 0x3B) && buf[pos + 1] >= 128 ==> Decode(buf, pos) == Err(Overflow)
    ensures pos + 9 > |buf| && pos < |buf| && buf[pos] in {0x1B, 0x3B, 0x5B, 0x7B, 0x9B, 0xBB} ==> Decode(buf, pos) == Err(EndOfBuffer)
  {
    if pos + 9 <= |buf| && (buf[pos] == 0x1B || buf[pos] == 0x3B) && buf[pos + 1] >= 128 {
      var arg := buf[pos + 1..pos + 9];
      assert arg[..8] == arg;
      OctetsInOrder(arg);
    }
  }

  // ----- Theorem: the encoding is the shortest form -----

  lemma ArgIsShortest(buf: seq<Byte>, pos: nat, add: nat)
    requires pos <= |buf| && add < 32 && ReadArg(buf, pos, add).Ok?
    ensures var r := ReadArg(buf, pos, add).value; ArgBytes(r.item) <= r.pos - pos
  {
    PowersOf256();
  }

  lemma {:induction false} ShortestFrom(buf: seq<Byte>, pos: nat)
    requires pos <= |buf| && Decode(buf, pos).Ok?
    ensures var r := Decode(buf, pos).value; Valid(r.item) && |Encode(r.item)| <= r.pos - pos
    decreases |buf| - pos, 0
  {
    var major, add := buf[pos] / 32, buf[pos] % 32;
    if major < 6 {
      ArgIsShortest(buf, pos + 1, add);
      var arg := ReadArg(buf, pos + 1, add).value;
      if major == 4 {
        ItemsShortestFrom(buf, arg.pos, arg.item);
      } else if major == 5 {
        EntriesShortestFrom(buf, arg.pos, arg.item);
      }
    }
  }

  lemma ItemsCons(v: Value, vs: seq<Value>)
    requires Valid(v) && forall k :: 0 <= k < |vs| ==> Valid(vs[k])
    ensures EncodeItems([v] + vs) == Encode(v) + EncodeItems(vs)
  {
    assert ([v] + vs)[1..] == vs;
  }

  lemma EntriesCons(e: Entry, es: seq<Entry>)
    requires Valid(e.key) && Valid(e.value)
    requires forall k :: 0 <= k < |es| ==> Valid(es[k].key) && Valid(es[k].value)
    ensures EncodeEntries([e] + es) == EncodeEntry(e) + EncodeEntries(es)
  {
    assert ([e] + es)[1..] == es;
  }

  lemma {:induction false} ItemsShortestFrom(buf: seq<Byte>, pos: nat, count: nat)
    requires pos <= |buf| && DecodeItems(buf, pos, count).Ok?
    ensures var r := DecodeItems(buf, pos, count).value;
            && (forall k :: 0 <= k < |r.item| ==> Valid(r.item[k]))
            && |EncodeItems(r.item)| <= r.pos - pos
    decreases |buf| - pos, 1
  {
    hide Decode; hide Encode; hide Valid;
    if count > 0 {
      ShortestFrom(buf, pos);
      var first := Decode(buf, pos).value;
      ItemsShortestFrom(buf, first.pos, count - 1);
      ItemsCons(first.item, DecodeItems(buf, first.pos, count - 1).value.item);
    }
  }

  lemma {:induction false} EntryShortestFrom(buf: seq<Byte>, pos: nat)
    requires pos <= |buf| && DecodeEntry(buf, pos).Ok?
    ensures var r := DecodeEntry(buf, pos).value;
            Valid(r.item.key) && Valid(r.item.value) && |EncodeEntry(r.item)| <= r.pos - pos
    decreases |buf| - pos, 1
  {
    hide Decode; hide Encode; hide Valid;
    ShortestFrom(buf, pos);
    ShortestFrom(buf, Decode(buf, pos).value.pos);
  }

  lemma {:induction false} EntriesShortestFrom(buf: seq<Byte>, pos: nat, count: nat)
    requires pos <= |buf| && DecodeEntries(buf, pos, count).Ok?
    ensures var r := DecodeEntries(buf, pos, count).value;
            && (forall k :: 0 <= k < |r.item| ==> Valid(r.item[k].key) && Valid(r.item[k].value))
            && |EncodeEntries(r.item)| <= r.pos - pos
    decreases |buf| - pos, 2
  {
    hide DecodeEntry; hide EncodeEntry; hide Valid;
    if count > 0 {
      EntryShortestFrom(buf, pos);
      var first := DecodeEntry(buf, pos).value;
      EntriesShortestFrom(buf, first.pos, count - 1);
      EntriesCons(first.item, DecodeEntries(buf, first.pos, count - 1).value.item);
    }
  }

  /** Whatever octets decode to a value, they are at least as many as its encoding has. */
  lemma EncodingIsShortest(bs: seq<Byte>, v: Value)
    requires Decode(bs, 0).Ok? && Decode(bs, 0).value.item == v
    ensures Valid(v) && |Encode(v)| <= |bs|
  {
    ShortestFrom(bs, 0);
  }

  // ----- The reader -----

  /** Result of decoding count items from pos when the first ones are already in hand. */
  function Continue<T>(done: seq<T>, r: Result<At<seq<T>>, Error>): Result<At<seq<T>>, Error> {
    if r.Err? then r else Ok(At(done + r.value.item, r.value.pos))
  }

  lemma ContinueStart<T>(r: Result<At<seq<T>>, Error>)
    ensures Continue([], r) == r
  {
    assert r.Ok? ==> [] + r.value.item == r.value.item;
  }

  lemma ContinueOne<T>(done: seq<T>, x: T, r: Result<At<seq<T>>, Error>)
    ensures Continue(done, Continue([x], r)) == Continue(done + [x], r)
  {
    assert r.Ok? ==> done + ([x] + r.value.item) == done + [x] + r.value.item;
  }

  /** One round of the array loop. */
  lemma ItemStep(buf: seq<Byte>, pos: nat, n: nat, done: seq<Value>)
    requires pos <= |buf| && n > 0
    ensures match Decode(buf, pos)
            case Ok(a) => Continue(done, DecodeItems(buf, pos, n)) == Continue(done + [a.item], DecodeItems(buf, a.pos, n - 1))
            case Err(e) => Continue(done, DecodeItems(buf, pos, n)) == Err(e)
  {
    hide Decode;
    if Decode(buf, pos).Ok? {
      var a := Decode(buf, pos).value;
      ContinueOne(done, a.item, DecodeItems(buf, a.pos, n - 1));
    }
  }

  lemma ItemsEnd(buf: seq<Byte>, pos: nat, done: seq<Value>)
    requires pos <= |buf|
    ensures Continue(done, DecodeItems(buf, pos, 0)) == Ok(At(done, pos))
  {
    assert done + [] == done;
  }

  /** One round of the map loop. */
  lemma EntryStep(buf: seq<Byte>, pos: nat, n: nat, done: seq<Entry>)
    requires pos <= |buf| && n > 0
    ensures match DecodeEntry(buf, pos)
            case Ok(a) => Continue(done, DecodeEntries(buf, pos, n)) == Continue(done + [a.item], DecodeEntries(buf, a.pos, n - 1))
            case Err(e) => Continue(done, DecodeEntries(buf, pos, n)) == Err(e)
  {
    hide DecodeEntry;
    if DecodeEntry(buf, pos).Ok? {
      var a := DecodeEntry(buf, pos).value;
      ContinueOne(done, a.item, DecodeEntries(buf, a.pos, n - 1));
    }
  }

  lemma EntriesEnd(buf: seq<Byte>, pos: nat, done: seq<Entry>)
    requires pos <= |buf|
    ensures Continue(done, DecodeEntries(buf, pos, 0)) == Ok(At(done, pos))
  {
    assert done + [] == done;
  }

  class Decoder {
    const buf: seq<Byte>
    var pos: nat

    constructor (buf: seq<Byte>)
      ensures this.buf == buf && pos == 0
    {
      this.buf := buf;
      pos := 0;
    }

    method ReadN(n: nat) returns (r: Result<seq<Byte>, Error>)
      requires pos <= |buf|
      modifies this
      ensures old(pos) <= pos <= |buf|
      ensures match ReadSlice(buf, old(pos), n)
              case Ok(s) => r == Ok(s.item) && pos == s.pos
              case Err(e) => r == Err(e)
    {
      if pos + n > |buf| {
        return Err(EndOfBuffer);
      }
      r := Ok(buf[pos..pos + n]);
      pos := pos + n;
    }

    method ReadUIntN(n: nat) returns (r: Result<nat, Error>)
      requires pos <= |buf|
      modifies this
      ensures old(pos) <= pos <= |buf|
      ensures if old(pos) + n > |buf| then r == Err(EndOfBuffer)
              else r == Ok(FromBigEndian(buf[old(pos)..old(pos) + n])) && pos == old(pos) + n
    {
      var bytes := ReadN(n);
      if bytes.Err? {
        return Err(bytes.error);
      }
      var bs := bytes.value;
      var value: nat := 0;
      for k := 0 to |bs|
        invariant value == FromBigEndian(bs[..k])
      {
        assert bs[..k + 1][..k] == bs[..k];
        value := value * 256 + bs[k];
      }
      assert bs[..|bs|] == bs;
      return Ok(value);
    }

    method ReadUInt(add: nat) returns (r: Result<nat, Error>)
      requires pos <= |buf|
      modifies this
      ensures old(pos) <= pos <= |buf|
      ensures match ReadArg(buf, old(pos), add)
              case Ok(a) => r == Ok(a.item) && pos == a.pos
              case Err(e) => r == Err(e)
    {
      if add < 24 {
        return Ok(add);
      }
      if add == 24 {
        r := ReadUIntN(1);
      } else if add == 25 {
        r := ReadUIntN(2);
      } else if add == 26 {
        r := ReadUIntN(4);
      } else if add == 27 {
        r := ReadUIntN(8);
      } else if add == 31 {
        r := Err(Unsupported);
      } else {
        r := Err(Malformed);
      }
    }

    method DecodeValue() returns (r: Result<Value, Error>)
      requires pos <= |buf|
      modifies this
      ensures old(pos) <= pos <= |buf|
      ensures match Decode(buf, old(pos))
              case Ok(a) => r == Ok(a.item) && pos == a.pos
              case Err(e) => r == Err(e)
      decreases |buf| - pos, 0
    {
      if pos >= |buf| {
        return Err(EndOfBuffer);
      }
      var major, add := buf[pos] / 32, buf[pos] % 32;
      pos := pos + 1;
      if major == 6 {
        return Err(Unsupported);
      }
      if major == 7 {
        return if add == 20 then Ok(Bool(false)) else if add == 21 then Ok(Bool(true))
          else if add == 22 then Ok(Null) else Err(Unsupported);
      }
      var arg := ReadUInt(add);
      if arg.Err? {
        return Err(arg.error);
      }
      var n := arg.value;
      hide ReadArg;
      match major {
        case 0 => r := if n > MAX_I64 then Err(Overflow) else Ok(Int(n));
        case 1 => r := if n > MAX_I64 then Err(Overflow) else Ok(Int(-1 - n));
        case 2 =>
          var data := ReadN(n);
          r := if data.Err? then Err(data.error) else Ok(Bytes(data.value));
        case 3 =>
          var data := ReadN(n);
          r := if data.Err? then Err(data.error) else Ok(Text(data.value));
        case 4 =>
          var items := DecodeCount(n);
          r := if items.Err? then Err(items.error) else Ok(Array(items.value));
        case _ =>
          var entries := DecodeEntryCount(n);
          r := if entries.Err? then Err(entries.error) else Ok(Map(entries.value));
      }
    }

    /** The loop that fills an array. */
    method DecodeCount(count: nat) returns (r: Result<seq<Value>, Error>)
      requires pos <= |buf|
      modifies this
      ensures old(pos) <= pos <= |buf|
      ensures match DecodeItems(buf, old(pos), count)
              case Ok(a) => r == Ok(a.item) && pos == a.pos
              case Err(e) => r == Err(e)
      decreases |buf| - pos, 1
    {
      hide Decode; hide DecodeItems; hide Continue;
      ghost var start := pos;
      var items: seq<Value> := [];
      ContinueStart(DecodeItems(buf, start, count));
      while |items| < count
        invariant start <= pos <= |buf| && |items| <= count
        invariant DecodeItems(buf, start, count) == Continue(items, DecodeItems(buf, pos, count - |items|))
        decreases count - |items|
      {
        ItemStep(buf, pos, count - |items|, items);
        var item := DecodeValue();
        if item.Err? {
          return Err(item.error);
        }
        items := items + [item.value];
      }
      ItemsEnd(buf, pos, items);
      return Ok(items);
    }

    /** The loop that fills a map. */
    method DecodeEntryCount(count: nat) returns (r: Result<seq<Entry>, Error>)
      requires pos <= |buf|
      modifies this
      ensures old(pos) <= pos <= |buf|
      ensures match DecodeEntries(buf, old(pos), count)
              case Ok(a) => r == Ok(a.item) && pos == a.pos
              case Err(e) => r == Err(e)
      decreases |buf| - pos, 2
    {
      hide Decode; hide DecodeEntry; hide DecodeEntries; hide Continue;
      ghost var start := pos;
      var entries: seq<Entry> := [];
      ContinueStart(DecodeEntries(buf, start, count));
      while |entries| < count
        invariant start <= pos <= |buf| && |entries| <= count
        invariant DecodeEntries(buf, start, count) == Continue(entries, DecodeEntries(buf, pos, count - |entries|))
        decreases count - |entries|
      {
        EntryStep(buf, pos, count - |entries|, entries);
        var entry := DecodeKeyAndValue();
        if entry.Err? {
          return Err(entry.error);
        }
        entries := entries + [entry.value];
      }
      EntriesEnd(buf, pos, entries);
      return Ok(entries);
    }

    method DecodeKeyAndValue() returns (r: Result<Entry, Error>)
      requires pos <= |buf|
      modifies this
      ensures old(pos) <= pos <= |buf|
      ensures match DecodeEntry(buf, old(pos))
              case Ok(a) => r == Ok(a.item) && pos == a.pos
              case Err(e) => r == Err(e)
      decreases |buf| - pos, 1
    {
      hide Decode;
      var key := DecodeValue();
      if key.Err? {
        return Err(key.error);
      }
      var value := DecodeValue();
      if value.Err? {
        return Err(value.error);
      }
      return Ok(Entry(key.value, value.value));
    }
  }

  /** First entry whose key is the given text. */
  function GetMapValue(entries: seq<Entry>, key: seq<Byte>): Option<Value> {
    if entries == [] then None
    else if entries[0].key == Text(key) then Some(entries[0].value)
    else GetMapValue(entries[1..], key)
  }

  // ----- The writers -----

  /** value shifted right by k octets. */
  function ShiftRight(value: nat, k: nat): nat {
    if k == 0 then value else ShiftRight(value / 256, k - 1)
  }

  lemma {:induction false} BigEndianDigit(value: nat, n: nat, k: nat)
    requires k < n
    ensures BigEndian(value, n)[k] == ShiftRight(value, n - 1 - k) % 256
  {
    if k < n - 1 {
      BigEndianDigit(value / 256, n - 1, k);
    }
  }

  /** A growing output buffer and the writer calls on it. */
  class ByteBuffer {
    var items: seq<Byte>

    constructor ()
      ensures items == []
    {
      items := [];
    }

    method WriteUIntBE(value: nat, n: nat)
      modifies this
      ensures items == old(items) + BigEndian(value, n)
    {
      for i := 0 to n
        invariant items == old(items) + BigEndian(value, n)[..i]
      {
        BigEndianDigit(value, n, i);
        items := items + [ShiftRight(value, n - 1 - i) % 256];
      }
    }

    method WriteTypeAndLen(major: nat, len: nat)
      requires major < 8 && len < TWO_64
      modifies this
      ensures items == old(items) + Head(major, len)
    {
      if len < 24 {
        items := items + [major * 32 + len];
      } else if len <= 0xff {
        items := items + [major * 32 + 24];
        WriteUIntBE(len, 1);
      } else if len <= 0xffff {
        items := items + [major * 32 + 25];
        WriteUIntBE(len, 2);
      } else if len <= 0xffff_ffff {
        items := items + [major * 32 + 26];
        WriteUIntBE(len, 4);
      } else {
        items := items + [major * 32 + 27];
        WriteUIntBE(len, 8);
      }
    }

    method WriteInt(value: int)
      requires Valid(Int(value))
      modifies this
      ensures items == old(items) + Encode(Int(value))
    {
      if value >= 0 {
        WriteTypeAndLen(0, value);
      } else {
        WriteTypeAndLen(1, -(value + 1));
      }
    }

    method WriteBytes(data: seq<Byte>)
      requires |data| < TWO_64
      modifies this
      ensures items == old(items) + Encode(Bytes(data))
    {
      WriteTypeAndLen(2, |data|);
      items := items + data;
    }

    method WriteText(text: seq<Byte>)
      requires |text| < TWO_64
      modifies this
      ensures items == old(items) + Encode(Text(text))
    {
      WriteTypeAndLen(3, |text|);
      items := items + text;
    }
  }
}
