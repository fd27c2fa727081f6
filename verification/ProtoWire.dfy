/** The protobuf wire bytes of the stream descriptors, and a reader for that wire
    format to hold them against. */
module ProtoWire {
  import opened Bytes

  // ----- varints -----

  function Varint(v: nat): (s: seq<byte>)
    ensures |s| > 0
  {
    if v > 0x7f then [v % 0x80 + 0x80] + Varint(v / 0x80) else [v]
  }

  method PutVarint(out: seq<byte>, v: u64) returns (r: seq<byte>)
    ensures r == out + Varint(v)
  {
    r := out;
    var rest: nat := v;
    while rest > 0x7f
      invariant r + Varint(rest) == out + Varint(v)
    {
      r := r + [rest % 0x80 + 0x80];
      rest := rest / 0x80;
    }
    r := r + [rest];
  }

  /** A varint at the front of `s`, of at most `max` bytes: value and length. */
  function ReadVarint(s: seq<byte>, max: nat): (r: Option<(nat, nat)>)
    ensures r.Some? ==> 0 < r.value.1 <= |s|
    decreases max
  {
    if |s| == 0 || max == 0 then None
    else if s[0] < 0x80 then Some((s[0], 1))
    else
      match ReadVarint(s[1..], max - 1)
      case None => None
      case Some((v, n)) => Some((s[0] - 0x80 + 0x80 * v, n + 1))
  }

  function Pow128(k: nat): (p: nat)
    ensures p > 0
  {
    if k == 0 then 1 else 0x80 * Pow128(k - 1)
  }

  lemma {:induction false} VarintReads(v: nat, k: nat, rest: seq<byte>)
    requires k > 0 && v < Pow128(k)
    ensures |Varint(v)| <= k && ReadVarint(Varint(v) + rest, k) == Some((v, |Varint(v)|))
    decreases k
  {
    var s := Varint(v) + rest;
    assert Pow128(1) == 0x80;
    if v > 0x7f {
      VarintReads(v / 0x80, k - 1, rest);
      assert s[1..] == Varint(v / 0x80) + rest;
    }
  }

  /** Every 64-bit value survives the wire, in at most ten bytes. */
  lemma VarintRoundTrip(v: u64, rest: seq<byte>)
    ensures |Varint(v)| <= 10 && ReadVarint(Varint(v) + rest, 10) == Some((v, |Varint(v)|))
  {
    assert Pow128(10) > 0xffff_ffff_ffff_ffff by { assert Pow128(5) == 0x8_0000_0000; Pow128Ten(); }
    VarintReads(v, 10, rest);
  }

  lemma Pow128Ten()
    ensures Pow128(10) == 0x8_0000_0000 * 0x8_0000_0000
  {
    assert Pow128(5) == 0x8_0000_0000;
    assert Pow128(8) == 0x80 * 0x80 * 0x80 * 0x8_0000_0000;
  }

  // ----- fields -----

  datatype Field = Number(field: nat, value: nat) | Message(field: nat, bytes: seq<byte>)

  function Prepend(f: Field, r: Option<seq<Field>>): (o: Option<seq<Field>>) {
    match r case None => None case Some(fs) => Some([f] + fs)
  }

  /** All fields of a message made of varints and length-delimited fields. */
  function ReadFields(s: seq<byte>): (r: Option<seq<Field>>)
    decreases |s|
  {
    if |s| == 0 then Some([])
    else
      match ReadVarint(s, 10)
      case None => None
      case Some((tag, n)) =>
        var rest := s[n..];
        match ReadVarint(rest, 10)
        case None => None
        case Some((v, m)) =>
          var tail := rest[m..];
          if tag % 8 == 0 then Prepend(Number(tag / 8, v), ReadFields(tail))
          else if tag % 8 == 2 && v <= |tail| then Prepend(Message(tag / 8, tail[..v]), ReadFields(tail[v..]))
          else None
  }

  function Tag(field: u32, wire: nat): (s: seq<byte>)
    requires field < 0x1000_0000 && wire < 8
  {
    Varint(field * 8 + wire)
  }

  function NumberField(field: u32, v: u32): (s: seq<byte>)
    requires field < 0x1000_0000
  {
    Tag(field, 0) + Varint(v)
  }

  function MessageField(field: u32, bytes: seq<byte>): (s: seq<byte>)
    requires field < 0x1000_0000
  {
    Tag(field, 2) + Varint(|bytes|) + bytes
  }

  lemma ReadPair(a: u64, b: u64, rest: seq<byte>)
    ensures var s := Varint(a) + Varint(b) + rest;
            var n, m := |Varint(a)|, |Varint(b)|;
            && ReadVarint(s, 10) == Some((a, n)) && ReadVarint(s[n..], 10) == Some((b, m)) && s[n..][m..] == rest
  {
    hide Varint, ReadVarint;
    var s := Varint(a) + Varint(b) + rest;
    assert s == Varint(a) + (Varint(b) + rest);
    assert s[|Varint(a)|..] == Varint(b) + rest;
    VarintRoundTrip(a, Varint(b) + rest);
    VarintRoundTrip(b, rest);
  }

  lemma ReadNumber(field: u32, v: u32, rest: seq<byte>)
    requires field < 0x1000_0000
    ensures ReadFields(NumberField(field, v) + rest) == Prepend(Number(field, v), ReadFields(rest))
  {
    hide Varint, ReadVarint;
    ReadPair(field * 8, v, rest);
  }

  lemma ReadMessage(field: u32, bytes: seq<byte>, rest: seq<byte>)
    requires field < 0x1000_0000 && |bytes| < 0x1_0000_0000
    ensures ReadFields(MessageField(field, bytes) + rest) == Prepend(Message(field, bytes), ReadFields(rest))
  {
    hide Varint, ReadVarint;
    var s := MessageField(field, bytes) + rest;
    assert s == Varint(field * 8 + 2) + Varint(|bytes|) + (bytes + rest);
    ReadPair(field * 8 + 2, |bytes|, bytes + rest);
    assert (bytes + rest)[..|bytes|] == bytes && (bytes + rest)[|bytes|..] == rest;
  }

  // ----- stream descriptors -----

  datatype Slot = Slot(streamIndex: u32, subType: u32, slotWord: u32)

  const SLOTS: seq<Slot> := [
    Slot(0, 0, 0), Slot(0, 1, 1), Slot(0, 2, 4),
    Slot(1, 0, 2), Slot(1, 1, 3), Slot(1, 2, 5),
    Slot(2, 0, 7), Slot(2, 1, 8), Slot(2, 2, 6)]

  datatype Descriptor = Descriptor(streamIndex: nat, subType: nat, ssrc: nat)

  /** A proto3 number field: omitted when zero. */
  function Optional(field: u32, v: u32): (s: seq<byte>)
    requires field < 0x1000_0000
  {
    if v == 0 then [] else NumberField(field, v)
  }

  function DescriptorBytes(slot: Slot, ssrc: u32): (s: seq<byte>) {
    Optional(1, slot.streamIndex) + Optional(2, slot.subType) + NumberField(3, ssrc)
  }

  /** One descriptor per slot; `ssrcOf` derives a slot's SSRC, zero skips it. */
  function DescriptorsBytes(slots: seq<Slot>, ssrcOf: u32 -> u32): (s: seq<byte>) {
    if |slots| == 0 then []
    else
      var slot := slots[|slots| - 1];
      var ssrc := ssrcOf(slot.slotWord);
      DescriptorsBytes(slots[..|slots| - 1], ssrcOf)
      + (if ssrc == 0 then [] else MessageField(1, DescriptorBytes(slot, ssrc)))
  }

  function StreamDescriptors(ssrcOf: u32 -> u32): (s: seq<byte>) { DescriptorsBytes(SLOTS, ssrcOf) }

  predicate Small(slots: seq<Slot>) {
    forall k :: 0 <= k < |slots| ==> slots[k].streamIndex < 0x80 && slots[k].subType < 0x80
  }

  method PutTag(out: seq<byte>, field: u32, wire: nat) returns (r: seq<byte>)
    requires field < 0x1000_0000 && wire < 8
    ensures r == out + Tag(field, wire)
  {
    r := PutVarint(out, field * 8 + wire);
  }

  method PutMessage(out: seq<byte>, field: u32, bytes: seq<byte>) returns (r: seq<byte>)
    requires field < 0x1000_0000 && |bytes| < 0x1_0000_0000_0000_0000
    ensures r == out + MessageField(field, bytes)
  {
    hide Varint, Tag;
    r := PutTag(out, field, 2);
    r := PutVarint(r, |bytes|);
    r := r + bytes;
  }

  method PutDescriptor(out: seq<byte>, slot: Slot, ssrc: u32) returns (r: seq<byte>)
    requires slot.streamIndex < 0x80 && slot.subType < 0x80
    ensures r == out + MessageField(1, DescriptorBytes(slot, ssrc))
  {
    hide Varint, Tag, MessageField;
    var d: seq<byte> := [];
    if slot.streamIndex != 0 {
      d := PutTag(d, 1, 0);
      d := PutVarint(d, slot.streamIndex);
    }
    assert d == Optional(1, slot.streamIndex);
    if slot.subType != 0 {
      d := PutTag(d, 2, 0);
      d := PutVarint(d, slot.subType);
    }
    assert d == Optional(1, slot.streamIndex) + Optional(2, slot.subType);
    d := PutTag(d, 3, 0);
    d := PutVarint(d, ssrc);
    assert d == DescriptorBytes(slot, ssrc);
    assert |d| < 0x80 by { DescriptorSize(slot, ssrc); }
    r := PutMessage(out, 1, d);
  }

  method PutDescriptors(slots: seq<Slot>, ssrcOf: u32 -> u32) returns (out: seq<byte>)
    requires Small(slots)
    ensures out == DescriptorsBytes(slots, ssrcOf)
  {
    hide MessageField, DescriptorBytes;
    out := [];
    for k := 0 to |slots|
      invariant out == DescriptorsBytes(slots[..k], ssrcOf)
    {
      var slot := slots[k];
      var ssrc := ssrcOf(slot.slotWord);
      assert slots[..k + 1][..k] == slots[..k];
      if ssrc == 0 {
        continue;
      }
      out := PutDescriptor(out, slot, ssrc);
    }
    assert slots[..|slots|] == slots;
  }

  method CreateStreamDescriptors(ssrcOf: u32 -> u32) returns (out: seq<byte>)
    ensures out == StreamDescriptors(ssrcOf)
  {
    hide DescriptorsBytes;
    out := PutDescriptors(SLOTS, ssrcOf);
  }

  /** The last number given for a field, or zero. */
  function LastNumber(fs: seq<Field>, field: nat): (v: nat) {
    if |fs| == 0 then 0
    else
      var n := |fs| - 1;
      if fs[n].Number? && fs[n].field == field then fs[n].value else LastNumber(fs[..n], field)
  }

  /** Reads the repeated message field 1 of descriptors. */
  function ReadDescriptors(fs: seq<Field>): (r: Option<seq<Descriptor>>) {
    if |fs| == 0 then Some([])
    else
      var n := |fs| - 1;
      var before := ReadDescriptors(fs[..n]);
      if before.None? || !fs[n].Message? || fs[n].field != 1 then None
      else
        match ReadFields(fs[n].bytes)
        case None => None
        case Some(inner) =>
          Some(before.value + [Descriptor(LastNumber(inner, 1), LastNumber(inner, 2), LastNumber(inner, 3))])
  }

  function Decode(s: seq<byte>): (r: Option<seq<Descriptor>>) {
    match ReadFields(s) case None => None case Some(fs) => ReadDescriptors(fs)
  }

  /** The rows of a slot table, in order, that have a non-zero SSRC. */
  function LiveRows(slots: seq<Slot>, ssrcOf: u32 -> u32): (r: seq<Descriptor>) {
    if |slots| == 0 then []
    else
      var slot := slots[|slots| - 1];
      var ssrc := ssrcOf(slot.slotWord);
      LiveRows(slots[..|slots| - 1], ssrcOf)
      + (if ssrc == 0 then [] else [Descriptor(slot.streamIndex, slot.subType, ssrc)])
  }

  lemma OptionalReads(field: u32, v: u32, rest: seq<byte>)
    requires field < 0x1000_0000
    ensures ReadFields(Optional(field, v) + rest)
         == if v == 0 then ReadFields(rest) else Prepend(Number(field, v), ReadFields(rest))
  {
    hide NumberField, ReadFields;
    if v == 0 {
      assert Optional(field, v) + rest == rest;
    } else {
      ReadNumber(field, v, rest);
    }
  }

  function OptionalField(field: u32, v: u32): (s: seq<Field>) { if v == 0 then [] else [Number(field, v)] }

  /** On the wire a descriptor has its SSRC and those numbers of its row that are not
      zero. */
  lemma DescriptorReads(slot: Slot, ssrc: u32)
    ensures ReadFields(DescriptorBytes(slot, ssrc))
         == Some(OptionalField(1, slot.streamIndex) + OptionalField(2, slot.subType) + [Number(3, ssrc)])
  {
    hide NumberField, Optional, ReadFields;
    var a, b, c := Optional(1, slot.streamIndex), Optional(2, slot.subType), NumberField(3, ssrc);
    assert DescriptorBytes(slot, ssrc) == a + (b + c) && c == c + [];
    assert ReadFields([]) == Some([]) by { ReadNothing(); }
    ReadNumber(3, ssrc, []);
    OptionalReads(2, slot.subType, c);
    OptionalReads(1, slot.streamIndex, b + c);
    assert [Number(3, ssrc)] + [] == [Number(3, ssrc)];
    var x, y, z := OptionalField(1, slot.streamIndex), OptionalField(2, slot.subType), [Number(3, ssrc)];
    assert y + z == if slot.subType == 0 then z else [Number(2, slot.subType)] + z;
    assert x + y + z == x + (y + z);
    assert x + (y + z) == if slot.streamIndex == 0 then y + z else [Number(1, slot.streamIndex)] + (y + z);
  }

  lemma ReadNothing()
    ensures ReadFields([]) == Some([])
  {}

  lemma LastOfMore(fs: seq<Field>, f: Field, field: nat)
    ensures LastNumber(fs + [f], field) == if f.Number? && f.field == field then f.value else LastNumber(fs, field)
  {
    assert (fs + [f])[..|fs|] == fs;
  }

  lemma LastOfOptional(fs: seq<Field>, g: u32, v: u32, field: nat)
    ensures LastNumber(fs + OptionalField(g, v), field) == if v != 0 && g == field then v else LastNumber(fs, field)
  {
    if v == 0 {
      assert fs + [] == fs;
    } else {
      LastOfMore(fs, Number(g, v), field);
    }
  }

  /** The three numbers of a descriptor come back, omitted ones as zero. */
  lemma LastOfEach(slot: Slot, ssrc: u32, field: nat)
    requires 1 <= field <= 3
    ensures LastNumber(OptionalField(1, slot.streamIndex) + OptionalField(2, slot.subType) + [Number(3, ssrc)], field)
         == if field == 1 then slot.streamIndex else if field == 2 then slot.subType else ssrc
  {
    hide OptionalField;
    var x, y := OptionalField(1, slot.streamIndex), OptionalField(2, slot.subType);
    LastOfMore(x + y, Number(3, ssrc), field);
    LastOfOptional(x, 2, slot.subType, field);
    assert [] + x == x;
    LastOfOptional([], 1, slot.streamIndex, field);
  }

  lemma SsrcSize(v: u32)
    ensures |Varint(v)| <= 5
  {
    assert Pow128(5) == 0x8_0000_0000;
    VarintReads(v, 5, []);
  }

  lemma SmallSize(v: nat)
    requires v < 0x80
    ensures |Varint(v)| == 1
  {}

  /** One descriptor takes at most six bytes and two for each non-zero number of a
      table row. */
  lemma DescriptorSize(slot: Slot, ssrc: u32)
    requires slot.streamIndex < 0x80 && slot.subType < 0x80
    ensures |DescriptorBytes(slot, ssrc)|
         <= 6 + (if slot.streamIndex == 0 then 0 else 2) + (if slot.subType == 0 then 0 else 2)
  {
    hide Varint;
    SsrcSize(ssrc);
    SmallSize(slot.streamIndex);
    SmallSize(slot.subType);
    SmallSize(8);
    SmallSize(16);
    SmallSize(24);
  }

  function SizeBound(slots: seq<Slot>): (n: nat) {
    if |slots| == 0 then 0
    else
      var slot := slots[|slots| - 1];
      SizeBound(slots[..|slots| - 1]) + 8
      + (if slot.streamIndex == 0 then 0 else 2) + (if slot.subType == 0 then 0 else 2)
  }

  /** The outer fields of the descriptors. */
  function RowFields(slots: seq<Slot>, ssrcOf: u32 -> u32): (fs: seq<Field>) {
    if |slots| == 0 then []
    else
      var slot := slots[|slots| - 1];
      var ssrc := ssrcOf(slot.slotWord);
      RowFields(slots[..|slots| - 1], ssrcOf) + (if ssrc == 0 then [] else [Message(1, DescriptorBytes(slot, ssrc))])
  }

  lemma {:induction false} RowsRead(slots: seq<Slot>, ssrcOf: u32 -> u32, rest: seq<byte>)
    requires Small(slots) && ReadFields(rest).Some?
    ensures ReadFields(DescriptorsBytes(slots, ssrcOf) + rest)
         == Some(RowFields(slots, ssrcOf) + ReadFields(rest).value)
    decreases |slots|
  {
    hide ReadFields, MessageField, DescriptorBytes;
    if |slots| == 0 {
      assert [] + rest == rest && [] + ReadFields(rest).value == ReadFields(rest).value;
    } else {
      var init, slot := slots[..|slots| - 1], slots[|slots| - 1];
      var ssrc := ssrcOf(slot.slotWord);
      var up, before := DescriptorsBytes(init, ssrcOf), RowFields(init, ssrcOf);
      if ssrc == 0 {
        assert up + [] == up && before + [] == before;
        RowsRead(init, ssrcOf, rest);
      } else {
        var d := DescriptorBytes(slot, ssrc);
        assert |d| < 0x80 by { DescriptorSize(slot, ssrc); }
        ReadMessage(1, d, rest);
        RowsRead(init, ssrcOf, MessageField(1, d) + rest);
        assert up + MessageField(1, d) + rest == up + (MessageField(1, d) + rest);
        assert before + ([Message(1, d)] + ReadFields(rest).value) == before + [Message(1, d)] + ReadFields(rest).value;
      }
    }
  }

  lemma {:induction false} RowsMean(slots: seq<Slot>, ssrcOf: u32 -> u32)
    ensures ReadDescriptors(RowFields(slots, ssrcOf)) == Some(LiveRows(slots, ssrcOf))
  {
    hide DescriptorBytes, LastNumber, ReadFields, OptionalField;
    if |slots| > 0 {
      var init, slot := slots[..|slots| - 1], slots[|slots| - 1];
      var ssrc := ssrcOf(slot.slotWord);
      var before := RowFields(init, ssrcOf);
      RowsMean(init, ssrcOf);
      if ssrc == 0 {
        assert before + [] == before && LiveRows(init, ssrcOf) + [] == LiveRows(init, ssrcOf);
      } else {
        ReadOneMore(before, DescriptorBytes(slot, ssrc),
                    OptionalField(1, slot.streamIndex) + OptionalField(2, slot.subType) + [Number(3, ssrc)])
        by { DescriptorReads(slot, ssrc); }
        LastOfEach(slot, ssrc, 1);
        LastOfEach(slot, ssrc, 2);
        LastOfEach(slot, ssrc, 3);
      }
    }
  }

  lemma ReadOneMore(before: seq<Field>, bytes: seq<byte>, inner: seq<Field>)
    requires ReadDescriptors(before).Some? && ReadFields(bytes) == Some(inner)
    ensures ReadDescriptors(before + [Message(1, bytes)])
         == Some(ReadDescriptors(before).value
                 + [Descriptor(LastNumber(inner, 1), LastNumber(inner, 2), LastNumber(inner, 3))])
  {
    hide ReadFields, LastNumber;
    assert (before + [Message(1, bytes)])[..|before|] == before;
  }

  lemma {:induction false} RowsSize(slots: seq<Slot>, ssrcOf: u32 -> u32)
    requires Small(slots)
    ensures |DescriptorsBytes(slots, ssrcOf)| <= SizeBound(slots)
  {
    hide DescriptorBytes, MessageField;
    if |slots| > 0 {
      var slot := slots[|slots| - 1];
      var ssrc := ssrcOf(slot.slotWord);
      RowsSize(slots[..|slots| - 1], ssrcOf);
      DescriptorSize(slot, ssrc);
      MessageSize(DescriptorBytes(slot, ssrc));
    }
  }

  lemma MessageSize(bytes: seq<byte>)
    requires |bytes| < 0x80
    ensures |MessageField(1, bytes)| == |bytes| + 2
  {
    SmallSize(10);
    SmallSize(|bytes|);
  }

  /** Whatever SSRCs are derived, the bytes are one message field per live row, decode
      to the live rows of the table, in order, and fit 96 bytes. */
  lemma DescriptorsRoundTrip(ssrcOf: u32 -> u32)
    ensures ReadFields(StreamDescriptors(ssrcOf)) == Some(RowFields(SLOTS, ssrcOf))
    ensures Decode(StreamDescriptors(ssrcOf)) == Some(LiveRows(SLOTS, ssrcOf))
    ensures |StreamDescriptors(ssrcOf)| <= 96
  {
    hide DescriptorsBytes, ReadDescriptors, LiveRows, ReadFields, RowFields, SizeBound;
    ReadNothing();
    RowsRead(SLOTS, ssrcOf, []);
    RowsMean(SLOTS, ssrcOf);
    RowsSize(SLOTS, ssrcOf);
    TableSize();
    assert StreamDescriptors(ssrcOf) + [] == StreamDescriptors(ssrcOf);
    assert RowFields(SLOTS, ssrcOf) + [] == RowFields(SLOTS, ssrcOf);
  }

  /** The table has every stream with every sub-type, in that order, and gives each
      pair a slot word of its own: 0 to 8. */
  lemma SlotTable()
    ensures |SLOTS| == 9
    ensures forall k :: 0 <= k < 9 ==> SLOTS[k].streamIndex == k / 3 && SLOTS[k].subType == k % 3
    ensures seq(9, k requires 0 <= k < 9 => SLOTS[k].slotWord) == [0, 1, 4, 2, 3, 5, 7, 8, 6]
  {}

  lemma TableSize()
    ensures SizeBound(SLOTS) == 96
  {
    var s := SLOTS;
    assert SizeBound(s[..0]) == 0;
    assert s[..1][..0] == s[..0] && SizeBound(s[..1]) == 8;
    assert s[..2][..1] == s[..1] && SizeBound(s[..2]) == 18;
    assert s[..3][..2] == s[..2] && SizeBound(s[..3]) == 28;
    assert s[..4][..3] == s[..3] && SizeBound(s[..4]) == 38;
    assert s[..5][..4] == s[..4] && SizeBound(s[..5]) == 50;
    assert s[..6][..5] == s[..5] && SizeBound(s[..6]) == 62;
    assert s[..7][..6] == s[..6] && SizeBound(s[..7]) == 72;
    assert s[..8][..7] == s[..7] && SizeBound(s[..8]) == 84;
  }
}
