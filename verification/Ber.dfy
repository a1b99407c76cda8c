/** The tag-length-value layer of simulator/snmp.py (section 8.1.3 of ITU-T X.690).
    Python's bit operations on non-negative integers are written arithmetically:
    `x & 0x7F` is x % 128, `x >> 8` is x / 256, `x & 0xFF` is x % 256. */
module Ber {
  import opened Basics

  /** The triple `parse_tlv` returns; tag and value are None when the data is exhausted. */
  datatype Field = Field(tag: Option<byte>, value: Option<bytes>, next: nat)

  /** `parse_tlv`. A length octet missing after the tag is an IndexError; a value cut short by the end of
      the data is returned short, with the offset its header announced. */
  function ParseTlv(data: bytes, offset: nat): (r: Outcome<Field>)
    ensures r.Done? && r.value.tag.Some? <==> offset + 1 < |data|
    ensures r.Done? && r.value.tag.None? <==> offset >= |data|
    ensures r.Done? ==> (r.value.tag.Some? <==> r.value.value.Some?)
    ensures r.Done? && r.value.tag.Some? ==> r.value.next >= offset + 2
    ensures r.Done? && r.value.tag.None? ==> r.value.next == offset
  {
    if offset >= |data| then Done(Field(None, None, offset))
    else if offset + 1 >= |data| then Raises
    else
      var first := data[offset + 1];
      var start := if first > 127 then offset + 2 + first % 128 else offset + 2;
      var length := if first > 127 then FromBytes(Slice(data, offset + 2, start)) else first;
      Done(Field(Some(data[offset]), Some(Slice(data, start, start + length)), start + length))
  }

  /** `encode_len`: a length of 65536 or more does not fit the third octet and is a ValueError. */
  function EncodeLen(length: nat): (r: Outcome<bytes>)
    ensures r.Done? <==> length < 65536
  {
    if length < 128 then Done([length])
    else if length < 256 then Done([0x81, length])
    else if length / 256 < 256 then Done([0x82, length / 256, length % 256])
    else Raises
  }

  /** `bytes([tag]) + encode_len(len(value)) + value`. */
  function EncodeTlv(tag: byte, value: bytes): Outcome<bytes> {
    var length :- EncodeLen(|value|);
    Done([tag] + length + value)
  }

  /** The octets of a field with this many value octets. */
  function TlvSize(length: nat): (size: nat)
    ensures size > length
  {
    length + if length < 128 then 2 else if length < 256 then 3 else 4
  }

  /** A field can be printed exactly if its value is shorter than 65536 octets, and then has this size. */
  lemma EncodeTlvDomain(tag: byte, value: bytes)
    ensures EncodeTlv(tag, value).Done? <==> |value| < 65536
    ensures EncodeTlv(tag, value).Done? ==> |EncodeTlv(tag, value).value| == TlvSize(|value|)
  {
  }

  lemma TwoOctets(hi: byte, lo: byte)
    ensures FromBytes([hi, lo]) == hi * 256 + lo
    ensures FromBytes([lo]) == lo
  {
    var one, two, low: bytes := [hi], [hi, lo], [lo];
    assert one[..0] == [] && low[..0] == [] && two[..1] == one;
    assert FromBytes([]) == 0;
    assert FromBytes(one) == hi && FromBytes(low) == lo;
  }

  /** Parsing inverts printing in any context: whatever surrounds the field, exactly its tag and value come
      back, with the offset of the first octet after it. */
  lemma TlvInContext(before: bytes, tag: byte, value: bytes, after: bytes)
    requires |value| < 65536
    ensures EncodeTlv(tag, value).Done?
    ensures ParseTlv(before + EncodeTlv(tag, value).value + after, |before|)
         == Done(Field(Some(tag), Some(value), |before + EncodeTlv(tag, value).value|))
  {
    hide FromBytes;
    var length := EncodeLen(|value|).value;
    var field := EncodeTlv(tag, value).value;
    var data := before + field + after;
    var offset := |before|;
    var start := offset + 1 + |length|;
    assert data == before + ([tag] + (length + (value + after)));
    assert data[offset] == tag;
    assert forall i :: 0 <= i < |length| ==> data[offset + 1 + i] == length[i];
    assert data[start..start + |value|] == value;
    if |value| >= 256 {
      assert data[offset + 2..offset + 4] == [length[1], length[2]];
      TwoOctets(length[1], length[2]);
    } else if |value| >= 128 {
      assert data[offset + 2..offset + 3] == [length[1]];
      TwoOctets(0, length[1]);
    }
  }

  /** The reader takes any definite long form, also those the printer never writes: up to 127 length octets. */
  lemma LongForm(data: bytes, offset: nat, n: nat)
    requires n < 128 && offset + 2 + n <= |data| && data[offset + 1] == 128 + n
    requires var length := FromBytes(data[offset + 2..offset + 2 + n]); offset + 2 + n + length <= |data|
    ensures var start := offset + 2 + n;
            var end := start + FromBytes(data[offset + 2..start]);
            ParseTlv(data, offset) == Done(Field(Some(data[offset]), Some(data[start..end]), end))
  {
    hide FromBytes;
  }

  /** A value cut short by the end of the data is read as far as it goes, with the offset its header announced. */
  lemma CutShort(data: bytes, offset: nat)
    requires offset + 1 < |data| && data[offset + 1] < 128 && offset + 2 + data[offset + 1] > |data|
    ensures ParseTlv(data, offset)
         == Done(Field(Some(data[offset]), Some(data[offset + 2..]), offset + 2 + data[offset + 1]))
  {
    assert data[offset + 2..] == data[offset + 2..|data|];
  }

  /** What `parse_tlv` answers for a whole field whose successor starts at `next`. */
  function Whole(tag: byte, value: bytes, next: nat): Outcome<Field> {
    Done(Field(Some(tag), Some(value), next))
  }

  /** A field at the start of the data. */
  lemma FirstField(tag: byte, value: bytes, after: bytes)
    requires EncodeTlv(tag, value).Done?
    ensures var e := EncodeTlv(tag, value).value;
            ParseTlv(e + after, 0) == Whole(tag, value, |e|)
  {
    hide ParseTlv, EncodeLen;
    var e := EncodeTlv(tag, value).value;
    TlvInContext([], tag, value, after);
    assert [] + e + after == e + after && [] + e == e;
  }

  /** No encoded field is a proper prefix of another: equal texts that start with fields start with the same field. */
  lemma TlvPrefixFree(tag1: byte, value1: bytes, rest1: bytes, tag2: byte, value2: bytes, rest2: bytes)
    requires |value1| < 65536 && |value2| < 65536
    requires EncodeTlv(tag1, value1).value + rest1 == EncodeTlv(tag2, value2).value + rest2
    ensures tag1 == tag2 && value1 == value2 && rest1 == rest2
  {
    EncodeTlvDomain(tag1, value1);
    EncodeTlvDomain(tag2, value2);
    hide ParseTlv, EncodeTlv;
    var e1, e2 := EncodeTlv(tag1, value1).value, EncodeTlv(tag2, value2).value;
    FirstField(tag1, value1, rest1);
    FirstField(tag2, value2, rest2);
    assert |e1| == |e2|;
    assert rest1 == (e1 + rest1)[|e1|..] && rest2 == (e2 + rest2)[|e2|..];
  }
}
