/** Requests and responses of simulator/snmp.py: the message wrapper of section 3 of RFC 1901 around the PDU of
    section 3 of RFC 3416. */
module SnmpMessage {
  import opened Basics
  import opened Ber
  import opened Oid

  const INTEGER: byte := 0x02
  const OCTET_STRING: byte := 0x04
  const SEQUENCE: byte := 0x30
  const GET: byte := 0xa0
  const GET_NEXT: byte := 0xa1
  const RESPONSE: byte := 0xa2
  const SET: byte := 0xa3

  datatype Varbind = Varbind(oid: string, tag: Option<byte>, data: Option<bytes>)

  /** The tuple `unpack_snmp_request` returns. */
  datatype Request = Request(version: Option<bytes>, community: Option<bytes>, pduTag: byte,
                             requestId: Option<bytes>, varbind: Varbind)

  predicate IsRequestTag(tag: byte) {
    tag == GET || tag == GET_NEXT || tag == SET
  }

  /** `parse_tlv(x, offset)` where x may be None: `len(None)` is a TypeError. */
  function ParseIn(x: Option<bytes>, offset: nat): Outcome<Field> {
    if x.None? then Raises else ParseTlv(x.value, offset)
  }

  function UnpackVarbind(content: Option<bytes>): Outcome<Varbind> {
    var oid :- ParseIn(content, 0);
    var val :- ParseIn(content, oid.next);
    var text := if oid.value.None? then "" else DecodeOidText(oid.value.value);
    Done(Varbind(text, val.tag, val.value))
  }

  /** The request id and the first varbind; error status and error index are skipped. */
  function UnpackPdu(content: Option<bytes>): (r: Outcome<(Option<bytes>, Varbind)>)
    ensures r.Done? ==> r.value.0.Some?
  {
    var id :- ParseIn(content, 0);
    var status :- ParseIn(content, id.next);
    var index :- ParseIn(content, status.next);
    var list :- ParseIn(content, index.next);
    var first :- ParseIn(list.value, 0);
    var varbind :- UnpackVarbind(first.value);
    Done((id.value, varbind))
  }

  /** Version, community and PDU inside the outer sequence. */
  function UnpackContent(content: Option<bytes>): (r: Outcome<Option<Request>>)
    ensures r.Done? && r.value.Some? ==>
              var q := r.value.value;
              q.version.Some? && q.community.Some? && q.requestId.Some? && IsRequestTag(q.pduTag)
  {
    var version :- ParseIn(content, 0);
    var community :- ParseIn(content, version.next);
    var pdu :- ParseIn(content, community.next);
    if pdu.tag.None? || !IsRequestTag(pdu.tag.value) then Done(None)
    else
      var body :- UnpackPdu(pdu.value);
      Done(Some(Request(version.value, community.value, pdu.tag.value, body.0, body.1)))
  }

  /** `unpack_snmp_request`: None for anything that is not a request, an exception for a malformed one.
      Whatever it accepts has a version, a community and a request id. */
  function Unpack(data: bytes): (r: Outcome<Option<Request>>)
    ensures r.Done? && r.value.Some? ==>
              var q := r.value.value;
              q.version.Some? && q.community.Some? && q.requestId.Some? && IsRequestTag(q.pduTag)
  {
    var message :- ParseTlv(data, 0);
    if message.tag != Some(SEQUENCE) then Done(None) else UnpackContent(message.value)
  }

  /** What is not inside a SEQUENCE is no request, whatever it contains. */
  lemma OtherEnvelope(tag: byte, content: bytes, after: bytes)
    requires tag != 0x30 && |content| < 65536
    ensures EncodeTlv(tag, content).Done? && Unpack(EncodeTlv(tag, content).value + after) == Done(None)
  {
    hide ParseTlv, EncodeTlv;
    EncodeTlvDomain(tag, content);
    FirstField(tag, content, after);
  }

  // ----- building -----

  function EncodeVarbind(oid: string, tag: byte, data: bytes): Outcome<bytes> {
    var value :- EncodeTlv(tag, data);
    var name :- EncodeOidText(oid);
    EncodeTlv(SEQUENCE, name + value)
  }

  /** The content octets of the PDU. */
  function PduContent(requestId: bytes, oid: string, tag: byte, data: bytes): Outcome<bytes> {
    var varbind :- EncodeVarbind(oid, tag, data);
    var list :- EncodeTlv(SEQUENCE, varbind);
    var id :- EncodeTlv(INTEGER, requestId);
    Done(id + [0x02, 0x01, 0x00] + [0x02, 0x01, 0x00] + list)
  }

  /** The nested layout of `build_response_packet`, for any PDU tag. */
  function Encode(pduTag: byte, version: bytes, community: bytes, requestId: bytes,
                  oid: string, tag: byte, data: bytes): Outcome<bytes>
  {
    var content :- PduContent(requestId, oid, tag, data);
    var pdu :- EncodeTlv(pduTag, content);
    var v :- EncodeTlv(INTEGER, version);
    var c :- EncodeTlv(OCTET_STRING, community);
    EncodeTlv(SEQUENCE, v + c + pdu)
  }

  /** `build_response_packet`. */
  function BuildResponse(version: bytes, community: bytes, requestId: bytes,
                         oid: string, tag: byte, data: bytes): Outcome<bytes>
  {
    Encode(RESPONSE, version, community, requestId, oid, tag, data)
  }

  // ----- when it can be built -----

  /** The content octets of the outer sequence, from the lengths of the fields. */
  function ContentSize(version: nat, community: nat, requestId: nat, oid: nat, data: nat): nat {
    var varbind := TlvSize(oid) + TlvSize(data);
    var pdu := TlvSize(requestId) + 6 + TlvSize(TlvSize(varbind));
    TlvSize(version) + TlvSize(community) + TlvSize(pdu)
  }

  /** What a caller can check beforehand: the identifier parses, its first octet fits, and the outermost content is
      shorter than 65536 octets. */
  predicate Encodable(version: bytes, community: bytes, requestId: bytes, oid: string, data: bytes): (encodable: bool)
    ensures encodable ==> EncodeOidText(oid).Done?
  {
    EncodeOidTextDomain(oid);
    && ArcsOf(oid).Done? && FirstOctetFits(ArcsOf(oid).value)
    && ContentSize(|version|, |community|, |requestId|, OidSize(ArcsOf(oid).value), |data|) < 65536
  }

  lemma VarbindDomain(oid: string, tag: byte, data: bytes)
    ensures var octets := if ArcsOf(oid).Done? then TlvSize(OidSize(ArcsOf(oid).value)) + TlvSize(|data|) else 0;
            && (EncodeVarbind(oid, tag, data).Done? <==>
                  ArcsOf(oid).Done? && FirstOctetFits(ArcsOf(oid).value) && octets < 65536)
            && (EncodeVarbind(oid, tag, data).Done? ==> |EncodeVarbind(oid, tag, data).value| == TlvSize(octets))
  {
    hide EncodeTlv, EncodeOidText, ArcsOf, FirstOctetFits, OidSize;
    EncodeOidTextDomain(oid);
    EncodeTlvDomain(tag, data);
    if EncodeOidText(oid).Done? && EncodeTlv(tag, data).Done? {
      EncodeTlvDomain(SEQUENCE, EncodeOidText(oid).value + EncodeTlv(tag, data).value);
    }
  }

  lemma PduDomain(requestId: bytes, oid: string, tag: byte, data: bytes)
    ensures PduContent(requestId, oid, tag, data).Done? <==>
              EncodeVarbind(oid, tag, data).Done? && |EncodeVarbind(oid, tag, data).value| < 65536
              && |requestId| < 65536
    ensures PduContent(requestId, oid, tag, data).Done? ==>
              |PduContent(requestId, oid, tag, data).value|
              == TlvSize(|requestId|) + 6 + TlvSize(|EncodeVarbind(oid, tag, data).value|)
  {
    hide EncodeTlv, EncodeVarbind;
    EncodeTlvDomain(INTEGER, requestId);
    if EncodeVarbind(oid, tag, data).Done? { EncodeTlvDomain(SEQUENCE, EncodeVarbind(oid, tag, data).value); }
  }

  lemma OuterDomain(pduTag: byte, version: bytes, community: bytes, requestId: bytes,
                    oid: string, tag: byte, data: bytes)
    ensures Encode(pduTag, version, community, requestId, oid, tag, data).Done? <==>
              PduContent(requestId, oid, tag, data).Done? &&
              TlvSize(|version|) + TlvSize(|community|) + TlvSize(|PduContent(requestId, oid, tag, data).value|) < 65536
  {
    hide EncodeTlv, PduContent;
    EncodeTlvDomain(INTEGER, version);
    EncodeTlvDomain(OCTET_STRING, community);
    if PduContent(requestId, oid, tag, data).Done? {
      EncodeTlvDomain(pduTag, PduContent(requestId, oid, tag, data).value);
      if EncodeTlv(pduTag, PduContent(requestId, oid, tag, data).value).Done?
         && EncodeTlv(INTEGER, version).Done? && EncodeTlv(OCTET_STRING, community).Done? {
        EncodeTlvDomain(SEQUENCE, EncodeTlv(INTEGER, version).value + EncodeTlv(OCTET_STRING, community).value
                                  + EncodeTlv(pduTag, PduContent(requestId, oid, tag, data).value).value);
      }
    }
  }

  /** The exact domain of the printer, for any PDU tag. */
  lemma EncodeDomain(pduTag: byte, version: bytes, community: bytes, requestId: bytes,
                     oid: string, tag: byte, data: bytes)
    ensures Encode(pduTag, version, community, requestId, oid, tag, data).Done? <==>
              Encodable(version, community, requestId, oid, data)
    ensures Encodable(version, community, requestId, oid, data) ==> EncodeOidText(oid).Done?
  {
    hide Encode, PduContent, EncodeVarbind, ArcsOf, FirstOctetFits, OidSize, EncodeOidText;
    OuterDomain(pduTag, version, community, requestId, oid, tag, data);
    PduDomain(requestId, oid, tag, data);
    VarbindDomain(oid, tag, data);
    EncodeOidTextDomain(oid);
  }

  // ----- round trip -----

  /** What the receiver reads for an OID the sender wrote. */
  function OidAsReceived(oid: string): string
    requires EncodeOidText(oid).Done?
  {
    DecodeOidText(OidValue(ArcsOf(oid).value).value)
  }

  /** Two fields in a row read back as written, each handing over to the next. */
  lemma FieldsInARow(tag1: byte, value1: bytes, tag2: byte, value2: bytes, rest: bytes)
    requires EncodeTlv(tag1, value1).Done? && EncodeTlv(tag2, value2).Done?
    ensures var e1, e2 := EncodeTlv(tag1, value1).value, EncodeTlv(tag2, value2).value;
            && ParseTlv(e1 + e2 + rest, 0) == Whole(tag1, value1, |e1|)
            && ParseTlv(e1 + e2 + rest, |e1|) == Whole(tag2, value2, |e1| + |e2|)
  {
    hide ParseTlv, EncodeLen;
    var e1, e2 := EncodeTlv(tag1, value1).value, EncodeTlv(tag2, value2).value;
    TlvInContext([], tag1, value1, e2 + rest);
    assert [] + e1 + (e2 + rest) == e1 + e2 + rest;
    assert [] + e1 == e1;
    TlvInContext(e1, tag2, value2, rest);
  }

  /** A field behind any prefix, with nothing after it. */
  lemma LastField(before: bytes, tag: byte, value: bytes)
    requires EncodeTlv(tag, value).Done?
    ensures var e := EncodeTlv(tag, value).value;
            ParseTlv(before + e, |before|) == Whole(tag, value, |before| + |e|)
  {
    var e := EncodeTlv(tag, value).value;
    TlvInContext(before, tag, value, []);
    assert before + e + [] == before + e;
  }

  lemma VarbindRoundTrip(oid: string, tag: byte, data: bytes)
    requires EncodeVarbind(oid, tag, data).Done?
    ensures EncodeOidText(oid).Done? && EncodeTlv(tag, data).Done?
    ensures UnpackVarbind(Some(EncodeOidText(oid).value + EncodeTlv(tag, data).value))
         == Done(Varbind(OidAsReceived(oid), Some(tag), Some(data)))
  {
    var name, value := EncodeOidText(oid).value, EncodeTlv(tag, data).value;
    FirstField(0x06, OidValue(ArcsOf(oid).value).value, value);
    LastField(name, tag, data);
  }

  lemma ZeroField()
    ensures EncodeTlv(INTEGER, [0]) == Done([0x02, 0x01, 0x00])
  {
    assert EncodeTlv(INTEGER, [0]).value == [0x02, 0x01, 0x00];
  }

  lemma PduFields(requestId: bytes, varbind: bytes)
    requires EncodeTlv(INTEGER, requestId).Done? && EncodeTlv(SEQUENCE, varbind).Done?
    ensures var id, list := EncodeTlv(INTEGER, requestId).value, EncodeTlv(SEQUENCE, varbind).value;
            var content := id + [0x02, 0x01, 0x00] + [0x02, 0x01, 0x00] + list;
            && ParseTlv(content, 0) == Whole(INTEGER, requestId, |id|)
            && ParseTlv(content, |id|) == Whole(INTEGER, [0], |id| + 3)
            && ParseTlv(content, |id| + 3) == Whole(INTEGER, [0], |id| + 6)
            && ParseTlv(content, |id| + 6) == Whole(SEQUENCE, varbind, |content|)
  {
    hide ParseTlv, EncodeTlv, EncodeLen;
    var id, list := EncodeTlv(INTEGER, requestId).value, EncodeTlv(SEQUENCE, varbind).value;
    var zero: bytes := [0x02, 0x01, 0x00];
    var content := id + zero + zero + list;
    ZeroField();
    FieldsInARow(INTEGER, requestId, INTEGER, [0], zero + list);
    assert id + zero + (zero + list) == content;
    TlvInContext(id + zero, INTEGER, [0], list);
    LastField(id + zero + zero, SEQUENCE, varbind);
  }

  lemma PduRoundTrip(requestId: bytes, oid: string, tag: byte, data: bytes)
    requires PduContent(requestId, oid, tag, data).Done?
    ensures EncodeOidText(oid).Done?
    ensures UnpackPdu(Some(PduContent(requestId, oid, tag, data).value))
         == Done((Some(requestId), Varbind(OidAsReceived(oid), Some(tag), Some(data))))
  {
    VarbindRoundTrip(oid, tag, data);
    var inner := EncodeOidText(oid).value + EncodeTlv(tag, data).value;
    var varbind := EncodeVarbind(oid, tag, data).value;
    PduFields(requestId, varbind);
    FirstField(SEQUENCE, inner, []);
    assert varbind + [] == varbind;
  }

  lemma ContentFields(tag1: byte, value1: bytes, tag2: byte, value2: bytes, tag3: byte, value3: bytes)
    requires EncodeTlv(tag1, value1).Done? && EncodeTlv(tag2, value2).Done? && EncodeTlv(tag3, value3).Done?
    ensures var e1, e2 := EncodeTlv(tag1, value1).value, EncodeTlv(tag2, value2).value;
            var whole := e1 + e2 + EncodeTlv(tag3, value3).value;
            && ParseTlv(whole, 0) == Whole(tag1, value1, |e1|)
            && ParseTlv(whole, |e1|) == Whole(tag2, value2, |e1| + |e2|)
            && ParseTlv(whole, |e1| + |e2|) == Whole(tag3, value3, |whole|)
  {
    hide ParseTlv, EncodeTlv;
    FieldsInARow(tag1, value1, tag2, value2, EncodeTlv(tag3, value3).value);
    LastField(EncodeTlv(tag1, value1).value + EncodeTlv(tag2, value2).value, tag3, value3);
  }

  /** Unpacking depends only on the three fields found. */
  lemma UnpackFields(whole: bytes, f1: Field, f2: Field, f3: Field, body: (Option<bytes>, Varbind))
    requires ParseTlv(whole, 0) == Done(f1)
    requires ParseTlv(whole, f1.next) == Done(f2)
    requires ParseTlv(whole, f2.next) == Done(f3)
    requires f3.tag.Some? && UnpackPdu(f3.value) == Done(body)
    ensures UnpackContent(Some(whole))
         == Done(if IsRequestTag(f3.tag.value)
                 then Some(Request(f1.value, f2.value, f3.tag.value, body.0, body.1))
                 else None)
  {
  }

  lemma ContentRoundTrip(pduTag: byte, version: bytes, community: bytes, content: bytes,
                         body: (Option<bytes>, Varbind), whole: bytes)
    requires EncodeTlv(INTEGER, version).Done? && EncodeTlv(OCTET_STRING, community).Done?
    requires EncodeTlv(pduTag, content).Done? && UnpackPdu(Some(content)) == Done(body)
    requires whole == EncodeTlv(INTEGER, version).value + EncodeTlv(OCTET_STRING, community).value
                      + EncodeTlv(pduTag, content).value
    ensures UnpackContent(Some(whole))
         == Done(if IsRequestTag(pduTag)
                 then Some(Request(Some(version), Some(community), pduTag, body.0, body.1))
                 else None)
  {
    hide UnpackPdu, ParseTlv, EncodeTlv, UnpackContent;
    var v, c := EncodeTlv(INTEGER, version).value, EncodeTlv(OCTET_STRING, community).value;
    ContentFields(INTEGER, version, OCTET_STRING, community, pduTag, content);
    UnpackFields(whole, Field(Some(INTEGER), Some(version), |v|),
                 Field(Some(OCTET_STRING), Some(community), |v| + |c|),
                 Field(Some(pduTag), Some(content), |whole|), body);
  }

  /** Any message that can be built in the response layout, with anything after it in the datagram, unpacks to exactly
      the fields it was built from if its PDU tag is a request tag, and to None otherwise. */
  lemma MessageRoundTrip(pduTag: byte, version: bytes, community: bytes, requestId: bytes,
                         oid: string, tag: byte, data: bytes, trailing: bytes)
    requires Encodable(version, community, requestId, oid, data)
    ensures EncodeOidText(oid).Done? && Encode(pduTag, version, community, requestId, oid, tag, data).Done?
    ensures Unpack(Encode(pduTag, version, community, requestId, oid, tag, data).value + trailing)
         == Done(if IsRequestTag(pduTag)
                 then Some(Request(Some(version), Some(community), pduTag, Some(requestId),
                                   Varbind(OidAsReceived(oid), Some(tag), Some(data))))
                 else None)
  {
    EncodeDomain(pduTag, version, community, requestId, oid, tag, data);
    var content := PduContent(requestId, oid, tag, data).value;
    PduRoundTrip(requestId, oid, tag, data);
    var whole := EncodeTlv(INTEGER, version).value + EncodeTlv(OCTET_STRING, community).value
                 + EncodeTlv(pduTag, content).value;
    ContentRoundTrip(pduTag, version, community, content,
                     (Some(requestId), Varbind(OidAsReceived(oid), Some(tag), Some(data))), whole);
    FirstField(SEQUENCE, whole, trailing);
  }

  /** An identifier comes back as the same text if and only if it has at least two arcs, the second below 40, and is
      written as the receiver writes it: no dots around, no superfluous zeros. */
  lemma OidSurvives(oid: string)
    requires EncodeOidText(oid).Done?
    ensures OidAsReceived(oid) == oid <==> |ArcsOf(oid).value| >= 2 && ArcsOf(oid).value[1] < 40 && IsCanonicalOid(oid)
  {
    var arcs := ArcsOf(oid).value;
    var value := OidValue(arcs).value;
    hide ArcsOf, EncodeOidText, OidValue;
    ReadAsWritten(oid);
    if OidAsReceived(oid) == oid {
      ArcsOfDotted(DecodeArcs(value));
      DottedIsCanonical(DecodeArcs(value));
    }
    if |arcs| >= 2 {
      OidValueDomain(arcs);
      DecodeOfOidValue(arcs);
    }
    if IsCanonicalOid(oid) { DottedOfArcs(oid); }
  }

  /** What the receiver reads: the arcs of the value octets, as many octets long as the sender's. */
  lemma ReadAsWritten(oid: string)
    requires EncodeOidText(oid).Done?
    ensures ArcsOf(oid).Done? && OidValue(ArcsOf(oid).value).Done? && OidValue(ArcsOf(oid).value).value != []
    ensures OidAsReceived(oid) == Dotted(DecodeArcs(OidValue(ArcsOf(oid).value).value))
  {
    hide ArcsOf, DecodeArcs, Dotted;
  }

  /** The text a receiver reads encodes to the same octets again, and so is received as itself. */
  lemma ReceivedTwice(oid: string)
    requires EncodeOidText(oid).Done?
    ensures var received := OidAsReceived(oid);
            && ArcsOf(received).Done? && FirstOctetFits(ArcsOf(received).value)
            && OidSize(ArcsOf(received).value) == OidSize(ArcsOf(oid).value)
            && EncodeOidText(received) == EncodeOidText(oid)
            && OidAsReceived(received) == received
  {
    var arcs := ArcsOf(oid).value;
    var value := OidValue(arcs).value;
    ReadAsWritten(oid);
    OidValueIsCanonical(arcs);
    OidValueOfDecode(value);
    ArcsOfDotted(DecodeArcs(value));
    OidValueDomain(arcs);
    OidValueDomain(DecodeArcs(value));
  }

  /** On the wire 2.40 and 3.0 are the same identifier, and both are received as 3.0. */
  lemma SameOnTheWireExample()
    ensures EncodeOidText(Dotted([2, 40])).Done? && EncodeOidText(Dotted([3, 0])).Done?
    ensures OidAsReceived(Dotted([2, 40])) == Dotted([3, 0]) == OidAsReceived(Dotted([3, 0]))
  {
    hide Dotted, EncodeOidText, ArcsOf, DecodeArcs, OidAsReceived;
    var arcs, others: seq<nat> := [2, 40], [3, 0];
    SecondArcExample();
    assert arcs[2..] == [] && others[2..] == [];
    ArcsOfDotted(arcs);
    ArcsOfDotted(others);
    EncodeOidTextDomain(Dotted(arcs));
    EncodeOidTextDomain(Dotted(others));
    ReadAsWritten(Dotted(arcs));
    ReadAsWritten(Dotted(others));
  }

  /** A reply is never taken for a request. */
  lemma ResponseIsNoRequest(version: bytes, community: bytes, requestId: bytes,
                            oid: string, tag: byte, data: bytes, trailing: bytes)
    requires Encodable(version, community, requestId, oid, data)
    ensures BuildResponse(version, community, requestId, oid, tag, data).Done?
    ensures Unpack(BuildResponse(version, community, requestId, oid, tag, data).value + trailing) == Done(None)
  {
    MessageRoundTrip(RESPONSE, version, community, requestId, oid, tag, data, trailing);
  }

  /** The fields inside the outer sequence can be told apart. */
  lemma ContentInjective(v1: bytes, c1: bytes, tag1: byte, p1: bytes, v2: bytes, c2: bytes, tag2: byte, p2: bytes)
    requires |v1| < 65536 && |c1| < 65536 && |p1| < 65536 && |v2| < 65536 && |c2| < 65536 && |p2| < 65536
    requires EncodeTlv(INTEGER, v1).value + EncodeTlv(OCTET_STRING, c1).value + EncodeTlv(tag1, p1).value
          == EncodeTlv(INTEGER, v2).value + EncodeTlv(OCTET_STRING, c2).value + EncodeTlv(tag2, p2).value
    ensures v1 == v2 && c1 == c2 && tag1 == tag2 && p1 == p2
  {
    EncodeTlvDomain(INTEGER, v1);
    EncodeTlvDomain(INTEGER, v2);
    EncodeTlvDomain(OCTET_STRING, c1);
    EncodeTlvDomain(OCTET_STRING, c2);
    EncodeTlvDomain(tag1, p1);
    EncodeTlvDomain(tag2, p2);
    hide EncodeTlv;
    var i1, i2 := EncodeTlv(INTEGER, v1).value, EncodeTlv(INTEGER, v2).value;
    var o1, o2 := EncodeTlv(OCTET_STRING, c1).value, EncodeTlv(OCTET_STRING, c2).value;
    var u1, u2 := EncodeTlv(tag1, p1).value, EncodeTlv(tag2, p2).value;
    assert i1 + (o1 + u1) == i1 + o1 + u1 && i2 + (o2 + u2) == i2 + o2 + u2;
    TlvPrefixFree(INTEGER, v1, o1 + u1, INTEGER, v2, o2 + u2);
    TlvPrefixFree(OCTET_STRING, c1, u1, OCTET_STRING, c2, u2);
    assert u1 + [] == u1 && u2 + [] == u2;
    TlvPrefixFree(tag1, p1, [], tag2, p2, []);
  }

  /** Two messages with the same octets, whatever their PDU tags, were built from the same fields (the OID up to how it
      is received). */
  lemma MessageInjective(pduTag1: byte, v1: bytes, c1: bytes, id1: bytes, oid1: string, tag1: byte, data1: bytes,
                         pduTag2: byte, v2: bytes, c2: bytes, id2: bytes, oid2: string, tag2: byte, data2: bytes)
    requires Encodable(v1, c1, id1, oid1, data1)
    requires Encode(pduTag1, v1, c1, id1, oid1, tag1, data1) == Encode(pduTag2, v2, c2, id2, oid2, tag2, data2)
    ensures EncodeOidText(oid1).Done? && EncodeOidText(oid2).Done?
    ensures (pduTag1, v1, c1, id1, tag1, data1) == (pduTag2, v2, c2, id2, tag2, data2)
    ensures OidAsReceived(oid1) == OidAsReceived(oid2)
  {
    EncodeDomain(pduTag1, v1, c1, id1, oid1, tag1, data1);
    EncodeDomain(pduTag2, v2, c2, id2, oid2, tag2, data2);
    hide PduContent, Encodable, EncodeOidText, OidAsReceived, UnpackPdu, EncodeTlv;
    var p1, p2 := PduContent(id1, oid1, tag1, data1).value, PduContent(id2, oid2, tag2, data2).value;
    OuterFieldsShort(pduTag1, v1, c1, id1, oid1, tag1, data1);
    OuterFieldsShort(pduTag2, v2, c2, id2, oid2, tag2, data2);
    var whole1 := EncodeTlv(INTEGER, v1).value + EncodeTlv(OCTET_STRING, c1).value + EncodeTlv(pduTag1, p1).value;
    var whole2 := EncodeTlv(INTEGER, v2).value + EncodeTlv(OCTET_STRING, c2).value + EncodeTlv(pduTag2, p2).value;
    assert EncodeTlv(SEQUENCE, whole1).value + [] == EncodeTlv(SEQUENCE, whole2).value + [];
    TlvPrefixFree(SEQUENCE, whole1, [], SEQUENCE, whole2, []);
    ContentInjective(v1, c1, pduTag1, p1, v2, c2, pduTag2, p2);
    PduRoundTrip(id1, oid1, tag1, data1);
    PduRoundTrip(id2, oid2, tag2, data2);
  }

  /** In a message that can be built every field is short enough. */
  lemma OuterFieldsShort(pduTag: byte, version: bytes, community: bytes, requestId: bytes,
                         oid: string, tag: byte, data: bytes)
    requires Encode(pduTag, version, community, requestId, oid, tag, data).Done?
    ensures |version| < 65536 && |community| < 65536 && PduContent(requestId, oid, tag, data).Done?
    ensures |PduContent(requestId, oid, tag, data).value| < 65536
    ensures var p := PduContent(requestId, oid, tag, data).value;
            && EncodeTlv(INTEGER, version).Done? && EncodeTlv(OCTET_STRING, community).Done?
            && EncodeTlv(pduTag, p).Done?
            && var whole := EncodeTlv(INTEGER, version).value + EncodeTlv(OCTET_STRING, community).value
                            + EncodeTlv(pduTag, p).value;
               |whole| < 65536
               && Encode(pduTag, version, community, requestId, oid, tag, data) == EncodeTlv(SEQUENCE, whole)
  {
    hide EncodeTlv, PduContent;
    var p := PduContent(requestId, oid, tag, data).value;
    EncodeTlvDomain(INTEGER, version);
    EncodeTlvDomain(OCTET_STRING, community);
    EncodeTlvDomain(pduTag, p);
    EncodeTlvDomain(SEQUENCE, EncodeTlv(INTEGER, version).value + EncodeTlv(OCTET_STRING, community).value
                              + EncodeTlv(pduTag, p).value);
  }
}
