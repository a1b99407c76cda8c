/** SNMP fields and packets of simulator/snmp.py written out octet by octet. */
module KnownPackets {
  import opened Basics
  import opened Text
  import opened Ber
  import opened Oid
  import opened SnmpMessage

  /** Lengths below 128 take one octet, lengths below 256 two, and longer ones three, the high octet first. */
  lemma KnownLengths()
    ensures EncodeLen(5) == Done([0x05]) && EncodeLen(127) == Done([0x7f])
    ensures EncodeLen(200) == Done([0x81, 0xc8])
    ensures EncodeLen(300) == Done([0x82, 0x01, 0x2c])
  {
  }

  /** The arcs of the simulator's enterprise. */
  const ENTERPRISE: seq<nat> := [1, 3, 6, 1, 4, 1, 28866]

  const ENTERPRISE_OCTETS: bytes := [0x2b, 0x06, 0x01, 0x04, 0x01, 0x81, 0xe1, 0x42]

  lemma {:induction false} OneOctetArc(p: nat, rest: seq<nat>)
    requires p < 128
    ensures EncodeArcs([p] + rest) == [p] + EncodeArcs(rest)
  {
    assert EncodeArc(p) == [p];
    assert ([p] + rest)[1..] == rest;
  }

  lemma LongArc()
    ensures EncodeArcs([28866]) == [0x81, 0xe1, 0x42]
  {
    var arcs: seq<nat> := [28866];
    assert arcs[1..] == [] && EncodeArcs([]) == [];
    assert Septets(1) == [0x81];
    assert Septets(225) == [0x81, 0xe1];
  }

  lemma KnownOctets()
    ensures OidValue(ENTERPRISE) == Done(ENTERPRISE_OCTETS)
  {
    var tail: seq<nat> := [28866];
    LongArc();
    hide EncodeArcs;
    OneOctetArc(1, tail);
    OneOctetArc(4, [1] + tail);
    OneOctetArc(1, [4] + ([1] + tail));
    OneOctetArc(6, [1] + ([4] + ([1] + tail)));
    assert ENTERPRISE[2..] == [6] + ([1] + ([4] + ([1] + tail)));
    var octets: bytes := [0x06, 0x01, 0x04, 0x01, 0x81, 0xe1, 0x42];
    assert EncodeArcs(ENTERPRISE[2..]) == octets;
    assert ENTERPRISE_OCTETS == [0x2b] + octets;
  }

  /** Printed arcs are separated by dots. */
  lemma {:induction false} KnownText(first: nat, rest: seq<nat>)
    requires rest != []
    ensures Dotted([first] + rest) == Decimal(first) + "." + Dotted(rest) && Dotted([first]) == Decimal(first)
  {
    hide Decimal;
    var arcs := [first] + rest;
    assert Decimals(arcs)[0] == Decimal(first) && Decimals(arcs)[1..] == Decimals(rest);
  }

  lemma ShortField(tag: byte, value: bytes)
    requires |value| < 128
    ensures EncodeTlv(tag, value) == Done([tag, |value|] + value)
  {
    var header: bytes := [tag, |value|];
    assert [tag] + [|value|] == header;
  }

  lemma ShortVarbind(tag: byte, data: bytes)
    requires |data| < 90
    ensures EncodeVarbind(Dotted(ENTERPRISE), tag, data) ==
            Done([0x30, |data| + 12] + ([0x06, 0x08] + ENTERPRISE_OCTETS + ([tag, |data|] + data)))
  {
    hide ArcsOf, OidValue, Dotted, EncodeTlv;
    ArcsOfDotted(ENTERPRISE);
    KnownOctets();
    ShortField(0x06, ENTERPRISE_OCTETS);
    ShortField(tag, data);
    ShortField(0x30, [0x06, 0x08] + ENTERPRISE_OCTETS + ([tag, |data|] + data));
  }

  lemma ShortPdu(requestId: bytes, tag: byte, data: bytes)
    requires |requestId| + |data| < 90
    ensures PduContent(requestId, Dotted(ENTERPRISE), tag, data) ==
            Done([0x02, |requestId|] + requestId + [0x02, 0x01, 0x00] + [0x02, 0x01, 0x00]
                 + ([0x30, |data| + 14]
                    + ([0x30, |data| + 12] + ([0x06, 0x08] + ENTERPRISE_OCTETS + ([tag, |data|] + data)))))
  {
    hide EncodeVarbind, EncodeTlv, Dotted;
    ShortVarbind(tag, data);
    ShortField(0x30, EncodeVarbind(Dotted(ENTERPRISE), tag, data).value);
    ShortField(0x02, requestId);
  }

  /** The whole layout of a request or response for an object of that enterprise, with fields short enough to have one
      length octet each. */
  lemma ShortLayout(pduTag: byte, version: bytes, community: bytes, requestId: bytes, tag: byte, data: bytes)
    requires |version| + |community| + |requestId| + |data| < 90
    ensures var pdu := [0x02, |requestId|] + requestId + [0x02, 0x01, 0x00] + [0x02, 0x01, 0x00]
                       + ([0x30, |data| + 14]
                          + ([0x30, |data| + 12] + ([0x06, 0x08] + ENTERPRISE_OCTETS + ([tag, |data|] + data))));
            Encode(pduTag, version, community, requestId, Dotted(ENTERPRISE), tag, data) ==
            Done([0x30, |version| + |community| + |requestId| + |data| + 30]
                 + ([0x02, |version|] + version + ([0x04, |community|] + community)
                    + ([pduTag, |requestId| + |data| + 24] + pdu)))
    ensures BuildResponse(version, community, requestId, Dotted(ENTERPRISE), tag, data) ==
            Encode(0xa2, version, community, requestId, Dotted(ENTERPRISE), tag, data)
  {
    hide PduContent, EncodeTlv, Dotted;
    ShortPdu(requestId, tag, data);
    var pdu := PduContent(requestId, Dotted(ENTERPRISE), tag, data).value;
    ShortField(pduTag, pdu);
    ShortField(0x02, version);
    ShortField(0x04, community);
    ShortField(0x30, [0x02, |version|] + version + ([0x04, |community|] + community)
                     + ([pduTag, |requestId| + |data| + 24] + pdu));
  }
}
