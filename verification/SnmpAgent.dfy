/** The OID store of simulator/snmp.py and the packets that read and write it. */
module SnmpAgent {
  import opened Basics
  import opened Ber
  import opened Oid
  import opened SnmpMessage
  import opened IntegerOctets

  /** An entry of `default_value_map`. */
  datatype Stored = IntegerValue(n: int) | TextValue(s: string)

  /** What the interpreter brings: its UTF-8 coding with errors='ignore', and the integers whose decimal text `str`
      agrees to build (by default those of at most 4300 digits). */
  datatype Python = Python(decode: bytes -> string, encode: string -> bytes, prints: int -> bool)

  type Store = map<string, Stored>

  /** What `process_set_request` saves. */
  function SavedBy(py: Python, tag: Option<byte>, data: Option<bytes>): (saved: Outcome<Stored>)
    ensures saved.Raises? <==> data.None?
  {
    if data.None? then Raises
    else if tag == Some(INTEGER) then Done(IntegerValue(FromBytes(data.value)))
    else Done(TextValue(py.decode(data.value)))
  }

  /** `oid_str.endswith(".0")`. */
  predicate EndsInZero(oid: string) {
    |oid| >= 2 && oid[|oid| - 2..] == ".0"
  }

  /** The entry `process_get_request` answers with. */
  function Lookup(store: Store, oid: string): Stored {
    var base := if EndsInZero(oid) then oid[..|oid| - 2] else oid;
    if oid in store then store[oid]
    else if base in store then store[base]
    else TextValue("No_Data")
  }

  /** `_log_snmp` turns every value it is given into text, which fails for an integer too long to print. */
  predicate Loggable(py: Python, entry: Stored) {
    entry.IntegerValue? ==> py.prints(entry.n)
  }

  /** An integer in as many octets as the agent gives it. */
  function SignedOctets(n: int): bytes {
    SignedRoundTrip(n);
    ToSigned(n, OctetCount(n))
  }

  /** The tag and octets that answer for an entry. */
  function Answer(py: Python, entry: Stored): (byte, bytes) {
    match entry
    case IntegerValue(n) => (INTEGER, SignedOctets(n))
    case TextValue(s) => (OCTET_STRING, py.encode(s))
  }

  /** The response datagram; None when building it raises. */
  function Packet(version: bytes, community: bytes, requestId: bytes,
                  oid: string, tag: byte, data: bytes): Option<bytes>
  {
    match BuildResponse(version, community, requestId, oid, tag, data)
    case Done(packet) => Some(packet)
    case Raises => None
  }

  function Reply(request: Request, tag: byte, data: bytes): Option<bytes>
    requires request.version.Some? && request.community.Some? && request.requestId.Some?
  {
    Packet(request.version.value, request.community.value, request.requestId.value, request.varbind.oid, tag, data)
  }

  /** The write a datagram performs, if any. */
  function WriteOf(py: Python, data: bytes): Option<(string, Stored)> {
    match Unpack(data)
    case Done(Some(q)) =>
      if q.pduTag != SET then None
      else (match SavedBy(py, q.varbind.tag, q.varbind.data)
            case Done(v) => Some((q.varbind.oid, v))
            case Raises => None)
    case _ => None
  }

  function StoreAfterOne(py: Python, store: Store, data: bytes): Store {
    match WriteOf(py, data)
    case Some((oid, v)) => store[oid := v]
    case None => store
  }

  /** What `handle_snmp_packet` sends back; None if it drops the datagram or hits an exception. */
  function ReplyTo(py: Python, store: Store, data: bytes): Option<bytes> {
    match Unpack(data)
    case Done(Some(q)) =>
      if q.pduTag == SET then
        var saved := SavedBy(py, q.varbind.tag, q.varbind.data);
        if q.varbind.tag.None? || saved.Raises? || !Loggable(py, saved.value) then None
        else Reply(q, q.varbind.tag.value, q.varbind.data.value)
      else
        var entry := Lookup(store, q.varbind.oid);
        if !Loggable(py, entry) then None else Reply(q, Answer(py, entry).0, Answer(py, entry).1)
    case _ => None
  }

  /** The simulator process: one mutable store behind the packet handler. */
  class Agent {
    const py: Python
    var store: Store

    constructor (py: Python, defaults: Store)
      ensures this.py == py && store == defaults
    {
      this.py := py;
      store := defaults;
    }

    method ProcessSetRequest(oid: string, tag: Option<byte>, data: Option<bytes>)
      returns (r: Outcome<(Option<byte>, bytes)>)
      modifies this`store
      ensures data.None? ==> r == Raises && store == old(store)
      ensures data.Some? ==>
                && store == old(store)[oid := SavedBy(py, tag, data).value]
                && r == if Loggable(py, SavedBy(py, tag, data).value) then Done((tag, data.value)) else Raises
    {
      if data.None? { return Raises; }
      var valToSave := TextValue("");
      if tag == Some(INTEGER) {
        valToSave := IntegerValue(FromBytes(data.value));
      } else {
        valToSave := TextValue(py.decode(data.value));
      }
      store := store[oid := valToSave];
      if !Loggable(py, valToSave) { return Raises; }
      return Done((tag, data.value));
    }

    method ProcessGetRequest(oid: string) returns (r: Outcome<(byte, bytes)>)
      ensures r == if Loggable(py, Lookup(store, oid)) then Done(Answer(py, Lookup(store, oid))) else Raises
    {
      var lookupOid := oid;
      if EndsInZero(oid) {
        lookupOid := oid[..|oid| - 2];
      }
      var val := TextValue("No_Data");
      if oid in store {
        val := store[oid];
      } else if lookupOid in store {
        val := store[lookupOid];
      }
      if !Loggable(py, val) { return Raises; }
      match val
      case IntegerValue(n) =>
        var length := OctetCount(n);
        SignedRoundTrip(n);
        return Done((INTEGER, ToSigned(n, length)));
      case TextValue(s) =>
        return Done((OCTET_STRING, py.encode(s)));
    }

    method HandlePacket(data: bytes) returns (reply: Option<bytes>)
      modifies this`store
      ensures store == StoreAfterOne(py, old(store), data)
      ensures reply == ReplyTo(py, old(store), data)
    {
      var parsed := Unpack(data);
      if parsed.Raises? || parsed.value.None? { return None; }
      var q := parsed.value.value;
      var tag, octets;
      if q.pduTag == SET {
        var r := ProcessSetRequest(q.varbind.oid, q.varbind.tag, q.varbind.data);
        if r.Raises? || r.value.0.None? { return None; }
        tag, octets := r.value.0.value, r.value.1;
      } else {
        var r := ProcessGetRequest(q.varbind.oid);
        if r.Raises? { return None; }
        tag, octets := r.value.0, r.value.1;
      }
      return Reply(q, tag, octets);
    }
  }

  // ----- whole runs -----

  function StoreAfter(py: Python, store: Store, run: seq<bytes>): Store {
    if run == [] then store
    else StoreAfterOne(py, StoreAfter(py, store, run[..|run| - 1]), run[|run| - 1])
  }

  /** The value of the latest datagram of the run that wrote this OID. */
  function LatestWrite(py: Python, run: seq<bytes>, oid: string): Option<Stored> {
    if run == [] then None
    else
      match WriteOf(py, run[|run| - 1])
      case Some((target, v)) => if target == oid then Some(v) else LatestWrite(py, run[..|run| - 1], oid)
      case None => LatestWrite(py, run[..|run| - 1], oid)
  }

  /** The latest value written on an OID during the run, else its default, else nothing. */
  function Current(py: Python, defaults: Store, run: seq<bytes>, oid: string): Option<Stored> {
    var latest := LatestWrite(py, run, oid);
    if latest.Some? then latest
    else if oid in defaults then Some(defaults[oid])
    else None
  }

  lemma {:induction false} StoreHoldsCurrent(py: Python, defaults: Store, run: seq<bytes>, oid: string)
    ensures var store := StoreAfter(py, defaults, run);
            Current(py, defaults, run, oid) == if oid in store then Some(store[oid]) else None
  {
    if run != [] {
      StoreHoldsCurrent(py, defaults, run[..|run| - 1], oid);
    }
  }

  /** After any run of datagrams, a read answers with the latest value set on the OID, else its default, else,
      for an OID ending in ".0", the current entry one level up, else "No_Data". */
  lemma {:induction false} ReadAfterRun(py: Python, defaults: Store, run: seq<bytes>, oid: string)
    ensures Lookup(StoreAfter(py, defaults, run), oid) ==
            match Current(py, defaults, run, oid)
            case Some(v) => v
            case None =>
              if EndsInZero(oid) && Current(py, defaults, run, oid[..|oid| - 2]).Some?
              then Current(py, defaults, run, oid[..|oid| - 2]).value
              else TextValue("No_Data")
  {
    StoreHoldsCurrent(py, defaults, run, oid);
    if EndsInZero(oid) {
      StoreHoldsCurrent(py, defaults, run, oid[..|oid| - 2]);
    }
  }

  /** An OID without an entry of its own is answered from the entry it has without its last ".0", and with "No_Data"
      if there is none. */
  lemma MissingEntry(store: Store, base: string, oid: string)
    requires oid !in store
    ensures oid == base + ".0" && base in store ==> Lookup(store, oid) == store[base]
    ensures (forall b :: oid == b + ".0" ==> b !in store) ==> Lookup(store, oid) == TextValue("No_Data")
  {
    if EndsInZero(oid) { assert oid == oid[..|oid| - 2] + ".0"; }
    if oid == base + ".0" { assert oid[..|oid| - 2] == base; }
  }

  lemma {:induction false} UntouchedByRun(py: Python, run: seq<bytes>, oid: string)
    requires forall i :: 0 <= i < |run| && WriteOf(py, run[i]).Some? ==> WriteOf(py, run[i]).value.0 != oid
    ensures LatestWrite(py, run, oid) == None
  {
    if run != [] {
      UntouchedByRun(py, run[..|run| - 1], oid);
    }
  }

  /** The response packet exists exactly if its own content is short enough. */
  lemma PacketFits(version: bytes, community: bytes, requestId: bytes, oid: string, tag: byte, data: bytes)
    requires EncodeOidText(oid).Done?
    ensures Packet(version, community, requestId, OidAsReceived(oid), tag, data).Some? <==>
              ContentSize(|version|, |community|, |requestId|, OidSize(ArcsOf(oid).value), |data|) < 65536
  {
    hide ArcsOf, Encode, ContentSize, OidAsReceived, FirstOctetFits, OidSize, EncodeOidText;
    ReceivedTwice(oid);
    EncodeDomain(RESPONSE, version, community, requestId, OidAsReceived(oid), tag, data);
  }

  lemma WireSet(py: Python, version: bytes, community: bytes, requestId: bytes,
                oid: string, tag: byte, data: bytes)
    requires Encodable(version, community, requestId, oid, data)
    ensures Encode(SET, version, community, requestId, oid, tag, data).Done?
    ensures WriteOf(py, Encode(SET, version, community, requestId, oid, tag, data).value)
         == Some((OidAsReceived(oid), SavedBy(py, Some(tag), Some(data)).value))
  {
    hide Encode, Unpack, Encodable, EncodeOidText, OidAsReceived;
    MessageRoundTrip(SET, version, community, requestId, oid, tag, data, []);
    var message := Encode(SET, version, community, requestId, oid, tag, data).value;
    assert message + [] == message;
  }

  lemma WireGet(py: Python, store: Store, pduTag: byte, version: bytes, community: bytes, requestId: bytes,
                oid: string, tag: byte, data: bytes)
    requires Encodable(version, community, requestId, oid, data)
    requires pduTag == GET || pduTag == GET_NEXT
    ensures Encode(pduTag, version, community, requestId, oid, tag, data).Done?
    ensures var entry := Lookup(store, OidAsReceived(oid));
            ReplyTo(py, store, Encode(pduTag, version, community, requestId, oid, tag, data).value) ==
            if Loggable(py, entry)
            then Packet(version, community, requestId, OidAsReceived(oid), Answer(py, entry).0, Answer(py, entry).1)
            else None
  {
    hide Encode, Unpack, Encodable, EncodeOidText, OidAsReceived, Lookup, Loggable, Packet;
    MessageRoundTrip(pduTag, version, community, requestId, oid, tag, data, []);
    var message := Encode(pduTag, version, community, requestId, oid, tag, data).value;
    assert message + [] == message;
  }

  /** The datagram sets this OID. */
  predicate IsSetOf(data: bytes, oid: string) {
    match Unpack(data)
    case Done(Some(q)) => q.pduTag == 0xa3 && q.varbind.oid == oid && q.varbind.data.Some?
    case _ => false
  }

  /** What is in the store for a value that was set: INTEGER octets as an unsigned integer, any others as text. */
  predicate HoldsSetValue(py: Python, entry: Stored, data: bytes) {
    match Unpack(data)
    case Done(Some(q)) =>
      && q.varbind.data.Some?
      && if q.varbind.tag == Some(0x02) then entry == IntegerValue(FromBytes(q.varbind.data.value))
         else entry == TextValue(py.decode(q.varbind.data.value))
    case _ => false
  }

  /** One datagram changes the entry of an OID exactly if it sets it. */
  lemma OneDatagram(py: Python, store: Store, data: bytes, oid: string)
    ensures var after := StoreAfterOne(py, store, data);
            if IsSetOf(data, oid) then oid in after && HoldsSetValue(py, after[oid], data)
            else (oid in after <==> oid in store) && (oid in store ==> after[oid] == store[oid])
  {
    hide Unpack, FromBytes;
  }

  ghost predicate NeverSet(run: seq<bytes>, oid: string) {
    forall k :: 0 <= k < |run| ==> !IsSetOf(run[k], oid)
  }

  ghost predicate IsLastSet(run: seq<bytes>, k: nat, oid: string) {
    k < |run| && IsSetOf(run[k], oid) && NeverSet(run[k + 1..], oid)
  }

  /** After any run of datagrams the entry of an OID is that of the last datagram that set it, and the default, present
      or not, if none did. */
  lemma {:induction false} StoreIsLastSet(py: Python, defaults: Store, run: seq<bytes>, oid: string)
    ensures var store := StoreAfter(py, defaults, run);
            && (forall k: nat :: IsLastSet(run, k, oid) ==> oid in store && HoldsSetValue(py, store[oid], run[k]))
            && (NeverSet(run, oid) ==>
                  (oid in store <==> oid in defaults) && (oid in store ==> store[oid] == defaults[oid]))
  {
    hide IsSetOf, HoldsSetValue, StoreAfterOne;
    if run != [] {
      var front, last := run[..|run| - 1], run[|run| - 1];
      StoreIsLastSet(py, defaults, front, oid);
      OneDatagram(py, StoreAfter(py, defaults, front), last, oid);
      forall k: nat | IsLastSet(run, k, oid) && k < |front| ensures !IsSetOf(last, oid) && IsLastSet(front, k, oid) {
        var later := run[k + 1..];
        assert later[|later| - 1] == last;
        assert forall l :: 0 <= l < |front[k + 1..]| ==> front[k + 1..][l] == later[l];
      }
    }
  }

  /** The tag and octets that answer for a value set under this tag: for an INTEGER those of its unsigned value, for
      anything else a text, coded again. */
  function AnswerToSet(py: Python, tag: byte, data: bytes): (byte, bytes) {
    if tag == 0x02 then (0x02, SignedOctets(FromBytes(data))) else (0x04, py.encode(py.decode(data)))
  }

  /** Over the wire: after a SET of an OID, and any datagrams that do not set it again, a GET or GETNEXT datagram for
      it, or for any other spelling the agent receives as the same text, is answered with the response packet carrying
      exactly the answer to that SET; and it is answered if and only if the value can be logged and the content of the
      response is shorter than 65536 octets. */
  lemma {:induction false} WireSetThenGet(py: Python, store: Store, between: seq<bytes>,
                                          v1: bytes, c1: bytes, id1: bytes, oid1: string, tag1: byte, data1: bytes,
                                          pduTag: byte,
                                          v2: bytes, c2: bytes, id2: bytes, oid2: string, tag2: byte, data2: bytes)
    requires Encodable(v1, c1, id1, oid1, data1) && Encodable(v2, c2, id2, oid2, data2)
    requires OidAsReceived(oid1) == OidAsReceived(oid2)
    requires pduTag == 0xa0 || pduTag == 0xa1
    requires forall i :: 0 <= i < |between| ==> !IsSetOf(between[i], OidAsReceived(oid1))
    ensures Encode(0xa3, v1, c1, id1, oid1, tag1, data1).Done? && Encode(pduTag, v2, c2, id2, oid2, tag2, data2).Done?
    ensures var first := Encode(0xa3, v1, c1, id1, oid1, tag1, data1).value;
            var last := Encode(pduTag, v2, c2, id2, oid2, tag2, data2).value;
            var (tag, octets) := AnswerToSet(py, tag1, data1);
            var reply := ReplyTo(py, StoreAfter(py, StoreAfterOne(py, store, first), between), last);
            if (tag1 == 0x02 ==> py.prints(FromBytes(data1)))
               && ContentSize(|v2|, |c2|, |id2|, OidSize(ArcsOf(oid2).value), |octets|) < 65536
            then BuildResponse(v2, c2, id2, OidAsReceived(oid2), tag, octets).Done?
                 && reply == Some(BuildResponse(v2, c2, id2, OidAsReceived(oid2), tag, octets).value)
            else reply == None
  {
    hide Encode, Encodable, ContentSize, FirstOctetFits, OidSize, ArcsOf, OidAsReceived, EncodeOidText, Answer, WriteOf,
         ReplyTo, LatestWrite, StoreAfter, SavedBy, AnswerToSet, IsSetOf;
    WireSet(py, v1, c1, id1, oid1, tag1, data1);
    var afterSet := StoreAfterOne(py, store, Encode(SET, v1, c1, id1, oid1, tag1, data1).value);
    var key := OidAsReceived(oid1);
    forall i | 0 <= i < |between| && WriteOf(py, between[i]).Some? ensures WriteOf(py, between[i]).value.0 != key {
      WritesItsOid(py, between[i]);
    }
    UntouchedByRun(py, between, key);
    ReadAfterRun(py, afterSet, between, key);
    WireGet(py, StoreAfter(py, afterSet, between), pduTag, v2, c2, id2, oid2, tag2, data2);
    SavedIsAnswered(py, tag1, data1);
    var answer := Answer(py, SavedBy(py, Some(tag1), Some(data1)).value);
    PacketFits(v2, c2, id2, oid2, answer.0, answer.1);
  }

  lemma WritesItsOid(py: Python, data: bytes)
    requires WriteOf(py, data).Some?
    ensures IsSetOf(data, WriteOf(py, data).value.0)
  {
    hide Unpack;
  }

  lemma {:induction false} SavedIsAnswered(py: Python, tag: byte, data: bytes)
    ensures var saved := SavedBy(py, Some(tag), Some(data)).value;
            && Answer(py, saved) == AnswerToSet(py, tag, data)
            && (Loggable(py, saved) <==> (tag == 0x02 ==> py.prints(FromBytes(data))))
  {
    hide FromBytes;
  }

  /** Text, or anything else that is no INTEGER, comes back octet for octet over the wire if it survives the agent's own
      decoding and encoding. */
  lemma {:induction false} TextSetThenGet(py: Python, store: Store, between: seq<bytes>,
                                          v1: bytes, c1: bytes, id1: bytes, oid1: string, tag1: byte, data1: bytes,
                                          pduTag: byte,
                                          v2: bytes, c2: bytes, id2: bytes, oid2: string, tag2: byte, data2: bytes)
    requires Encodable(v1, c1, id1, oid1, data1) && Encodable(v2, c2, id2, oid2, data1)
    requires Encodable(v2, c2, id2, oid2, data2)
    requires OidAsReceived(oid1) == OidAsReceived(oid2)
    requires pduTag == 0xa0 || pduTag == 0xa1
    requires forall i :: 0 <= i < |between| ==> !IsSetOf(between[i], OidAsReceived(oid1))
    requires tag1 != 0x02 && py.encode(py.decode(data1)) == data1
    ensures Encode(0xa3, v1, c1, id1, oid1, tag1, data1).Done? && Encode(pduTag, v2, c2, id2, oid2, tag2, data2).Done?
    ensures var first := Encode(0xa3, v1, c1, id1, oid1, tag1, data1).value;
            var last := Encode(pduTag, v2, c2, id2, oid2, tag2, data2).value;
            var response := BuildResponse(v2, c2, id2, OidAsReceived(oid2), 0x04, data1);
            && response.Done?
            && ReplyTo(py, StoreAfter(py, StoreAfterOne(py, store, first), between), last) == Some(response.value)
  {
    WireSetThenGet(py, store, between, v1, c1, id1, oid1, tag1, data1, pduTag, v2, c2, id2, oid2, tag2, data2);
    hide Encode, ContentSize, FirstOctetFits, OidSize, ArcsOf, OidAsReceived, EncodeOidText, ReplyTo, StoreAfter,
         IsSetOf, StoreAfterOne;
  }

  /** A SET is acknowledged with its own tag and octets exactly if its value can be logged; the acknowledgement always
      fits, for it is no longer than the request. */
  lemma {:induction false} WireSetReply(py: Python, store: Store, version: bytes, community: bytes, requestId: bytes,
                                        oid: string, tag: byte, data: bytes)
    requires Encodable(version, community, requestId, oid, data)
    ensures Encode(0xa3, version, community, requestId, oid, tag, data).Done?
    ensures var response := BuildResponse(version, community, requestId, OidAsReceived(oid), tag, data);
            && response.Done?
            && ReplyTo(py, store, Encode(0xa3, version, community, requestId, oid, tag, data).value) ==
               if tag == 0x02 ==> py.prints(FromBytes(data)) then Some(response.value) else None
  {
    hide Encode, Unpack, EncodeOidText, OidAsReceived, ArcsOf, OidSize, ContentSize, FirstOctetFits, FromBytes;
    MessageRoundTrip(SET, version, community, requestId, oid, tag, data, []);
    PacketFits(version, community, requestId, oid, tag, data);
    var message := Encode(SET, version, community, requestId, oid, tag, data).value;
    assert message + [] == message;
  }

  /** An integer SET is answered with octets whose signed value is the unsigned value of the octets that were set;
      so the signed value survives exactly when those octets did not carry a sign bit. */
  lemma {:induction false} IntegerSetThenGet(py: Python, data: bytes)
    ensures var (tag, octets) := AnswerToSet(py, 0x02, data);
            && tag == 0x02
            && FromSigned(octets) == FromBytes(data)
            && (FromSigned(octets) == FromSigned(data) <==> data == [] || data[0] < 128)
  {
    SignedRoundTrip(FromBytes(data));
  }

  /** A SET of the octet 0xFF, which is -1, is answered with octets of 255. */
  lemma {:induction false} NegativeSetExample(py: Python)
    ensures FromSigned([0xff]) == -1 && FromSigned(AnswerToSet(py, 0x02, [0xff]).1) == 255
  {
    var octets: bytes := [0xff];
    assert octets[..0] == [];
    assert FromBytes([]) == 0 && FromBytes(octets) == 255;
    Pow2Octet(0);
    IntegerSetThenGet(py, octets);
  }

  /** A reply, looped back to the agent, changes nothing and gets no answer. */
  lemma RepliesAreInert(py: Python, store: Store, data: bytes)
    requires ReplyTo(py, store, data).Some?
    ensures var reply := ReplyTo(py, store, data).value;
            StoreAfterOne(py, store, reply) == store && ReplyTo(py, store, reply) == None
  {
    hide Unpack, Encode, Encodable, Answer, Lookup, Loggable, SavedBy;
    var q := Unpack(data).value.value;
    var reply := ReplyTo(py, store, data).value;
    var (tag, octets) := if q.pduTag == SET then (q.varbind.tag.value, q.varbind.data.value)
                         else Answer(py, Lookup(store, q.varbind.oid));
    EncodeDomain(RESPONSE, q.version.value, q.community.value, q.requestId.value, q.varbind.oid, tag, octets);
    ResponseIsNoRequest(q.version.value, q.community.value, q.requestId.value, q.varbind.oid, tag, octets, []);
    assert reply + [] == reply;
  }
}
