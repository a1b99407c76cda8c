/** Object identifiers in simulator/snmp.py (section 8.19 of ITU-T X.690). */
module Oid {
  import opened Basics
  import opened Text
  import opened Ber

  // ----- base-128 subidentifiers -----

  /** The octets of p, seven bits each, most significant first, every one with the continuation bit; none for 0. */
  function Septets(p: nat): bytes {
    if p == 0 then [] else Septets(p / 128) + [p % 128 + 128]
  }

  function EncodeArc(p: nat): bytes {
    Septets(p / 128) + [p % 128]
  }

  function EncodeArcs(arcs: seq<nat>): bytes {
    if arcs == [] then [] else EncodeArc(arcs[0]) + EncodeArcs(arcs[1..])
  }

  /** The arcs read from b when `val` has been accumulated so far; an unfinished last arc is dropped. */
  function DecodeFrom(val: nat, b: bytes): seq<nat>
    decreases |b|
  {
    if b == [] then []
    else
      var v := val * 128 + b[0] % 128;
      if b[0] < 128 then [v] + DecodeFrom(0, b[1..]) else DecodeFrom(v, b[1..])
  }

  lemma {:induction false} DecodeSeptets(p: nat, rest: bytes)
    ensures DecodeFrom(0, Septets(p) + rest) == DecodeFrom(p, rest)
  {
    if p == 0 {
      assert Septets(p) + rest == rest;
    } else {
      var flagged: bytes := [p % 128 + 128];
      assert Septets(p) + rest == Septets(p / 128) + (flagged + rest);
      DecodeSeptets(p / 128, flagged + rest);
      assert (flagged + rest)[1..] == rest;
      assert (p / 128) * 128 + (p % 128 + 128) % 128 == p;
    }
  }

  /** The base-128 reader inverts the writer for any number of arcs of any size. */
  lemma {:induction false} DecodeOfEncodeArcs(arcs: seq<nat>)
    ensures DecodeFrom(0, EncodeArcs(arcs)) == arcs
  {
    if arcs != [] {
      var p, rest := arcs[0], EncodeArcs(arcs[1..]);
      var last: bytes := [p % 128];
      assert EncodeArcs(arcs) == Septets(p / 128) + (last + rest);
      DecodeSeptets(p / 128, last + rest);
      assert (last + rest)[1..] == rest;
      DecodeOfEncodeArcs(arcs[1..]);
    }
  }

  // ----- canonical octets -----

  predicate StartsArc(b: bytes, i: nat)
    requires i < |b|
  {
    i == 0 || b[i - 1] < 128
  }

  /** Section 8.19.2: no subidentifier starts with 0x80, and the last one is finished. */
  predicate Canonical(b: bytes) {
    && (b != [] ==> b[|b| - 1] < 128)
    && (forall i: nat :: i < |b| && StartsArc(b, i) ==> b[i] != 0x80)
  }

  function FinalOctets(b: bytes): nat {
    if b == [] then 0 else FinalOctets(b[1..]) + if b[0] < 128 then 1 else 0
  }

  lemma {:induction false} SeptetsShape(p: nat)
    ensures forall i :: 0 <= i < |Septets(p)| ==> Septets(p)[i] >= 128
    ensures p > 0 ==> Septets(p) != [] && Septets(p)[0] != 0x80
    ensures forall tail: bytes :: FinalOctets(Septets(p) + tail) == FinalOctets(tail)
  {
    if p != 0 {
      SeptetsShape(p / 128);
      assert p / 128 == 0 ==> p % 128 != 0;
      forall tail: bytes ensures FinalOctets(Septets(p) + tail) == FinalOctets(tail) {
        var flagged: bytes := [p % 128 + 128];
        assert Septets(p) + tail == Septets(p / 128) + (flagged + tail);
        assert (flagged + tail)[1..] == tail;
      }
    } else {
      forall tail: bytes ensures FinalOctets(Septets(p) + tail) == FinalOctets(tail) {
        assert Septets(p) + tail == tail;
      }
    }
  }

  /** What the writer emits is canonical, with exactly one octet without continuation bit per arc. */
  lemma {:induction false} EncodeArcsCanonical(arcs: seq<nat>)
    ensures Canonical(EncodeArcs(arcs))
    ensures FinalOctets(EncodeArcs(arcs)) == |arcs|
  {
    if arcs != [] {
      EncodeArcsCanonical(arcs[1..]);
      SeptetsShape(arcs[0] / 128);
      hide EncodeArcs;
      OneArcMore(Septets(arcs[0] / 128), arcs[0] % 128, EncodeArcs(arcs[1..]));
      OneFinalOctet(Septets(arcs[0] / 128), arcs[0] % 128, EncodeArcs(arcs[1..]));
    }
  }

  lemma {:induction false} OneFinalOctet(front: bytes, last: byte, tail: bytes)
    requires last < 128 && forall rest: bytes :: FinalOctets(front + rest) == FinalOctets(rest)
    ensures FinalOctets(front + [last] + tail) == 1 + FinalOctets(tail)
  {
    assert front + [last] + tail == front + ([last] + tail) && ([last] + tail)[1..] == tail;
  }

  /** Canonical octets stay canonical behind one more arc. */
  lemma OneArcMore(front: bytes, last: byte, tail: bytes)
    requires (forall i :: 0 <= i < |front| ==> front[i] >= 128) && (front != [] ==> front[0] != 0x80) && last < 128
    requires Canonical(tail)
    ensures Canonical(front + [last] + tail)
  {
    var b, n := front + [last] + tail, |front| + 1;
    assert forall i :: 0 <= i < |front| ==> b[i] == front[i];
    assert b[|front|] == last && forall i :: n <= i < |b| ==> b[i] == tail[i - n];
    forall i: nat | i < |b| && StartsArc(b, i) ensures b[i] != 0x80 {
      if i >= n { assert StartsArc(tail, i - n); }
    }
  }

  /** Canonicity as a left-to-right scan; `opening` says that a new subidentifier starts here. */
  predicate Scan(opening: bool, b: bytes)
    decreases |b|
  {
    if b == [] then opening
    else (opening ==> b[0] != 0x80) && Scan(b[0] < 128, b[1..])
  }

  lemma {:induction false} CanonicalScans(opening: bool, b: bytes)
    requires b != [] ==> b[|b| - 1] < 128
    requires b == [] ==> opening
    requires forall i: nat :: i < |b| && StartsArc(b, i) && (i > 0 || opening) ==> b[i] != 0x80
    ensures Scan(opening, b)
    decreases |b|
  {
    if b != [] {
      var rest := b[1..];
      assert opening ==> StartsArc(b, 0);
      forall i: nat | i < |rest| && StartsArc(rest, i) && (i > 0 || b[0] < 128) ensures rest[i] != 0x80 {
        assert StartsArc(b, i + 1);
      }
      CanonicalScans(b[0] < 128, rest);
    }
  }

  lemma {:induction false} PushSeptet(val: nat, d: nat)
    requires d < 128
    ensures EncodeArc(val * 128 + d) == Septets(val) + [d]
    ensures val * 128 + d > 0 ==> Septets(val * 128 + d) == Septets(val) + [d + 128]
  {
    assert (val * 128 + d) / 128 == val && (val * 128 + d) % 128 == d;
  }

  lemma NothingLeft()
    ensures Septets(0) == [] && EncodeArcs([]) == []
  {
  }

  lemma {:induction false} FirstArc(p: nat, arcs: seq<nat>)
    ensures EncodeArcs([p] + arcs) == EncodeArc(p) + EncodeArcs(arcs)
  {
    assert ([p] + arcs)[1..] == arcs;
  }

  /** Re-encoding what was read from canonical octets, part-way through an arc, gives the octets back. */
  lemma {:induction false} EncodeOfDecodeFrom(val: nat, b: bytes)
    requires Scan(val == 0, b)
    ensures EncodeArcs(DecodeFrom(val, b)) == Septets(val) + b
    decreases |b|
  {
    hide Septets, EncodeArc, EncodeArcs;
    if b == [] {
      NothingLeft();
    } else {
      var d := b[0] % 128;
      var v := val * 128 + d;
      var rest := b[1..];
      PushSeptet(val, d);
      NothingLeft();
      assert b == [b[0]] + rest;
      if b[0] < 128 {
        EncodeOfDecodeFrom(0, rest);
        FirstArc(v, DecodeFrom(0, rest));
      } else {
        EncodeOfDecodeFrom(v, rest);
        assert Septets(v) == Septets(val) + [b[0]];
      }
    }
  }

  // ----- whole identifiers -----

  /** The arcs `decode_oid` reads: the first octet is split by 40. */
  function DecodeArcs(b: bytes): seq<nat>
    requires b != []
  {
    [b[0] / 40, b[0] % 40] + DecodeFrom(0, b[1..])
  }

  /** The value octets `encode_oid` builds; the first octet must fit a byte, or `bytes(enc)` is a ValueError. */
  function OidValue(arcs: seq<nat>): (r: Outcome<bytes>)
    ensures r.Done? <==> |arcs| < 2 || arcs[0] * 40 + arcs[1] < 256
  {
    if |arcs| < 2 then Done([0])
    else if arcs[0] * 40 + arcs[1] >= 256 then Raises
    else Done([arcs[0] * 40 + arcs[1]] + EncodeArcs(arcs[2..]))
  }

  predicate FirstOctetFits(arcs: seq<nat>) {
    |arcs| < 2 || arcs[0] * 40 + arcs[1] < 256
  }

  function ArcSize(p: nat): nat {
    if p < 128 then 1 else 1 + ArcSize(p / 128)
  }

  function ArcsSize(arcs: seq<nat>): nat {
    if arcs == [] then 0 else ArcSize(arcs[0]) + ArcsSize(arcs[1..])
  }

  /** The number of value octets. */
  function OidSize(arcs: seq<nat>): nat {
    if |arcs| < 2 then 1 else 1 + ArcsSize(arcs[2..])
  }

  lemma {:induction false} SeptetsSize(p: nat)
    ensures |Septets(p)| == if p == 0 then 0 else ArcSize(p)
  {
    if p > 0 { SeptetsSize(p / 128); }
  }

  lemma {:induction false} EncodeArcsSize(arcs: seq<nat>)
    ensures |EncodeArcs(arcs)| == ArcsSize(arcs)
  {
    if arcs != [] {
      SeptetsSize(arcs[0] / 128);
      EncodeArcsSize(arcs[1..]);
    }
  }

  lemma OidValueDomain(arcs: seq<nat>)
    ensures OidValue(arcs).Done? <==> FirstOctetFits(arcs)
    ensures OidValue(arcs).Done? ==> |OidValue(arcs).value| == OidSize(arcs)
  {
    if |arcs| >= 2 { EncodeArcsSize(arcs[2..]); }
  }

  /** Reading back what was written gives the identifier back exactly when its second arc is below 40.
      (Section 8.19.4 allows larger second arcs under first arc 2; `decode_oid` does not.) */
  lemma DecodeOfOidValue(arcs: seq<nat>)
    requires |arcs| >= 2 && FirstOctetFits(arcs)
    ensures OidValue(arcs).Done? && OidValue(arcs).value != []
    ensures DecodeArcs(OidValue(arcs).value) == arcs <==> arcs[1] < 40
  {
    DecodeOfEncodeArcs(arcs[2..]);
    var b := OidValue(arcs).value;
    assert b[1..] == EncodeArcs(arcs[2..]);
    assert arcs == [arcs[0], arcs[1]] + arcs[2..];
    var first := arcs[0] * 40 + arcs[1];
    if arcs[1] < 40 {
      assert first / 40 == arcs[0] && first % 40 == arcs[1];
    } else {
      assert DecodeArcs(b)[1] < 40;
    }
  }

  /** Valid identifiers have different octets. */
  lemma OidValueInjective(arcs1: seq<nat>, arcs2: seq<nat>)
    requires |arcs1| >= 2 && arcs1[1] < 40 && FirstOctetFits(arcs1)
    requires |arcs2| >= 2 && arcs2[1] < 40 && FirstOctetFits(arcs2)
    requires OidValue(arcs1) == OidValue(arcs2)
    ensures arcs1 == arcs2
  {
    DecodeOfOidValue(arcs1);
    DecodeOfOidValue(arcs2);
  }

  /** 2.40 comes back as 3.0. */
  lemma SecondArcExample()
    ensures OidValue([2, 40]) == Done([120]) && DecodeArcs([120]) == [3, 0]
  {
    var arcs: seq<nat>, octets: bytes := [2, 40], [120];
    assert arcs[2..] == [] && octets[1..] == [];
    assert EncodeArcs([]) == [] && DecodeFrom(0, []) == [];
    assert octets + [] == octets && [3, 0] + [] == [3, 0];
  }

  /** In the other direction: re-encoding the decoding of any non-empty octets reproduces them exactly when
      everything after the first octet is canonical. */
  lemma OidValueOfDecode(b: bytes)
    requires b != []
    ensures OidValue(DecodeArcs(b)) == Done(b) <==> Canonical(b[1..])
  {
    hide Canonical, EncodeArcs, DecodeFrom;
    var arcs := DecodeArcs(b);
    assert arcs[2..] == DecodeFrom(0, b[1..]);
    assert (b[0] / 40) * 40 + b[0] % 40 == b[0];
    assert [b[0]] + b[1..] == b;
    var again := OidValue(arcs).value;
    assert again[1..] == EncodeArcs(arcs[2..]);
    EncodeArcsCanonical(arcs[2..]);
    if Canonical(b[1..]) {
      CanonicalComesBack(b[1..]);
    } else {
      assert again[1..] != b[1..];
    }
  }

  lemma {:induction false} CanonicalComesBack(b: bytes)
    requires Canonical(b)
    ensures EncodeArcs(DecodeFrom(0, b)) == b
  {
    CanonicalScans(true, b);
    EncodeOfDecodeFrom(0, b);
    NothingLeft();
    hide Septets;
    assert [] + b == b;
  }

  // ----- dotted text -----

  function Decimals(arcs: seq<nat>): (parts: seq<string>)
    ensures |parts| == |arcs|
  {
    seq(|arcs|, i requires 0 <= i < |arcs| => Decimal(arcs[i]))
  }

  /** `".".join(str(arc) ...)`. */
  function Dotted(arcs: seq<nat>): string {
    Join(Decimals(arcs), '.')
  }

  /** `s.strip(".")`. */
  function StripDots(s: string): string {
    if s != "" && s[0] == '.' then StripDots(s[1..])
    else if s != "" && s[|s| - 1] == '.' then StripDots(s[..|s| - 1])
    else s
  }

  /** `[int(x) for x in parts]`: one bad part is a ValueError. */
  function ParseArcs(parts: seq<string>): Outcome<seq<nat>> {
    if parts == [] then Done([])
    else match Parse(parts[0], 10)
      case None => Raises
      case Some(n) => var rest :- ParseArcs(parts[1..]); Done([n] + rest)
  }

  function ArcsOf(s: string): Outcome<seq<nat>> {
    ParseArcs(SplitOn(StripDots(s), '.'))
  }

  /** The text `decode_oid` returns. */
  function DecodeOidText(b: bytes): string {
    if b == [] then "" else Dotted(DecodeArcs(b))
  }

  /** The TLV `encode_oid` returns. */
  function EncodeOidText(s: string): Outcome<bytes> {
    var arcs :- ArcsOf(s);
    var value :- OidValue(arcs);
    EncodeTlv(0x06, value)
  }

  lemma {:induction false} ParseOfDecimals(arcs: seq<nat>)
    ensures ParseArcs(Decimals(arcs)) == Done(arcs)
  {
    if arcs == [] {
    } else {
      ParseOfDecimal(arcs[0]);
      ParseOfDecimals(arcs[1..]);
      assert Decimals(arcs)[1..] == Decimals(arcs[1..]);
      assert [arcs[0]] + arcs[1..] == arcs;
    }
  }

  lemma {:induction false} JoinEnds(parts: seq<string>)
    requires |parts| >= 1 && forall p :: p in parts ==> p != "" && '.' !in p
    ensures var s := Join(parts, '.'); s != "" && s[0] != '.' && s[|s| - 1] != '.'
  {
    assert parts[0] in parts;
    assert parts[0] != "" && parts[0][0] in parts[0] && parts[0][|parts[0]| - 1] in parts[0];
    if |parts| > 1 {
      assert forall p :: p in parts[1..] ==> p in parts;
      JoinEnds(parts[1..]);
    }
  }

  /** Printing arcs and reading them back is the identity. */
  lemma ArcsOfDotted(arcs: seq<nat>)
    requires arcs != []
    ensures ArcsOf(Dotted(arcs)) == Done(arcs)
  {
    var parts := Decimals(arcs);
    JoinEnds(parts);
    SplitOfJoin(parts, '.');
    ParseOfDecimals(arcs);
  }

  /** A dotted text as it is printed: decimal arcs without superfluous zeros, and no dot before, after or doubled. */
  predicate IsCanonicalOid(s: string) {
    forall part :: part in SplitOn(s, '.') ==> IsCanonicalDecimal(part)
  }

  lemma {:induction false} DottedIsCanonical(arcs: seq<nat>)
    requires arcs != []
    ensures IsCanonicalOid(Dotted(arcs))
  {
    var parts := Decimals(arcs);
    SplitOfJoin(parts, '.');
    forall part | part in parts ensures IsCanonicalDecimal(part) {
      var i :| 0 <= i < |parts| && parts[i] == part;
      DecimalIsCanonical(arcs[i]);
    }
  }

  lemma {:induction false} ParsedArcs(parts: seq<string>)
    requires ParseArcs(parts).Done?
    ensures |ParseArcs(parts).value| == |parts|
    ensures forall i :: 0 <= i < |parts| ==> Parse(parts[i], 10) == Some(ParseArcs(parts).value[i])
  {
    if parts != [] { ParsedArcs(parts[1..]); }
  }

  /** Printing the arcs of a text gives the text back if it was canonical. */
  lemma DottedOfArcs(s: string)
    requires ArcsOf(s).Done? && IsCanonicalOid(s)
    ensures Dotted(ArcsOf(s).value) == s
  {
    var parts := SplitOn(s, '.');
    JoinOfSplit(s, '.');
    JoinEnds(parts);
    assert StripDots(s) == s;
    ParsedArcs(parts);
    var arcs := ArcsOf(s).value;
    forall i | 0 <= i < |parts| ensures Decimals(arcs)[i] == parts[i] {
      assert parts[i] in parts;
      DecimalOfParse(parts[i]);
    }
    assert Decimals(arcs) == parts;
  }

  /** Whatever the arcs, the octets after the first are canonical. */
  lemma OidValueIsCanonical(arcs: seq<nat>)
    requires OidValue(arcs).Done?
    ensures OidValue(arcs).value != [] && Canonical(OidValue(arcs).value[1..])
  {
    if |arcs| >= 2 {
      EncodeArcsCanonical(arcs[2..]);
      assert OidValue(arcs).value[1..] == EncodeArcs(arcs[2..]);
    }
  }

  /** `encode_oid` succeeds exactly if the text parses, the first octet fits and the value is shorter than 65536. */
  lemma EncodeOidTextDomain(s: string)
    ensures EncodeOidText(s).Done? <==>
              ArcsOf(s).Done? && FirstOctetFits(ArcsOf(s).value) && OidSize(ArcsOf(s).value) < 65536
    ensures EncodeOidText(s).Done? ==> |EncodeOidText(s).value| == TlvSize(OidSize(ArcsOf(s).value))
  {
    if ArcsOf(s).Done? {
      var arcs := ArcsOf(s).value;
      OidValueDomain(arcs);
      hide ArcsOf, OidValue, OidSize, EncodeTlv;
      if OidValue(arcs).Done? { EncodeTlvDomain(0x06, OidValue(arcs).value); }
    }
  }

  /** For any arcs whose first octet fits and whose octets are fewer than 65536, `encode_oid` succeeds on the dotted
      text, and the value part decodes to the same text if and only if the second arc is below 40. */
  lemma OidTextRoundTrip(arcs: seq<nat>)
    requires |arcs| >= 2 && FirstOctetFits(arcs) && OidSize(arcs) < 65536
    ensures EncodeOidText(Dotted(arcs)).Done?
    ensures OidValue(arcs).Done? && EncodeOidText(Dotted(arcs)) == EncodeTlv(0x06, OidValue(arcs).value)
    ensures DecodeOidText(OidValue(arcs).value) == Dotted(arcs) <==> arcs[1] < 40
  {
    ArcsOfDotted(arcs);
    EncodeOidTextDomain(Dotted(arcs));
    DecodeOfOidValue(arcs);
    var back := DecodeArcs(OidValue(arcs).value);
    if Dotted(back) == Dotted(arcs) {
      ArcsOfDotted(back);
    }
  }

  /** Dots around the text make no difference. */
  lemma DotsAround(s: string)
    ensures EncodeOidText("." + s) == EncodeOidText(s) == EncodeOidText(s + ".")
  {
    assert ("." + s)[1..] == s && (s + ".")[..|s|] == s;
    StripTrailing(s);
  }

  lemma {:induction false} StripTrailing(s: string)
    ensures StripDots(s + ".") == StripDots(s)
  {
    var dotted := s + ".";
    if s != "" && s[0] == '.' {
      assert dotted[1..] == s[1..] + ".";
      StripTrailing(s[1..]);
    } else {
      assert dotted[..|s|] == s;
      if s == "" { assert dotted[1..] == ""; }
    }
  }

  /** A text of one arc gets the default octets. */
  lemma ShortOid(s: string)
    requires ArcsOf(s).Done? && |ArcsOf(s).value| < 2
    ensures EncodeOidText(s) == Done([0x06, 0x01, 0x00])
  {
    hide ArcsOf;
    var octets: bytes := [0x06, 0x01, 0x00];
    assert EncodeTlv(0x06, [0]).value == octets;
  }

  /** An arc whose last octet never comes is dropped. */
  lemma {:induction false} UnfinishedArc(val: nat, b: bytes)
    requires forall i :: 0 <= i < |b| ==> b[i] >= 128
    ensures DecodeFrom(val, b) == []
    decreases |b|
  {
    if b != [] { UnfinishedArc(val * 128 + b[0] % 128, b[1..]); }
  }

  // ----- the loops -----

  /** `decode_oid`. */
  method DecodeOid(valueBytes: bytes) returns (s: string)
    ensures s == DecodeOidText(valueBytes)
    ensures valueBytes == [] ==> s == ""
  {
    if valueBytes == [] { return ""; }
    var oid := [Decimal(valueBytes[0] / 40), Decimal(valueBytes[0] % 40)];
    ghost var arcs: seq<nat> := [valueBytes[0] / 40, valueBytes[0] % 40];
    var val: nat := 0;
    var tail := valueBytes[1..];
    for i := 0 to |tail|
      invariant oid == Decimals(arcs)
      invariant arcs + DecodeFrom(val, tail[i..]) == DecodeArcs(valueBytes)
    {
      assert tail[i..][0] == tail[i] && tail[i..][1..] == tail[i + 1..];
      val := val * 128 + tail[i] % 128;
      if tail[i] < 128 {
        oid := oid + [Decimal(val)];
        arcs := arcs + [val];
        val := 0;
      }
    }
    assert tail[|tail|..] == [] && arcs + [] == arcs;
    return Join(oid, '.');
  }

  /** The inner loop of `encode_oid`: p shrinks by seven bits a turn. */
  method EncodeOneArc(arc: nat) returns (octets: bytes)
    requires arc > 0
    ensures octets == EncodeArc(arc)
  {
    var p := arc;
    octets := [];
    while p > 0
      invariant Septets(arc) == Septets(p) + octets
      decreases p
    {
      octets := [p % 128 + 128] + octets;
      p := p / 128;
    }
    assert Septets(arc) == octets;
    octets := octets[|octets| - 1 := octets[|octets| - 1] % 128];
  }

  lemma ZeroArc()
    ensures EncodeArc(0) == [0]
  {
  }

  /** The loop over `parts[2:]` in `encode_oid`. */
  method EncodeTail(arcs: seq<nat>) returns (tail: bytes)
    requires |arcs| >= 2
    ensures tail == EncodeArcs(arcs[2..])
  {
    hide EncodeArc, EncodeArcs, Septets;
    tail := [];
    ZeroArc();
    for i := 2 to |arcs|
      invariant EncodeArcs(arcs[2..]) == tail + EncodeArcs(arcs[i..])
    {
      FirstArc(arcs[i], arcs[i + 1..]);
      assert arcs[i..] == [arcs[i]] + arcs[i + 1..];
      var octets: bytes := [0];
      if arcs[i] != 0 {
        octets := EncodeOneArc(arcs[i]);
      }
      assert octets == EncodeArc(arcs[i]);
      tail := tail + octets;
    }
    NothingLeft();
    assert arcs[|arcs|..] == [];
  }

  /** `encode_oid`. */
  method EncodeOid(oidStr: string) returns (r: Outcome<bytes>)
    ensures r == EncodeOidText(oidStr)
  {
    var parts := ArcsOf(oidStr);
    if parts.Raises? { return Raises; }
    var arcs := parts.value;
    if |arcs| < 2 {
      assert EncodeTlv(0x06, [0]).value == [0x06, 0x01, 0x00];
      return Done([0x06, 0x01, 0x00]);
    }
    var first := arcs[0] * 40 + arcs[1];
    var tail := EncodeTail(arcs);
    var length := EncodeLen(1 + |tail|);
    if length.Raises? || first >= 256 { return Raises; }
    return Done([0x06] + length.value + ([first] + tail));
  }
}
