/** The codecs between user-facing values and registers: pkg/parser/encoder.go and pkg/parser/decoder.go. */
module RegisterCodecs {
  import opened Basics
  import opened Text
  import opened GoTypes

  // ----- octets and registers -----

  /** `uint16(hi)<<8 | uint16(lo)`. */
  function Word(hi: byte, lo: byte): u16 {
    (hi as int) * 256 + lo
  }

  /** Pairs of octets as registers. */
  function Registers(b: seq<byte>): (ws: seq<u16>)
    requires |b| % 2 == 0
    ensures |ws| == |b| / 2
  {
    seq(|b| / 2, i requires 0 <= i < |b| / 2 => Word(b[2 * i], b[2 * i + 1]))
  }

  /** High octet first. */
  function Octets(ws: seq<u16>): (b: seq<byte>)
    ensures |b| == 2 * |ws|
  {
    seq(2 * |ws|, i requires 0 <= i < 2 * |ws| => if i % 2 == 0 then ws[i / 2] / 256 else ws[i / 2] % 256)
  }

  lemma WordParts(hi: byte, lo: byte)
    ensures Word(hi, lo) / 256 == hi && Word(hi, lo) % 256 == lo
  {
  }

  lemma WordOfParts(w: u16)
    ensures Word(w / 256, w % 256) == w
  {
  }

  lemma OctetsAt(ws: seq<u16>, k: nat)
    requires k < |ws|
    ensures Octets(ws)[2 * k] == ws[k] / 256 && Octets(ws)[2 * k + 1] == ws[k] % 256
  {
    assert (2 * k) / 2 == k && (2 * k) % 2 == 0;
    assert (2 * k + 1) / 2 == k && (2 * k + 1) % 2 == 1;
  }

  lemma RegistersOfOctets(ws: seq<u16>)
    ensures Registers(Octets(ws)) == ws
  {
    var back := Registers(Octets(ws));
    forall i | 0 <= i < |ws| ensures back[i] == ws[i] {
      OctetsAt(ws, i);
      WordOfParts(ws[i]);
      hide Word, Octets;
      assert back[i] == Word(Octets(ws)[2 * i], Octets(ws)[2 * i + 1]);
    }
  }

  lemma OctetsOfRegisters(b: seq<byte>)
    requires |b| % 2 == 0
    ensures Octets(Registers(b)) == b
  {
    var ws := Registers(b);
    hide Octets;
    forall i | 0 <= i < |b| ensures Octets(ws)[i] == b[i] {
      var k := i / 2;
      OctetsAt(ws, k);
      WordParts(b[2 * k], b[2 * k + 1]);
      assert i == 2 * k || i == 2 * k + 1;
    }
  }

  // ----- octet texts -----

  /** Base, separator and number of octets of an address notation. */
  datatype Notation = Mac | Ip {
    function Base(): nat { if Mac? then 16 else 10 }
    function Separator(): char { if Mac? then ':' else '.' }
    function Count(): nat { if Mac? then 6 else 4 }

    /** `%02X` or `%d`. */
    function Print(o: byte): string {
      if Mac? then [DigitChar(o / 16), DigitChar(o % 16)] else Decimal(o)
    }

    /** The spelling the printer uses: two upper-case hexadecimal digits, or decimal without a leading zero. */
    predicate Canonical(part: string) {
      if Mac? then |part| == 2 && forall c :: c in part ==> '0' <= c <= '9' || 'A' <= c <= 'F'
      else IsCanonicalDecimal(part)
    }

    /** `strconv.ParseUint(part, base, 8)`. */
    function Octet(part: string): Result<byte> {
      match Parse(part, Base())
      case Some(n) => if n < 256 then Ok(n) else Err
      case None => Err
    }

    function OctetList(parts: seq<string>): (r: Result<seq<byte>>)
      ensures r.Ok? ==> |r.value| == |parts|
    {
      if parts == [] then Ok([])
      else
        var front :- OctetList(parts[..|parts| - 1]);
        var last :- Octet(parts[|parts| - 1]);
        Ok(front + [last])
    }

    /** The octets a text denotes; an error for the wrong number of parts or a bad part. */
    function ReadText(s: string): (r: Result<seq<byte>>)
      ensures r.Ok? ==> |r.value| == Count()
    {
      var parts := SplitOn(s, Separator());
      if |parts| != Count() then Err else OctetList(parts)
    }

    function Parts(octets: seq<byte>): (parts: seq<string>)
      ensures |parts| == |octets|
    {
      seq(|octets|, i requires 0 <= i < |octets| => Print(octets[i]))
    }

    function WriteText(octets: seq<byte>): string {
      Join(Parts(octets), Separator())
    }

    predicate IsCanonical(s: string) {
      var parts := SplitOn(s, Separator());
      |parts| == Count() && forall p :: p in parts ==> Canonical(p) && Octet(p).Ok?
    }
  }

  lemma PrintedOctet(n: Notation, o: byte)
    ensures n.Octet(n.Print(o)) == Ok(o)
    ensures n.Canonical(n.Print(o)) && n.Separator() !in n.Print(o)
  {
    if n.Mac? {
      TwoDigits(DigitChar(o / 16), DigitChar(o % 16));
    } else {
      ParseOfDecimal(o);
      DecimalIsCanonical(o);
    }
  }

  lemma UpperDigit(c: char)
    requires '0' <= c <= '9' || 'A' <= c <= 'F'
    ensures DigitValue(c) < 16 && DigitChar(DigitValue(c)) == c
  {
  }

  lemma TwoDigits(hi: char, lo: char)
    requires DigitValue(hi) < 16 && DigitValue(lo) < 16
    ensures IsDigits([hi, lo], 16) && Value([hi, lo], 16) == DigitValue(hi) * 16 + DigitValue(lo)
  {
    var one: string := [hi];
    assert [hi, lo][..1] == one && one[..0] == "";
    assert Value("", 16) == 0;
    assert Value(one, 16) == DigitValue(hi);
  }

  /** A canonical part is what the printer prints for its value. */
  lemma CanonicalPart(n: Notation, p: string)
    requires n.Canonical(p) && n.Octet(p).Ok?
    ensures n.Print(n.Octet(p).value) == p
  {
    if n.Mac? {
      HexPart(p);
    } else {
      DecimalOfCanonical(p);
    }
  }

  /** Two upper-case hexadecimal digits are what is printed for their value. */
  lemma {:induction false} HexPart(p: string)
    requires Mac.Canonical(p)
    ensures IsDigits(p, 16) && Value(p, 16) < 256
    ensures [DigitChar(Value(p, 16) / 16), DigitChar(Value(p, 16) % 16)] == p
  {
    hide Value, DigitValue, DigitChar;
    assert p == [p[0], p[1]] && p[0] in p && p[1] in p;
    UpperDigit(p[0]);
    UpperDigit(p[1]);
    TwoDigits(p[0], p[1]);
  }

  lemma {:induction false} OctetsOfParts(n: Notation, parts: seq<string>)
    ensures n.OctetList(parts).Ok? <==> forall p :: p in parts ==> n.Octet(p).Ok?
    ensures n.OctetList(parts).Ok? ==>
              forall i :: 0 <= i < |parts| ==> n.Octet(parts[i]) == Ok(n.OctetList(parts).value[i])
  {
    if parts != [] {
      var front := parts[..|parts| - 1];
      OctetsOfParts(n, front);
      assert forall p :: p in parts <==> p in front || p == parts[|parts| - 1];
    }
  }

  /** Exactly these texts are addresses: six parts between colons, each a hexadecimal numeral below 256, or four parts
      between dots, each a decimal one. */
  lemma {:induction false} AddressDomain(n: Notation, s: string)
    ensures n.ReadText(s).Ok? <==>
              if n.Mac? then |SplitOn(s, ':')| == 6 && forall p :: p in SplitOn(s, ':') ==> IsOctetText(p, 16)
              else |SplitOn(s, '.')| == 4 && forall p :: p in SplitOn(s, '.') ==> IsOctetText(p, 10)
  {
    OctetsOfParts(n, SplitOn(s, n.Separator()));
  }

  predicate IsOctetText(part: string, base: nat) {
    Parse(part, base).Some? && Parse(part, base).value < 256
  }

  /** Reading a printed address gives the octets back. */
  lemma ReadOfWrite(n: Notation, octets: seq<byte>)
    requires |octets| == n.Count()
    ensures n.ReadText(n.WriteText(octets)) == Ok(octets)
    ensures n.IsCanonical(n.WriteText(octets))
  {
    var parts := n.Parts(octets);
    forall i | 0 <= i < |octets|
      ensures n.Octet(parts[i]) == Ok(octets[i]) && n.Canonical(parts[i]) && n.Separator() !in parts[i]
    {
      PrintedOctet(n, octets[i]);
    }
    SplitOfJoin(parts, n.Separator());
    OctetsOfParts(n, parts);
    assert n.OctetList(parts).value == octets;
  }

  /** Printing what was read normalises the text: it comes back unchanged exactly when it was canonical. */
  lemma WriteOfRead(n: Notation, s: string)
    requires n.ReadText(s).Ok?
    ensures n.WriteText(n.ReadText(s).value) == s <==> n.IsCanonical(s)
  {
    var octets := n.ReadText(s).value;
    var parts := SplitOn(s, n.Separator());
    ReadOfWrite(n, octets);
    if n.IsCanonical(s) {
      OctetsOfParts(n, parts);
      forall i | 0 <= i < |parts| ensures n.Parts(octets)[i] == parts[i] {
        assert parts[i] in parts;
        CanonicalPart(n, parts[i]);
      }
      assert n.Parts(octets) == parts;
      JoinOfSplit(s, n.Separator());
    }
  }

  lemma {:induction false} AbsentFromJoin(parts: seq<string>, sep: char, other: char)
    requires sep != other && forall p :: p in parts ==> other !in p
    ensures other !in Join(parts, sep)
  {
    if parts != [] {
      assert parts[0] in parts && forall p :: p in parts[1..] ==> p in parts;
      AbsentFromJoin(parts[1..], sep, other);
    }
  }

  /** No text is both a printed MAC and a printed IPv4 address: one has colons, the other has none. */
  lemma NotationsDiffer(mac: seq<byte>, ip: seq<byte>)
    requires |mac| == 6 && |ip| == 4
    ensures Mac.WriteText(mac) != Ip.WriteText(ip)
  {
    var parts, text := Ip.Parts(ip), Ip.WriteText(ip);
    assert forall i :: 0 <= i < |ip| ==> parts[i] == Decimal(ip[i]);
    AbsentFromJoin(parts, '.', ':');
    SplitFirst(text, "", ':', false);
    assert text + "" == text && [text] + [] == [text];
    forall p | p in Mac.Parts(mac) ensures ':' !in p {
      var i :| 0 <= i < |mac| && Mac.Parts(mac)[i] == p;
      PrintedOctet(Mac, mac[i]);
    }
    SplitOfJoin(Mac.Parts(mac), ':');
  }

  // ----- the codec tables -----

  function EncodeAddress(n: Notation, v: Any): Result<seq<u16>> {
    if !v.Str? then Err
    else
      var octets :- n.ReadText(v.s);
      Ok(Registers(octets))
  }

  /** `decodeMACAddress` and `decodeIPv4Address`: the leading registers count, any others are ignored. */
  function DecodeAddress(n: Notation, raw: Any): Result<Any> {
    if !raw.U16s? || |raw.ws| < n.Count() / 2 then Err
    else Ok(Str(n.WriteText(Octets(raw.ws[..n.Count() / 2]))))
  }

  function ToUint16Slice(v: Any): Result<seq<u16>> {
    if !v.U32? then Err else Ok([v.d / WRAP16, v.d % WRAP16])
  }

  function ToUint32(raw: Any): Result<Any> {
    if !raw.U16s? || |raw.ws| < 2 then Err else Ok(U32(raw.ws[0] * WRAP16 + raw.ws[1]))
  }

  /** `EncodeWData`. */
  function EncodeWData(name: string, v: Any): Result<seq<u16>> {
    match name
    case "encodeMACAddress" => EncodeAddress(Mac, v)
    case "encodeIPv4Address" => EncodeAddress(Ip, v)
    case "toUint16Slice" => ToUint16Slice(v)
    case _ => Err
  }

  /** `DecodeRData`. */
  function DecodeRData(name: string, raw: Any): Result<Any> {
    match name
    case "decodeMACAddress" => DecodeAddress(Mac, raw)
    case "decodeIPv4Address" => DecodeAddress(Ip, raw)
    case "toUint32" => ToUint32(raw)
    case _ => Err
  }

  /** The decoder that undoes each encoder. */
  predicate Matching(encoder: string, decoder: string) {
    || (encoder == "encodeMACAddress" && decoder == "decodeMACAddress")
    || (encoder == "encodeIPv4Address" && decoder == "decodeIPv4Address")
    || (encoder == "toUint16Slice" && decoder == "toUint32")
  }

  /** The form in which a value comes back. */
  function Normal(encoder: string, v: Any): Any {
    match encoder
    case "encodeMACAddress" =>
      if v.Str? && Mac.ReadText(v.s).Ok? then Str(Mac.WriteText(Mac.ReadText(v.s).value)) else v
    case "encodeIPv4Address" =>
      if v.Str? && Ip.ReadText(v.s).Ok? then Str(Ip.WriteText(Ip.ReadText(v.s).value)) else v
    case _ => v
  }

  /** The spelling that survives the trip unchanged. */
  predicate IsNormal(encoder: string, v: Any) {
    match encoder
    case "encodeMACAddress" => v.Str? ==> Mac.IsCanonical(v.s)
    case "encodeIPv4Address" => v.Str? ==> Ip.IsCanonical(v.s)
    case _ => true
  }

  /** Encoding the decoded registers gives the same registers: three for a MAC address, two for IPv4 and uint32. */
  lemma EncodeOfDecode(encoder: string, decoder: string, ws: seq<u16>)
    requires Matching(encoder, decoder)
    requires |ws| == if encoder == "encodeMACAddress" then 3 else 2
    ensures DecodeRData(decoder, U16s(ws)).Ok?
    ensures EncodeWData(encoder, DecodeRData(decoder, U16s(ws)).value) == Ok(ws)
  {
    hide EncodeAddress, DecodeAddress, ToUint16Slice, ToUint32;
    if encoder != "toUint16Slice" {
      AddressOfDecode(if encoder == "encodeMACAddress" then Mac else Ip, ws);
    } else {
      WordsOfDecode(ws);
    }
  }

  lemma WordsOfDecode(ws: seq<u16>)
    requires |ws| == 2
    ensures ToUint32(U16s(ws)).Ok? && ToUint16Slice(ToUint32(U16s(ws)).value) == Ok(ws)
  {
    WordsOfUint32(ws[0], ws[1]);
    assert ws == [ws[0], ws[1]];
  }

  lemma AddressOfDecode(n: Notation, ws: seq<u16>)
    requires |ws| == n.Count() / 2
    ensures DecodeAddress(n, U16s(ws)).Ok?
    ensures EncodeAddress(n, DecodeAddress(n, U16s(ws)).value) == Ok(ws)
  {
    hide Octets, Registers, SplitOn, Join;
    assert ws[..n.Count() / 2] == ws;
    ReadOfWrite(n, Octets(ws));
    RegistersOfOctets(ws);
  }

  lemma WordsOfUint32(hi: u16, lo: u16)
    ensures (hi * WRAP16 + lo) / WRAP16 == hi && (hi * WRAP16 + lo) % WRAP16 == lo
  {
  }

  /** Decoding the encoded registers normalises the value, and gives the same value back exactly when it was in
      normal form already; the normal form is accepted and encodes to the same registers. */
  lemma DecodeOfEncode(encoder: string, decoder: string, v: Any)
    requires Matching(encoder, decoder)
    requires EncodeWData(encoder, v).Ok?
    ensures DecodeRData(decoder, U16s(EncodeWData(encoder, v).value)) == Ok(Normal(encoder, v))
    ensures Normal(encoder, v) == v <==> IsNormal(encoder, v)
    ensures IsNormal(encoder, Normal(encoder, v))
    ensures EncodeWData(encoder, Normal(encoder, v)) == EncodeWData(encoder, v)
  {
    if encoder != "toUint16Slice" {
      var n := if encoder == "encodeMACAddress" then Mac else Ip;
      var octets := n.ReadText(v.s).value;
      var ws := Registers(octets);
      assert ws[..n.Count() / 2] == ws;
      OctetsOfRegisters(octets);
      ReadOfWrite(n, octets);
      WriteOfRead(n, v.s);
    }
  }

  // ----- known values -----

  lemma {:induction false} JoinTwo(a: string, b: string, sep: char)
    ensures Join([a, b], sep) == a + [sep] + b
  {
    assert [a, b][1..] == [b];
  }

  lemma {:induction false} JoinFour(a: string, b: string, c: string, d: string, sep: char)
    ensures Join([a, b, c, d], sep) == a + [sep] + (b + [sep] + (c + [sep] + d))
  {
    assert [a, b, c, d][1..] == [b, c, d] && [b, c, d][1..] == [c, d];
    JoinTwo(c, d, sep);
  }

  lemma {:induction false} JoinSix(a: string, b: string, c: string, d: string, e: string, f: string, sep: char)
    ensures Join([a, b, c, d, e, f], sep) ==
            a + [sep] + (b + [sep] + (c + [sep] + (d + [sep] + (e + [sep] + f))))
  {
    assert [a, b, c, d, e, f][1..] == [b, c, d, e, f] && [b, c, d, e, f][1..] == [c, d, e, f];
    JoinFour(c, d, e, f, sep);
  }

  /** The text of a MAC address: the high half of a register comes before its low half, and registers after the third
      are ignored. */
  lemma MacLayout(ws: seq<u16>)
    requires |ws| >= 3
    ensures var hex := (o: byte) => [DigitChar(o / 16), DigitChar(o % 16)];
            DecodeRData("decodeMACAddress", U16s(ws)) ==
            Ok(Str(hex(ws[0] / 256) + ":" + (hex(ws[0] % 256) + ":" + (hex(ws[1] / 256) + ":" +
                   (hex(ws[1] % 256) + ":" + (hex(ws[2] / 256) + ":" + hex(ws[2] % 256)))))))
  {
    hide Join, DigitChar;
    var b := Octets(ws[..3]);
    assert Mac.Parts(b) == [Mac.Print(b[0]), Mac.Print(b[1]), Mac.Print(b[2]), Mac.Print(b[3]), Mac.Print(b[4]),
                            Mac.Print(b[5])];
    JoinSix(Mac.Print(b[0]), Mac.Print(b[1]), Mac.Print(b[2]), Mac.Print(b[3]), Mac.Print(b[4]), Mac.Print(b[5]), ':');
  }

  lemma IpLayout(ws: seq<u16>)
    requires |ws| >= 2
    ensures DecodeRData("decodeIPv4Address", U16s(ws)) ==
            Ok(Str(Decimal(ws[0] / 256) + "." + (Decimal(ws[0] % 256) + "." +
                   (Decimal(ws[1] / 256) + "." + Decimal(ws[1] % 256)))))
  {
    hide Join, Decimal;
    var b := Octets(ws[..2]);
    assert Ip.Parts(b) == [Ip.Print(b[0]), Ip.Print(b[1]), Ip.Print(b[2]), Ip.Print(b[3])];
    JoinFour(Ip.Print(b[0]), Ip.Print(b[1]), Ip.Print(b[2]), Ip.Print(b[3]), '.');
  }

  /** High word first. */
  lemma Uint32Layout(ws: seq<u16>)
    requires |ws| >= 2
    ensures DecodeRData("toUint32", U16s(ws)) == Ok(U32(ws[0] * WRAP16 + ws[1]))
  {
  }

  // ----- the encoder loop -----

  /** `encodeMACAddress` and `encodeIPv4Address`: fill the buffer octet by octet, stopping at the first bad part. */
  method EncodeAddressText(n: Notation, v: Any) returns (r: Result<seq<u16>>)
    ensures r == EncodeAddress(n, v)
  {
    if !v.Str? { return Err; }
    var parts := SplitOn(v.s, n.Separator());
    if |parts| != n.Count() { return Err; }
    var b := new byte[n.Count()](_ => 0);
    for i := 0 to |parts|
      invariant n.OctetList(parts[..i]) == Ok(b[..i])
    {
      var val := n.Octet(parts[i]);
      assert parts[..i + 1][..i] == parts[..i];
      if val.Err? {
        OctetsOfParts(n, parts);
        return Err;
      }
      b[i] := val.value;
      assert b[..i + 1] == b[..i] + [val.value];
    }
    assert parts[..|parts|] == parts && b[..|parts|] == b[..];
    return Ok(Registers(b[..]));
  }
}
