/** Go's fixed-width arithmetic, its `any`, and the resource model of pkg/model/resource.go. */
module GoTypes {
  const WRAP16 := 0x1_0000

  type u16 = n: int | 0 <= n < WRAP16
  type u32 = n: int | 0 <= n < 0x1_0000_0000

  /** uint16 addition and subtraction wrap around. */
  function Add16(a: u16, b: u16): (r: u16)
    ensures r == if a + b < WRAP16 then a + b else a + b - WRAP16
  {
    (a + b) % WRAP16
  }

  function Sub16(a: u16, b: u16): (r: u16)
    ensures r == if a >= b then a - b else a - b + WRAP16
  {
    (a - b) % WRAP16
  }

  /** A Go result `(value, error)`. */
  datatype Result<+T> = Ok(value: T) | Err {
    predicate IsFailure() { Err? }

    function PropagateFailure<U>(): Result<U>
      requires Err?
    {
      Err
    }

    function Extract(): T
      requires Ok?
    {
      value
    }
  }

  /** The dynamic values that reach the modelled code inside an `any`. JSON numbers are float64 in the source;
      addresses and lengths are modelled as naturals. */
  datatype Any =
    | Nil
    | Bool(b: bool)
    | Bools(bs: seq<bool>)
    | U16(w: u16)
    | U16s(ws: seq<u16>)
    | U32(d: u32)
    | Str(s: string)
    | Num(n: nat)

  datatype Resource = Resource(name: string, address: Any, length: u16, value: Any, kind: string,
                               decoder: string, encoder: string, args: map<string, Any>)

  /** `sdkModels.CommandRequest`: the attributes come from the device profile. */
  datatype CommandRequest = CommandRequest(name: string, kind: string, attributes: map<string, Any>)

  /** `value.(float64)` panics on anything but a number, so a length attribute must be one that fits 16 bits. */
  predicate WellTyped(req: CommandRequest) {
    "length" in req.attributes ==> req.attributes["length"].Num? && req.attributes["length"].n < WRAP16
  }

  const NAMED := {"address", "length", "decodeFunc", "encodeFunc"}

  /** `res.Decoder, _ = value.(string)`. */
  function TextAttribute(req: CommandRequest, key: string): string {
    if key in req.attributes && req.attributes[key].Str? then req.attributes[key].s else ""
  }

  /** The resource a request denotes. */
  function ResourceOf(req: CommandRequest): Resource
    requires WellTyped(req)
  {
    Resource(req.name,
             if "address" in req.attributes then req.attributes["address"] else Nil,
             if "length" in req.attributes then req.attributes["length"].n else 0,
             Nil, req.kind, TextAttribute(req, "decodeFunc"), TextAttribute(req, "encodeFunc"),
             req.attributes - NAMED)
  }

  /** One turn of the attribute loop. */
  function SetAttribute(res: Resource, key: string, value: Any): Resource
    requires key == "length" ==> value.Num? && value.n < WRAP16
  {
    match key
    case "address" => res.(address := value)
    case "length" => res.(length := value.n)
    case "decodeFunc" => res.(decoder := if value.Str? then value.s else "")
    case "encodeFunc" => res.(encoder := if value.Str? then value.s else "")
    case _ => res.(args := res.args[key := value])
  }

  /** The request with only the attributes already visited. */
  function Visited(req: CommandRequest, todo: set<string>): CommandRequest {
    req.(attributes := req.attributes - todo)
  }

  lemma VisitAttribute(req: CommandRequest, todo: set<string>, key: string)
    requires WellTyped(req) && key in todo && key in req.attributes
    ensures ResourceOf(Visited(req, todo - {key}))
         == SetAttribute(ResourceOf(Visited(req, todo)), key, req.attributes[key])
  {
    var before, after := Visited(req, todo), Visited(req, todo - {key});
    assert after.attributes == before.attributes[key := req.attributes[key]];
    if key in NAMED {
      assert after.attributes - NAMED == before.attributes - NAMED;
    } else {
      assert after.attributes - NAMED == (before.attributes - NAMED)[key := req.attributes[key]];
    }
  }

  /** `NewResource`: a Go map is ranged over in no particular order, and the result does not depend on it. */
  method NewResource(req: CommandRequest) returns (res: Resource)
    requires WellTyped(req)
    ensures res == ResourceOf(req)
    ensures res.name == req.name && res.kind == req.kind && res.value == Nil
    ensures forall key :: key in res.args <==>
              key in req.attributes && key !in {"address", "length", "decodeFunc", "encodeFunc"}
    ensures forall key :: key in res.args ==> res.args[key] == req.attributes[key]
  {
    res := Resource(req.name, Nil, 0, Nil, req.kind, "", "", map[]);
    var todo := req.attributes.Keys;
    assert req.attributes - todo == map[];
    assert res == ResourceOf(Visited(req, todo));
    hide ResourceOf, SetAttribute;
    while todo != {}
      invariant todo <= req.attributes.Keys
      invariant res == ResourceOf(Visited(req, todo))
      decreases |todo|
    {
      var key :| key in todo;
      VisitAttribute(req, todo, key);
      res := SetAttribute(res, key, req.attributes[key]);
      todo := todo - {key};
    }
    assert req.attributes - todo == req.attributes;
  }

  function ResourcesOf(reqs: seq<CommandRequest>): (rs: seq<Resource>)
    requires forall r :: r in reqs ==> WellTyped(r)
    ensures |rs| == |reqs|
  {
    seq(|reqs|, i requires 0 <= i < |reqs| => ResourceOf(reqs[i]))
  }

  /** `NewResourceN`. */
  method NewResourceN(reqs: seq<CommandRequest>) returns (res: array<Resource>)
    requires forall r :: r in reqs ==> WellTyped(r)
    ensures fresh(res) && res[..] == ResourcesOf(reqs)
  {
    var blank := Resource("", Nil, 0, Nil, "", "", "", map[]);
    res := new Resource[|reqs|](_ => blank);
    for i := 0 to |reqs|
      invariant res[..i] == ResourcesOf(reqs)[..i]
    {
      res[i] := NewResource(reqs[i]);
    }
  }
}
