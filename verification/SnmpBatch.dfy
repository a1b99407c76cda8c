/** The batch read of pkg/adapter/snmp/snmp.go: one Get for all OIDs, and its answers scattered back by name. */
module SnmpBatch {
  import opened Basics
  import opened Text
  import opened GoTypes

  /** `toOIDString`: text as it is, a number in decimal, anything else an error. */
  function ToOid(address: Any): Result<string> {
    match address
    case Str(s) => Ok(s)
    case Num(n) => Ok(Decimal(n))
    case _ => Err
  }

  function OidsOf(points: seq<Resource>): (r: Result<seq<string>>)
    ensures r.Ok? ==> |r.value| == |points|
    ensures r.Ok? ==> forall i :: 0 <= i < |points| ==> ToOid(points[i].address) == Ok(r.value[i])
    ensures r.Err? <==> exists i :: 0 <= i < |points| && ToOid(points[i].address).Err?
  {
    if points == [] then Ok([])
    else
      var front := OidsOf(points[..|points| - 1]);
      var last := ToOid(points[|points| - 1].address);
      if front.Err? || last.Err? then Err else Ok(front.value + [last.value])
  }

  /** The position a name is written back to: the last one that asked for it. */
  function IndexOf(oids: seq<string>, name: string): (r: Option<nat>)
    ensures r.Some? ==> r.value < |oids|
  {
    if oids == [] then None
    else if oids[|oids| - 1] == name then Some(|oids| - 1)
    else IndexOf(oids[..|oids| - 1], name)
  }

  datatype Variable = Variable(name: string, raw: Any)

  /** `conv.ValueToType`, given the declared type; a parameter of the model. */
  type Convert = (Any, string) -> Result<Any>

  /** The points after the answers have been written back one by one; an answer that cannot be converted ends it. */
  function Scatter(convert: Convert, points: seq<Resource>, oids: seq<string>, vars: seq<Variable>)
    : (seq<Resource>, bool)
    requires |oids| == |points|
    ensures |Scatter(convert, points, oids, vars).0| == |points|
    ensures forall i :: 0 <= i < |points| ==> Scatter(convert, points, oids, vars).0[i].kind == points[i].kind
  {
    if vars == [] then (points, true)
    else
      var (front, ok) := Scatter(convert, points, oids, vars[..|vars| - 1]);
      var last := vars[|vars| - 1];
      if !ok then (front, false)
      else
        match IndexOf(oids, last.name)
        case None => (front, true)
        case Some(i) =>
          match convert(last.raw, points[i].kind)
          case Ok(v) => (front[i := front[i].(value := v)], true)
          case Err => (front, false)
  }

  lemma {:induction false} IndexInRange(oids: seq<string>, name: string)
    ensures IndexOf(oids, name).Some? ==>
              var i := IndexOf(oids, name).value;
              i < |oids| && oids[i] == name && forall j :: i < j < |oids| ==> oids[j] != name
    ensures IndexOf(oids, name).None? <==> name !in oids
  {
    if oids != [] {
      IndexInRange(oids[..|oids| - 1], name);
      assert name in oids <==> name in oids[..|oids| - 1] || name == oids[|oids| - 1];
    }
  }

  lemma {:induction false} ScatterStops(convert: Convert, points: seq<Resource>, oids: seq<string>,
                                        vars: seq<Variable>, k: nat)
    requires |oids| == |points| && k <= |vars|
    requires !Scatter(convert, points, oids, vars[..k]).1
    ensures Scatter(convert, points, oids, vars) == Scatter(convert, points, oids, vars[..k])
    decreases |vars|
  {
    if k < |vars| {
      var front := vars[..|vars| - 1];
      assert front[..k] == vars[..k];
      ScatterStops(convert, points, oids, front, k);
    } else {
      assert vars[..k] == vars;
    }
  }

  lemma {:induction false} OidsStep(points: seq<Resource>, i: nat)
    requires i < |points|
    ensures var front, last := OidsOf(points[..i]), ToOid(points[i].address);
            && (front.Ok? && last.Ok? ==> OidsOf(points[..i + 1]) == Ok(front.value + [last.value]))
            && (last.Err? ==> OidsOf(points).Err?)
  {
    assert points[..i + 1][..i] == points[..i];
  }

  lemma {:induction false} IndexStep(oids: seq<string>, oid: string)
    ensures forall name :: IndexOf(oids + [oid], name) == if name == oid then Some(|oids|) else IndexOf(oids, name)
  {
    assert (oids + [oid])[..|oids|] == oids;
  }

  /** The first loop of `ReadBatch`: the OIDs to request, and for each the point it is written back to. */
  method BuildIndex(points: array<Resource>) returns (r: Result<seq<string>>, oidIndex: map<string, nat>)
    ensures r == OidsOf(points[..])
    ensures r.Ok? ==> |r.value| == points.Length && forall i :: 0 <= i < points.Length ==>
              match points[i].address
              case Str(s) => r.value[i] == s
              case Num(n) => r.value[i] == Decimal(n)
              case _ => false
    ensures r.Ok? ==> forall name :: IndexOf(r.value, name) == if name in oidIndex then Some(oidIndex[name]) else None
  {
    var oids: seq<string> := [];
    oidIndex := map[];
    for i := 0 to points.Length
      invariant OidsOf(points[..i]) == Ok(oids) && |oids| == i
      invariant forall name :: IndexOf(oids, name) == if name in oidIndex then Some(oidIndex[name]) else None
    {
      var oid := ToOid(points[i].address);
      OidsStep(points[..], i);
      if oid.Err? {
        return Err, oidIndex;
      }
      IndexStep(oids, oid.value);
      hide OidsOf, IndexOf, ToOid;
      oids := oids + [oid.value];
      oidIndex := oidIndex[oid.value := i];
    }
    assert points[..points.Length] == points[..];
    return Ok(oids), oidIndex;
  }

  /** The second loop of `ReadBatch`. */
  method WriteBack(points: array<Resource>, ghost oids: seq<string>, oidIndex: map<string, nat>,
                   vars: seq<Variable>, convert: Convert)
    returns (ok: bool)
    requires |oids| == points.Length
    requires forall name :: IndexOf(oids, name) == if name in oidIndex then Some(oidIndex[name]) else None
    modifies points
    ensures (points[..], ok) == Scatter(convert, old(points[..]), oids, vars)
  {
    hide IndexOf, OidsOf, ToOid;
    ghost var before := points[..];
    assert vars[..0] == [];
    for k := 0 to |vars|
      invariant (points[..], true) == Scatter(convert, before, oids, vars[..k])
      invariant forall i :: 0 <= i < points.Length ==> points[i].kind == before[i].kind
    {
      assert vars[..k + 1][..k] == vars[..k] && vars[..k + 1][k] == vars[k];
      ghost var index := IndexOf(oids, vars[k].name);
      if vars[k].name in oidIndex {
        var idx := oidIndex[vars[k].name];
        assert index == Some(idx);
        var val := convert(vars[k].raw, points[idx].kind);
        if val.Err? {
          ScatterStops(convert, before, oids, vars, k + 1);
          return false;
        }
        points[idx] := points[idx].(value := val.value);
      }
    }
    assert vars[..|vars|] == vars;
    return true;
  }

  /** `ReadBatch`; `get` is the session's answer to one Get request. */
  method ReadBatch(points: array<Resource>, get: seq<string> -> Result<seq<Variable>>, convert: Convert)
    returns (ok: bool)
    modifies points
    ensures var before := old(points[..]);
            var oids := OidsOf(before);
            if before == [] then ok && points[..] == before
            else if oids.Err? || get(oids.value).Err? then !ok && points[..] == before
            else (points[..], ok) == Scatter(convert, before, oids.value, get(oids.value).value)
  {
    if points.Length == 0 { return true; }
    var oids, oidIndex := BuildIndex(points);
    if oids.Err? { return false; }
    var packet := get(oids.value);
    if packet.Err? { return false; }
    ok := WriteBack(points, oids.value, oidIndex, packet.value, convert);
  }

  /** What one Get for one point gives; the name of the answer is not looked at. */
  function SingleRead(res: Resource, get: seq<string> -> Result<seq<Variable>>, convert: Convert): Result<Resource> {
    var oid :- ToOid(res.address);
    var vars :- get([oid]);
    if vars == [] then Err
    else
      var v :- convert(vars[0].raw, res.kind);
      Ok(res.(value := v))
  }

  /** `ReadSingle` on the point at index i. */
  method ReadSingle(points: array<Resource>, i: nat, get: seq<string> -> Result<seq<Variable>>, convert: Convert)
    returns (ok: bool)
    requires i < points.Length
    modifies points
    ensures var r := SingleRead(old(points[i]), get, convert);
            ok == r.Ok? && points[..] == if r.Ok? then old(points[..])[i := r.value] else old(points[..])
  {
    var oid := ToOid(points[i].address);
    if oid.Err? { return false; }
    var packet := get([oid.value]);
    if packet.Err? || |packet.value| == 0 { return false; }
    var val := convert(packet.value[0].raw, points[i].kind);
    if val.Err? { return false; }
    points[i] := points[i].(value := val.value);
    return true;
  }

  // ----- what a point gets -----

  /** The raw value of the last answer with this name. */
  function LastAnswer(vars: seq<Variable>, name: string): Option<Any> {
    if vars == [] then None
    else if vars[|vars| - 1].name == name then Some(vars[|vars| - 1].raw)
    else LastAnswer(vars[..|vars| - 1], name)
  }

  /** When the read succeeds, a point gets the conversion of the last answer under its OID if it is the last point that
      asked for that OID, and keeps its value if there is no answer or a later point asked for the same OID. */
  lemma {:induction false} ScatterPoint(convert: Convert, points: seq<Resource>, oids: seq<string>,
                                        vars: seq<Variable>, i: nat)
    requires |oids| == |points| && i < |points|
    requires Scatter(convert, points, oids, vars).1
    ensures var answer := LastAnswer(vars, oids[i]);
            var p := points[i];
            if answer.Some? && IndexOf(oids, oids[i]) == Some(i)
            then convert(answer.value, p.kind).Ok?
                 && Scatter(convert, points, oids, vars).0[i] == p.(value := convert(answer.value, p.kind).value)
            else Scatter(convert, points, oids, vars).0[i] == p
  {
    if vars != [] {
      ScatterPoint(convert, points, oids, vars[..|vars| - 1], i);
      IndexInRange(oids, vars[|vars| - 1].name);
    }
  }

  /** A read that fails has written back the answers before the first one that cannot be converted, and no more. */
  lemma {:induction false} ScatterFails(convert: Convert, points: seq<Resource>, oids: seq<string>,
                                        vars: seq<Variable>)
    returns (k: nat)
    requires |oids| == |points| && !Scatter(convert, points, oids, vars).1
    ensures k < |vars| && Scatter(convert, points, oids, vars[..k]) == (Scatter(convert, points, oids, vars).0, true)
    ensures var i := IndexOf(oids, vars[k].name); i.Some? && convert(vars[k].raw, points[i.value].kind).Err?
  {
    var front := vars[..|vars| - 1];
    if Scatter(convert, points, oids, front).1 {
      k := |front|;
    } else {
      k := ScatterFails(convert, points, oids, front);
      assert front[..k] == vars[..k];
    }
  }

  predicate Distinct(names: seq<string>) {
    forall i, j :: 0 <= i < j < |names| ==> names[i] != names[j]
  }

  /** Every answer to a requested OID can be converted to that point's type. */
  predicate Convertible(convert: Convert, points: seq<Resource>, oids: seq<string>, vars: seq<Variable>)
    requires |oids| == |points|
  {
    forall k, i :: 0 <= k < |vars| && 0 <= i < |points| && vars[k].name == oids[i] ==>
      convert(vars[k].raw, points[i].kind).Ok?
  }

  /** One convertible answer per name. */
  predicate WellAnswered(convert: Convert, points: seq<Resource>, oids: seq<string>, vars: seq<Variable>)
    requires |oids| == |points|
  {
    && (forall j, k :: 0 <= j < k < |vars| ==> vars[j].name != vars[k].name)
    && Convertible(convert, points, oids, vars)
  }

  lemma {:induction false} ConvertibleSucceeds(convert: Convert, points: seq<Resource>, oids: seq<string>,
                                               vars: seq<Variable>)
    requires |oids| == |points| && Convertible(convert, points, oids, vars)
    ensures Scatter(convert, points, oids, vars).1
  {
    if vars != [] {
      ConvertibleSucceeds(convert, points, oids, vars[..|vars| - 1]);
      IndexInRange(oids, vars[|vars| - 1].name);
    }
  }

  lemma {:induction false} AnswerFound(vars: seq<Variable>, v: Variable)
    requires v in vars && forall j, k :: 0 <= j < k < |vars| ==> vars[j].name != vars[k].name
    ensures LastAnswer(vars, v.name) == Some(v.raw)
  {
    var last := vars[|vars| - 1];
    if last != v {
      var k :| 0 <= k < |vars| && vars[k] == v;
      AnswerFound(vars[..|vars| - 1], v);
    }
  }

  lemma {:induction false} AnswerMissing(vars: seq<Variable>, name: string)
    requires forall v :: v in vars ==> v.name != name
    ensures LastAnswer(vars, name) == None
  {
    if vars != [] { AnswerMissing(vars[..|vars| - 1], name); }
  }

  /** For distinct OIDs and one convertible answer per name, in any order and with any unknown names among them: every
      answered point gets the conversion of its own answer, and every other point is left as it was. */
  lemma {:induction false} EachPointItsOwnAnswer(convert: Convert, points: seq<Resource>, oids: seq<string>,
                                                 vars: seq<Variable>, i: nat)
    requires |oids| == |points| && Distinct(oids) && WellAnswered(convert, points, oids, vars) && i < |points|
    ensures Scatter(convert, points, oids, vars).1
    ensures forall v :: v in vars && v.name == oids[i] ==>
              && convert(v.raw, points[i].kind).Ok?
              && Scatter(convert, points, oids, vars).0[i] == points[i].(value := convert(v.raw, points[i].kind).value)
    ensures (forall v :: v in vars ==> v.name != oids[i]) ==> Scatter(convert, points, oids, vars).0[i] == points[i]
  {
    ConvertibleSucceeds(convert, points, oids, vars);
    ScatterPoint(convert, points, oids, vars, i);
    IndexInRange(oids, oids[i]);
    forall v | v in vars && v.name == oids[i] ensures LastAnswer(vars, oids[i]) == Some(v.raw) {
      AnswerFound(vars, v);
    }
    if forall v :: v in vars ==> v.name != oids[i] {
      AnswerMissing(vars, oids[i]);
    }
  }

  /** The order of the answers does not matter. */
  lemma {:induction false} OrderOfAnswersIrrelevant(convert: Convert, points: seq<Resource>, oids: seq<string>,
                                 vars1: seq<Variable>, vars2: seq<Variable>)
    requires |oids| == |points| && Distinct(oids)
    requires WellAnswered(convert, points, oids, vars1) && WellAnswered(convert, points, oids, vars2)
    requires forall v :: v in vars1 <==> v in vars2
    ensures Scatter(convert, points, oids, vars1) == Scatter(convert, points, oids, vars2)
  {
    ConvertibleSucceeds(convert, points, oids, vars1);
    ConvertibleSucceeds(convert, points, oids, vars2);
    forall i | 0 <= i < |points|
      ensures Scatter(convert, points, oids, vars1).0[i] == Scatter(convert, points, oids, vars2).0[i]
    {
      EachPointItsOwnAnswer(convert, points, oids, vars1, i);
      EachPointItsOwnAnswer(convert, points, oids, vars2, i);
      if v :| v in vars1 && v.name == oids[i] {
        assert v in vars2;
      }
    }
    assert Scatter(convert, points, oids, vars1).0 == Scatter(convert, points, oids, vars2).0;
  }

  // ----- batch against single reads -----

  predicate IsDotted(oid: string) {
    oid != "" && oid[0] == '.'
  }

  /** The session reports every name with a leading dot (pkg/adapter/listener_snmp/snmp.go:99). */
  function DottedName(oid: string): string {
    if IsDotted(oid) then oid else "." + oid
  }

  /** A session that answers every OID asked for, in order, from one snapshot of the agent's values. */
  function Session(raw: string -> Any): seq<string> -> Result<seq<Variable>> {
    (oids: seq<string>) =>
      Ok(seq(|oids|, i requires 0 <= i < |oids| => Variable(DottedName(oids[i]), raw(DottedName(oids[i])))))
  }

  lemma {:induction false} AnswerIsRaw(vars: seq<Variable>, raw: string -> Any, name: string)
    requires forall v :: v in vars ==> v.raw == raw(v.name)
    ensures LastAnswer(vars, name) == if exists v :: v in vars && v.name == name then Some(raw(name)) else None
  {
    if vars != [] {
      var front, last := vars[..|vars| - 1], vars[|vars| - 1];
      assert forall v :: v in vars <==> v in front || v == last;
      AnswerIsRaw(front, raw, name);
    }
  }

  /** The answers reach a point exactly if its OID is written with the dot and no later point asked for the same. */
  predicate Reached(oids: seq<string>, i: nat)
    requires i < |oids|
  {
    IsDotted(oids[i]) && IndexOf(oids, oids[i]) == Some(i)
  }

  /** A scatter succeeds exactly if every answer whose name leads to a point can be converted to that point's type. */
  lemma {:induction false} ScatterSucceeds(convert: Convert, points: seq<Resource>, oids: seq<string>,
                                           vars: seq<Variable>)
    requires |oids| == |points|
    ensures Scatter(convert, points, oids, vars).1 <==>
              forall k {:trigger vars[k]} :: 0 <= k < |vars| && IndexOf(oids, vars[k].name).Some? ==>
                convert(vars[k].raw, points[IndexOf(oids, vars[k].name).value].kind).Ok?
  {
    hide IndexOf;
    if vars != [] {
      var front, last := vars[..|vars| - 1], vars[|vars| - 1];
      ScatterSucceeds(convert, points, oids, front);
      assert forall k {:trigger vars[k]} :: 0 <= k < |front| ==> vars[k] == front[k];
    }
  }

  /** The answers a session gives, one for each OID. */
  predicate FromSession(oids: seq<string>, raw: string -> Any, vars: seq<Variable>) {
    && |vars| == |oids|
    && forall k {:trigger vars[k]} :: 0 <= k < |vars| ==>
         vars[k].name == DottedName(oids[k]) && vars[k].raw == raw(vars[k].name)
  }

  lemma {:induction false} SessionSucceeds(convert: Convert, points: seq<Resource>, oids: seq<string>,
                                           raw: string -> Any, vars: seq<Variable>)
    requires |oids| == |points| && FromSession(oids, raw, vars)
    ensures Scatter(convert, points, oids, vars).1 <==>
              forall i :: 0 <= i < |points| && Reached(oids, i) ==>
                convert(raw(DottedName(oids[i])), points[i].kind).Ok?
  {
    hide Scatter, IndexOf;
    ScatterSucceeds(convert, points, oids, vars);
    forall k {:trigger vars[k]} | 0 <= k < |vars| && IndexOf(oids, vars[k].name).Some?
      ensures var i := IndexOf(oids, vars[k].name).value;
              Reached(oids, i) && vars[k].name == DottedName(oids[i])
    {
      IndexInRange(oids, vars[k].name);
    }
    forall i | 0 <= i < |points| && Reached(oids, i)
      ensures vars[i].name == DottedName(oids[i]) && IndexOf(oids, vars[i].name) == Some(i)
    {
    }
  }

  lemma {:induction false} SessionPoint(convert: Convert, points: seq<Resource>, oids: seq<string>, raw: string -> Any,
                                        vars: seq<Variable>, i: nat)
    requires |oids| == |points| && FromSession(oids, raw, vars) && i < |points|
    requires Scatter(convert, points, oids, vars).1
    ensures Reached(oids, i) ==> convert(raw(DottedName(oids[i])), points[i].kind).Ok?
    ensures Scatter(convert, points, oids, vars).0[i] ==
            if Reached(oids, i) then points[i].(value := convert(raw(DottedName(oids[i])), points[i].kind).value)
            else points[i]
  {
    hide Scatter, IndexOf, LastAnswer;
    ScatterPoint(convert, points, oids, vars, i);
    AnswerIsRaw(vars, raw, oids[i]);
    if IsDotted(oids[i]) { assert vars[i] in vars && vars[i].name == oids[i]; }
  }

  lemma SingleOfSession(convert: Convert, res: Resource, raw: string -> Any)
    requires ToOid(res.address).Ok?
    ensures SingleRead(res, Session(raw), convert) ==
            match convert(raw(DottedName(ToOid(res.address).value)), res.kind)
            case Ok(v) => Ok(res.(value := v))
            case Err => Err
  {
    hide ToOid, DottedName;
    var oid := ToOid(res.address).value;
    assert Session(raw)([oid]).value[0] == Variable(DottedName(oid), raw(DottedName(oid)));
  }

  /** Against a session that answers every OID, the batch read succeeds if and only if the single read of every point
      that the answers reach would succeed; and then a point has the value of its single read if and only if the answers
      reach it: its OID is written with the leading dot and no later point asked for the same. Every other point keeps
      its old value, whether or not a single read would have served it. */
  lemma {:induction false} BatchAgainstSingles(convert: Convert, points: seq<Resource>, raw: string -> Any)
    requires OidsOf(points).Ok?
    ensures var oids := OidsOf(points).value;
            var (after, ok) := Scatter(convert, points, oids, Session(raw)(oids).value);
            && (ok <==> forall i :: 0 <= i < |points| && Reached(oids, i) ==>
                          SingleRead(points[i], Session(raw), convert).Ok?)
            && (ok ==> forall i :: 0 <= i < |points| ==>
                         if Reached(oids, i) then SingleRead(points[i], Session(raw), convert) == Ok(after[i])
                         else after[i] == points[i])
  {
    hide OidsOf, Scatter, SingleRead, ToOid, Reached;
    var oids := OidsOf(points).value;
    var vars := Session(raw)(oids).value;
    SessionSucceeds(convert, points, oids, raw, vars);
    forall i | 0 <= i < |points|
      ensures SingleRead(points[i], Session(raw), convert) ==
              match convert(raw(DottedName(oids[i])), points[i].kind)
              case Ok(v) => Ok(points[i].(value := v))
              case Err => Err
    {
      SingleOfSession(convert, points[i], raw);
    }
    if Scatter(convert, points, oids, vars).1 {
      forall i | 0 <= i < |points|
        ensures Reached(oids, i) ==> convert(raw(DottedName(oids[i])), points[i].kind).Ok?
        ensures Scatter(convert, points, oids, vars).0[i] ==
                if Reached(oids, i) then points[i].(value := convert(raw(DottedName(oids[i])), points[i].kind).value)
                else points[i]
      {
        SessionPoint(convert, points, oids, raw, vars, i);
      }
    }
  }

  /** A point whose OID is written without the dot, read by itself: the single read gives it its value, the batch read
      keeps the old one and reports success. */
  lemma {:induction false} UndottedAlone(convert: Convert, p: Resource, oid: string, raw: string -> Any)
    requires p.address == Str(oid) && !IsDotted(oid) && convert(raw("." + oid), p.kind).Ok?
    ensures OidsOf([p]) == Ok([oid])
    ensures SingleRead(p, Session(raw), convert) == Ok(p.(value := convert(raw("." + oid), p.kind).value))
    ensures Scatter(convert, [p], [oid], Session(raw)([oid]).value) == ([p], true)
  {
    hide OidsOf, Scatter, SingleRead;
    var oids := OidsOf([p]).value;
    assert oids[0] == oid && oids == [oid] && DottedName(oid) == "." + oid;
    SingleOfSession(convert, p, raw);
    BatchAgainstSingles(convert, [p], raw);
    assert !Reached(oids, 0);
    assert Scatter(convert, [p], [oid], Session(raw)([oid]).value).0 == [p];
  }

  const UP_TIME_OID := "1.3.6.1.4.1.28866.2.26.16.1.1.0"

  /** So it is for UpTimeCurrentState of res/profiles/snmp.test.profile.yaml. */
  lemma UndottedExample(convert: Convert, p: Resource, raw: string -> Any)
    requires p.address == Str(UP_TIME_OID) && p.kind == "Uint64" && convert(raw("." + UP_TIME_OID), "Uint64").Ok?
    ensures OidsOf([p]) == Ok([UP_TIME_OID])
    ensures SingleRead(p, Session(raw), convert) == Ok(p.(value := convert(raw("." + UP_TIME_OID), "Uint64").value))
    ensures Scatter(convert, [p], [UP_TIME_OID], Session(raw)([UP_TIME_OID]).value) == ([p], true)
  {
    hide OidsOf, Scatter, SingleRead, DottedName, ToOid, Session;
    UndottedAlone(convert, p, UP_TIME_OID, raw);
  }

  /** Two points with the same dotted OID: the batch read serves the second and leaves the first, which a single read
      would have served, and reports success. */
  lemma {:induction false} DuplicateExample(convert: Convert, p: Resource, q: Resource, oid: string, raw: string -> Any)
    requires p.address == Str(oid) && q.address == Str(oid) && IsDotted(oid)
    requires convert(raw(oid), p.kind).Ok? && convert(raw(oid), q.kind).Ok?
    ensures OidsOf([p, q]) == Ok([oid, oid])
    ensures SingleRead(p, Session(raw), convert) == Ok(p.(value := convert(raw(oid), p.kind).value))
    ensures Scatter(convert, [p, q], [oid, oid], Session(raw)([oid, oid]).value)
         == ([p, q.(value := convert(raw(oid), q.kind).value)], true)
  {
    hide OidsOf, Scatter, SingleRead, ToOid;
    SameOids(p, q, oid);
    var oids := OidsOf([p, q]).value;
    SingleOfSession(convert, p, raw);
    SingleOfSession(convert, q, raw);
    BatchAgainstSingles(convert, [p, q], raw);
    assert IndexOf([oid, oid], oid) == Some(1);
    assert !Reached(oids, 0) && Reached(oids, 1);
    var after := Scatter(convert, [p, q], oids, Session(raw)(oids).value).0;
    assert after == [after[0], after[1]];
  }

  lemma {:induction false} SameOids(p: Resource, q: Resource, oid: string)
    requires p.address == Str(oid) && q.address == Str(oid)
    ensures OidsOf([p, q]) == Ok([oid, oid]) && ToOid(p.address) == Ok(oid) == ToOid(q.address)
  {
    hide OidsOf;
    assert forall i :: 0 <= i < 2 ==> ToOid([p, q][i].address) == Ok(oid);
    assert OidsOf([p, q]).Ok?;
    var oids := OidsOf([p, q]).value;
    assert oids == [oids[0], oids[1]];
  }
}
