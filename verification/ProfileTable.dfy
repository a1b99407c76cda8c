/** The two profile converters: scripts/profile_csv_to_json.py regroups rows into resources and commands, and
    scripts/profile_json_to_csv.py flattens them again. */
module ProfileTable {
  import opened Basics
  import opened Text

  // ----- cells -----

  /** `int(s)` for a decimal numeral with an optional minus sign. */
  function ParseInt(s: string): Option<int> {
    if s != "" && s[0] == '-' then
      match Parse(s[1..], 10)
      case Some(n) => Some(-(n as int))
      case None => None
    else
      match Parse(s, 10)
      case Some(n) => Some(n)
      case None => None
  }

  /** `int(s) if s else default`; a bad numeral is a ValueError. */
  function IntCell(s: string, default: int): Outcome<int> {
    if s == "" then Done(default)
    else match ParseInt(s)
      case Some(n) => Done(n)
      case None => Raises
  }

  /** `str(n)`. */
  function IntText(n: int): string {
    if n < 0 then "-" + Decimal(-n) else Decimal(n)
  }

  lemma IntCellOfText(n: int, default: int)
    ensures IntCell(IntText(n), default) == Done(n)
  {
    ParseOfDecimal(if n < 0 then -n else n);
    if n < 0 {
      assert IntText(n)[1..] == Decimal(-n);
    } else {
      assert Decimal(n)[0] in Decimal(n);
    }
  }

  function BoolText(b: bool): string {
    if b then "true" else "false"
  }

  /** An optional entry: present in the profile exactly if the cell is not empty. */
  function TextCell(s: string): Option<string> {
    if s == "" then None else Some(s)
  }

  function CellText(o: Option<string>): string {
    match o case Some(s) => s case None => ""
  }

  /** The characters `str.strip()` removes. */
  predicate IsSpace(c: char) {
    var n := c as int;
    || 9 <= n <= 13 || 28 <= n <= 32 || n == 0x85 || n == 0xA0 || n == 0x1680 || 0x2000 <= n <= 0x200A
    || n == 0x2028 || n == 0x2029 || n == 0x202F || n == 0x205F || n == 0x3000
  }

  function Strip(s: string): string {
    if s != "" && IsSpace(s[0]) then Strip(s[1..])
    else if s != "" && IsSpace(s[|s| - 1]) then Strip(s[..|s| - 1])
    else s
  }

  /** `[l.strip() for l in parts if l.strip()]`. */
  function CleanLabels(parts: seq<string>): seq<string> {
    if parts == [] then []
    else
      var first := Strip(parts[0]);
      if first == "" then CleanLabels(parts[1..]) else [first] + CleanLabels(parts[1..])
  }

  function LabelsOf(cell: string): seq<string> {
    CleanLabels(SplitOn(cell, ','))
  }

  lemma {:induction false} StripFacts(s: string)
    ensures Strip(Strip(s)) == Strip(s)
    ensures forall c :: c in Strip(s) ==> c in s
  {
    if s != "" && IsSpace(s[0]) {
      StripFacts(s[1..]);
    } else if s != "" && IsSpace(s[|s| - 1]) {
      StripFacts(s[..|s| - 1]);
    }
  }

  /** Only whitespace is removed, from both ends, and all of it. */
  lemma {:induction false} StripExact(s: string) returns (i: nat, j: nat)
    ensures i <= j <= |s| && Strip(s) == s[i..j]
    ensures forall k :: 0 <= k < i || j <= k < |s| ==> IsSpace(s[k])
    ensures i < j ==> !IsSpace(s[i]) && !IsSpace(s[j - 1])
  {
    hide IsSpace;
    if s != "" && IsSpace(s[0]) {
      i, j := StripExact(s[1..]);
      i, j := i + 1, j + 1;
    } else if s != "" && IsSpace(s[|s| - 1]) {
      i, j := StripExact(s[..|s| - 1]);
    } else {
      i, j := 0, |s|;
    }
  }

  lemma {:induction false} CleanLabelsFacts(parts: seq<string>)
    requires forall p :: p in parts ==> ',' !in p
    ensures forall l :: l in CleanLabels(parts) ==> l != "" && Strip(l) == l && ',' !in l
  {
    if parts != [] {
      assert parts[0] in parts;
      StripFacts(parts[0]);
      assert forall p :: p in parts[1..] ==> p in parts;
      CleanLabelsFacts(parts[1..]);
    }
  }

  lemma {:induction false} CleanLabelsFixed(labels: seq<string>)
    requires forall l :: l in labels ==> l != "" && Strip(l) == l
    ensures CleanLabels(labels) == labels
  {
    if labels != [] {
      assert labels[0] in labels;
      assert forall l :: l in labels[1..] ==> l in labels;
      CleanLabelsFixed(labels[1..]);
    }
  }

  lemma LabelsRoundTrip(cell: string)
    ensures LabelsOf(Join(LabelsOf(cell), ',')) == LabelsOf(cell)
  {
    var labels := LabelsOf(cell);
    CleanLabelsFacts(SplitOn(cell, ','));
    if labels == [] {
      assert SplitOn("", ',') == [""] && Strip("") == "";
    } else {
      SplitOfJoin(labels, ',');
      CleanLabelsFixed(labels);
    }
  }

  /** `json.loads` (None on a JSONDecodeError), `json.dumps`, and Python's truth value of a parsed document. */
  datatype JsonText<!M> = JsonText(loads: string -> Option<M>, dumps: M -> string, truthy: M -> bool)

  /** Reading a printed document gives it back, and nothing prints as the empty text. */
  ghost predicate Faithful<M(!new)>(j: JsonText<M>) {
    forall m: M :: j.loads(j.dumps(m)) == Some(m) && j.dumps(m) != ""
  }

  // ----- tables and profiles -----

  /** One line of the table. */
  datatype Row = Row(profile: string, manufacturer: string, model: string, labels: string, description: string,
                     name: string, isHidden: string, about: string,
                     table: string, address: string, length: string, decodeFunc: string,
                     valueType: string, readWrite: string, minimum: string, maximum: string, defaultValue: string,
                     command: string, commandReadWrite: string, commandIsHidden: string, mappings: string)

  datatype Header = Header(name: string, manufacturer: string, model: string, labels: seq<string>, description: string)

  datatype DeviceResource = DeviceResource(name: string, isHidden: bool, about: string,
                                           table: string, address: int, length: int, decodeFunc: Option<string>,
                                           valueType: string, readWrite: string, minimum: Option<string>,
                                           maximum: Option<string>, defaultValue: Option<string>)

  datatype Operation<M> = Operation(resource: string, mappings: Option<M>)

  datatype Command<M> = Command(name: string, readWrite: string, isHidden: bool, ops: seq<Operation<M>>)

  /** The header comes from the first row, so an empty table has none. */
  datatype Profile<M> = Profile(header: Option<Header>, resources: seq<DeviceResource>, commands: seq<Command<M>>)

  function HeaderOf(row: Row): Header {
    Header(row.profile, row.manufacturer, row.model, LabelsOf(row.labels), row.description)
  }

  function ResourceOf(row: Row): Outcome<DeviceResource> {
    var address :- IntCell(row.address, 0);
    var length :- IntCell(row.length, 1);
    Done(DeviceResource(row.name, row.isHidden == "true", row.about, row.table, address, length,
                        TextCell(row.decodeFunc), row.valueType, row.readWrite, TextCell(row.minimum),
                        TextCell(row.maximum), TextCell(row.defaultValue)))
  }

  /** What a row says about commands: nothing if its command cell is empty. */
  datatype Claim<M> = Claim(command: string, readWrite: string, isHidden: bool, op: Operation<M>)

  function ClaimOf<M>(j: JsonText<M>, row: Row): Option<Claim<M>> {
    if row.command == "" then None
    else
      var mappings := if row.mappings == "" then None else j.loads(row.mappings);
      Some(Claim(row.command, row.commandReadWrite, row.commandIsHidden == "true", Operation(row.name, mappings)))
  }

  function Position<M>(commands: seq<Command<M>>, name: string): (r: Option<nat>)
    ensures r.Some? ==> r.value < |commands| && commands[r.value].name == name
    ensures r.None? ==> forall c :: c in commands ==> c.name != name
  {
    if commands == [] then None
    else if commands[|commands| - 1].name == name then Some(|commands| - 1)
    else Position(commands[..|commands| - 1], name)
  }

  /** The operation joins its command, which is created, with the settings of this row, when first seen. */
  function AddClaim<M>(commands: seq<Command<M>>, claim: Option<Claim<M>>): seq<Command<M>> {
    match claim
    case None => commands
    case Some(c) =>
      match Position(commands, c.command)
      case Some(k) => commands[k := commands[k].(ops := commands[k].ops + [c.op])]
      case None => commands + [Command(c.command, c.readWrite, c.isHidden, [c.op])]
  }

  function CsvToJson<M>(j: JsonText<M>, rows: seq<Row>): Outcome<Profile<M>> {
    if rows == [] then Done(Profile(None, [], []))
    else
      var last := rows[|rows| - 1];
      var p :- CsvToJson(j, rows[..|rows| - 1]);
      var res :- ResourceOf(last);
      Done(Profile(if p.header.None? then Some(HeaderOf(last)) else p.header, p.resources + [res],
                   AddClaim(p.commands, ClaimOf(j, last))))
  }

  /** The update of `commands_dict` in `convert_csv_to_json`. */
  method AddOperation<M>(commands: seq<Command<M>>, c: Claim<M>) returns (after: seq<Command<M>>)
    ensures after == AddClaim(commands, Some(c))
  {
    after := commands;
    var known := Position(after, c.command);
    if known.None? {
      after := after + [Command(c.command, c.readWrite, c.isHidden, [])];
      known := Some(|after| - 1);
    }
    var k := known.value;
    assert [] + [c.op] == [c.op];
    after := after[k := after[k].(ops := after[k].ops + [c.op])];
  }

  /** `convert_csv_to_json`. */
  method ConvertCsvToJson<M>(j: JsonText<M>, rows: seq<Row>) returns (r: Outcome<Profile<M>>)
    ensures r == CsvToJson(j, rows)
  {
    var header: Option<Header> := None;
    var deviceResources: seq<DeviceResource> := [];
    var commands: seq<Command<M>> := [];
    for i := 0 to |rows|
      invariant CsvToJson(j, rows[..i]) == Done(Profile(header, deviceResources, commands))
      invariant header.None? <==> i == 0
    {
      assert rows[..i + 1][..i] == rows[..i];
      if i == 0 { header := Some(HeaderOf(rows[i])); }
      var res := ResourceOf(rows[i]);
      if res.Raises? {
        BadRow(j, rows, i);
        return Raises;
      }
      deviceResources := deviceResources + [res.value];
      var claim := ClaimOf(j, rows[i]);
      if claim.Some? {
        commands := AddOperation(commands, claim.value);
      }
    }
    assert rows[..|rows|] == rows;
    return Done(Profile(header, deviceResources, commands));
  }

  lemma {:induction false} BadRow<M>(j: JsonText<M>, rows: seq<Row>, i: nat)
    requires i < |rows| && ResourceOf(rows[i]).Raises?
    ensures CsvToJson(j, rows).Raises?
    decreases |rows|
  {
    if i < |rows| - 1 { BadRow(j, rows[..|rows| - 1], i); }
  }

  /** A numeral cell, or an empty one that stands for the default. */
  predicate Denotes(cell: string, n: int, default: int) {
    cell == IntText(n) || (cell == "" && n == default)
  }

  /** A table of one row, column by column. An empty address is 0, an empty length is 1, an empty optional cell is no
      entry, and an empty command cell is no command. */
  lemma {:induction false} OneRow<M>(j: JsonText<M>, row: Row, address: int, length: int)
    requires Denotes(row.address, address, 0) && Denotes(row.length, length, 1)
    ensures CsvToJson(j, [row]) == Done(Profile(
              Some(Header(row.profile, row.manufacturer, row.model, LabelsOf(row.labels), row.description)),
              [DeviceResource(row.name, row.isHidden == "true", row.about, row.table, address, length,
                              if row.decodeFunc == "" then None else Some(row.decodeFunc),
                              row.valueType, row.readWrite,
                              if row.minimum == "" then None else Some(row.minimum),
                              if row.maximum == "" then None else Some(row.maximum),
                              if row.defaultValue == "" then None else Some(row.defaultValue))],
              if row.command == "" then []
              else [Command(row.command, row.commandReadWrite, row.commandIsHidden == "true",
                            [Operation(row.name, if row.mappings == "" then None else j.loads(row.mappings))])]))
  {
    RowResource(row, address, length);
    RowCommand(j, row);
    OnlyRow(j, row);
  }

  lemma {:induction false} OnlyRow<M>(j: JsonText<M>, row: Row)
    requires ResourceOf(row).Done?
    ensures CsvToJson(j, [row]) ==
            Done(Profile(Some(HeaderOf(row)), [ResourceOf(row).value], AddClaim([], ClaimOf(j, row))))
  {
    hide ResourceOf, HeaderOf, AddClaim, ClaimOf;
    var none: seq<Row>, resources: seq<DeviceResource> := [], [];
    assert [row][..0] == none && CsvToJson(j, none) == Done(Profile(None, [], []));
    assert resources + [ResourceOf(row).value] == [ResourceOf(row).value];
  }

  lemma RowResource(row: Row, address: int, length: int)
    requires Denotes(row.address, address, 0) && Denotes(row.length, length, 1)
    ensures ResourceOf(row) == Done(
              DeviceResource(row.name, row.isHidden == "true", row.about, row.table, address, length,
                             if row.decodeFunc == "" then None else Some(row.decodeFunc),
                             row.valueType, row.readWrite,
                             if row.minimum == "" then None else Some(row.minimum),
                             if row.maximum == "" then None else Some(row.maximum),
                             if row.defaultValue == "" then None else Some(row.defaultValue)))
  {
    hide IntCell, IntText;
    IntCellOfText(address, 0);
    IntCellOfText(length, 1);
    EmptyCell();
  }

  lemma RowCommand<M>(j: JsonText<M>, row: Row)
    ensures AddClaim([], ClaimOf(j, row)) ==
            if row.command == "" then []
            else [Command(row.command, row.commandReadWrite, row.commandIsHidden == "true",
                          [Operation(row.name, if row.mappings == "" then None else j.loads(row.mappings))])]
  {
    var commands: seq<Command<M>> := [];
    assert Position(commands, row.command) == None;
  }

  /** A number cell with anything but digits and a minus sign in it is an error of the whole table. */
  lemma {:induction false} BadNumber<M>(j: JsonText<M>, rows: seq<Row>, i: nat, c: char)
    requires i < |rows| && (c in rows[i].address || c in rows[i].length) && c != '-' && !('0' <= c <= '9')
    ensures CsvToJson(j, rows).Raises?
  {
    BadNumeral(rows[i].address, c);
    BadNumeral(rows[i].length, c);
    hide IntCell;
    BadRow(j, rows, i);
  }

  lemma BadNumeral(cell: string, c: char)
    requires c != '-' && !('0' <= c <= '9')
    ensures c in cell ==> forall default :: IntCell(cell, default).Raises?
  {
    ParseDomain(cell);
    if cell != "" {
      assert cell == [cell[0]] + cell[1..];
      ParseDomain(cell[1..]);
    }
  }

  lemma EmptyCell()
    ensures forall default :: IntCell("", default) == Done(default)
  {
  }

  // ----- flattening -----

  /** The command cells of a row. */
  datatype CommandCells = CommandCells(name: string, readWrite: string, isHidden: string, mappings: string)

  function CellsOf<M>(j: JsonText<M>, c: Command<M>, op: Operation<M>): CommandCells {
    CommandCells(c.name, c.readWrite, BoolText(c.isHidden),
                 if op.mappings.Some? && j.truthy(op.mappings.value) then j.dumps(op.mappings.value) else "")
  }

  function AddOps<M>(j: JsonText<M>, table: map<string, CommandCells>, c: Command<M>, ops: seq<Operation<M>>)
    : map<string, CommandCells>
  {
    if ops == [] then table
    else
      var last := ops[|ops| - 1];
      AddOps(j, table, c, ops[..|ops| - 1])[last.resource := CellsOf(j, c, last)]
  }

  /** `resource_to_command`: the last operation on a resource decides. */
  function TableOf<M>(j: JsonText<M>, commands: seq<Command<M>>): map<string, CommandCells> {
    if commands == [] then map[]
    else
      var last := commands[|commands| - 1];
      AddOps(j, TableOf(j, commands[..|commands| - 1]), last, last.ops)
  }

  function RowOf(header: Option<Header>, res: DeviceResource, cells: CommandCells): Row {
    var h := match header case Some(h) => h case None => Header("", "", "", [], "");
    Row(h.name, h.manufacturer, h.model, Join(h.labels, ','), h.description,
        res.name, BoolText(res.isHidden), res.about, res.table, IntText(res.address), IntText(res.length),
        CellText(res.decodeFunc), res.valueType, res.readWrite, CellText(res.minimum), CellText(res.maximum),
        CellText(res.defaultValue), cells.name, cells.readWrite, cells.isHidden, cells.mappings)
  }

  function CellsFor(table: map<string, CommandCells>, name: string): CommandCells {
    if name in table then table[name] else CommandCells("", "", "", "")
  }

  function JsonToCsv<M>(j: JsonText<M>, p: Profile<M>): (rows: seq<Row>)
    ensures |rows| == |p.resources|
  {
    seq(|p.resources|, i requires 0 <= i < |p.resources| =>
      RowOf(p.header, p.resources[i], CellsFor(TableOf(j, p.commands), p.resources[i].name)))
  }

  /** A profile of one resource under one command, column by column. */
  lemma {:induction false} OneResource<M>(j: JsonText<M>, header: Header, res: DeviceResource, c: Command<M>,
                                          op: Operation<M>)
    requires c.ops == [op] && op.resource == res.name
    ensures JsonToCsv(j, Profile(Some(header), [res], [c])) == [Row(
              header.name, header.manufacturer, header.model, Join(header.labels, ','), header.description,
              res.name, if res.isHidden then "true" else "false", res.about, res.table,
              IntText(res.address), IntText(res.length), if res.decodeFunc.Some? then res.decodeFunc.value else "",
              res.valueType, res.readWrite, if res.minimum.Some? then res.minimum.value else "",
              if res.maximum.Some? then res.maximum.value else "",
              if res.defaultValue.Some? then res.defaultValue.value else "",
              c.name, c.readWrite, if c.isHidden then "true" else "false",
              if op.mappings.Some? && j.truthy(op.mappings.value) then j.dumps(op.mappings.value) else "")]
  {
    hide IntText, Join;
    var commands := [c];
    var none: seq<Command<M>>, noOps: seq<Operation<M>> := [], [];
    assert commands[..0] == none && c.ops[..0] == noOps;
    assert TableOf(j, none) == map[] && AddOps(j, map[], c, noOps) == map[];
    assert TableOf(j, commands) == map[res.name := CellsOf(j, c, op)];
  }

  /** A resource without a command has empty command cells, and a profile without a header empty header cells. */
  lemma {:induction false} BareResource<M>(j: JsonText<M>, res: DeviceResource)
    ensures JsonToCsv(j, Profile(None, [res], [])) == [Row(
              "", "", "", "", "",
              res.name, if res.isHidden then "true" else "false", res.about, res.table,
              IntText(res.address), IntText(res.length), if res.decodeFunc.Some? then res.decodeFunc.value else "",
              res.valueType, res.readWrite, if res.minimum.Some? then res.minimum.value else "",
              if res.maximum.Some? then res.maximum.value else "",
              if res.defaultValue.Some? then res.defaultValue.value else "",
              "", "", "", "")]
  {
    hide IntText;
    var none: seq<Command<M>> := [];
    assert TableOf(j, none) == map[];
  }

  /** The loops of `convert_json_to_csv` that fill `resource_to_command`. */
  method ResourceToCommand<M>(j: JsonText<M>, commands: seq<Command<M>>) returns (table: map<string, CommandCells>)
    ensures table == TableOf(j, commands)
  {
    table := map[];
    for a := 0 to |commands|
      invariant table == TableOf(j, commands[..a])
    {
      var c := commands[a];
      assert commands[..a + 1][..a] == commands[..a];
      ghost var before := table;
      for b := 0 to |c.ops|
        invariant table == AddOps(j, before, c, c.ops[..b])
      {
        assert c.ops[..b + 1][..b] == c.ops[..b];
        table := table[c.ops[b].resource := CellsOf(j, c, c.ops[b])];
      }
      assert c.ops[..|c.ops|] == c.ops;
    }
    assert commands[..|commands|] == commands;
  }

  /** `convert_json_to_csv`. */
  method ConvertJsonToCsv<M>(j: JsonText<M>, p: Profile<M>) returns (rows: seq<Row>)
    ensures rows == JsonToCsv(j, p)
  {
    hide RowOf, TableOf;
    var table := ResourceToCommand(j, p.commands);
    rows := [];
    for i := 0 to |p.resources|
      invariant rows == JsonToCsv(j, p)[..i]
    {
      var cells := CommandCells("", "", "", "");
      if p.resources[i].name in table { cells := table[p.resources[i].name]; }
      rows := rows + [RowOf(p.header, p.resources[i], cells)];
    }
  }

  // ----- grouping -----

  function Claims<M>(j: JsonText<M>, rows: seq<Row>): (claims: seq<Option<Claim<M>>>)
    ensures |claims| == |rows|
  {
    seq(|rows|, i requires 0 <= i < |rows| => ClaimOf(j, rows[i]))
  }

  function Group<M>(claims: seq<Option<Claim<M>>>): seq<Command<M>> {
    if claims == [] then [] else AddClaim(Group(claims[..|claims| - 1]), claims[|claims| - 1])
  }

  lemma {:induction false} CsvToJsonParts<M>(j: JsonText<M>, rows: seq<Row>)
    requires CsvToJson(j, rows).Done?
    ensures var p := CsvToJson(j, rows).value;
            && |p.resources| == |rows| && p.commands == Group(Claims(j, rows))
            && (forall i :: 0 <= i < |rows| ==> ResourceOf(rows[i]) == Done(p.resources[i]))
            && p.header == if rows == [] then None else Some(HeaderOf(rows[0]))
  {
    hide AddClaim, ClaimOf, ResourceOf, HeaderOf;
    if rows != [] {
      CsvToJsonParts(j, rows[..|rows| - 1]);
      assert Claims(j, rows)[..|rows| - 1] == Claims(j, rows[..|rows| - 1]);
    }
  }

  /** The converse: rows whose resources parse make a profile. */
  lemma {:induction false} CsvToJsonDone<M>(j: JsonText<M>, rows: seq<Row>)
    requires forall i :: 0 <= i < |rows| ==> ResourceOf(rows[i]).Done?
    ensures CsvToJson(j, rows).Done?
  {
    if rows != [] { CsvToJsonDone(j, rows[..|rows| - 1]); }
  }

  ghost predicate Holds<M(!new)>(commands: seq<Command<M>>, command: string, op: Operation<M>) {
    exists c :: c in commands && c.name == command && op in c.ops
  }

  /** The settings of a command. */
  ghost predicate HasSettings<M(!new)>(commands: seq<Command<M>>, command: string, readWrite: string, isHidden: bool) {
    exists c :: c in commands && c.name == command && c.readWrite == readWrite && c.isHidden == isHidden
  }

  predicate DistinctNames<M>(commands: seq<Command<M>>) {
    forall a, b {:trigger commands[a], commands[b]} :: 0 <= a < b < |commands| ==> commands[a].name != commands[b].name
  }

  function TotalOps<M>(commands: seq<Command<M>>): nat {
    if commands == [] then 0 else TotalOps(commands[..|commands| - 1]) + |commands[|commands| - 1].ops|
  }

  function CountClaims<M>(claims: seq<Option<Claim<M>>>): nat {
    if claims == [] then 0 else CountClaims(claims[..|claims| - 1]) + if claims[|claims| - 1].Some? then 1 else 0
  }

  lemma {:induction false} TotalOpsOfUpdate<M>(commands: seq<Command<M>>, k: nat, op: Operation<M>)
    requires k < |commands|
    ensures TotalOps(commands[k := commands[k].(ops := commands[k].ops + [op])]) == TotalOps(commands) + 1
    decreases |commands|
  {
    var after := commands[k := commands[k].(ops := commands[k].ops + [op])];
    var n := |commands| - 1;
    if k < n {
      TotalOpsOfUpdate(commands[..n], k, op);
      assert after[..n] == commands[..n][k := commands[..n][k].(ops := commands[..n][k].ops + [op])];
    } else {
      assert after[..n] == commands[..n];
    }
  }

  /** One claim adds its operation to its command and nothing else. */
  lemma {:induction false} AddClaimFacts<M(!new)>(commands: seq<Command<M>>, c: Claim<M>)
    requires DistinctNames(commands)
    ensures var after := AddClaim(commands, Some(c));
            && DistinctNames(after) && TotalOps(after) == TotalOps(commands) + 1
            && (forall name, op ::
                  Holds(after, name, op) <==> Holds(commands, name, op) || (name == c.command && op == c.op))
            && (forall name, rw, h :: HasSettings(after, name, rw, h) <==>
                  HasSettings(commands, name, rw, h)
                  || (name == c.command && Position(commands, name).None? && rw == c.readWrite && h == c.isHidden))
  {
    var after := AddClaim(commands, Some(c));
    match Position(commands, c.command)
    case Some(k) =>
      TotalOpsOfUpdate(commands, k, c.op);
      UpdateHolds(commands, k, c);
      UpdateSettings(commands, k, c.op);
    case None =>
      assert after[..|commands|] == commands && after[|commands|].name == c.command;
      AppendHolds(commands, c);
  }

  lemma UpdateHolds<M(!new)>(commands: seq<Command<M>>, k: nat, c: Claim<M>)
    requires k < |commands| && commands[k].name == c.command
    ensures var after := commands[k := commands[k].(ops := commands[k].ops + [c.op])];
            forall name, op ::
              Holds(after, name, op) <==> Holds(commands, name, op) || (name == c.command && op == c.op)
  {
    var after := commands[k := commands[k].(ops := commands[k].ops + [c.op])];
    assert forall i :: 0 <= i < |commands| ==> after[i] in after && commands[i] in commands;
    forall name, op
      ensures Holds(after, name, op) <==> Holds(commands, name, op) || (name == c.command && op == c.op)
    {
      if Holds(commands, name, op) {
        var i :| 0 <= i < |commands| && commands[i].name == name && op in commands[i].ops;
        assert after[i].name == name && op in after[i].ops;
      }
      if name == c.command && op == c.op {
        assert after[k].name == name && op in after[k].ops;
      }
    }
  }

  lemma UpdateSettings<M(!new)>(commands: seq<Command<M>>, k: nat, op: Operation<M>)
    requires k < |commands|
    ensures var after := commands[k := commands[k].(ops := commands[k].ops + [op])];
            forall name, rw, h :: HasSettings(after, name, rw, h) <==> HasSettings(commands, name, rw, h)
  {
    var after := commands[k := commands[k].(ops := commands[k].ops + [op])];
    assert forall i :: 0 <= i < |commands| ==> after[i] in after && commands[i] in commands;
    forall name, rw, h ensures HasSettings(after, name, rw, h) <==> HasSettings(commands, name, rw, h) {
      if HasSettings(commands, name, rw, h) {
        var i :| 0 <= i < |commands| && commands[i].name == name
                 && commands[i].readWrite == rw && commands[i].isHidden == h;
        assert after[i].name == name && after[i].readWrite == rw && after[i].isHidden == h;
      }
    }
  }

  lemma AppendHolds<M(!new)>(commands: seq<Command<M>>, c: Claim<M>)
    ensures var made := Command(c.command, c.readWrite, c.isHidden, [c.op]);
            var after := commands + [made];
            && (forall name, op ::
                  Holds(after, name, op) <==> Holds(commands, name, op) || (name == c.command && op == c.op))
            && (forall name, rw, h :: HasSettings(after, name, rw, h) <==>
                  HasSettings(commands, name, rw, h) || (name == c.command && rw == c.readWrite && h == c.isHidden))
  {
    var made := Command(c.command, c.readWrite, c.isHidden, [c.op]);
    var after := commands + [made];
    assert made in after;
    assert forall x :: x in after <==> x in commands || x == made;
  }

  ghost predicate Claimed<M(!new)>(claims: seq<Option<Claim<M>>>, command: string, op: Operation<M>) {
    exists i {:trigger claims[i]} ::
      0 <= i < |claims| && claims[i].Some? && claims[i].value.command == command && claims[i].value.op == op
  }

  lemma ClaimedOfLast<M(!new)>(claims: seq<Option<Claim<M>>>, command: string, op: Operation<M>)
    requires claims != []
    ensures var n := |claims| - 1;
            Claimed(claims, command, op) <==>
              Claimed(claims[..n], command, op)
              || (claims[n].Some? && claims[n].value.command == command && claims[n].value.op == op)
  {
    var n := |claims| - 1;
    if Claimed(claims, command, op) {
      var i :| 0 <= i < |claims| && claims[i].Some? && claims[i].value.command == command && claims[i].value.op == op;
      assert i < n ==> claims[..n][i] == claims[i];
    }
    if Claimed(claims[..n], command, op) {
      var i :| 0 <= i < n && claims[..n][i].Some?
               && claims[..n][i].value.command == command && claims[..n][i].value.op == op;
      assert claims[i] == claims[..n][i];
    }
  }

  /** Grouping keeps every claimed operation, under its own command, once. */
  lemma {:induction false} GroupFacts<M(!new)>(claims: seq<Option<Claim<M>>>)
    ensures DistinctNames(Group(claims)) && TotalOps(Group(claims)) == CountClaims(claims)
    ensures forall name, op :: Holds(Group(claims), name, op) <==> Claimed(claims, name, op)
  {
    if claims != [] {
      var n := |claims| - 1;
      GroupFacts(claims[..n]);
      if claims[n].Some? { AddClaimFacts(Group(claims[..n]), claims[n].value); }
      forall name, op ensures Holds(Group(claims), name, op) <==> Claimed(claims, name, op) {
        ClaimedOfLast(claims, name, op);
      }
    }
  }

  lemma {:induction false} SettingsPersist<M(!new)>(claims: seq<Option<Claim<M>>>, n: nat,
                                                    name: string, readWrite: string, isHidden: bool)
    requires n <= |claims| && HasSettings(Group(claims[..n]), name, readWrite, isHidden)
    ensures HasSettings(Group(claims), name, readWrite, isHidden)
    decreases |claims|
  {
    if n == |claims| {
      assert claims[..n] == claims;
    } else {
      var m := |claims| - 1;
      assert claims[..m][..n] == claims[..n];
      SettingsPersist(claims[..m], n, name, readWrite, isHidden);
      GroupFacts(claims[..m]);
      if claims[m].Some? { AddClaimFacts(Group(claims[..m]), claims[m].value); }
    }
  }

  lemma SettingsUnique<M(!new)>(commands: seq<Command<M>>, name: string, rw1: string, h1: bool, rw2: string, h2: bool)
    requires DistinctNames(commands)
    requires HasSettings(commands, name, rw1, h1) && HasSettings(commands, name, rw2, h2)
    ensures rw1 == rw2 && h1 == h2
  {
    var i :| 0 <= i < |commands| && commands[i].name == name
             && commands[i].readWrite == rw1 && commands[i].isHidden == h1;
    var k :| 0 <= k < |commands| && commands[k].name == name
             && commands[k].readWrite == rw2 && commands[k].isHidden == h2;
    assert !(i < k) && !(k < i);
  }

  /** The same operations under the same commands, each row carrying the settings its command has after grouping. */
  ghost predicate Resettled<M(!new)>(claims: seq<Option<Claim<M>>>, again: seq<Option<Claim<M>>>) {
    && |again| == |claims|
    && forall i {:trigger again[i]} :: 0 <= i < |claims| ==>
         match claims[i]
         case None => again[i].None?
         case Some(c) => && again[i].Some? && again[i].value.command == c.command && again[i].value.op == c.op
                         && HasSettings(Group(claims), c.command, again[i].value.readWrite, again[i].value.isHidden)
  }

  /** Only the first row of a command decides its settings, so repeating them on every row changes nothing. */
  lemma {:induction false} ResettledGroup<M(!new)>(claims: seq<Option<Claim<M>>>, again: seq<Option<Claim<M>>>, n: nat)
    requires Resettled(claims, again) && n <= |claims|
    ensures Group(again[..n]) == Group(claims[..n])
  {
    hide Group;
    if n > 0 {
      ResettledGroup(claims, again, n - 1);
      GroupStep(claims, n - 1);
      GroupStep(again, n - 1);
      var before, old', new' := Group(claims[..n - 1]), claims[n - 1], again[n - 1];
      if old'.Some? && Position(before, old'.value.command).None? {
        FirstSettingsLast(claims, n - 1);
        GroupFacts(claims);
        SettingsUnique(Group(claims), old'.value.command, old'.value.readWrite, old'.value.isHidden,
                       new'.value.readWrite, new'.value.isHidden);
      }
    } else {
      NoGroup(claims[..0]);
      NoGroup(again[..0]);
    }
  }

  lemma {:induction false} GroupStep<M(!new)>(claims: seq<Option<Claim<M>>>, n: nat)
    requires n < |claims|
    ensures Group(claims[..n + 1]) == AddClaim(Group(claims[..n]), claims[n])
  {
    hide AddClaim;
    assert claims[..n + 1][..n] == claims[..n] && claims[..n + 1][n] == claims[n];
  }

  lemma {:induction false} NoGroup<M(!new)>(claims: seq<Option<Claim<M>>>)
    requires claims == []
    ensures Group(claims) == []
  {
  }

  /** The row that creates a command gives it the settings it has in the end. */
  lemma {:induction false} FirstSettingsLast<M(!new)>(claims: seq<Option<Claim<M>>>, n: nat)
    requires n < |claims| && claims[n].Some?
    requires Position(Group(claims[..n]), claims[n].value.command).None?
    ensures HasSettings(Group(claims), claims[n].value.command, claims[n].value.readWrite, claims[n].value.isHidden)
  {
    hide Group, AddClaim, HasSettings, Holds;
    var c := claims[n].value;
    GroupStep(claims, n);
    GroupFacts(claims[..n]);
    AddClaimFacts(Group(claims[..n]), c);
    SettingsPersist(claims, n + 1, c.command, c.readWrite, c.isHidden);
  }

  // ----- what a row becomes -----

  lemma {:induction false} AddOpsEntry<M(!new)>(j: JsonText<M>, table: map<string, CommandCells>, c: Command<M>,
                                                ops: seq<Operation<M>>, name: string)
    ensures var after := AddOps(j, table, c, ops);
            if exists op :: op in ops && op.resource == name
            then name in after && exists op :: op in ops && op.resource == name && after[name] == CellsOf(j, c, op)
            else (name in after <==> name in table) && (name in table ==> after[name] == table[name])
  {
    hide CellsOf;
    if ops != [] {
      var n := |ops| - 1;
      var front, last := ops[..n], ops[n];
      AddOpsEntry(j, table, c, front, name);
      assert last in ops && forall op :: op in ops <==> op in front || op == last;
      if last.resource != name {
        if op :| op in front && op.resource == name {
          var decisive :| decisive in front && decisive.resource == name
                          && AddOps(j, table, c, front)[name] == CellsOf(j, c, decisive);
          assert decisive in ops;
        }
      }
    }
  }

  /** The table knows a resource exactly if some command holds an operation on it, and then with the cells of one. */
  lemma {:induction false} TableEntry<M(!new)>(j: JsonText<M>, commands: seq<Command<M>>, name: string)
    ensures name in TableOf(j, commands) <==> exists c, op :: c in commands && op in c.ops && op.resource == name
    ensures name in TableOf(j, commands) ==>
              exists c, op :: c in commands && op in c.ops && op.resource == name
                              && TableOf(j, commands)[name] == CellsOf(j, c, op)
  {
    hide TableOf, AddOps, CellsOf;
    LastTable(j, commands);
    if commands != [] {
      var n := |commands| - 1;
      var front, last, table := commands[..n], commands[n], TableOf(j, commands[..n]);
      assert last in commands && forall c :: c in commands <==> c in front || c == last;
      TableEntry(j, front, name);
      AddOpsEntry(j, table, last, last.ops, name);
      if op :| op in last.ops && op.resource == name {
        var decisive :| decisive in last.ops && decisive.resource == name
                        && TableOf(j, commands)[name] == CellsOf(j, last, decisive);
      } else if name in table {
        var c, decisive :| c in front && decisive in c.ops && decisive.resource == name
                           && table[name] == CellsOf(j, c, decisive);
        assert c in commands;
      }
    }
  }

  lemma {:induction false} LastTable<M(!new)>(j: JsonText<M>, commands: seq<Command<M>>)
    ensures var n := |commands| - 1;
            TableOf(j, commands) ==
            if commands == [] then map[] else AddOps(j, TableOf(j, commands[..n]), commands[n], commands[n].ops)
  {
    hide AddOps;
  }

  lemma {:induction false} LastOfOps<M(!new)>(j: JsonText<M>, table: map<string, CommandCells>, c: Command<M>,
                                              ops: seq<Operation<M>>, b: nat)
    requires b < |ops| && forall k :: b < k < |ops| ==> ops[k].resource != ops[b].resource
    ensures ops[b].resource in AddOps(j, table, c, ops)
    ensures AddOps(j, table, c, ops)[ops[b].resource] == CellsOf(j, c, ops[b])
    decreases |ops|
  {
    if b < |ops| - 1 { LastOfOps(j, table, c, ops[..|ops| - 1], b); }
  }

  /** Of all operations on a resource the last one, in the last command that has any, gives the table its cells. */
  lemma {:induction false} LastOperationDecides<M(!new)>(j: JsonText<M>, commands: seq<Command<M>>, a: nat, b: nat)
    requires a < |commands| && b < |commands[a].ops|
    requires forall k :: b < k < |commands[a].ops| ==> commands[a].ops[k].resource != commands[a].ops[b].resource
    requires forall k, op :: a < k < |commands| && op in commands[k].ops ==> op.resource != commands[a].ops[b].resource
    ensures var name := commands[a].ops[b].resource;
            && name in TableOf(j, commands)
            && TableOf(j, commands)[name] == CellsOf(j, commands[a], commands[a].ops[b])
    decreases |commands|
  {
    hide AddOps, CellsOf;
    var n := |commands| - 1;
    if a == n {
      LastOfOps(j, TableOf(j, commands[..n]), commands[n], commands[n].ops, b);
    } else {
      assert commands[..n][a] == commands[a];
      LastOperationDecides(j, commands[..n], a, b);
      AddOpsEntry(j, TableOf(j, commands[..n]), commands[n], commands[n].ops, commands[a].ops[b].resource);
    }
  }

  /** A mapping survives flattening only if it is truthy. */
  function Kept<M>(j: JsonText<M>, mappings: Option<M>): Option<M> {
    if mappings.Some? && j.truthy(mappings.value) then mappings else None
  }

  /** The claim of a flattened row: nothing if no command holds its resource, else one of the operations held. */
  lemma Reclaim<M(!new)>(j: JsonText<M>, commands: seq<Command<M>>, header: Option<Header>, res: DeviceResource)
    returns (c: Option<Command<M>>, op: Option<Operation<M>>)
    requires Faithful(j) && forall c :: c in commands ==> c.name != ""
    ensures var claim := ClaimOf(j, RowOf(header, res, CellsFor(TableOf(j, commands), res.name)));
            match c
            case None =>
              op.None? && claim.None? && forall c, op :: c in commands && op in c.ops ==> op.resource != res.name
            case Some(c) =>
              && op.Some? && c in commands && op.value in c.ops && op.value.resource == res.name
              && claim == Some(Claim(c.name, c.readWrite, c.isHidden, Operation(res.name, Kept(j, op.value.mappings))))
  {
    var table := TableOf(j, commands);
    TableEntry(j, commands, res.name);
    if res.name !in table { return None, None; }
    var c', op' :| c' in commands && op' in c'.ops && op'.resource == res.name
                   && table[res.name] == CellsOf(j, c', op');
    return Some(c'), Some(op');
  }

  lemma ResourceRoundTrip(row: Row, header: Option<Header>, cells: CommandCells)
    requires ResourceOf(row).Done?
    ensures ResourceOf(RowOf(header, ResourceOf(row).value, cells)) == ResourceOf(row)
  {
    var res := ResourceOf(row).value;
    IntCellOfText(res.address, 0);
    IntCellOfText(res.length, 1);
  }

  lemma HeaderRoundTrip(row: Row, res: DeviceResource, cells: CommandCells)
    ensures HeaderOf(RowOf(Some(HeaderOf(row)), res, cells)) == HeaderOf(row)
  {
    LabelsRoundTrip(row.labels);
  }

  // ----- the fixed point -----

  function SameEffect<M(==)>(a: Option<Claim<M>>, b: Option<Claim<M>>): bool {
    match (a, b)
    case (None, None) => true
    case (Some(x), Some(y)) => x.command == y.command && x.op == y.op
    case _ => false
  }

  /** Rows of the same resource agree on the command and its mappings, and no mappings document is falsy. */
  ghost predicate Tidy<M(!new)>(j: JsonText<M>, rows: seq<Row>) {
    var claims := Claims(j, rows);
    && (forall i, k {:trigger claims[i], claims[k]} ::
          0 <= i < |rows| && 0 <= k < |rows| && rows[i].name == rows[k].name ==> SameEffect(claims[i], claims[k]))
    && (forall i {:trigger claims[i]} :: 0 <= i < |rows| && claims[i].Some? ==>
          Kept(j, claims[i].value.op.mappings) == claims[i].value.op.mappings)
  }

  /** Everything but the commands always survives the trip. */
  lemma {:induction false} TripParts<M(!new)>(j: JsonText<M>, rows: seq<Row>)
    requires CsvToJson(j, rows).Done?
    ensures var p := CsvToJson(j, rows).value;
            var again := CsvToJson(j, JsonToCsv(j, p));
            && again.Done? && again.value.header == p.header && again.value.resources == p.resources
            && again.value.commands == Group(Claims(j, JsonToCsv(j, p)))
            && p.commands == Group(Claims(j, rows)) && |p.resources| == |rows|
            && forall i :: 0 <= i < |rows| ==> p.resources[i].name == rows[i].name
  {
    CsvToJsonParts(j, rows);
    var p := CsvToJson(j, rows).value;
    var flat := JsonToCsv(j, p);
    forall i | 0 <= i < |rows|
      ensures ResourceOf(flat[i]) == Done(p.resources[i]) && p.resources[i].name == rows[i].name {
      ResourceRoundTrip(rows[i], p.header, CellsFor(TableOf(j, p.commands), p.resources[i].name));
    }
    CsvToJsonDone(j, flat);
    CsvToJsonParts(j, flat);
    if rows != [] {
      HeaderRoundTrip(rows[0], p.resources[0], CellsFor(TableOf(j, p.commands), p.resources[0].name));
    }
    assert CsvToJson(j, flat).value.resources == p.resources;
  }

  lemma CommandNames<M(!new)>(j: JsonText<M>, rows: seq<Row>, c: Command<M>)
    requires c in Group(Claims(j, rows))
    ensures c.name != "" && c.ops != []
  {
    GroupNames(Claims(j, rows));
  }

  lemma {:induction false} GroupNames<M(!new)>(claims: seq<Option<Claim<M>>>)
    requires forall i {:trigger claims[i]} :: 0 <= i < |claims| && claims[i].Some? ==> claims[i].value.command != ""
    ensures forall c :: c in Group(claims) ==> c.name != "" && c.ops != []
  {
    if claims != [] {
      var n := |claims| - 1;
      assert forall i {:trigger claims[..n][i]} :: 0 <= i < n ==> claims[..n][i] == claims[i];
      GroupNames(claims[..n]);
      assert claims[n].Some? ==> claims[n].value.command != "";
    }
  }

  /** A held operation comes from a row of its resource. */
  lemma HeldByRow<M(!new)>(j: JsonText<M>, rows: seq<Row>, c: Command<M>, op: Operation<M>) returns (k: nat)
    requires c in Group(Claims(j, rows)) && op in c.ops
    ensures k < |rows| && rows[k].name == op.resource
    ensures Claims(j, rows)[k].Some? && Claims(j, rows)[k].value.command == c.name && Claims(j, rows)[k].value.op == op
  {
    var claims := Claims(j, rows);
    GroupFacts(claims);
    assert Holds(Group(claims), c.name, op);
    k :| 0 <= k < |claims| && claims[k].Some? && claims[k].value.command == c.name && claims[k].value.op == op;
  }

  lemma {:induction false} TidyResettles<M(!new)>(j: JsonText<M>, rows: seq<Row>)
    requires Faithful(j) && CsvToJson(j, rows).Done? && Tidy(j, rows)
    ensures Resettled(Claims(j, rows), Claims(j, JsonToCsv(j, CsvToJson(j, rows).value)))
  {
    TripParts(j, rows);
    var p := CsvToJson(j, rows).value;
    var claims, again := Claims(j, rows), Claims(j, JsonToCsv(j, p));
    forall c | c in p.commands ensures c.name != "" { CommandNames(j, rows, c); }
    forall i {:trigger again[i]} | 0 <= i < |rows|
      ensures match claims[i]
              case None => again[i].None?
              case Some(c) => && again[i].Some? && again[i].value.command == c.command && again[i].value.op == c.op
                              && HasSettings(Group(claims), c.command,
                                             again[i].value.readWrite, again[i].value.isHidden)
    {
      var c, op := Reclaim(j, p.commands, p.header, p.resources[i]);
      if c.Some? {
        var k := HeldByRow(j, rows, c.value, op.value);
        assert SameEffect(claims[i], claims[k]);
      } else if claims[i].Some? {
        GroupFacts(claims);
        assert Claimed(claims, claims[i].value.command, claims[i].value.op);
        assert false;
      }
    }
  }

  lemma {:induction false} MoreClaims<M>(claims: seq<Option<Claim<M>>>, again: seq<Option<Claim<M>>>)
    requires |claims| == |again|
    requires forall i :: 0 <= i < |claims| && claims[i].Some? ==> again[i].Some?
    ensures CountClaims(claims) <= CountClaims(again)
    ensures CountClaims(claims) == CountClaims(again) ==>
              forall i :: 0 <= i < |claims| ==> again[i].Some? == claims[i].Some?
  {
    if claims != [] {
      var n := |claims| - 1;
      MoreClaims(claims[..n], again[..n]);
      assert forall i :: 0 <= i < n ==> claims[..n][i] == claims[i] && again[..n][i] == again[i];
    }
  }

  lemma ClaimByName<M(!new)>(j: JsonText<M>, header: Option<Header>, res: DeviceResource, other: DeviceResource,
                             cells: CommandCells)
    requires res.name == other.name
    ensures SameEffect(ClaimOf(j, RowOf(header, res, cells)), ClaimOf(j, RowOf(header, other, cells)))
  {
  }

  /** What a row claims after the trip depends only on its resource name, and never carries a falsy mapping. */
  lemma {:induction false} ReclaimsByName<M(!new)>(j: JsonText<M>, rows: seq<Row>)
    requires Faithful(j) && CsvToJson(j, rows).Done?
    ensures var again := Claims(j, JsonToCsv(j, CsvToJson(j, rows).value));
            && |again| == |rows|
            && (forall i, k {:trigger again[i], again[k]} ::
                  0 <= i < |rows| && 0 <= k < |rows| && rows[i].name == rows[k].name ==> SameEffect(again[i], again[k]))
            && (forall i {:trigger again[i]} :: 0 <= i < |rows| && again[i].Some? ==>
                  && again[i].value.op.resource == rows[i].name
                  && Kept(j, again[i].value.op.mappings) == again[i].value.op.mappings)
  {
    hide CsvToJson, TableOf, Group, Faithful, RowOf, ClaimOf, CellsFor, HeaderOf, ResourceOf;
    TripParts(j, rows);
    var p := CsvToJson(j, rows).value;
    var again := Claims(j, JsonToCsv(j, p));
    forall c | c in p.commands ensures c.name != "" { CommandNames(j, rows, c); }
    forall i, k {:trigger again[i], again[k]} | 0 <= i < |rows| && 0 <= k < |rows| && rows[i].name == rows[k].name
      ensures SameEffect(again[i], again[k])
    {
      ClaimByName(j, p.header, p.resources[i], p.resources[k], CellsFor(TableOf(j, p.commands), rows[i].name));
    }
    forall i {:trigger again[i]} | 0 <= i < |rows| && again[i].Some?
      ensures again[i].value.op.resource == rows[i].name
      ensures Kept(j, again[i].value.op.mappings) == again[i].value.op.mappings
    {
      var c, op := Reclaim(j, p.commands, p.header, p.resources[i]);
    }
  }

  /** Tables with the same groups claim the same operations, row by row, if in the second the resource name decides. */
  lemma {:induction false} SameGroupSameEffect<M(!new)>(names: seq<string>, claims: seq<Option<Claim<M>>>,
                                                        again: seq<Option<Claim<M>>>, i: nat)
    requires |names| == |claims| == |again| && i < |names| && claims[i].Some?
    requires Group(claims) == Group(again) && claims[i].value.op.resource == names[i]
    requires forall k {:trigger again[k]} :: 0 <= k < |names| && again[k].Some? ==>
               again[k].value.op.resource == names[k]
    requires forall k {:trigger again[k]} :: 0 <= k < |names| && names[i] == names[k] ==> SameEffect(again[i], again[k])
    ensures SameEffect(claims[i], again[i])
  {
    hide Group;
    GroupFacts(claims);
    GroupFacts(again);
    var c := claims[i].value;
    assert Claimed(claims, c.command, c.op);
    assert Holds(Group(claims), c.command, c.op);
    assert Claimed(again, c.command, c.op);
    var k :| 0 <= k < |again| && again[k].Some? && again[k].value.command == c.command && again[k].value.op == c.op;
    assert SameEffect(again[i], again[k]);
  }

  lemma {:induction false} FixedPointIsTidy<M(!new)>(j: JsonText<M>, rows: seq<Row>)
    requires Faithful(j) && CsvToJson(j, rows).Done?
    requires CsvToJson(j, JsonToCsv(j, CsvToJson(j, rows).value)) == CsvToJson(j, rows)
    ensures Tidy(j, rows)
  {
    hide CsvToJson, JsonToCsv, Group, Faithful, Kept, TotalOps, CountClaims;
    TripParts(j, rows);
    ReclaimsByName(j, rows);
    var claims, again := Claims(j, rows), Claims(j, JsonToCsv(j, CsvToJson(j, rows).value));
    var names := seq(|rows|, i requires 0 <= i < |rows| => rows[i].name);
    forall i {:trigger claims[i]} | 0 <= i < |rows| && claims[i].Some? ensures SameEffect(claims[i], again[i]) {
      SameGroupSameEffect(names, claims, again, i);
    }
    GroupFacts(claims);
    GroupFacts(again);
    MoreClaims(claims, again);
    assert forall i :: 0 <= i < |rows| ==> SameEffect(claims[i], again[i]);
  }

  /** The profile built from a table is unchanged by a further trip through the two converters - resource order,
      first-seen command order, operation order within each command, settings, labels and header - exactly when rows of
      the same resource agree and no mappings document is falsy. */
  lemma {:induction false} ConversionFixedPoint<M(!new)>(j: JsonText<M>, rows: seq<Row>)
    requires Faithful(j) && CsvToJson(j, rows).Done?
    ensures CsvToJson(j, JsonToCsv(j, CsvToJson(j, rows).value)) == CsvToJson(j, rows) <==> Tidy(j, rows)
  {
    TripParts(j, rows);
    if Tidy(j, rows) {
      var claims, again := Claims(j, rows), Claims(j, JsonToCsv(j, CsvToJson(j, rows).value));
      TidyResettles(j, rows);
      ResettledGroup(claims, again, |rows|);
      assert claims[..|rows|] == claims && again[..|rows|] == again;
    }
    if CsvToJson(j, JsonToCsv(j, CsvToJson(j, rows).value)) == CsvToJson(j, rows) {
      FixedPointIsTidy(j, rows);
    }
  }

  /** In particular for distinct resource names and no falsy mappings. */
  lemma {:induction false} DistinctNamesFixedPoint<M(!new)>(j: JsonText<M>, rows: seq<Row>)
    requires Faithful(j) && CsvToJson(j, rows).Done?
    requires forall i, k :: 0 <= i < k < |rows| ==> rows[i].name != rows[k].name
    requires forall i, m :: 0 <= i < |rows| && rows[i].mappings != "" && j.loads(rows[i].mappings) == Some(m) ==>
               j.truthy(m)
    ensures CsvToJson(j, JsonToCsv(j, CsvToJson(j, rows).value)) == CsvToJson(j, rows)
  {
    var claims := Claims(j, rows);
    forall i, k {:trigger claims[i], claims[k]} |
      0 <= i < |rows| && 0 <= k < |rows| && rows[i].name == rows[k].name
      ensures SameEffect(claims[i], claims[k])
    {
      assert i == k;
    }
    assert Tidy(j, rows);
    ConversionFixedPoint(j, rows);
  }

  /** Mappings that are all alike, the smallest faithful documents. */
  function UnitJson(): JsonText<()> {
    JsonText((text: string) => Some(()), (m: ()) => "{}", (m: ()) => true)
  }

  /** A row with a resource name and a command name, and nothing else. */
  function BareRow(name: string, command: string): Row {
    Row("", "", "", "", "", name, "", "", "", "", "", "", "", "", "", "", "", command, "", "", "")
  }

  /** One resource under two commands: the trip leaves it under the second only. */
  lemma {:induction false} TwoCommandsExample()
    ensures var j, rows := UnitJson(), [BareRow("a", "X"), BareRow("a", "Y")];
            && Faithful(j) && CsvToJson(j, rows).Done?
            && CsvToJson(j, JsonToCsv(j, CsvToJson(j, rows).value)) != CsvToJson(j, rows)
  {
    var j, rows := UnitJson(), [BareRow("a", "X"), BareRow("a", "Y")];
    forall m: () ensures j.loads(j.dumps(m)) == Some(m) && j.dumps(m) != "" { assert m == (); }
    CsvToJsonDone(j, rows);
    ConversionFixedPoint(j, rows);
    hide CsvToJson, JsonToCsv;
    var claims := Claims(j, rows);
    assert claims[0].value.command == "X" && claims[1].value.command == "Y";
    assert rows[0].name == rows[1].name && !SameEffect(claims[0], claims[1]);
  }
}
