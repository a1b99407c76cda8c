/** Profiles that survive the trip through the table: scripts/profile_json_to_csv.py, then
    scripts/profile_csv_to_json.py, from any profile at all. */
module ProfileTrip {
  import opened Basics
  import opened Text
  import opened ProfileTable

  // ----- grouping in closed form -----

  ghost predicate Seen<M(!new)>(claims: seq<Option<Claim<M>>>, name: string) {
    exists i {:trigger claims[i]} :: 0 <= i < |claims| && claims[i].Some? && claims[i].value.command == name
  }

  /** The rows that create a command: the first to name it. */
  ghost function Openers<M(!new)>(claims: seq<Option<Claim<M>>>): seq<nat> {
    if claims == [] then []
    else
      var n := |claims| - 1;
      var front := Openers(claims[..n]);
      if claims[n].Some? && !Seen(claims[..n], claims[n].value.command) then front + [n] else front
  }

  /** The operations of the rows that name a command, in row order. */
  function OpsUnder<M>(claims: seq<Option<Claim<M>>>, name: string): seq<Operation<M>> {
    if claims == [] then []
    else
      var front, last := OpsUnder(claims[..|claims| - 1], name), claims[|claims| - 1];
      if last.Some? && last.value.command == name then front + [last.value.op] else front
  }

  ghost predicate IsOpener<M(!new)>(claims: seq<Option<Claim<M>>>, i: nat) {
    && i < |claims| && claims[i].Some?
    && forall e {:trigger claims[e]} :: 0 <= e < i && claims[e].Some? ==>
         claims[e].value.command != claims[i].value.command
  }

  predicate Ascending(s: seq<nat>) {
    forall a, b {:trigger s[a], s[b]} :: 0 <= a < b < |s| ==> s[a] < s[b]
  }

  lemma {:induction false} OpenersFacts<M(!new)>(claims: seq<Option<Claim<M>>>)
    ensures Ascending(Openers(claims))
    ensures forall i: nat :: i in Openers(claims) <==> IsOpener(claims, i)
  {
    if claims != [] {
      var n := |claims| - 1;
      var front, openers := claims[..n], Openers(claims);
      OpenersFacts(front);
      assert forall e {:trigger claims[e]} :: 0 <= e < n ==> claims[e] == front[e];
      forall k | 0 <= k < |Openers(front)| ensures Openers(front)[k] < n {
        assert Openers(front)[k] in Openers(front);
      }
      forall i: nat ensures i in openers <==> IsOpener(claims, i) {
        if i < n {
          SameOpener(claims, i);
        } else if i == n && claims[n].Some? {
          LastOpener(claims);
        }
      }
    }
  }

  lemma SameOpener<M(!new)>(claims: seq<Option<Claim<M>>>, i: nat)
    requires i < |claims| - 1
    ensures IsOpener(claims, i) <==> IsOpener(claims[..|claims| - 1], i)
  {
    var front := claims[..|claims| - 1];
    assert forall e {:trigger claims[e]} {:trigger front[e]} :: 0 <= e < |front| ==> claims[e] == front[e];
  }

  lemma LastOpener<M(!new)>(claims: seq<Option<Claim<M>>>)
    requires claims != [] && claims[|claims| - 1].Some?
    ensures IsOpener(claims, |claims| - 1) <==> !Seen(claims[..|claims| - 1], claims[|claims| - 1].value.command)
  {
    var front := claims[..|claims| - 1];
    assert forall e {:trigger claims[e]} {:trigger front[e]} :: 0 <= e < |front| ==> claims[e] == front[e];
  }

  lemma {:induction false} UnseenOps<M(!new)>(claims: seq<Option<Claim<M>>>, name: string)
    requires !Seen(claims, name)
    ensures OpsUnder(claims, name) == []
  {
    if claims != [] {
      var n := |claims| - 1;
      var front := claims[..n];
      assert forall e {:trigger front[e]} :: 0 <= e < n ==> claims[e] == front[e];
      assert claims[n].Some? ==> claims[n].value.command != name;
      UnseenOps(front, name);
    }
  }

  lemma {:induction false} SeenHasOpener<M(!new)>(claims: seq<Option<Claim<M>>>, i: nat) returns (k: nat)
    requires i < |claims| && claims[i].Some?
    ensures k < |Openers(claims)| && Openers(claims)[k] <= i < |claims| && claims[Openers(claims)[k]].Some?
    ensures claims[Openers(claims)[k]].value.command == claims[i].value.command
    decreases i
  {
    OpenersFacts(claims);
    if IsOpener(claims, i) {
      k :| 0 <= k < |Openers(claims)| && Openers(claims)[k] == i;
    } else {
      var e :| 0 <= e < i && claims[e].Some? && claims[e].value.command == claims[i].value.command;
      k := SeenHasOpener(claims, e);
    }
  }

  /** The groups are the commands the openers form. */
  ghost predicate InClosedForm<M(!new)>(claims: seq<Option<Claim<M>>>, commands: seq<Command<M>>) {
    var openers := Openers(claims);
    |commands| == |openers| && forall k :: 0 <= k < |commands| ==> IsFormed(claims, openers[k], commands[k])
  }

  /** The command row i creates, with everything that joins it. */
  ghost predicate IsFormed<M>(claims: seq<Option<Claim<M>>>, i: nat, command: Command<M>) {
    && i < |claims| && claims[i].Some?
    && var c := claims[i].value;
       command == Command(c.command, c.readWrite, c.isHidden, OpsUnder(claims, c.command))
  }

  lemma {:induction false} AddNothing<M(!new)>(claims: seq<Option<Claim<M>>>)
    requires claims != [] && claims[|claims| - 1].None?
    requires InClosedForm(claims[..|claims| - 1], Group(claims[..|claims| - 1]))
    ensures InClosedForm(claims, Group(claims))
  {
    hide Group;
    GroupLast(claims);
    var front, commands := claims[..|claims| - 1], Group(claims);
    forall k | 0 <= k < |commands| ensures IsFormed(claims, Openers(claims)[k], commands[k]) {
      assert IsFormed(front, Openers(front)[k], commands[k]);
    }
  }

  lemma {:induction false} GroupLast<M(!new)>(claims: seq<Option<Claim<M>>>)
    requires claims != []
    ensures Group(claims) == AddClaim(Group(claims[..|claims| - 1]), claims[|claims| - 1])
  {
    hide AddClaim;
  }

  lemma {:induction false} CreateOne<M(!new)>(claims: seq<Option<Claim<M>>>)
    requires claims != [] && claims[|claims| - 1].Some?
    requires !Seen(claims[..|claims| - 1], claims[|claims| - 1].value.command)
    requires InClosedForm(claims[..|claims| - 1], Group(claims[..|claims| - 1]))
    ensures InClosedForm(claims, Group(claims))
  {
    hide Group;
    GroupLast(claims);
    var n := |claims| - 1;
    var front, c := claims[..n], claims[n].value;
    var before, commands := Group(front), Group(claims);
    UnseenOps(front, c.command);
    OpenersFacts(front);
    forall k | 0 <= k < |before|
      ensures before[k].name != c.command && IsFormed(claims, Openers(front)[k], before[k])
    {
      assert IsFormed(front, Openers(front)[k], before[k]);
    }
    assert Position(before, c.command).None?;
    assert commands == before + [Command(c.command, c.readWrite, c.isHidden, [c.op])];
    assert Openers(claims) == Openers(front) + [n];
    assert [] + [c.op] == [c.op];
    forall k | 0 <= k < |commands| ensures IsFormed(claims, Openers(claims)[k], commands[k]) {
      if k < |before| { assert commands[k] == before[k]; }
    }
  }

  lemma {:induction false} JoinOne<M(!new)>(claims: seq<Option<Claim<M>>>)
    requires claims != [] && claims[|claims| - 1].Some?
    requires Seen(claims[..|claims| - 1], claims[|claims| - 1].value.command)
    requires InClosedForm(claims[..|claims| - 1], Group(claims[..|claims| - 1]))
    ensures InClosedForm(claims, Group(claims))
  {
    hide Group, Ascending, IsOpener, DistinctNames, Position, Holds, HasSettings;
    GroupLast(claims);
    GroupFacts(claims[..|claims| - 1]);
    var n := |claims| - 1;
    var front, c := claims[..n], claims[n].value;
    var before, commands := Group(front), Group(claims);
    var i :| 0 <= i < |front| && front[i].Some? && front[i].value.command == c.command;
    var own := SeenHasOpener(front, i);
    assert IsFormed(front, Openers(front)[own], before[own]) && before[own] in before;
    assert Position(before, c.command) == Some(own);
    forall k | 0 <= k < |commands| ensures IsFormed(claims, Openers(claims)[k], commands[k]) {
      assert IsFormed(front, Openers(front)[k], before[k]);
      if k != own { assert before[k].name != c.command; }
    }
  }

  /** The table is regrouped as the file is read: one command for each name, in the order in which the names are first
      seen, with the settings of the first row and the operations of all its rows in row order. */
  lemma {:induction false} GroupClosedForm<M(!new)>(claims: seq<Option<Claim<M>>>)
    ensures InClosedForm(claims, Group(claims))
  {
    if claims != [] {
      var n := |claims| - 1;
      GroupClosedForm(claims[..n]);
      if claims[n].None? {
        AddNothing(claims);
      } else if Seen(claims[..n], claims[n].value.command) {
        JoinOne(claims);
      } else {
        CreateOne(claims);
      }
    }
  }

  // ----- which commands come back -----

  predicate OperatesOn<M>(c: Command<M>, name: string) {
    exists b :: 0 <= b < |c.ops| && c.ops[b].resource == name
  }

  function ResourceNames<M>(ops: seq<Operation<M>>): (names: seq<string>)
    ensures |names| == |ops|
  {
    seq(|ops|, a requires 0 <= a < |ops| => ops[a].resource)
  }

  /** The names of the resources a command operates on, in the order of the profile. */
  function NamesUnder<M>(names: seq<string>, c: Command<M>): seq<string> {
    if names == [] then []
    else
      var front, last := NamesUnder(names[..|names| - 1], c), names[|names| - 1];
      if OperatesOn(c, last) then front + [last] else front
  }

  /** The first place of a name; the length of the list if it has none. */
  function FirstIndex(names: seq<string>, name: string): nat {
    if names == [] || names[0] == name then 0 else 1 + FirstIndex(names[1..], name)
  }

  /** Two operations on one resource are the same operation of the same command. */
  ghost predicate Agree<M>(commands: seq<Command<M>>) {
    forall k, l, a, b {:trigger commands[k].ops[a], commands[l].ops[b]} ::
      0 <= k < |commands| && 0 <= l < |commands| && 0 <= a < |commands[k].ops| && 0 <= b < |commands[l].ops|
      && commands[k].ops[a].resource == commands[l].ops[b].resource ==>
        k == l && commands[k].ops[a] == commands[l].ops[b]
  }

  /** The command has a name and operates, in the order of the profile, on exactly the resources that are its own. */
  predicate Complete<M>(names: seq<string>, c: Command<M>) {
    c.name != "" && c.ops != [] && ResourceNames(c.ops) == NamesUnder(names, c)
  }

  /** Commands that regrouping a profile's own rows leaves as they are: different names, no resource under two of them,
      every one complete, and in the order in which the resources first need them. */
  ghost predicate Settled<M(!new)>(names: seq<string>, commands: seq<Command<M>>) {
    && DistinctNames(commands)
    && Agree(commands)
    && (forall k :: 0 <= k < |commands| ==> Complete(names, commands[k]))
    && (forall k, l {:trigger commands[k], commands[l]} :: 0 <= k < l < |commands| ==>
          FirstIndex(names, commands[k].ops[0].resource) < FirstIndex(names, commands[l].ops[0].resource))
  }

  /** A row claims an operation on its own resource, and the name of the resource decides what it claims. */
  ghost predicate ByName<M(!new)>(names: seq<string>, claims: seq<Option<Claim<M>>>) {
    && |claims| == |names|
    && (forall i {:trigger claims[i]} :: 0 <= i < |claims| && claims[i].Some? ==>
          claims[i].value.op.resource == names[i] && claims[i].value.command != "")
    && (forall i, k {:trigger claims[i], claims[k]} ::
          0 <= i < |claims| && 0 <= k < |claims| && names[i] == names[k] ==> claims[i] == claims[k])
  }

  lemma {:induction false} FirstIndexFacts(names: seq<string>, i: nat)
    requires i < |names|
    ensures var f := FirstIndex(names, names[i]);
            f <= i && names[f] == names[i] && forall e :: 0 <= e < f ==> names[e] != names[i]
  {
    if names[0] != names[i] {
      FirstIndexFacts(names[1..], i - 1);
      var f := FirstIndex(names[1..], names[i]);
      assert forall e :: 0 < e < f + 1 ==> names[e] == names[1..][e - 1];
    }
  }

  /** Where an operation under a name comes from. */
  lemma {:induction false} RowOfOp<M>(claims: seq<Option<Claim<M>>>, name: string, a: nat) returns (i: nat)
    requires a < |OpsUnder(claims, name)|
    ensures i < |claims| && claims[i].Some? && claims[i].value.command == name
    ensures claims[i].value.op == OpsUnder(claims, name)[a]
  {
    var n := |claims| - 1;
    if a < |OpsUnder(claims[..n], name)| {
      i := RowOfOp(claims[..n], name, a);
    } else {
      i := n;
    }
  }

  lemma {:induction false} OpOfRow<M>(claims: seq<Option<Claim<M>>>, i: nat) returns (a: nat)
    requires i < |claims| && claims[i].Some?
    ensures a < |OpsUnder(claims, claims[i].value.command)|
    ensures OpsUnder(claims, claims[i].value.command)[a] == claims[i].value.op
    decreases |claims|
  {
    var n := |claims| - 1;
    if i < n {
      a := OpOfRow(claims[..n], i);
    } else {
      a := |OpsUnder(claims[..n], claims[i].value.command)|;
    }
  }

  /** The first operation of a command is that of the row that creates it. */
  lemma {:induction false} FirstOp<M(!new)>(claims: seq<Option<Claim<M>>>, i: nat)
    requires IsOpener(claims, i)
    ensures OpsUnder(claims, claims[i].value.command) != []
    ensures OpsUnder(claims, claims[i].value.command)[0] == claims[i].value.op
    decreases |claims|
  {
    var n := |claims| - 1;
    if i < n {
      SameOpener(claims, i);
      FirstOp(claims[..n], i);
    } else {
      LastOpener(claims);
      UnseenOps(claims[..n], claims[i].value.command);
    }
  }

  /** If exactly the rows of the resources a command operates on name it, its operations are on those, in order. */
  lemma {:induction false} OpsByName<M(!new)>(names: seq<string>, claims: seq<Option<Claim<M>>>, c: Command<M>)
    requires |claims| == |names|
    requires forall i {:trigger claims[i]} :: 0 <= i < |claims| && claims[i].Some? ==>
               claims[i].value.op.resource == names[i]
    requires forall i {:trigger claims[i]} :: 0 <= i < |claims| ==>
               (claims[i].Some? && claims[i].value.command == c.name <==> OperatesOn(c, names[i]))
    ensures ResourceNames(OpsUnder(claims, c.name)) == NamesUnder(names, c)
  {
    hide OperatesOn;
    if claims != [] {
      var n := |claims| - 1;
      assert forall i {:trigger claims[..n][i]} :: 0 <= i < n ==>
               claims[..n][i] == claims[i] && names[..n][i] == names[i];
      OpsByName(names[..n], claims[..n], c);
      assert claims[n].Some? && claims[n].value.command == c.name <==> OperatesOn(c, names[n]);
    }
  }

  lemma {:induction false} FirstUnder<M>(names: seq<string>, c: Command<M>, e: nat)
    requires e < |names| && OperatesOn(c, names[e])
    ensures NamesUnder(names, c) != [] && FirstIndex(names, NamesUnder(names, c)[0]) <= e
    decreases |names|
  {
    hide OperatesOn;
    var n := |names| - 1;
    if e < n {
      FirstUnder(names[..n], c, e);
      FirstIndexOfPrefix(names, n, NamesUnder(names[..n], c)[0]);
    } else {
      if NamesUnder(names[..n], c) == [] {
        FirstIndexFacts(names, n);
      } else {
        UnderIsName(names[..n], c, 0);
        var i :| 0 <= i < n && names[..n][i] == NamesUnder(names[..n], c)[0];
        FirstIndexFacts(names, i);
      }
    }
  }

  lemma {:induction false} FirstIndexOfPrefix(names: seq<string>, n: nat, name: string)
    requires n <= |names| && FirstIndex(names[..n], name) < n
    ensures FirstIndex(names, name) == FirstIndex(names[..n], name)
    decreases n
  {
    if names[0] != name {
      assert names[..n][1..] == names[1..][..n - 1];
      FirstIndexOfPrefix(names[1..], n - 1, name);
    }
  }

  lemma {:induction false} UnderIsName<M>(names: seq<string>, c: Command<M>, a: nat)
    requires a < |NamesUnder(names, c)|
    ensures exists i :: 0 <= i < |names| && names[i] == NamesUnder(names, c)[a]
    ensures OperatesOn(c, NamesUnder(names, c)[a])
  {
    hide OperatesOn;
    var n := |names| - 1;
    if a < |NamesUnder(names[..n], c)| {
      UnderIsName(names[..n], c, a);
      var i :| 0 <= i < n && names[..n][i] == NamesUnder(names[..n], c)[a];
      assert names[i] == NamesUnder(names, c)[a];
    } else {
      assert names[n] == NamesUnder(names, c)[a];
    }
  }

  // ----- grouped commands are settled -----

  /** Which rows name a command of the group: those whose resource it operates on. */
  lemma {:induction false} RowsOfGroup<M(!new)>(names: seq<string>, claims: seq<Option<Claim<M>>>, k: nat, i: nat)
    requires ByName(names, claims) && k < |Group(claims)| && i < |claims| == |names|
    ensures claims[i].Some? && claims[i].value.command == Group(claims)[k].name <==>
              OperatesOn(Group(claims)[k], names[i])
  {
    hide Group, ByName;
    var c := Group(claims)[k];
    GroupClosedForm(claims);
    ByNameAt(names, claims, i, i);
    assert IsFormed(claims, Openers(claims)[k], c);
    if claims[i].Some? && claims[i].value.command == c.name {
      var a := OpOfRow(claims, i);
      assert c.ops[a].resource == names[i];
    }
    if OperatesOn(c, names[i]) {
      var b :| 0 <= b < |c.ops| && c.ops[b].resource == names[i];
      var m := RowOfOp(claims, c.name, b);
      ByNameAt(names, claims, m, i);
    }
  }

  lemma ByNameAt<M(!new)>(names: seq<string>, claims: seq<Option<Claim<M>>>, i: nat, k: nat)
    requires ByName(names, claims) && i < |claims| && k < |claims|
    ensures |claims| == |names|
    ensures claims[i].Some? ==> claims[i].value.op.resource == names[i] && claims[i].value.command != ""
    ensures names[i] == names[k] ==> claims[i] == claims[k]
  {
  }

  lemma {:induction false} GroupComplete<M(!new)>(names: seq<string>, claims: seq<Option<Claim<M>>>, k: nat)
    requires ByName(names, claims) && k < |Group(claims)|
    ensures Complete(names, Group(claims)[k])
    ensures k < |Openers(claims)|
    ensures Group(claims)[k].ops != []
            && FirstIndex(names, Group(claims)[k].ops[0].resource) == Openers(claims)[k]
  {
    hide Group, OperatesOn;
    GroupClosedForm(claims);
    var c, i := Group(claims)[k], Openers(claims)[k];
    assert IsFormed(claims, i, c);
    OpenersFacts(claims);
    assert i in Openers(claims);
    FirstOp(claims, i);
    forall e {:trigger claims[e]} | 0 <= e < |claims|
      ensures claims[e].Some? && claims[e].value.command == c.name <==> OperatesOn(c, names[e])
    {
      RowsOfGroup(names, claims, k, e);
    }
    OpsByName(names, claims, c);
    ByNameAt(names, claims, i, i);
    FirstIndexFacts(names, i);
    var f := FirstIndex(names, names[i]);
    ByNameAt(names, claims, f, i);
  }

  lemma {:induction false} GroupAgrees<M(!new)>(names: seq<string>, claims: seq<Option<Claim<M>>>,
                                                k: nat, l: nat, a: nat, b: nat)
    requires ByName(names, claims)
    requires k < |Group(claims)| && l < |Group(claims)|
    requires a < |Group(claims)[k].ops| && b < |Group(claims)[l].ops|
    requires Group(claims)[k].ops[a].resource == Group(claims)[l].ops[b].resource
    ensures k == l && Group(claims)[k].ops[a] == Group(claims)[l].ops[b]
  {
    hide Group, ByName;
    var c, d := Group(claims)[k], Group(claims)[l];
    GroupFacts(claims);
    GroupClosedForm(claims);
    assert IsFormed(claims, Openers(claims)[k], c) && IsFormed(claims, Openers(claims)[l], d);
    var i := RowOfOp(claims, c.name, a);
    var m := RowOfOp(claims, d.name, b);
    ByNameAt(names, claims, i, m);
    ByNameAt(names, claims, m, i);
  }

  lemma {:induction false} GroupIsSettled<M(!new)>(names: seq<string>, claims: seq<Option<Claim<M>>>)
    requires ByName(names, claims)
    ensures Settled(names, Group(claims))
  {
    hide Group, ByName, Complete, Openers;
    var commands := Group(claims);
    GroupFacts(claims);
    OpenersFacts(claims);
    GroupClosedForm(claims);
    forall k | 0 <= k < |commands|
      ensures Complete(names, commands[k]) && commands[k].ops != []
      ensures FirstIndex(names, commands[k].ops[0].resource) == Openers(claims)[k]
    {
      GroupComplete(names, claims, k);
    }
    forall k, l, a, b {:trigger commands[k].ops[a], commands[l].ops[b]} |
      0 <= k < |commands| && 0 <= l < |commands| && 0 <= a < |commands[k].ops| && 0 <= b < |commands[l].ops|
      && commands[k].ops[a].resource == commands[l].ops[b].resource
      ensures k == l && commands[k].ops[a] == commands[l].ops[b]
    {
      GroupAgrees(names, claims, k, l, a, b);
    }
  }

  // ----- settled commands come back -----

  /** The claim is that of an operation of one of the commands. */
  ghost predicate ClaimFrom<M(!new)>(commands: seq<Command<M>>, claim: Claim<M>, k: nat, a: nat) {
    && k < |commands| && a < |commands[k].ops|
    && claim == Claim(commands[k].name, commands[k].readWrite, commands[k].isHidden, commands[k].ops[a])
  }

  /** Every row claims the operation the commands hold on its resource, if they hold one. */
  ghost predicate Reflects<M(!new)>(names: seq<string>, claims: seq<Option<Claim<M>>>, commands: seq<Command<M>>) {
    && |claims| == |names|
    && (forall i {:trigger claims[i]} :: 0 <= i < |claims| ==> ReflectedAt(names[i], claims[i], commands))
  }

  ghost predicate ReflectedAt<M(!new)>(name: string, claim: Option<Claim<M>>, commands: seq<Command<M>>) {
    match claim
    case None => forall k :: 0 <= k < |commands| ==> !OperatesOn(commands[k], name)
    case Some(c) => c.op.resource == name && exists k: nat, a: nat :: ClaimFrom(commands, c, k, a)
  }

  lemma {:induction false} RowsOfSettled<M(!new)>(names: seq<string>, claims: seq<Option<Claim<M>>>,
                                                  commands: seq<Command<M>>, k: nat, i: nat)
    requires Settled(names, commands) && Reflects(names, claims, commands) && k < |commands| && i < |claims|
    ensures claims[i].Some? && claims[i].value.command == commands[k].name <==> OperatesOn(commands[k], names[i])
    ensures claims[i].Some? && claims[i].value.command == commands[k].name ==>
              exists a: nat :: ClaimFrom(commands, claims[i].value, k, a)
  {
    hide Complete, FirstIndex;
    assert ReflectedAt(names[i], claims[i], commands);
    if claims[i].Some? {
      var l: nat, a: nat :| ClaimFrom(commands, claims[i].value, l, a);
      if claims[i].value.command == commands[k].name {
        assert l == k;
        assert commands[k].ops[a].resource == names[i];
      }
      if OperatesOn(commands[k], names[i]) {
        var b :| 0 <= b < |commands[k].ops| && commands[k].ops[b].resource == names[i];
        assert commands[k].ops[b].resource == commands[l].ops[a].resource;
      }
    }
  }

  /** The operations of the rows that name a command are its own. */
  lemma {:induction false} OpsOfSettled<M(!new)>(names: seq<string>, claims: seq<Option<Claim<M>>>,
                                                 commands: seq<Command<M>>, k: nat)
    requires Settled(names, commands) && Reflects(names, claims, commands) && k < |commands|
    ensures OpsUnder(claims, commands[k].name) == commands[k].ops
  {
    hide OperatesOn, FirstIndex, Reflects;
    var c := commands[k];
    var ops := OpsUnder(claims, c.name);
    RowsByName(names, claims, commands);
    forall i {:trigger claims[i]} | 0 <= i < |claims|
      ensures claims[i].Some? && claims[i].value.command == c.name <==> OperatesOn(c, names[i])
    {
      RowsOfSettled(names, claims, commands, k, i);
    }
    OpsByName(names, claims, c);
    assert Complete(names, c);
    assert ResourceNames(ops) == ResourceNames(c.ops);
    forall m | 0 <= m < |ops| ensures ops[m] == c.ops[m] {
      var i := RowOfOp(claims, c.name, m);
      RowsOfSettled(names, claims, commands, k, i);
      var a: nat :| ClaimFrom(commands, claims[i].value, k, a);
      assert ResourceNames(ops)[m] == ResourceNames(c.ops)[m];
      assert commands[k].ops[a].resource == commands[k].ops[m].resource;
    }
  }

  lemma RowsByName<M(!new)>(names: seq<string>, claims: seq<Option<Claim<M>>>, commands: seq<Command<M>>)
    requires Reflects(names, claims, commands)
    ensures |claims| == |names|
    ensures forall i {:trigger claims[i]} :: 0 <= i < |claims| && claims[i].Some? ==>
              claims[i].value.op.resource == names[i]
  {
    forall i {:trigger claims[i]} | 0 <= i < |claims| && claims[i].Some?
      ensures claims[i].value.op.resource == names[i]
    {
      assert ReflectedAt(names[i], claims[i], commands);
    }
  }

  /** Where a settled command is first needed. */
  function FirstNeed<M>(names: seq<string>, c: Command<M>): nat
    requires c.ops != []
  {
    FirstIndex(names, c.ops[0].resource)
  }

  /** The row that first needs a command is the one that creates it. */
  lemma {:induction false} FirstNeedOpens<M(!new)>(names: seq<string>, claims: seq<Option<Claim<M>>>,
                                                   commands: seq<Command<M>>, k: nat)
    requires Settled(names, commands) && Reflects(names, claims, commands) && k < |commands|
    ensures commands[k].ops != []
    ensures var f := FirstNeed(names, commands[k]);
            IsOpener(claims, f) && claims[f].value.command == commands[k].name
    ensures forall i: nat :: IsOpener(claims, i) && claims[i].value.command == commands[k].name ==>
              i == FirstNeed(names, commands[k])
  {
    hide OperatesOn, Reflects, Agree;
    var c := commands[k];
    assert Complete(names, c);
    RowsByName(names, claims, commands);
    UnderIsName(names, c, 0);
    assert NamesUnder(names, c)[0] == ResourceNames(c.ops)[0] == c.ops[0].resource;
    var x :| 0 <= x < |names| && names[x] == c.ops[0].resource;
    FirstIndexFacts(names, x);
    var f := FirstNeed(names, c);
    RowsOfSettled(names, claims, commands, k, f);
    forall e {:trigger claims[e]} | 0 <= e < |claims| && claims[e].Some? && claims[e].value.command == c.name
      ensures f <= e
    {
      RowsOfSettled(names, claims, commands, k, e);
      FirstUnder(names, c, e);
    }
  }

  /** All but the last: the same members but the greatest. */
  lemma FrontMembers(s: seq<nat>)
    requires Ascending(s) && s != []
    ensures var m := |s| - 1;
            Ascending(s[..m]) && (forall x: nat :: x in s ==> x <= s[m])
            && forall x: nat :: x in s[..m] <==> x in s && x != s[m]
  {
    var m := |s| - 1;
    forall x: nat ensures x in s[..m] <==> x in s && x != s[m] {
      if x in s[..m] {
        var i :| 0 <= i < m && s[..m][i] == x;
        assert s[i] == x;
      }
      if x in s && x != s[m] {
        var i :| 0 <= i < |s| && s[i] == x;
        assert s[..m][i] == x;
      }
    }
  }

  lemma {:induction false} SameMembers(s: seq<nat>, t: seq<nat>)
    requires Ascending(s) && Ascending(t) && forall x: nat :: x in s <==> x in t
    ensures s == t
  {
    hide Ascending;
    assert t != [] ==> t[0] in t && t[0] in s;
    if s != [] {
      assert s[0] in t;
      var m, n := |s| - 1, |t| - 1;
      FrontMembers(s);
      FrontMembers(t);
      assert s[m] in s && t[n] in t;
      assert s[m] in t && t[n] in s;
      assert s[m] == t[n];
      SameMembers(s[..m], t[..n]);
      assert s == s[..m] + [s[m]] && t == t[..n] + [t[n]];
    }
  }

  lemma {:induction false} OpenersOfSettled<M(!new)>(names: seq<string>, claims: seq<Option<Claim<M>>>,
                                                     commands: seq<Command<M>>)
    requires Settled(names, commands) && Reflects(names, claims, commands)
    ensures |Openers(claims)| == |commands|
    ensures forall k :: 0 <= k < |commands| ==>
              commands[k].ops != [] && Openers(claims)[k] == FirstNeed(names, commands[k])
  {
    hide Openers, Reflects, Agree, IsOpener, Complete;
    forall k | 0 <= k < |commands|
      ensures commands[k].ops != [] && IsOpener(claims, FirstNeed(names, commands[k]))
    {
      FirstNeedOpens(names, claims, commands, k);
    }
    var needs := seq(|commands|, k requires 0 <= k < |commands| => FirstNeed(names, commands[k]));
    OpenersFacts(claims);
    forall i: nat ensures i in needs <==> i in Openers(claims) {
      if i in needs { var k :| 0 <= k < |needs| && needs[k] == i; }
      if IsOpener(claims, i) {
        var k := NeededBy(names, claims, commands, i);
        assert needs[k] == i;
      }
    }
    SameMembers(needs, Openers(claims));
  }

  lemma {:induction false} NeededBy<M(!new)>(names: seq<string>, claims: seq<Option<Claim<M>>>,
                                             commands: seq<Command<M>>, i: nat)
    returns (k: nat)
    requires Settled(names, commands) && Reflects(names, claims, commands) && IsOpener(claims, i)
    ensures k < |commands| && commands[k].ops != [] && i == FirstNeed(names, commands[k])
  {
    assert ReflectedAt(names[i], claims[i], commands);
    var l: nat, a: nat :| ClaimFrom(commands, claims[i].value, l, a);
    k := l;
    FirstNeedOpens(names, claims, commands, k);
  }

  /** Regrouping the rows of settled commands gives the commands back. */
  lemma {:induction false} SettledComesBack<M(!new)>(names: seq<string>, claims: seq<Option<Claim<M>>>,
                                                     commands: seq<Command<M>>)
    requires Settled(names, commands) && Reflects(names, claims, commands)
    ensures Group(claims) == commands
  {
    hide Group, Openers, OpsUnder, Agree;
    GroupClosedForm(claims);
    OpenersOfSettled(names, claims, commands);
    forall k | 0 <= k < |commands| ensures Group(claims)[k] == commands[k] {
      assert IsFormed(claims, Openers(claims)[k], Group(claims)[k]);
      FirstNeedOpens(names, claims, commands, k);
      OpsOfSettled(names, claims, commands, k);
      RowsOfSettled(names, claims, commands, k, Openers(claims)[k]);
      var a: nat :| ClaimFrom(commands, claims[Openers(claims)[k]].value, k, a);
    }
  }

  // ----- the whole profile -----

  /** A label the table can hold: not empty, nothing to strip, no comma. */
  predicate CleanLabel(text: string) {
    text != "" && Strip(text) == text && ',' !in text
  }

  lemma {:induction false} LabelsSurvive(labels: seq<string>)
    ensures LabelsOf(Join(labels, ',')) == labels <==> forall l :: l in labels ==> CleanLabel(l)
  {
    CleanLabelsFacts(SplitOn(Join(labels, ','), ','));
    if labels == [] {
      assert SplitOn("", ',') == [""] && Strip("") == "";
    } else if forall l :: l in labels ==> CleanLabel(l) {
      SplitOfJoin(labels, ',');
      CleanLabelsFixed(labels);
    }
  }

  /** A resource the table can hold: no optional entry that is present but empty. */
  predicate CleanResource(res: DeviceResource) {
    && res.decodeFunc != Some("") && res.minimum != Some("") && res.maximum != Some("")
    && res.defaultValue != Some("")
  }

  lemma ResourceSurvives(header: Option<Header>, res: DeviceResource, cells: CommandCells)
    ensures ResourceOf(RowOf(header, res, cells)).Done?
    ensures ResourceOf(RowOf(header, res, cells)) == Done(res) <==> CleanResource(res)
  {
    IntCellOfText(res.address, 0);
    IntCellOfText(res.length, 1);
    hide IntCell, IntText;
  }

  lemma HeaderSurvives(header: Option<Header>, res: DeviceResource, cells: CommandCells)
    ensures Some(HeaderOf(RowOf(header, res, cells))) == header <==>
              header.Some? && forall l :: l in header.value.labels ==> CleanLabel(l)
  {
    if header.Some? { LabelsSurvive(header.value.labels); }
  }

  function NamesOf(resources: seq<DeviceResource>): (names: seq<string>)
    ensures |names| == |resources|
  {
    seq(|resources|, i requires 0 <= i < |resources| => resources[i].name)
  }

  /** The claims of the flattened rows. */
  lemma {:induction false} FlatClaims<M(!new)>(j: JsonText<M>, p: Profile<M>, i: nat)
    requires Faithful(j) && i < |p.resources| && forall c :: c in p.commands ==> c.name != ""
    ensures var claim := Claims(j, JsonToCsv(j, p))[i];
            match claim
            case None => forall k :: 0 <= k < |p.commands| ==> !OperatesOn(p.commands[k], p.resources[i].name)
            case Some(c) =>
              && c.op.resource == p.resources[i].name && c.command != "" && Kept(j, c.op.mappings) == c.op.mappings
              && exists k: nat, a: nat :: TakenFrom(j, p.commands, c, k, a)
  {
    hide TableOf, Faithful, CsvToJson;
    var c, op := Reclaim(j, p.commands, p.header, p.resources[i]);
    match c
    case None =>
      forall k | 0 <= k < |p.commands| ensures !OperatesOn(p.commands[k], p.resources[i].name) {
        forall b | 0 <= b < |p.commands[k].ops| ensures p.commands[k].ops[b].resource != p.resources[i].name {
          assert p.commands[k] in p.commands && p.commands[k].ops[b] in p.commands[k].ops;
        }
      }
    case Some(command) =>
      var k :| 0 <= k < |p.commands| && p.commands[k] == command;
      var a :| 0 <= a < |command.ops| && command.ops[a] == op.value;
      assert TakenFrom(j, p.commands, Claims(j, JsonToCsv(j, p))[i].value, k, a);
  }

  /** The claim is that of an operation of one of the commands, as the table keeps it. */
  ghost predicate TakenFrom<M(!new)>(j: JsonText<M>, commands: seq<Command<M>>, claim: Claim<M>, k: nat, a: nat) {
    && k < |commands| && a < |commands[k].ops|
    && claim == Claim(commands[k].name, commands[k].readWrite, commands[k].isHidden,
                      Operation(commands[k].ops[a].resource, Kept(j, commands[k].ops[a].mappings)))
  }

  lemma {:induction false} FlatByName<M(!new)>(j: JsonText<M>, p: Profile<M>)
    requires Faithful(j) && forall c :: c in p.commands ==> c.name != ""
    ensures ByName(NamesOf(p.resources), Claims(j, JsonToCsv(j, p)))
  {
    hide TableOf, Faithful, Kept;
    var names, claims := NamesOf(p.resources), Claims(j, JsonToCsv(j, p));
    forall i {:trigger claims[i]} | 0 <= i < |claims| && claims[i].Some?
      ensures claims[i].value.op.resource == names[i] && claims[i].value.command != ""
    {
      FlatClaims(j, p, i);
    }
    forall i, k {:trigger claims[i], claims[k]} | 0 <= i < |claims| && 0 <= k < |claims| && names[i] == names[k]
      ensures claims[i] == claims[k]
    {
      SameCells(j, p.header, p.resources[i], p.resources[k], CellsFor(TableOf(j, p.commands), names[i]));
    }
  }

  lemma SameCells<M(!new)>(j: JsonText<M>, header: Option<Header>, res: DeviceResource, other: DeviceResource,
                           cells: CommandCells)
    requires res.name == other.name
    ensures ClaimOf(j, RowOf(header, res, cells)) == ClaimOf(j, RowOf(header, other, cells))
  {
  }

  /** No operation has a mappings document that the table drops. */
  ghost predicate MappingsKept<M>(j: JsonText<M>, commands: seq<Command<M>>) {
    forall k, a {:trigger commands[k].ops[a]} :: 0 <= k < |commands| && 0 <= a < |commands[k].ops| ==>
      Kept(j, commands[k].ops[a].mappings) == commands[k].ops[a].mappings
  }

  lemma {:induction false} FlatReflects<M(!new)>(j: JsonText<M>, p: Profile<M>)
    requires Faithful(j) && MappingsKept(j, p.commands) && Settled(NamesOf(p.resources), p.commands)
    ensures Reflects(NamesOf(p.resources), Claims(j, JsonToCsv(j, p)), p.commands)
  {
    hide TableOf, Faithful, Kept, OperatesOn, FirstIndex;
    var names, claims := NamesOf(p.resources), Claims(j, JsonToCsv(j, p));
    forall c | c in p.commands ensures c.name != "" {
      var k :| 0 <= k < |p.commands| && p.commands[k] == c;
      assert Complete(names, p.commands[k]);
    }
    forall i {:trigger claims[i]} | 0 <= i < |claims| ensures ReflectedAt(names[i], claims[i], p.commands) {
      FlatClaims(j, p, i);
      if claims[i].Some? {
        var k: nat, a: nat :| TakenFrom(j, p.commands, claims[i].value, k, a);
        assert ClaimFrom(p.commands, claims[i].value, k, a);
      }
    }
  }

  /** Regrouping the profile's own rows gives its commands back if and only if they are settled and the table keeps
      their mappings. */
  lemma {:induction false} CommandsSurvive<M(!new)>(j: JsonText<M>, p: Profile<M>)
    requires Faithful(j)
    ensures Group(Claims(j, JsonToCsv(j, p))) == p.commands <==>
              Settled(NamesOf(p.resources), p.commands) && MappingsKept(j, p.commands)
  {
    hide Group, Faithful, JsonToCsv, Settled, MappingsKept;
    if Settled(NamesOf(p.resources), p.commands) && MappingsKept(j, p.commands) {
      FlatReflects(j, p);
      SettledComesBack(NamesOf(p.resources), Claims(j, JsonToCsv(j, p)), p.commands);
    }
    if Group(Claims(j, JsonToCsv(j, p))) == p.commands { RegroupedIsSettled(j, p); }
  }

  lemma {:induction false} RegroupedIsSettled<M(!new)>(j: JsonText<M>, p: Profile<M>)
    requires Faithful(j) && Group(Claims(j, JsonToCsv(j, p))) == p.commands
    ensures Settled(NamesOf(p.resources), p.commands) && MappingsKept(j, p.commands)
  {
    hide Group, Faithful, Settled, Kept, ByName, TableOf;
    var claims := Claims(j, JsonToCsv(j, p));
    forall c | c in p.commands ensures c.name != "" { CommandNames(j, JsonToCsv(j, p), c); }
    FlatByName(j, p);
    GroupIsSettled(NamesOf(p.resources), claims);
    GroupClosedForm(claims);
    forall k, a {:trigger p.commands[k].ops[a]} | 0 <= k < |p.commands| && 0 <= a < |p.commands[k].ops|
      ensures Kept(j, p.commands[k].ops[a].mappings) == p.commands[k].ops[a].mappings
    {
      assert IsFormed(claims, Openers(claims)[k], p.commands[k]);
      var i := RowOfOp(claims, p.commands[k].name, a);
      FlatClaims(j, p, i);
    }
  }

  /** What a profile must be to come back as it went: no header, resources or commands at all; or a header with clean
      labels, clean resources, and settled commands whose mappings the table keeps. */
  ghost predicate Survives<M(!new)>(j: JsonText<M>, p: Profile<M>) {
    if p.resources == [] then p.header.None? && |p.commands| == 0
    else
      && p.header.Some? && (forall l :: l in p.header.value.labels ==> CleanLabel(l))
      && (forall i :: 0 <= i < |p.resources| ==> CleanResource(p.resources[i]))
      && Settled(NamesOf(p.resources), p.commands) && MappingsKept(j, p.commands)
  }

  /** Any profile, from a table or not: the trip to rows and back always succeeds, and gives the same profile if and
      only if the profile survives. */
  lemma {:induction false} ProfileFixedPoint<M(!new)>(j: JsonText<M>, p: Profile<M>)
    requires Faithful(j)
    ensures CsvToJson(j, JsonToCsv(j, p)).Done?
    ensures CsvToJson(j, JsonToCsv(j, p)).value == p <==> Survives(j, p)
  {
    hide CsvToJson, Group, Faithful, Settled, MappingsKept, TableOf, HeaderOf, ResourceOf, ClaimOf, RowOf, CellsFor,
         CleanResource, CleanLabel;
    var rows := JsonToCsv(j, p);
    forall i | 0 <= i < |rows|
      ensures ResourceOf(rows[i]).Done?
      ensures ResourceOf(rows[i]) == Done(p.resources[i]) <==> CleanResource(p.resources[i])
    {
      ResourceSurvives(p.header, p.resources[i], CellsFor(TableOf(j, p.commands), p.resources[i].name));
    }
    CsvToJsonDone(j, rows);
    CsvToJsonParts(j, rows);
    CommandsSurvive(j, p);
    var again := CsvToJson(j, rows).value;
    if p.resources == [] {
      NoClaims(Claims(j, rows));
    } else {
      HeaderSurvives(p.header, p.resources[0], CellsFor(TableOf(j, p.commands), p.resources[0].name));
    }
    SameResources(again.resources, p.resources);
  }

  lemma SameResources(a: seq<DeviceResource>, b: seq<DeviceResource>)
    requires |a| == |b|
    ensures a == b <==> forall i :: 0 <= i < |a| ==> Done(a[i]) == Done(b[i])
  {
  }

  lemma {:induction false} NoClaims<M(!new)>(claims: seq<Option<Claim<M>>>)
    requires claims == []
    ensures Group(claims) == []
  {
  }

  /** Whatever the commands, a row keeps only mappings that the table can hold. */
  lemma {:induction false} ClaimKept<M(!new)>(j: JsonText<M>, commands: seq<Command<M>>, header: Option<Header>,
                                                res: DeviceResource)
    requires Faithful(j)
    ensures var claim := ClaimOf(j, RowOf(header, res, CellsFor(TableOf(j, commands), res.name)));
            claim.Some? ==> Kept(j, claim.value.op.mappings) == claim.value.op.mappings
  {
    TableEntry(j, commands, res.name);
    hide TableOf;
    if res.name in TableOf(j, commands) {
      var c, op :| c in commands && op in c.ops && op.resource == res.name
                   && TableOf(j, commands)[res.name] == CellsOf(j, c, op);
    }
  }

  lemma {:induction false} FlattenedIsTidy<M(!new)>(j: JsonText<M>, p: Profile<M>)
    requires Faithful(j)
    ensures Tidy(j, JsonToCsv(j, p))
  {
    hide TableOf, Faithful, Kept, RowOf, ClaimOf, CellsFor;
    var rows := JsonToCsv(j, p);
    var claims := Claims(j, rows);
    forall i, k {:trigger claims[i], claims[k]} | 0 <= i < |rows| && 0 <= k < |rows| && rows[i].name == rows[k].name
      ensures claims[i] == claims[k]
    {
      RowName(p.header, p.resources[i], CellsFor(TableOf(j, p.commands), p.resources[i].name));
      RowName(p.header, p.resources[k], CellsFor(TableOf(j, p.commands), p.resources[k].name));
      SameCells(j, p.header, p.resources[i], p.resources[k], CellsFor(TableOf(j, p.commands), rows[i].name));
    }
    forall i {:trigger claims[i]} | 0 <= i < |rows| && claims[i].Some?
      ensures Kept(j, claims[i].value.op.mappings) == claims[i].value.op.mappings
    {
      ClaimKept(j, p.commands, p.header, p.resources[i]);
    }
  }

  lemma RowName(header: Option<Header>, res: DeviceResource, cells: CommandCells)
    ensures RowOf(header, res, cells).name == res.name
  {
  }

  /** One trip settles any profile: what comes back survives every further trip. */
  lemma {:induction false} OneTripSettles<M(!new)>(j: JsonText<M>, p: Profile<M>)
    requires Faithful(j)
    ensures var once := CsvToJson(j, JsonToCsv(j, p));
            once.Done? && Survives(j, once.value) && CsvToJson(j, JsonToCsv(j, once.value)) == once
  {
    hide CsvToJson, JsonToCsv, Tidy, Survives, Faithful;
    ProfileFixedPoint(j, p);
    FlattenedIsTidy(j, p);
    ConversionFixedPoint(j, JsonToCsv(j, p));
    ProfileFixedPoint(j, CsvToJson(j, JsonToCsv(j, p)).value);
  }
}
