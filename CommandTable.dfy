/** COMMANDS_BY_ID (zigpy_zboss/commands/__init__.py): every request,
    response and indication class of the catalog, by its header. */
module CommandTable {
  import opened Wrappers
  import opened Headers
  import opened Commands

  /** One command group (AF, APS, ZDO, ...): its definitions in order. */
  type Group = seq<(string, CommandDef)>

  /** The classes of one definition in the order the loop stores them:
      Req, then Rsp, or Ind alone. */
  function DefClasses(name: string, d: CommandDef): seq<CommandClass> {
    if d.reqSchema.Some? then [CommandClass(name, d, ReqKind), CommandClass(name, d, RspKind)]
    else if d.controlType == Ind then [CommandClass(name, d, IndKind)]
    else []
  }

  /** They are the classes CommandsMeta created. */
  lemma DefClassesCreated(name: string, d: CommandDef)
    requires ClassesOf(name, d).Ok?
    ensures DefClasses(name, d) == ClassesOf(name, d).value
  {
  }

  /** The classes of the first `n` definitions of a group. */
  function GroupClasses(g: Group, n: nat): seq<CommandClass>
    requires n <= |g|
  {
    if n == 0 then [] else GroupClasses(g, n - 1) + DefClasses(g[n - 1].0, g[n - 1].1)
  }

  /** The classes of the first `n` groups, in iteration order. */
  function Entries(groups: seq<Group>, n: nat): seq<CommandClass>
    requires n <= |groups|
  {
    if n == 0 then [] else Entries(groups, n - 1) + GroupClasses(groups[n - 1], |groups[n - 1]|)
  }

  /** Storing classes one after the other under their headers; a later
      class overwrites an earlier one with the same header. */
  function Store(cs: seq<CommandClass>): map<HLHeader, CommandClass> {
    if |cs| == 0 then map[] else Store(cs[..|cs| - 1])[ClassHeader(cs[|cs| - 1]) := cs[|cs| - 1]]
  }

  lemma StoreAppend(cs: seq<CommandClass>, c: CommandClass)
    ensures Store(cs + [c]) == Store(cs)[ClassHeader(c) := c]
  {
    assert (cs + [c])[..|cs|] == cs;
  }

  /** Storing the classes of one definition: Req then Rsp, or Ind. */
  lemma StoreDef(before: seq<CommandClass>, name: string, d: CommandDef)
    ensures var req, rsp, ind := CommandClass(name, d, ReqKind), CommandClass(name, d, RspKind), CommandClass(name, d, IndKind);
      Store(before + DefClasses(name, d))
        == if d.reqSchema.Some? then Store(before)[ClassHeader(req) := req][ClassHeader(rsp) := rsp]
           else if d.controlType == Ind then Store(before)[ClassHeader(ind) := ind]
           else Store(before)
  {
    var req, rsp, ind := CommandClass(name, d, ReqKind), CommandClass(name, d, RspKind), CommandClass(name, d, IndKind);
    if d.reqSchema.Some? {
      StoreAppend(before, req);
      StoreAppend(before + [req], rsp);
      assert before + DefClasses(name, d) == before + [req] + [rsp];
    } else if d.controlType == Ind {
      StoreAppend(before, ind);
    } else {
      assert before + DefClasses(name, d) == before;
    }
  }

  /** One more definition of the group. */
  lemma GroupStep(prefix: seq<CommandClass>, g: Group, j: nat)
    requires j < |g|
    ensures prefix + GroupClasses(g, j + 1) == prefix + GroupClasses(g, j) + DefClasses(g[j].0, g[j].1)
  {
  }

  /** The inner loop: the classes of one group stored after `prefix`. */
  method StoreGroup(ghost prefix: seq<CommandClass>, table: map<HLHeader, CommandClass>, g: Group)
    returns (table': map<HLHeader, CommandClass>)
    requires table == Store(prefix)
    ensures table' == Store(prefix + GroupClasses(g, |g|))
  {
    table' := table;
    var j := 0;
    assert prefix + GroupClasses(g, 0) == prefix;
    while j < |g|
      invariant 0 <= j <= |g|
      invariant table' == Store(prefix + GroupClasses(g, j))
      decreases |g| - j
    {
      var (name, d) := g[j];
      GroupStep(prefix, g, j);
      StoreDef(prefix + GroupClasses(g, j), name, d);
      if d.reqSchema.Some? {
        var req := CommandClass(name, d, ReqKind);
        var rsp := CommandClass(name, d, RspKind);
        table' := table'[ClassHeader(req) := req];
        table' := table'[ClassHeader(rsp) := rsp];
      } else if d.controlType == Ind {
        var ind := CommandClass(name, d, IndKind);
        table' := table'[ClassHeader(ind) := ind];
      }
      j := j + 1;
    }
  }

  /** The nested loop building COMMANDS_BY_ID. */
  method BuildTable(groups: seq<Group>) returns (table: map<HLHeader, CommandClass>)
    ensures table == Store(Entries(groups, |groups|))
  {
    table := map[];
    var i := 0;
    while i < |groups|
      invariant 0 <= i <= |groups|
      invariant table == Store(Entries(groups, i))
      decreases |groups| - i
    {
      var g := groups[i];
      ghost var done := Entries(groups, i);
      table := StoreGroup(done, table, g);
      assert Entries(groups, i + 1) == done + GroupClasses(g, |g|);
      i := i + 1;
    }
  }

  /** Every key holds a stored class whose header is that key. */
  lemma {:induction false} StoreKeys(cs: seq<CommandClass>)
    ensures forall h :: h in Store(cs) ==> ClassHeader(Store(cs)[h]) == h && Store(cs)[h] in cs
    decreases |cs|
  {
    if |cs| > 0 {
      var init := cs[..|cs| - 1];
      StoreKeys(init);
      forall h | h in Store(cs)
        ensures ClassHeader(Store(cs)[h]) == h && Store(cs)[h] in cs
      {
        if h != ClassHeader(cs[|cs| - 1]) {
          assert Store(init)[h] in init;
        }
      }
    }
  }

  /** Every stored class can be found under its header. */
  lemma {:induction false} StoreCovers(cs: seq<CommandClass>)
    ensures forall c :: c in cs ==> ClassHeader(c) in Store(cs)
    decreases |cs|
  {
    if |cs| > 0 {
      var init := cs[..|cs| - 1];
      StoreCovers(init);
      assert cs == init + [cs[|cs| - 1]];
    }
  }

  /** When the headers are distinct, as the schema test demands of the
      catalog, each class is the one found under its header. */
  lemma {:induction false} StoreDistinct(cs: seq<CommandClass>)
    requires forall i, j :: 0 <= i < j < |cs| ==> ClassHeader(cs[i]) != ClassHeader(cs[j])
    ensures forall k :: 0 <= k < |cs| ==> ClassHeader(cs[k]) in Store(cs) && Store(cs)[ClassHeader(cs[k])] == cs[k]
    decreases |cs|
  {
    if |cs| > 0 {
      var init := cs[..|cs| - 1];
      StoreDistinct(init);
      StoreCovers(init);
      forall k | 0 <= k < |cs|
        ensures ClassHeader(cs[k]) in Store(cs) && Store(cs)[ClassHeader(cs[k])] == cs[k]
      {
        if k < |cs| - 1 {
          assert init[k] == cs[k];
        }
      }
    }
  }

  /** COMMANDS_BY_ID maps each header to a class with that header, holds
      every class of the catalog, and, with distinct headers, holds each
      class under its own header. */
  lemma TableSpec(groups: seq<Group>)
    ensures var table := Store(Entries(groups, |groups|)); var cs := Entries(groups, |groups|);
      && (forall h :: h in table ==> ClassHeader(table[h]) == h && table[h] in cs)
      && (forall c :: c in cs ==> ClassHeader(c) in table)
      && ((forall i, j :: 0 <= i < j < |cs| ==> ClassHeader(cs[i]) != ClassHeader(cs[j])) ==>
            forall k :: 0 <= k < |cs| ==> table[ClassHeader(cs[k])] == cs[k])
  {
    var cs := Entries(groups, |groups|);
    StoreKeys(cs);
    StoreCovers(cs);
    if forall i, j :: 0 <= i < j < |cs| ==> ClassHeader(cs[i]) != ClassHeader(cs[j]) {
      StoreDistinct(cs);
    }
  }
}
