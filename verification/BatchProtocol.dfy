/** The contract for one batch of a memory graph, and the check of a reply to it. */
module BatchProtocol {
  import opened Order
  import opened Text
  import opened Wrappers

  datatype Selection = Selection(id: string, title: string)

  datatype Contract = Contract(id: string, kind: string, selected: seq<Selection>, allowedOps: seq<string>,
                               forbidRemovals: bool, contextLimit: int)

  datatype PatchOp = PatchOp(op: string, targetID: string, secondaryID: string, rationale: string)

  datatype Assignment = Assignment(nodeID: string, outcome: string, note: string)

  datatype Source = Source(id: string, title: string, excerpt: string)

  datatype Patch = Patch(contractID: string, operations: seq<PatchOp>, assignments: seq<Assignment>,
                         groupingRationale: string, contextSources: seq<Source>)

  const REGROUP := "regroup"
  const MERGE := "merge"
  const RETITLE := "retitle"
  const ANNOTATE := "annotate"

  predicate KnownOp(op: string) { op == REGROUP || op == MERGE || op == RETITLE || op == ANNOTATE }

  predicate KnownOutcome(o: string) {
    o == "kept" || o == "regrouped" || o == "merged" || o == "retitled" || o == "annotated"
  }

  // An operation that moves or removes its target.
  predicate Moves(op: PatchOp) { op.op == REGROUP || op.op == MERGE }

  // ---- The contract itself ----

  function Ids(sel: seq<Selection>): (ids: seq<string>)
    ensures |ids| == |sel| && forall i :: 0 <= i < |sel| ==> ids[i] == sel[i].id
  {
    seq(|sel|, i requires 0 <= i < |sel| => sel[i].id)
  }

  ghost predicate ContractOk(c: Contract) {
    && c.id != "" && c.kind != ""
    && c.selected != [] && Distinct(Ids(c.selected)) && "" !in Ids(c.selected)
    && c.allowedOps != [] && forall op :: op in c.allowedOps ==> KnownOp(op)
  }

  datatype ContractFault = EmptyID | EmptyKind | NothingSelected | EmptySelected(i: nat) | RepeatedSelected(i: nat)
                         | NoOps | StrangeOp(i: nat)

  // The reported fault is there, and none of those looked for earlier.
  ghost predicate FirstContractFault(c: Contract, f: ContractFault) {
    var ids := Ids(c.selected);
    match f
    case EmptyID => c.id == ""
    case EmptyKind => c.id != "" && c.kind == ""
    case NothingSelected => c.id != "" && c.kind != "" && ids == []
    case EmptySelected(i) =>
      c.id != "" && c.kind != "" && i < |ids| && ids[i] == "" && "" !in ids[..i] && Distinct(ids[..i])
    case RepeatedSelected(i) =>
      c.id != "" && c.kind != "" && i < |ids| && ids[i] in ids[..i] && "" !in ids[..i + 1] && Distinct(ids[..i])
    case NoOps => c.id != "" && c.kind != "" && ids != [] && "" !in ids && Distinct(ids) && c.allowedOps == []
    case StrangeOp(i) =>
      && c.id != "" && c.kind != "" && ids != [] && "" !in ids && Distinct(ids)
      && i < |c.allowedOps| && !KnownOp(c.allowedOps[i]) && forall j :: 0 <= j < i ==> KnownOp(c.allowedOps[j])
  }

  method CheckContract(c: Contract) returns (fault: Option<ContractFault>)
    ensures fault == None <==> ContractOk(c)
    ensures fault.Some? ==> FirstContractFault(c, fault.value)
  {
    hide KnownOp;
    if c.id == "" { return Some(EmptyID); }
    if c.kind == "" { return Some(EmptyKind); }
    if |c.selected| == 0 { return Some(NothingSelected); }
    ghost var ids := Ids(c.selected);
    var seen: set<string> := {};
    for i := 0 to |c.selected|
      invariant seen == Elems(ids[..i]) && Distinct(ids[..i]) && "" !in ids[..i]
    {
      var id := c.selected[i].id;
      assert ids[..i + 1] == ids[..i] + [id];
      if id == "" { assert "" == ids[i]; return Some(EmptySelected(i)); }
      if id in seen {
        RepeatIsNotDistinct(ids, i);
        return Some(RepeatedSelected(i));
      }
      seen := seen + {id};
    }
    assert ids[..|ids|] == ids;
    if |c.allowedOps| == 0 { return Some(NoOps); }
    for i := 0 to |c.allowedOps|
      invariant forall j :: 0 <= j < i ==> KnownOp(c.allowedOps[j])
    {
      if !KnownOp(c.allowedOps[i]) {
        assert c.allowedOps[i] in c.allowedOps;
        return Some(StrangeOp(i));
      }
    }
    return None;
  }

  lemma RepeatIsNotDistinct<T>(s: seq<T>, i: nat)
    requires i < |s| && s[i] in s[..i]
    ensures !Distinct(s)
  {
    var j :| 0 <= j < i && s[..i][j] == s[i];
    assert s[j] == s[i];
  }

  // ---- The protocol, declaratively ----

  ghost predicate OpMeets(c: Contract, op: PatchOp) {
    && KnownOp(op.op) && op.op in c.allowedOps
    && op.targetID != "" && op.targetID in Ids(c.selected)
    && (c.forbidRemovals && Moves(op) ==> op.secondaryID != "")
  }

  function Assigned(p: Patch): (ids: seq<string>)
    ensures |ids| == |p.assignments| && forall i :: 0 <= i < |ids| ==> ids[i] == p.assignments[i].nodeID
  {
    seq(|p.assignments|, i requires 0 <= i < |p.assignments| => p.assignments[i].nodeID)
  }

  // Every selected node is reported on exactly once, and no other.
  ghost predicate Bijection(c: Contract, p: Patch) {
    && Distinct(Assigned(p))
    && forall id :: id in Assigned(p) <==> id in Ids(c.selected)
  }

  ghost predicate Protocol(c: Contract, p: Patch) {
    && p.contractID == c.id
    && (forall op :: op in p.operations ==> OpMeets(c, op))
    && Bijection(c, p) && "" !in Assigned(p)
    && (forall a :: a in p.assignments ==> KnownOutcome(a.outcome))
    && ((exists op :: op in p.operations && Moves(op)) ==> Trim(p.groupingRationale) != "")
    && p.contextSources != [] && (forall s :: s in p.contextSources ==> Trim(s.id) != "")
  }

  // ---- The check ----

  datatype Fault = UnknownOp | ShapeChange | ExtraNode | ForbiddenRemoval | DuplicateAssignment | UnknownOutcome

  datatype Verdict =
    | Accepted
    | ContractMismatch
    | BadOperation(i: nat, fault: Fault)
    | BadAssignment(i: nat, fault: Fault)
    | MissingNodes(ids: seq<string>)
    | MissingRationale
    | MissingContextSources

  function OpFault(c: Contract, op: PatchOp): Option<Fault> {
    if !KnownOp(op.op) then Some(UnknownOp)
    else if op.op !in c.allowedOps then Some(ShapeChange)
    else if op.targetID == "" || op.targetID !in Ids(c.selected) then Some(ExtraNode)
    else if c.forbidRemovals && Moves(op) && op.secondaryID == "" then Some(ForbiddenRemoval)
    else None
  }

  function AssignmentFault(c: Contract, a: Assignment, earlier: set<string>): Option<Fault> {
    if a.nodeID == "" || a.nodeID !in Ids(c.selected) then Some(ExtraNode)
    else if a.nodeID in earlier then Some(DuplicateAssignment)
    else if !KnownOutcome(a.outcome) then Some(UnknownOutcome)
    else None
  }

  // The operations are in order, and so are the first n assignments.
  ghost predicate OpsMeet(c: Contract, p: Patch) {
    p.contractID == c.id && forall op :: op in p.operations ==> OpMeets(c, op)
  }

  ghost predicate AssignmentsMeet(c: Contract, p: Patch, n: nat) {
    && n <= |p.assignments| && Distinct(Assigned(p)[..n])
    && (forall id :: id in Assigned(p)[..n] ==> id != "" && id in Ids(c.selected))
    && (forall i :: 0 <= i < n ==> KnownOutcome(p.assignments[i].outcome))
  }

  // A verdict names the first thing wrong.
  ghost predicate FirstFault(c: Contract, p: Patch, v: Verdict) {
    match v
    case Accepted => true
    case ContractMismatch => p.contractID != c.id
    case BadOperation(i, f) =>
      && p.contractID == c.id && i < |p.operations| && OpFault(c, p.operations[i]) == Some(f)
      && forall j :: 0 <= j < i ==> OpMeets(c, p.operations[j])
    case BadAssignment(i, f) =>
      && OpsMeet(c, p) && i < |p.assignments| && AssignmentsMeet(c, p, i)
      && AssignmentFault(c, p.assignments[i], Elems(Assigned(p)[..i])) == Some(f)
    case MissingNodes(ids) =>
      && OpsMeet(c, p) && AssignmentsMeet(c, p, |p.assignments|)
      && |p.assignments| < |c.selected|
      && SortedBy(ids, LexLe) && (forall id :: id in ids <==> id in Ids(c.selected) && id !in Assigned(p))
      && forall id :: multiset(ids)[id] == if id in Assigned(p) then 0 else multiset(Ids(c.selected))[id]
    case MissingRationale =>
      && OpsMeet(c, p) && AssignmentsMeet(c, p, |p.assignments|) && |p.assignments| == |c.selected|
      && (exists op :: op in p.operations && Moves(op)) && Trim(p.groupingRationale) == ""
    case MissingContextSources =>
      && OpsMeet(c, p) && AssignmentsMeet(c, p, |p.assignments|) && |p.assignments| == |c.selected|
      && ((exists op :: op in p.operations && Moves(op)) ==> Trim(p.groupingRationale) != "")
      && (p.contextSources == [] || exists s :: s in p.contextSources && Trim(s.id) == "")
  }

  lemma OpFaultIff(c: Contract, op: PatchOp)
    ensures OpFault(c, op) == None <==> OpMeets(c, op)
  {
  }

  // Assignments that are distinct and selected number at most the selected, and number
  // exactly the selected if and only if they are all of them and none is selected twice.
  lemma CountIsBijection(c: Contract, p: Patch)
    requires AssignmentsMeet(c, p, |p.assignments|)
    ensures |p.assignments| <= |c.selected|
    ensures |p.assignments| == |c.selected| <==> Bijection(c, p) && Distinct(Ids(c.selected))
  {
    var as0, sel := Assigned(p), Ids(c.selected);
    assert as0[..|as0|] == as0;
    DistinctCard(as0);
    ElemsAtMost(sel);
    forall id | id in Elems(as0) ensures id in Elems(sel) { assert id in as0; }
    SubsetCard(Elems(as0), Elems(sel));
    if |as0| == |sel| {
      forall id ensures id in as0 <==> id in sel { assert id in Elems(as0) <==> id in Elems(sel); }
    }
    if Bijection(c, p) && Distinct(sel) {
      DistinctCard(sel);
      assert Elems(as0) == Elems(sel);
    }
  }

  method Validate(c: Contract, p: Patch) returns (v: Verdict)
    ensures v == Accepted <==> Protocol(c, p) && Distinct(Ids(c.selected))
    ensures FirstFault(c, p, v)
  {
    hide Trim, KnownOp, KnownOutcome, Moves, OpMeets, Bijection, AssignmentsMeet, Distinct, OpFault;
    if p.contractID != c.id { return ContractMismatch; }
    for i := 0 to |p.operations|
      invariant forall j :: 0 <= j < i ==> OpMeets(c, p.operations[j])
    {
      OpFaultIff(c, p.operations[i]);
      var fault := OpFault(c, p.operations[i]);
      if fault.Some? {
        assert p.operations[i] in p.operations;
        return BadOperation(i, fault.value);
      }
    }
    assert OpsMeet(c, p);
    v := ValidateAssignments(c, p);
    AcceptedMeans(c, p);
    if v != Accepted {
      if v.MissingNodes? { CountIsBijection(c, p); }
      return;
    }
    CountIsBijection(c, p);
    var moves := HasMove(p.operations);
    if moves && Trim(p.groupingRationale) == "" { return MissingRationale; }
    if |p.contextSources| == 0 { return MissingContextSources; }
    for i := 0 to |p.contextSources|
      invariant forall j :: 0 <= j < i ==> Trim(p.contextSources[j].id) != ""
    {
      if Trim(p.contextSources[i].id) == "" {
        assert p.contextSources[i] in p.contextSources;
        return MissingContextSources;
      }
    }
    return Accepted;
  }

  // What the protocol says of the assignments is what the second pass looks for.
  lemma AcceptedMeans(c: Contract, p: Patch)
    ensures Bijection(c, p) && "" !in Assigned(p) && (forall a :: a in p.assignments ==> KnownOutcome(a.outcome)) <==>
            Bijection(c, p) && AssignmentsMeet(c, p, |p.assignments|)
  {
    hide KnownOutcome;
    assert Assigned(p)[..|p.assignments|] == Assigned(p);
    if AssignmentsMeet(c, p, |p.assignments|) {
      forall a | a in p.assignments ensures KnownOutcome(a.outcome) {
        var i :| 0 <= i < |p.assignments| && p.assignments[i] == a;
      }
    }
  }

  method HasMove(ops: seq<PatchOp>) returns (found: bool)
    ensures found <==> exists op :: op in ops && Moves(op)
  {
    hide Moves;
    for i := 0 to |ops|
      invariant forall j :: 0 <= j < i ==> !Moves(ops[j])
    {
      if Moves(ops[i]) { assert ops[i] in ops; return true; }
    }
    return false;
  }

  method ValidateAssignments(c: Contract, p: Patch) returns (v: Verdict)
    requires OpsMeet(c, p)
    ensures v == Accepted <==> AssignmentsMeet(c, p, |p.assignments|) && |p.assignments| == |c.selected|
    ensures v.Accepted? || v.BadAssignment? || v.MissingNodes?
    ensures FirstFault(c, p, v)
    ensures v.BadAssignment? ==> !AssignmentsMeet(c, p, |p.assignments|)
  {
    hide KnownOutcome, OpsMeet, AssignmentsMeet, Distinct, AssignmentFault;
    var covered: set<string> := {};
    MeetNone(c, p);
    for i := 0 to |p.assignments|
      invariant AssignmentsMeet(c, p, i) && covered == Elems(Assigned(p)[..i]) && |covered| == i
    {
      MeetMore(c, p, i);
      var fault := AssignmentFault(c, p.assignments[i], covered);
      if fault.Some? { return BadAssignment(i, fault.value); }
      assert Assigned(p)[..i + 1] == Assigned(p)[..i] + [p.assignments[i].nodeID];
      covered := covered + {p.assignments[i].nodeID};
    }
    assert Assigned(p)[..|p.assignments|] == Assigned(p);
    CountIsBijection(c, p);
    if |covered| != |c.selected| {
      var missing := Missing(c.selected, covered);
      return MissingNodes(missing);
    }
    return Accepted;
  }

  lemma MeetNone(c: Contract, p: Patch)
    ensures AssignmentsMeet(c, p, 0)
  {
  }

  lemma MeetMore(c: Contract, p: Patch, i: nat)
    requires AssignmentsMeet(c, p, i) && i < |p.assignments|
    ensures var f := AssignmentFault(c, p.assignments[i], Elems(Assigned(p)[..i]));
      && (f == None ==> AssignmentsMeet(c, p, i + 1) && p.assignments[i].nodeID !in Elems(Assigned(p)[..i]))
      && (f.Some? ==> !AssignmentsMeet(c, p, |p.assignments|))
  {
    hide KnownOutcome;
    var ids := Assigned(p);
    assert ids[..i + 1] == ids[..i] + [ids[i]];
    assert ids[..|p.assignments|] == ids && ids[i] in ids;
    if ids[i] in Elems(ids[..i]) { RepeatIsNotDistinct(ids, i); }
  }

  // The selected ids that are not covered, sorted.
  method Missing(sel: seq<Selection>, covered: set<string>) returns (ids: seq<string>)
    ensures SortedBy(ids, LexLe) && forall id :: id in ids <==> id in Ids(sel) && id !in covered
    ensures forall id :: multiset(ids)[id] == if id in covered then 0 else multiset(Ids(sel))[id]
  {
    hide LexLe, SortedBy;
    var out: seq<string> := [];
    for i := 0 to |sel|
      invariant forall id :: id in out <==> id in Ids(sel)[..i] && id !in covered
      invariant forall id :: multiset(out)[id] == if id in covered then 0 else multiset(Ids(sel)[..i])[id]
    {
      assert Ids(sel)[..i + 1] == Ids(sel)[..i] + [sel[i].id];
      if sel[i].id !in covered { out := out + [sel[i].id]; }
    }
    assert Ids(sel)[..|sel|] == Ids(sel);
    LexPreorder();
    ids := StableSort(out, LexLe);
    SameElems(out, ids);
  }

  // For a contract that passed its own check, the reply is accepted exactly if it meets
  // the protocol, and a complaint about missing nodes names at least one.
  lemma AcceptedIffProtocol(c: Contract, p: Patch, v: Verdict)
    requires ContractOk(c) && FirstFault(c, p, v)
    requires v == Accepted <==> Protocol(c, p) && Distinct(Ids(c.selected))
    ensures v == Accepted <==> Protocol(c, p)
    ensures v.MissingNodes? ==> v.ids != []
  {
    hide KnownOp, OpMeets, KnownOutcome, Trim;
    if v.MissingNodes? {
      var id := SomeMissing(c, p);
      assert id in v.ids;
    }
  }

  lemma SomeMissing(c: Contract, p: Patch) returns (id: string)
    requires Distinct(Ids(c.selected)) && AssignmentsMeet(c, p, |p.assignments|) && |p.assignments| < |c.selected|
    ensures id in Ids(c.selected) && id !in Assigned(p)
  {
    hide KnownOutcome;
    CountIsBijection(c, p);
    assert Assigned(p)[..|p.assignments|] == Assigned(p);
    id :| id in Ids(c.selected) && id !in Assigned(p);
  }

  // ---- The faults in plain words ----

  predicate IsOp(op: string) { op in ["regroup", "merge", "retitle", "annotate"] }

  predicate IsOutcome(o: string) { o in ["kept", "regrouped", "merged", "retitled", "annotated"] }

  // What is wrong with an operation: each fault is named if it is there and none of the
  // earlier ones is.
  lemma OpFaultSays(c: Contract, op: PatchOp)
    ensures OpFault(c, op) == Some(UnknownOp) <==> !IsOp(op.op)
    ensures OpFault(c, op) == Some(ShapeChange) <==> IsOp(op.op) && op.op !in c.allowedOps
    ensures OpFault(c, op) == Some(ExtraNode) <==>
            && IsOp(op.op) && op.op in c.allowedOps
            && (op.targetID == "" || forall s :: s in c.selected ==> s.id != op.targetID)
    ensures OpFault(c, op) == Some(ForbiddenRemoval) <==>
            && IsOp(op.op) && op.op in c.allowedOps && op.targetID != ""
            && (exists s :: s in c.selected && s.id == op.targetID)
            && c.forbidRemovals && op.op in ["regroup", "merge"] && op.secondaryID == ""
    ensures OpFault(c, op) == None || OpFault(c, op).value in {UnknownOp, ShapeChange, ExtraNode, ForbiddenRemoval}
  {
    SelectedIff(c, op.targetID);
  }

  lemma SelectedIff(c: Contract, id: string)
    ensures id in Ids(c.selected) <==> exists s :: s in c.selected && s.id == id
  {
    if s :| s in c.selected && s.id == id {
      var i :| 0 <= i < |c.selected| && c.selected[i] == s;
      assert Ids(c.selected)[i] == id;
    }
  }

  // The same for an assignment.
  lemma AssignmentFaultSays(c: Contract, a: Assignment, earlier: set<string>)
    ensures AssignmentFault(c, a, earlier) == Some(ExtraNode) <==>
            a.nodeID == "" || forall s :: s in c.selected ==> s.id != a.nodeID
    ensures AssignmentFault(c, a, earlier) == Some(DuplicateAssignment) <==>
            a.nodeID != "" && (exists s :: s in c.selected && s.id == a.nodeID) && a.nodeID in earlier
    ensures AssignmentFault(c, a, earlier) == Some(UnknownOutcome) <==>
            && a.nodeID != "" && (exists s :: s in c.selected && s.id == a.nodeID) && a.nodeID !in earlier
            && !IsOutcome(a.outcome)
    ensures AssignmentFault(c, a, earlier) == None ||
            AssignmentFault(c, a, earlier).value in {ExtraNode, DuplicateAssignment, UnknownOutcome}
  {
    SelectedIff(c, a.nodeID);
  }

  // What an accepted reply is sure to hold.
  lemma AcceptedSays(c: Contract, p: Patch)
    requires Protocol(c, p)
    ensures forall op :: op in p.operations ==>
              IsOp(op.op) && op.op in c.allowedOps && exists s :: s in c.selected && s.id == op.targetID
    ensures c.forbidRemovals ==>
              forall op :: op in p.operations && op.op in ["regroup", "merge"] ==> op.secondaryID != ""
    ensures (exists op :: op in p.operations && op.op in ["regroup", "merge"]) ==>
              exists ch :: ch in p.groupingRationale && !IsSpace(ch)
    ensures p.contextSources != [] && forall s :: s in p.contextSources ==> exists ch :: ch in s.id && !IsSpace(ch)
    ensures forall a :: a in p.assignments ==> IsOutcome(a.outcome)
  {
    hide Trim, IsSpace;
    forall op | op in p.operations
      ensures exists s :: s in c.selected && s.id == op.targetID
    {
      SelectedIff(c, op.targetID);
    }
    NotBlank(p.groupingRationale);
    forall s | s in p.contextSources ensures exists ch :: ch in s.id && !IsSpace(ch) { NotBlank(s.id); }
  }

  lemma NotBlank(s: string)
    ensures Trim(s) != "" <==> exists ch :: ch in s && !IsSpace(ch)
  {
    hide Trim, IsSpace;
    var i, j := TrimCuts(s);
    if i < j { assert s[i] in s; }
    if ch :| ch in s && !IsSpace(ch) { var k :| 0 <= k < |s| && s[k] == ch; }
  }
}
