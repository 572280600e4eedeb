/**
 A condition on the group list alone under which the compiled schema is exact: no two groups put
 different kinds of entry, or different rules, at one path. It does not mention the order of the list.
 */
module SchemaConflicts {
  import opened Wrappers
  import opened JsonSchema
  import opened SchemaCompiler
  import Sorting

  type Path = seq<string>

  /** The entry a plan has at a non-empty path, if every entry above it is an object. */
  function Lookup(plan: Plan, path: Path): Option<Node>
    requires path != []
    decreases |path|
  {
    if path[0] !in plan then None
    else if |path| == 1 then Some(plan[path[0]])
    else if plan[path[0]].ObjectNode? then Lookup(plan[path[0]].properties, path[1..])
    else None
  }

  predicate EndsInArray(segments: Path, g: Group) {
    g.isArray && segments != []
  }

  /** `g`, written at `segments`, wants an object at `path`. */
  predicate WantsObject(segments: Path, g: Group, path: Path) {
    path != [] && path <= segments && (EndsInArray(segments, g) ==> path != segments)
  }

  predicate WantsArray(segments: Path, g: Group, path: Path) {
    EndsInArray(segments, g) && path == segments
  }

  predicate WantsRule(segments: Path, g: Group, path: Path) {
    && !EndsInArray(segments, g)
    && |path| == |segments| + 1 && segments <= path && path[|segments|] in g.fields
  }

  /** Where both groups want something at one path, they want the same. */
  ghost predicate CompatibleAt(g: Group, h: Group, path: Path) {
    var s, t := Segments(g), Segments(h);
    && (WantsObject(s, g, path) ==> !WantsArray(t, h, path) && !WantsRule(t, h, path))
    && (WantsArray(s, g, path) ==> !WantsObject(t, h, path) && !WantsRule(t, h, path))
    && (WantsRule(s, g, path) ==> !WantsObject(t, h, path) && !WantsArray(t, h, path))
    && (WantsArray(s, g, path) && WantsArray(t, h, path) ==> FieldRules(g) == FieldRules(h))
    && (WantsRule(s, g, path) && WantsRule(t, h, path) ==> g.nullable == h.nullable)
  }

  ghost predicate ConflictFree(groups: seq<Group>) {
    forall g, h, path | g in groups && h in groups :: CompatibleAt(g, h, path)
  }

  /** Some group wants exactly this entry at `path`. */
  predicate Wants(segments: Path, g: Group, path: Path, node: Node) {
    match node
    case RuleNode(n) => WantsRule(segments, g, path) && n == g.nullable
    case ObjectNode(_) => WantsObject(segments, g, path)
    case ArrayNode(rules) => WantsArray(segments, g, path) && rules == FieldRules(g)
  }

  predicate SameKind(a: Node, b: Node) {
    match a
    case ObjectNode(_) => b.ObjectNode?
    case _ => a == b
  }

  /** Every entry after an insertion is one the group wants, or one of the same kind that was there. */
  lemma {:induction false} EntriesComeFromSomewhere(plan: Plan, segments: Path, g: Group, path: Path)
    requires path != [] && Lookup(Insert(plan, segments, g), path).Some?
    ensures var node := Lookup(Insert(plan, segments, g), path).value;
      Wants(segments, g, path, node) || (Lookup(plan, path).Some? && SameKind(Lookup(plan, path).value, node))
    decreases |segments|
  {
    var next := Insert(plan, segments, g);
    if segments == [] {
      if path[0] in g.fields {
        assert next[path[0]] == RuleNode(g.nullable);
      }
    } else if path[0] != segments[0] {
    } else if |segments| == 1 && g.isArray {
      assert segments == [segments[0]];
      if |path| == 1 { assert path == [path[0]]; }
    } else if |path| == 1 {
      assert path <= segments;
    } else {
      var existing := Existing(plan, segments[0]);
      EntriesComeFromSomewhere(existing, segments[1..], g, path[1..]);
      assert segments == [segments[0]] + segments[1..] && path == [path[0]] + path[1..];
      assert Lookup(existing, path[1..]).Some? ==> Lookup(plan, path) == Lookup(existing, path[1..]);
    }
  }

  lemma {:induction false} CompiledEntriesAreWanted(groups: seq<Group>, path: Path)
    requires path != [] && Lookup(Compile(groups), path).Some?
    ensures exists g | g in groups :: Wants(Segments(g), g, path, Lookup(Compile(groups), path).value)
  {
    if groups == [] {
    } else {
      var n := |groups| - 1;
      var g := groups[n];
      EntriesComeFromSomewhere(Compile(groups[..n]), Segments(g), g, path);
      var node := Lookup(Compile(groups), path).value;
      if !Wants(Segments(g), g, path, node) {
        CompiledEntriesAreWanted(groups[..n], path);
        var h :| h in groups[..n] && Wants(Segments(h), h, path, Lookup(Compile(groups[..n]), path).value);
        assert h in groups && Wants(Segments(h), h, path, node);
      }
    }
  }

  /** `node` is what `g` would put at `path` itself, if it wants anything there. */
  predicate Agrees(segments: Path, g: Group, path: Path, node: Node) {
    && (WantsRule(segments, g, path) ==> node == RuleNode(g.nullable))
    && (WantsObject(segments, g, path) ==> node.ObjectNode?)
    && (WantsArray(segments, g, path) ==> node == ArrayNode(FieldRules(g)))
  }

  /** A misfit is caused by the entry at one path. */
  lemma {:induction false} MisfitHasAPath(plan: Plan, segments: Path, g: Group) returns (path: Path)
    requires !Fits(plan, segments, g)
    ensures path != [] && Lookup(plan, path).Some? && !Agrees(segments, g, path, Lookup(plan, path).value)
    decreases |segments|
  {
    if segments == [] {
      var f :| f in g.fields && f in plan && !(plan[f].RuleNode? && (g.nullable ==> plan[f].nullable));
      path := [f];
    } else {
      path := [segments[0]];
      if |segments| == 1 && g.isArray {
        assert segments == path;
      } else if plan[segments[0]].ObjectNode? {
        var rest := MisfitHasAPath(plan[segments[0]].properties, segments[1..], g);
        path := path + rest;
        assert path[1..] == rest && segments == [segments[0]] + segments[1..];
      } else {
        assert path <= segments;
      }
    }
  }

  lemma {:induction false} EarlierEntriesAgree(groups: seq<Group>, i: nat, path: Path)
    requires ConflictFree(groups) && i < |groups| && path != [] && Lookup(Compile(groups[..i]), path).Some?
    ensures Agrees(Segments(groups[i]), groups[i], path, Lookup(Compile(groups[..i]), path).value)
  {
    CompiledEntriesAreWanted(groups[..i], path);
    var h :| h in groups[..i] && Wants(Segments(h), h, path, Lookup(Compile(groups[..i]), path).value);
    assert h in groups && CompatibleAt(groups[i], h, path);
  }

  lemma {:induction false} ConflictFreeGroupsFit(groups: seq<Group>)
    requires ConflictFree(groups)
    ensures AllFit(groups)
  {
    forall i | 0 <= i < |groups| ensures Fits(Compile(groups[..i]), Segments(groups[i]), groups[i]) {
      if !Fits(Compile(groups[..i]), Segments(groups[i]), groups[i]) {
        var path := MisfitHasAPath(Compile(groups[..i]), Segments(groups[i]), groups[i]);
        EarlierEntriesAgree(groups, i, path);
      }
    }
  }

  lemma {:induction false} SameGroupsSameDemand(groups: seq<Group>, reordered: seq<Group>, doc: Bson)
    requires forall g :: g in groups <==> g in reordered
    ensures AllHold(groups, doc) <==> AllHold(reordered, doc)
  {
    assert forall i | 0 <= i < |groups| :: groups[i] in reordered;
    assert forall i | 0 <= i < |reordered| :: reordered[i] in groups;
  }

  lemma {:induction false} ConflictFreeMeansAllHold(groups: seq<Group>)
    requires ConflictFree(groups)
    ensures MeansAllHold(groups)
  {
    ConflictFreeGroupsFit(groups);
    FittingGroupsCompileExactly(groups);
  }

  /** Reordering conflict-free groups does not change which documents the schema accepts. */
  lemma {:induction false} OrderDoesNotMatter(groups: seq<Group>, reordered: seq<Group>, doc: Bson)
    requires ConflictFree(groups) && multiset(groups) == multiset(reordered)
    ensures Accepts(CompiledSchema(groups), doc) <==> Accepts(CompiledSchema(reordered), doc)
  {
    forall g ensures g in groups <==> g in reordered {
      Sorting.SameElements(groups, reordered, g);
    }
    ConflictFreeMeansAllHold(groups);
    ConflictFreeMeansAllHold(reordered);
    SameGroupsSameDemand(groups, reordered, doc);
  }

  // ----- reading the condition off two groups' paths

  ghost predicate Diverge(s: Path, t: Path) {
    exists k | 0 <= k < |s| && k < |t| :: s[k] != t[k]
  }

  /** `h` continues below `g`'s object without using one of `g`'s fields as a segment. */
  predicate ContinuesBelow(s: Path, g: Group, t: Path) {
    s < t && !EndsInArray(s, g) && t[|s|] !in g.fields
  }

  /** The paths part somewhere, or one continues below the other, or they are equal and agree on nullability. */
  ghost predicate Separable(g: Group, h: Group) {
    var s, t := Segments(g), Segments(h);
    || Diverge(s, t)
    || ContinuesBelow(s, g, t)
    || ContinuesBelow(t, h, s)
    || (s == t && !EndsInArray(s, g) && !EndsInArray(t, h) && g.nullable == h.nullable)
    || (s == t && EndsInArray(s, g) && EndsInArray(t, h) && FieldRules(g) == FieldRules(h))
  }

  lemma {:induction false} DivergentPathsShareOnlyObjects(g: Group, h: Group, path: Path)
    requires Diverge(Segments(g), Segments(h))
    ensures CompatibleAt(g, h, path)
  {
    var s, t := Segments(g), Segments(h);
    var k :| 0 <= k < |s| && k < |t| && s[k] != t[k];
    if |path| > k {
      assert path[k] == s[k] ==> path[k] != t[k];
    }
  }

  lemma {:induction false} SeparableIsCompatible(g: Group, h: Group, path: Path)
    requires Separable(g, h)
    ensures CompatibleAt(g, h, path)
  {
    if Diverge(Segments(g), Segments(h)) {
      DivergentPathsShareOnlyObjects(g, h, path);
    }
  }

  lemma {:induction false} SeparableGroupsAreConflictFree(groups: seq<Group>)
    requires forall i, j | 0 <= i <= j < |groups| :: Separable(groups[i], groups[j])
    ensures ConflictFree(groups)
  {
    forall g, h, path | g in groups && h in groups ensures CompatibleAt(g, h, path) {
      var i :| 0 <= i < |groups| && groups[i] == g;
      var j :| 0 <= j < |groups| && groups[j] == h;
      SeparableIsCompatible(if i <= j then g else h, if i <= j then h else g, path);
    }
  }

  /**
   The check a build step can make on the registry alone: pairwise separable groups compile to a
   schema that means exactly the conjunction of their rules.
   */
  lemma {:induction false} SeparableGroupsCompileExactly(groups: seq<Group>)
    requires forall i, j | 0 <= i <= j < |groups| :: Separable(groups[i], groups[j])
    ensures MeansAllHold(groups)
  {
    SeparableGroupsAreConflictFree(groups);
    ConflictFreeGroupsFit(groups);
    FittingGroupsCompileExactly(groups);
  }

  /** Order does matter in general: the later of two rules for one field wins. */
  lemma {:induction false} LaterRuleWins()
    ensures var strict, lax := Group("", ["x"], false, false), Group("", ["x"], true, false);
      Accepts(CompiledSchema([strict, lax]), Obj(map["x" := Null])) &&
      !Accepts(CompiledSchema([lax, strict]), Obj(map["x" := Null]))
  {
    var strict, lax := Group("", ["x"], false, false), Group("", ["x"], true, false);
    var fields: map<string, Bson> := map["x" := Null];
    CompiledStep([strict], lax);
    CompiledStep([lax], strict);
    assert [strict] + [lax] == [strict, lax] && [lax] + [strict] == [lax, strict];
    ObjectAccepts(Compile([strict, lax]), Obj(fields));
    ObjectAccepts(Compile([lax, strict]), Obj(fields));
    SingleField(Compile([strict, lax]), "x", Null);
    SingleField(Compile([lax, strict]), "x", Null);
    RuleAccepts(true, Null);
    RuleAccepts(false, Null);
    assert "x" in strict.fields && "x" in lax.fields;
  }
}
