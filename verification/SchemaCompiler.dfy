/**
 The compiler from flat dotted-path rules to a nested `$jsonSchema` (jsonSchemaValidators.ts), as a
 function on property maps, and what its output accepts.
 */
module SchemaCompiler {
  import opened Wrappers
  import opened JsonSchema
  import Text

  /** `nullable` and `isArray` default to false when absent. */
  datatype Group = Group(prefix: string, fields: seq<string>, nullable: bool, isArray: bool)

  /** The three kinds of entry the compiler puts in a `properties` map. */
  datatype Node =
    | RuleNode(nullable: bool)
    | ObjectNode(properties: map<string, Node>)
    | ArrayNode(itemFields: map<string, bool>)

  type Plan = map<string, Node>

  function MinorFieldRule(nullable: bool): Schema {
    Schema({IntType, LongType, DoubleType} + (if nullable then {NullType} else {}), Some(1), None, None)
  }

  /** The JSON an entry is printed as. */
  function Render(node: Node): Schema {
    match node
    case RuleNode(nullable) => MinorFieldRule(nullable)
    case ObjectNode(properties) =>
      Schema({ObjectType}, None, Some(map k | k in properties :: Render(properties[k])), None)
    case ArrayNode(itemFields) =>
      Schema({ArrayType}, None, None,
        Some(Schema({ObjectType}, None, Some(map k | k in itemFields :: MinorFieldRule(itemFields[k])), None)))
  }

  // ----- the compiler

  function FieldRules(g: Group): map<string, bool> {
    map f | f in g.fields :: g.nullable
  }

  function RuleNodes(g: Group): Plan {
    map f | f in g.fields :: RuleNode(g.nullable)
  }

  /** The `properties` of the entry at `segment`, empty when there is no entry or it has none. */
  function Existing(plan: Plan, segment: string): Plan {
    if segment in plan && plan[segment].ObjectNode? then plan[segment].properties else map[]
  }

  /** What writing group `g` at `segments` does to a property map. */
  function Insert(plan: Plan, segments: seq<string>, g: Group): Plan
    decreases |segments|
  {
    if segments == [] then plan + RuleNodes(g)
    else if |segments| == 1 && g.isArray then plan[segments[0] := ArrayNode(FieldRules(g))]
    else plan[segments[0] := ObjectNode(Insert(Existing(plan, segments[0]), segments[1..], g))]
  }

  /** The empty prefix addresses the root itself, whatever `isArray` says. */
  function Segments(g: Group): seq<string> {
    if g.prefix == "" then [] else Text.Split(g.prefix, '.')
  }

  function Compile(groups: seq<Group>): Plan {
    if groups == [] then map[]
    else
      var last := groups[|groups| - 1];
      Insert(Compile(groups[..|groups| - 1]), Segments(last), last)
  }

  function CompiledSchema(groups: seq<Group>): Schema {
    Render(ObjectNode(Compile(groups)))
  }

  // ----- what a group demands of a document, read off the rule itself

  predicate IsIntegral(v: Bson) {
    match v
    case Int(_) => true
    case Long(_) => true
    case Double(x) => x == x.Floor as real
    case _ => false
  }

  predicate FieldOk(v: Bson, nullable: bool) {
    IsIntegral(v) || (nullable && v.Null?)
  }

  predicate FieldsOk(fields: map<string, Bson>, g: Group) {
    forall f | f in g.fields && f in fields :: FieldOk(fields[f], g.nullable)
  }

  /**
   Each segment of the path is absent or an object, the last one an array of objects for an array
   group, and each field below it is absent, integral, or null when the group is nullable.
   */
  predicate Holds(fields: map<string, Bson>, segments: seq<string>, g: Group)
    decreases |segments|
  {
    if segments == [] then FieldsOk(fields, g)
    else if segments[0] !in fields then true
    else
      var v := fields[segments[0]];
      if |segments| == 1 && g.isArray then
        v.Arr? && forall i | 0 <= i < |v.elements| :: v.elements[i].Obj? && FieldsOk(v.elements[i].fields, g)
      else
        v.Obj? && Holds(v.fields, segments[1..], g)
  }

  ghost predicate AllHold(groups: seq<Group>, doc: Bson) {
    doc.Obj? && forall i | 0 <= i < |groups| :: Holds(doc.fields, Segments(groups[i]), groups[i])
  }

  // ----- what the schema keywords make of each kind of entry

  ghost predicate PlanAccepts(plan: Plan, fields: map<string, Bson>) {
    forall k | k in plan && k in fields :: Accepts(Render(plan[k]), fields[k])
  }

  lemma {:induction false} RuleAccepts(nullable: bool, v: Bson)
    ensures Accepts(Render(RuleNode(nullable)), v) <==> FieldOk(v, nullable)
  {
  }

  lemma {:induction false} ObjectAccepts(plan: Plan, v: Bson)
    ensures Accepts(Render(ObjectNode(plan)), v) <==> v.Obj? && PlanAccepts(plan, v.fields)
  {
    var s := Render(ObjectNode(plan));
    if v.Obj? {
      assert forall k | k in plan :: s.properties.value[k] == Render(plan[k]);
    }
  }

  predicate RulesOk(rules: map<string, bool>, fields: map<string, Bson>) {
    forall f | f in rules && f in fields :: FieldOk(fields[f], rules[f])
  }

  lemma {:induction false} ItemAccepts(rules: map<string, bool>, v: Bson)
    ensures Accepts(Render(ArrayNode(rules)).items.value, v) <==> v.Obj? && RulesOk(rules, v.fields)
  {
    var s := Render(ArrayNode(rules)).items.value;
    if v.Obj? {
      assert forall k | k in rules :: s.properties.value[k] == Render(RuleNode(rules[k]));
      forall f | f in rules && f in v.fields
        ensures Accepts(s.properties.value[f], v.fields[f]) <==> FieldOk(v.fields[f], rules[f])
      {
        RuleAccepts(rules[f], v.fields[f]);
      }
    }
  }

  lemma {:induction false} ArrayAccepts(rules: map<string, bool>, v: Bson)
    ensures Accepts(Render(ArrayNode(rules)), v) <==>
      v.Arr? && forall i | 0 <= i < |v.elements| :: v.elements[i].Obj? && RulesOk(rules, v.elements[i].fields)
  {
    if v.Arr? {
      forall i | 0 <= i < |v.elements|
        ensures Accepts(Render(ArrayNode(rules)).items.value, v.elements[i])
          <==> v.elements[i].Obj? && RulesOk(rules, v.elements[i].fields)
      {
        ItemAccepts(rules, v.elements[i]);
      }
    }
  }

  // ----- when one insertion is exact

  /**
   Nothing already compiled is lost by writing `g` at `segments`: every entry met on the way is absent
   or an object; at the end, an array is written over nothing or over an array it subsumes, and a field
   over nothing or over a rule that is not stricter.
   */
  predicate Fits(plan: Plan, segments: seq<string>, g: Group)
    decreases |segments|
  {
    if segments == [] then
      forall f | f in g.fields && f in plan :: plan[f].RuleNode? && (g.nullable ==> plan[f].nullable)
    else if segments[0] !in plan then true
    else
      var existing := plan[segments[0]];
      if |segments| == 1 && g.isArray then
        existing.ArrayNode? && Subsumes(existing.itemFields, g)
      else
        existing.ObjectNode? && Fits(existing.properties, segments[1..], g)
  }

  predicate Subsumes(rules: map<string, bool>, g: Group) {
    forall f | f in rules :: f in g.fields && (g.nullable ==> rules[f])
  }

  lemma {:induction false} EmptyPlanFits(segments: seq<string>, g: Group)
    ensures Fits(map[], segments, g)
  {
  }

  /** What the plan after the insertion accepts is the plan before, and the group's own demand. */
  ghost predicate ExactOn(plan: Plan, segments: seq<string>, g: Group, fields: map<string, Bson>) {
    PlanAccepts(Insert(plan, segments, g), fields) <==> PlanAccepts(plan, fields) && Holds(fields, segments, g)
  }

  /** A plan differing in one entry accepts the same except for that entry. */
  lemma {:induction false} ReplaceEntry(plan: Plan, segment: string, node: Node, fields: map<string, Bson>)
    ensures PlanAccepts(plan[segment := node], fields) <==>
      (forall k | k in plan && k in fields && k != segment :: Accepts(Render(plan[k]), fields[k]))
      && (segment in fields ==> Accepts(Render(node), fields[segment]))
    ensures PlanAccepts(plan, fields) <==>
      (forall k | k in plan && k in fields && k != segment :: Accepts(Render(plan[k]), fields[k]))
      && (segment in fields && segment in plan ==> Accepts(Render(plan[segment]), fields[segment]))
  {
    var next := plan[segment := node];
    if PlanAccepts(next, fields) {
      forall k | k in plan && k in fields && k != segment ensures Accepts(Render(plan[k]), fields[k]) {
        assert k in next && next[k] == plan[k];
      }
      assert segment in next && next[segment] == node;
    }
  }

  lemma {:induction false} FittingFieldsAreExact(plan: Plan, g: Group, fields: map<string, Bson>)
    requires Fits(plan, [], g)
    ensures ExactOn(plan, [], g, fields)
  {
    var next := Insert(plan, [], g);
    forall f | f in g.fields ensures f in next && next[f] == RuleNode(g.nullable) {}
    forall k | k in fields && k in next
      ensures Accepts(Render(next[k]), fields[k]) <==>
        (k in plan ==> Accepts(Render(plan[k]), fields[k])) && (k in g.fields ==> FieldOk(fields[k], g.nullable))
    {
      RuleAccepts(g.nullable, fields[k]);
      if k in g.fields && k in plan {
        RuleAccepts(plan[k].nullable, fields[k]);
      }
    }
    if PlanAccepts(next, fields) {
      forall k | k in plan && k in fields ensures Accepts(Render(plan[k]), fields[k]) { assert k in next; }
      forall f | f in g.fields && f in fields ensures FieldOk(fields[f], g.nullable) { assert f in next; }
    }
  }

  lemma {:induction false} FittingArrayIsExact(plan: Plan, segment: string, g: Group, fields: map<string, Bson>)
    requires g.isArray && Fits(plan, [segment], g)
    ensures ExactOn(plan, [segment], g, fields)
  {
    ReplaceEntry(plan, segment, ArrayNode(FieldRules(g)), fields);
    if segment in fields {
      ArrayAccepts(FieldRules(g), fields[segment]);
      ArrayDemand(g, fields, segment);
      if segment in plan {
        ArrayAccepts(plan[segment].itemFields, fields[segment]);
        var v := fields[segment];
        if v.Arr? {
          forall i | 0 <= i < |v.elements| && v.elements[i].Obj? && RulesOk(FieldRules(g), v.elements[i].fields)
            ensures RulesOk(plan[segment].itemFields, v.elements[i].fields)
          {
          }
        }
      }
    }
  }

  lemma {:induction false} ArrayDemand(g: Group, fields: map<string, Bson>, segment: string)
    requires g.isArray && segment in fields
    ensures Holds(fields, [segment], g) <==> var v := fields[segment];
      v.Arr? && forall i | 0 <= i < |v.elements| :: v.elements[i].Obj? && RulesOk(FieldRules(g), v.elements[i].fields)
  {
    var v := fields[segment];
    if v.Arr? {
      forall i | 0 <= i < |v.elements| && v.elements[i].Obj?
        ensures FieldsOk(v.elements[i].fields, g) <==> RulesOk(FieldRules(g), v.elements[i].fields)
      {
      }
    }
  }

  lemma {:induction false} FittingInsertIsExact(plan: Plan, segments: seq<string>, g: Group, fields: map<string, Bson>)
    requires Fits(plan, segments, g)
    ensures ExactOn(plan, segments, g, fields)
    decreases |segments|
  {
    if segments == [] {
      FittingFieldsAreExact(plan, g, fields);
    } else if |segments| == 1 && g.isArray {
      assert segments == [segments[0]];
      FittingArrayIsExact(plan, segments[0], g, fields);
    } else {
      var segment, existing := segments[0], Existing(plan, segments[0]);
      EmptyPlanFits(segments[1..], g);
      var inner := Insert(existing, segments[1..], g);
      ReplaceEntry(plan, segment, ObjectNode(inner), fields);
      if segment in fields {
        ObjectAccepts(inner, fields[segment]);
        ObjectAccepts(existing, fields[segment]);
        if fields[segment].Obj? {
          FittingInsertIsExact(existing, segments[1..], g, fields[segment].fields);
        }
      }
    }
  }

  // ----- a document on which a non-fitting insertion is wrong

  lemma {:induction false} SingleField(plan: Plan, k: string, v: Bson)
    ensures PlanAccepts(plan, map[k := v]) <==> (k in plan ==> Accepts(Render(plan[k]), v))
  {
  }

  lemma {:induction false} LostField(plan: Plan, g: Group) returns (fields: map<string, Bson>)
    requires !Fits(plan, [], g)
    ensures PlanAccepts(Insert(plan, [], g), fields) && !PlanAccepts(plan, fields)
  {
    var f :| f in g.fields && f in plan && !(plan[f].RuleNode? && (g.nullable ==> plan[f].nullable));
    var v := if plan[f].RuleNode? then Null else Int(0);
    fields := map[f := v];
    SingleField(plan, f, v);
    SingleField(Insert(plan, [], g), f, v);
    RuleAccepts(g.nullable, v);
    match plan[f] {
      case RuleNode(n) => RuleAccepts(n, v);
      case ObjectNode(p) => ObjectAccepts(p, v);
      case ArrayNode(r) => ArrayAccepts(r, v);
    }
  }

  lemma {:induction false} LostArray(plan: Plan, segment: string, g: Group) returns (fields: map<string, Bson>)
    requires g.isArray && !Fits(plan, [segment], g)
    ensures PlanAccepts(Insert(plan, [segment], g), fields) && !PlanAccepts(plan, fields)
  {
    var existing := plan[segment];
    var v := Arr([]);
    if existing.ArrayNode? {
      var f :| f in existing.itemFields && !(f in g.fields && (g.nullable ==> existing.itemFields[f]));
      var item := Obj(map[f := if f in g.fields then Null else Text("")]);
      v := Arr([item]);
      assert !RulesOk(existing.itemFields, item.fields);
      assert !RulesOk(existing.itemFields, v.elements[0].fields);
      assert RulesOk(FieldRules(g), item.fields);
    }
    fields := map[segment := v];
    SingleField(plan, segment, v);
    SingleField(Insert(plan, [segment], g), segment, v);
    ArrayAccepts(FieldRules(g), v);
    match existing {
      case RuleNode(n) => RuleAccepts(n, v);
      case ObjectNode(p) => ObjectAccepts(p, v);
      case ArrayNode(r) => ArrayAccepts(r, v);
    }
  }

  lemma {:induction false} LosingInsertIsWrong(plan: Plan, segments: seq<string>, g: Group) returns (fields: map<string, Bson>)
    requires !Fits(plan, segments, g)
    ensures PlanAccepts(Insert(plan, segments, g), fields) && !PlanAccepts(plan, fields)
    decreases |segments|
  {
    if segments == [] {
      fields := LostField(plan, g);
    } else if |segments| == 1 && g.isArray {
      assert segments == [segments[0]];
      fields := LostArray(plan, segments[0], g);
    } else {
      var segment, existing := segments[0], plan[segments[0]];
      var inner := Insert(Existing(plan, segment), segments[1..], g);
      var sub: map<string, Bson> := map[];
      if existing.ObjectNode? {
        sub := LosingInsertIsWrong(existing.properties, segments[1..], g);
      }
      fields := map[segment := Obj(sub)];
      SingleField(plan, segment, Obj(sub));
      SingleField(Insert(plan, segments, g), segment, Obj(sub));
      ObjectAccepts(inner, Obj(sub));
      match existing {
        case RuleNode(n) => RuleAccepts(n, Obj(sub));
        case ObjectNode(p) => ObjectAccepts(p, Obj(sub));
        case ArrayNode(r) => ArrayAccepts(r, Obj(sub));
      }
    }
  }

  /** An insertion keeps exactly the old demands and adds the group's own if and only if it fits. */
  lemma {:induction false} InsertIsExactIffItFits(plan: Plan, segments: seq<string>, g: Group)
    ensures Fits(plan, segments, g) <==> forall fields :: ExactOn(plan, segments, g, fields)
  {
    if Fits(plan, segments, g) {
      forall fields ensures ExactOn(plan, segments, g, fields) {
        FittingInsertIsExact(plan, segments, g, fields);
      }
    } else {
      var fields := LosingInsertIsWrong(plan, segments, g);
      assert !ExactOn(plan, segments, g, fields);
    }
  }

  // ----- the whole list of groups

  /** Every group fits what the groups before it compiled to. */
  ghost predicate AllFit(groups: seq<Group>) {
    forall i | 0 <= i < |groups| :: Fits(Compile(groups[..i]), Segments(groups[i]), groups[i])
  }

  ghost predicate MeansAllHold(groups: seq<Group>) {
    forall doc: Bson :: Accepts(CompiledSchema(groups), doc) <==> AllHold(groups, doc)
  }

  lemma {:induction false} CompiledStep(groups: seq<Group>, g: Group)
    ensures Compile(groups + [g]) == Insert(Compile(groups), Segments(g), g)
    ensures forall doc: Bson :: AllHold(groups + [g], doc) <==> AllHold(groups, doc) && Holds(doc.fields, Segments(g), g)
  {
    assert (groups + [g])[..|groups|] == groups;
    forall doc: Bson | doc.Obj?
      ensures AllHold(groups + [g], doc) <==> AllHold(groups, doc) && Holds(doc.fields, Segments(g), g)
    {
      assert forall i | 0 <= i < |groups| :: (groups + [g])[i] == groups[i];
      assert (groups + [g])[|groups|] == g;
    }
  }

  lemma {:induction false} AllFitPrefix(groups: seq<Group>, n: nat)
    requires AllFit(groups) && n <= |groups|
    ensures AllFit(groups[..n])
  {
    forall i | 0 <= i < n ensures Fits(Compile(groups[..n][..i]), Segments(groups[..n][i]), groups[..n][i]) {
      assert groups[..n][..i] == groups[..i];
    }
  }

  lemma {:induction false} FittingGroupIsAdded(front: seq<Group>, g: Group)
    requires MeansAllHold(front) && Fits(Compile(front), Segments(g), g)
    ensures MeansAllHold(front + [g])
  {
    var groups := front + [g];
    CompiledStep(front, g);
    forall doc: Bson ensures Accepts(CompiledSchema(groups), doc) <==> AllHold(groups, doc) {
      assert Accepts(CompiledSchema(front), doc) <==> AllHold(front, doc);
      ObjectAccepts(Compile(groups), doc);
      ObjectAccepts(Compile(front), doc);
      if doc.Obj? {
        FittingInsertIsExact(Compile(front), Segments(g), g, doc.fields);
      }
    }
  }

  lemma {:induction false} LastFits(groups: seq<Group>)
    requires AllFit(groups) && groups != []
    ensures var n := |groups| - 1;
      AllFit(groups[..n]) && Fits(Compile(groups[..n]), Segments(groups[n]), groups[n])
  {
    AllFitPrefix(groups, |groups| - 1);
  }

  lemma {:induction false} NoGroups()
    ensures MeansAllHold([])
  {
    forall doc: Bson ensures Accepts(CompiledSchema([]), doc) <==> AllHold([], doc) { ObjectAccepts(map[], doc); }
  }

  lemma {:induction false} SplitLast(groups: seq<Group>)
    requires groups != []
    ensures groups == groups[..|groups| - 1] + [groups[|groups| - 1]]
  {
  }

  /** The compiled schema means the conjunction of the groups when every group fits. */
  lemma {:induction false} FittingGroupsCompileExactly(groups: seq<Group>)
    requires AllFit(groups)
    ensures MeansAllHold(groups)
  {
    if groups == [] {
      NoGroups();
    } else {
      LastFits(groups);
      FittingGroupsCompileExactly(groups[..|groups| - 1]);
      FittingGroupIsAdded(groups[..|groups| - 1], groups[|groups| - 1]);
      SplitLast(groups);
    }
  }

  lemma {:induction false} MisfitIsWrong(before: seq<Group>, g: Group) returns (doc: Bson)
    requires !Fits(Compile(before), Segments(g), g)
    ensures Accepts(CompiledSchema(before + [g]), doc) && !Accepts(CompiledSchema(before), doc)
  {
    var fields := LosingInsertIsWrong(Compile(before), Segments(g), g);
    doc := Obj(fields);
    CompiledStep(before, g);
    ObjectAccepts(Compile(before), doc);
    ObjectAccepts(Compile(before + [g]), doc);
  }

  /** Compilation of every initial part of the list preserves meaning if and only if every group fits. */
  lemma {:induction false} CompilationIsExactIffAllFit(groups: seq<Group>)
    ensures AllFit(groups) <==> forall n | 0 <= n <= |groups| :: MeansAllHold(groups[..n])
  {
    if AllFit(groups) {
      forall n | 0 <= n <= |groups| ensures MeansAllHold(groups[..n]) {
        AllFitPrefix(groups, n);
        FittingGroupsCompileExactly(groups[..n]);
      }
    }
    if forall n | 0 <= n <= |groups| :: MeansAllHold(groups[..n]) {
      forall i | 0 <= i < |groups| ensures Fits(Compile(groups[..i]), Segments(groups[i]), groups[i]) {
        ExactPrefixesFit(groups, i);
      }
    }
  }

  lemma {:induction false} ExactPrefixesFit(groups: seq<Group>, i: nat)
    requires i < |groups| && MeansAllHold(groups[..i]) && MeansAllHold(groups[..i + 1])
    ensures Fits(Compile(groups[..i]), Segments(groups[i]), groups[i])
  {
    var before, g := groups[..i], groups[i];
    assert groups[..i + 1] == before + [g];
    CompiledStep(before, g);
    if !Fits(Compile(before), Segments(g), g) {
      var doc := MisfitIsWrong(before, g);
    }
  }

  // ----- the finished schema

  /** The compiled schema is never too strict, whatever the groups: it accepts what meets every demand. */
  lemma {:induction false} InsertIsNeverTooStrict(plan: Plan, segments: seq<string>, g: Group, fields: map<string, Bson>)
    requires PlanAccepts(plan, fields) && Holds(fields, segments, g)
    ensures PlanAccepts(Insert(plan, segments, g), fields)
    decreases |segments|
  {
    if segments == [] {
      forall k | k in g.fields && k in fields ensures Accepts(Render(RuleNode(g.nullable)), fields[k]) {
        RuleAccepts(g.nullable, fields[k]);
      }
    } else {
      var segment, existing := segments[0], Existing(plan, segments[0]);
      if |segments| == 1 && g.isArray {
        assert segments == [segment];
        ReplaceEntry(plan, segment, ArrayNode(FieldRules(g)), fields);
        if segment in fields {
          ArrayDemand(g, fields, segment);
          ArrayAccepts(FieldRules(g), fields[segment]);
        }
      } else {
        ReplaceEntry(plan, segment, ObjectNode(Insert(existing, segments[1..], g)), fields);
        if segment in fields {
          ObjectAccepts(existing, fields[segment]);
          InsertIsNeverTooStrict(existing, segments[1..], g, fields[segment].fields);
          ObjectAccepts(Insert(existing, segments[1..], g), fields[segment]);
        }
      }
    }
  }

  lemma {:induction false} CompiledIsNeverTooStrict(groups: seq<Group>, doc: Bson)
    requires AllHold(groups, doc)
    ensures Accepts(CompiledSchema(groups), doc)
  {
    ObjectAccepts(Compile(groups), doc);
    if groups != [] {
      var n := |groups| - 1;
      assert groups == groups[..n] + [groups[n]];
      CompiledStep(groups[..n], groups[n]);
      CompiledIsNeverTooStrict(groups[..n], doc);
      ObjectAccepts(Compile(groups[..n]), doc);
      InsertIsNeverTooStrict(Compile(groups[..n]), Segments(groups[n]), groups[n], doc.fields);
    }
  }

  /** The finished plan still carries all of group `g`: its path, and each of its fields at least as strict. */
  predicate Retained(plan: Plan, segments: seq<string>, g: Group)
    decreases |segments|
  {
    if segments == [] then
      forall f | f in g.fields :: f in plan && plan[f].RuleNode? && (plan[f].nullable ==> g.nullable)
    else
      && segments[0] in plan
      && var entry := plan[segments[0]];
         if |segments| == 1 && g.isArray then
           entry.ArrayNode? && forall f | f in g.fields :: f in entry.itemFields && (entry.itemFields[f] ==> g.nullable)
         else
           entry.ObjectNode? && Retained(entry.properties, segments[1..], g)
  }

  lemma {:induction false} RetainedIsEnforced(plan: Plan, segments: seq<string>, g: Group, fields: map<string, Bson>)
    requires Retained(plan, segments, g) && PlanAccepts(plan, fields)
    ensures Holds(fields, segments, g)
    decreases |segments|
  {
    if segments == [] {
      forall f | f in g.fields && f in fields ensures FieldOk(fields[f], g.nullable) {
        RuleAccepts(plan[f].nullable, fields[f]);
      }
    } else if segments[0] in fields {
      var entry, v := plan[segments[0]], fields[segments[0]];
      if |segments| == 1 && g.isArray {
        ArrayAccepts(entry.itemFields, v);
      } else {
        ObjectAccepts(entry.properties, v);
        RetainedIsEnforced(entry.properties, segments[1..], g, v.fields);
      }
    }
  }

  /** A value an entry accepts that is no object, respectively no array. */
  function NonObject(node: Node): Bson {
    match node
    case RuleNode(_) => Int(0)
    case ObjectNode(_) => Text("")
    case ArrayNode(_) => Arr([])
  }

  function NonArray(node: Node): Bson {
    match node
    case RuleNode(_) => Int(0)
    case ObjectNode(_) => Obj(map[])
    case ArrayNode(_) => Text("")
  }

  lemma {:induction false} AcceptedMisfits(node: Node)
    ensures !node.ObjectNode? ==> Accepts(Render(node), NonObject(node))
    ensures !node.ArrayNode? ==> Accepts(Render(node), NonArray(node))
  {
    match node
    case RuleNode(n) => RuleAccepts(n, Int(0));
    case ObjectNode(p) => ObjectAccepts(p, Obj(map[]));
    case ArrayNode(r) => ArrayAccepts(r, Arr([]));
  }

  lemma {:induction false} UnretainedField(plan: Plan, g: Group) returns (fields: map<string, Bson>)
    requires !Retained(plan, [], g)
    ensures PlanAccepts(plan, fields) && !Holds(fields, [], g)
  {
    var f :| f in g.fields && !(f in plan && plan[f].RuleNode? && (plan[f].nullable ==> g.nullable));
    var v := if f !in plan then Text("") else if plan[f].RuleNode? then Null
      else if plan[f].ObjectNode? then Obj(map[]) else Arr([]);
    fields := map[f := v];
    SingleField(plan, f, v);
    if f in plan {
      match plan[f] {
        case RuleNode(n) => RuleAccepts(n, v);
        case ObjectNode(p) => ObjectAccepts(p, v);
        case ArrayNode(r) => ArrayAccepts(r, v);
      }
    }
    assert f in fields && !FieldOk(fields[f], g.nullable);
  }

  lemma {:induction false} UnretainedArray(plan: Plan, segment: string, g: Group) returns (fields: map<string, Bson>)
    requires g.isArray && !Retained(plan, [segment], g)
    ensures PlanAccepts(plan, fields) && !Holds(fields, [segment], g)
  {
    var v := Text("");
    if segment in plan {
      AcceptedMisfits(plan[segment]);
      v := NonArray(plan[segment]);
      if plan[segment].ArrayNode? {
        var rules := plan[segment].itemFields;
        var f :| f in g.fields && !(f in rules && (rules[f] ==> g.nullable));
        var item := map[f := if f in rules then Null else Text("")];
        v := Arr([Obj(item)]);
        assert f in item && !FieldOk(item[f], g.nullable);
        assert v.elements[0] == Obj(item) && !FieldsOk(item, g);
        assert RulesOk(rules, item);
        ArrayAccepts(rules, v);
      }
    }
    fields := map[segment := v];
    SingleField(plan, segment, v);
  }

  lemma {:induction false} UnretainedIsNotEnforced(plan: Plan, segments: seq<string>, g: Group) returns (fields: map<string, Bson>)
    requires !Retained(plan, segments, g)
    ensures PlanAccepts(plan, fields) && !Holds(fields, segments, g)
    decreases |segments|
  {
    if segments == [] {
      fields := UnretainedField(plan, g);
    } else if |segments| == 1 && g.isArray {
      assert segments == [segments[0]];
      fields := UnretainedArray(plan, segments[0], g);
    } else {
      var segment, v := segments[0], Text("");
      if segment in plan {
        if plan[segment].ObjectNode? {
          var sub := UnretainedIsNotEnforced(plan[segment].properties, segments[1..], g);
          v := Obj(sub);
          ObjectAccepts(plan[segment].properties, v);
        } else {
          AcceptedMisfits(plan[segment]);
          v := NonObject(plan[segment]);
        }
      }
      fields := map[segment := v];
      SingleField(plan, segment, v);
    }
  }

  lemma {:induction false} UnretainedGroupIsWrong(groups: seq<Group>, i: nat) returns (doc: Bson)
    requires i < |groups| && !Retained(Compile(groups), Segments(groups[i]), groups[i])
    ensures Accepts(CompiledSchema(groups), doc) && !AllHold(groups, doc)
  {
    var fields := UnretainedIsNotEnforced(Compile(groups), Segments(groups[i]), groups[i]);
    doc := Obj(fields);
    ObjectAccepts(Compile(groups), doc);
  }

  /**
   The finished schema means the conjunction of all groups if and only if each group is still
   retained in it, something a build step can check on the compiled output.
   */
  lemma {:induction false} SchemaIsExactIffAllRetained(groups: seq<Group>)
    ensures MeansAllHold(groups) <==>
      forall i | 0 <= i < |groups| :: Retained(Compile(groups), Segments(groups[i]), groups[i])
  {
    if MeansAllHold(groups) {
      forall i | 0 <= i < |groups| ensures Retained(Compile(groups), Segments(groups[i]), groups[i]) {
        if !Retained(Compile(groups), Segments(groups[i]), groups[i]) {
          var doc := UnretainedGroupIsWrong(groups, i);
        }
      }
    }
    if forall i | 0 <= i < |groups| :: Retained(Compile(groups), Segments(groups[i]), groups[i]) {
      forall doc: Bson ensures Accepts(CompiledSchema(groups), doc) <==> AllHold(groups, doc) {
        RetainedGroupsAreEnforced(groups, doc);
      }
    }
  }

  lemma {:induction false} RetainedGroupsAreEnforced(groups: seq<Group>, doc: Bson)
    requires forall i | 0 <= i < |groups| :: Retained(Compile(groups), Segments(groups[i]), groups[i])
    ensures Accepts(CompiledSchema(groups), doc) <==> AllHold(groups, doc)
  {
    ObjectAccepts(Compile(groups), doc);
    if Accepts(CompiledSchema(groups), doc) {
      forall i | 0 <= i < |groups| ensures Holds(doc.fields, Segments(groups[i]), groups[i]) {
        RetainedIsEnforced(Compile(groups), Segments(groups[i]), groups[i], doc.fields);
      }
    }
    if AllHold(groups, doc) {
      CompiledIsNeverTooStrict(groups, doc);
    }
  }
}
