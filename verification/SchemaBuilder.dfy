/**
 The compiler as it runs (jsonSchemaValidators.ts): a cursor walks down nested property maps,
 replacing each entry on its path by a fresh object with a copy of its properties, and then writes.
 */
module SchemaBuilder {
  import opened SchemaCompiler

  /** A JSON object used as a `properties` map. `view` is what it stands for once the build is over. */
  class PropertyMap {
    var entries: map<string, Entry>
    ghost var view: Plan

    constructor (entries: map<string, Entry>, ghost view: Plan)
      ensures this.entries == entries && this.view == view
    {
      this.entries := entries;
      this.view := view;
    }
  }

  datatype Entry =
    | RuleEntry(nullable: bool)
    | ObjectEntry(properties: PropertyMap)
    | ArrayEntry(itemFields: map<string, bool>)

  /** An entry stands for a plan node, its sub-map being another node of the build and not the root. */
  ghost predicate Denotes(e: Entry, node: Node, nodes: set<PropertyMap>, root: PropertyMap)
    reads nodes
  {
    match e
    case RuleEntry(n) => node == RuleNode(n)
    case ArrayEntry(rules) => node == ArrayNode(rules)
    case ObjectEntry(p) => p in nodes && p != root && node == ObjectNode(p.view)
  }

  ghost predicate Stands(entries: map<string, Entry>, plan: Plan, nodes: set<PropertyMap>, root: PropertyMap)
    reads nodes
  {
    entries.Keys == plan.Keys && forall k | k in entries :: Denotes(entries[k], plan[k], nodes, root)
  }

  /** Every map of the build except `cursor` already is what its view says. */
  ghost predicate Consistent(nodes: set<PropertyMap>, root: PropertyMap, cursor: set<PropertyMap>)
    reads nodes
  {
    root in nodes && forall p | p in nodes && p !in cursor :: Stands(p.entries, p.view, nodes, root)
  }

  method BuildCollectionJsonSchema(groups: seq<Group>) returns (root: PropertyMap, ghost nodes: set<PropertyMap>)
    ensures fresh(nodes) && Consistent(nodes, root, {})
    ensures root.view == Compile(groups)
  {
    root := new PropertyMap(map[], map[]);
    nodes := {root};
    for i := 0 to |groups|
      invariant fresh(nodes) && Consistent(nodes, root, {})
      invariant root.view == Compile(groups[..i])
    {
      assert groups[..i + 1][..i] == groups[..i];
      nodes := WriteGroup(root, nodes, groups[i]);
    }
    assert groups[..|groups|] == groups;
  }

  method WriteGroup(root: PropertyMap, ghost nodes: set<PropertyMap>, g: Group) returns (ghost after: set<PropertyMap>)
    requires Consistent(nodes, root, {})
    modifies root
    ensures nodes <= after && fresh(after - nodes) && Consistent(after, root, {})
    ensures root.view == Insert(old(root.view), Segments(g), g)
  {
    if g.prefix == "" {
      AssignFields(root, nodes, g);
      after := nodes;
    } else {
      after := WriteAt(root, nodes, Segments(g), g);
    }
  }

  method AssignFields(root: PropertyMap, ghost nodes: set<PropertyMap>, g: Group)
    requires Consistent(nodes, root, {})
    modifies root
    ensures Consistent(nodes, root, {})
    ensures root.view == Insert(old(root.view), [], g)
  {
    assert Stands(root.entries, root.view, nodes, root);
    root.entries := root.entries + RuleEntries(g);
    root.view := Insert(root.view, [], g);
    forall p | p in nodes && p != root ensures Stands(p.entries, p.view, nodes, root) {
      assert old(Stands(p.entries, p.view, nodes, root));
    }
  }

  method WriteAt(root: PropertyMap, ghost nodes: set<PropertyMap>, segments: seq<string>, g: Group)
    returns (ghost after: set<PropertyMap>)
    requires segments != [] && Consistent(nodes, root, {})
    modifies root
    ensures nodes <= after && fresh(after - nodes) && Consistent(after, root, {})
    ensures root.view == Insert(old(root.view), segments, g)
  {
    after := nodes;
    var cursor := root;
    // What the cursor's map stands for right now; its `view` is already what it will stand for.
    ghost var current := root.view;
    assert Stands(root.entries, current, nodes - {root}, root) by { assert Stands(root.entries, current, nodes, root); }
    root.view := Insert(root.view, segments, g);
    assert Stands(root.entries, current, nodes - {root}, root);
    forall p | p in nodes && p != root ensures Stands(p.entries, p.view, nodes, root) {
      assert old(Stands(p.entries, p.view, nodes, root));
    }
    for i := 0 to |segments|
      invariant nodes <= after && fresh(after - nodes) && cursor in after && (cursor == root || fresh(cursor))
      invariant root.view == Insert(old(root.view), segments, g)
      invariant Consistent(after, root, if i < |segments| then {cursor} else {})
      invariant i < |segments| ==> Stands(cursor.entries, current, after - {cursor}, root)
      invariant i < |segments| ==> cursor.view == Insert(current, segments[i..], g)
    {
      var segment := segments[i];
      var isLast := i == |segments| - 1;
      assert segments[i..][0] == segment && segments[i..][1..] == segments[i + 1..];
      if isLast && g.isArray {
        PutArray(root, cursor, after, current, segment, g);
      } else {
        var next := ReplaceEntry(root, cursor, after, current, segment, segments[i + 1..], g);
        after := after + {next};
        if !isLast {
          cursor, current := next, Existing(current, segment);
        }
      }
    }
  }

  method PutArray(root: PropertyMap, cursor: PropertyMap, ghost nodes: set<PropertyMap>, ghost current: Plan,
                  segment: string, g: Group)
    requires cursor in nodes && Consistent(nodes, root, {cursor}) && Stands(cursor.entries, current, nodes - {cursor}, root)
    requires cursor.view == current[segment := ArrayNode(FieldRules(g))]
    modifies cursor
    ensures cursor.view == old(cursor.view)
    ensures Consistent(nodes, root, {})
  {
    cursor.entries := cursor.entries[segment := ArrayEntry(FieldRules(g))];
    assert Stands(cursor.entries, cursor.view, nodes, root);
    forall p | p in nodes && p != cursor ensures Stands(p.entries, p.view, nodes, root) {
      assert old(Stands(p.entries, p.view, nodes, root));
    }
  }

  /** Every map of the build still stands for its view when another node is added. */
  lemma {:induction false} StandsWithMore(entries: map<string, Entry>, plan: Plan, nodes: set<PropertyMap>, more: set<PropertyMap>, root: PropertyMap)
    requires Stands(entries, plan, nodes, root) && nodes <= more
    ensures Stands(entries, plan, more, root)
  {
  }

  /** A new map with a copy of the properties at `segment`, and the fields if the path ends there. */
  method CopyProperties(root: PropertyMap, cursor: PropertyMap, ghost nodes: set<PropertyMap>, ghost current: Plan,
                        segment: string, rest: seq<string>, g: Group) returns (next: PropertyMap)
    requires cursor in nodes && Consistent(nodes, root, {cursor}) && Stands(cursor.entries, current, nodes - {cursor}, root)
    ensures fresh(next) && next.view == Insert(Existing(current, segment), rest, g)
    ensures Stands(next.entries, if rest == [] then next.view else Existing(current, segment), nodes, root)
  {
    var existing: map<string, Entry> := map[];
    if segment in cursor.entries && cursor.entries[segment].ObjectEntry? {
      existing := cursor.entries[segment].properties.entries;
    }
    ghost var plan := Existing(current, segment);
    assert Stands(existing, plan, nodes, root);
    next := new PropertyMap(if rest == [] then existing + RuleEntries(g) else existing, Insert(plan, rest, g));
    assert Stands(existing, plan, nodes, root);
  }

  /** Puts a new object at `segment`, with a copy of the properties there, and the fields if it is the last. */
  method ReplaceEntry(root: PropertyMap, cursor: PropertyMap, ghost nodes: set<PropertyMap>, ghost current: Plan,
                      segment: string, rest: seq<string>, g: Group) returns (next: PropertyMap)
    requires cursor in nodes && Consistent(nodes, root, {cursor}) && Stands(cursor.entries, current, nodes - {cursor}, root)
    requires cursor.view == current[segment := ObjectNode(Insert(Existing(current, segment), rest, g))]
    modifies cursor
    ensures fresh(next) && cursor.view == old(cursor.view)
    ensures next.view == Insert(Existing(current, segment), rest, g)
    ensures Consistent(nodes + {next}, root, if rest == [] then {} else {next})
    ensures rest != [] ==> Stands(next.entries, Existing(current, segment), nodes, root)
  {
    next := CopyProperties(root, cursor, nodes, current, segment, rest, g);
    ghost var more, plan := nodes + {next}, if rest == [] then next.view else Existing(current, segment);
    label before:
    cursor.entries := cursor.entries[segment := ObjectEntry(next)];
    assert Stands(next.entries, plan, nodes, root) by { assert old@before(Stands(next.entries, plan, nodes, root)); }
    StandsWithMore(next.entries, plan, nodes, more, root);
    assert Stands(cursor.entries, cursor.view, more, root);
    forall p | p in nodes && p != cursor ensures Stands(p.entries, p.view, more, root) {
      assert old(Stands(p.entries, p.view, nodes, root));
      assert Stands(p.entries, p.view, nodes, root);
      StandsWithMore(p.entries, p.view, nodes, more, root);
    }
  }

  function RuleEntries(g: Group): map<string, Entry> {
    map f | f in g.fields :: RuleEntry(g.nullable)
  }
}
