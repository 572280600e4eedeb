/**
 Exactly which group lists compile to a schema that means all of their rules (jsonSchemaValidators.ts): those
 in which, at every path a group wants something, the last group to touch that path suits it. The condition
 is on the list of groups alone.
 */
module SchemaLastWriter {
  import opened Wrappers
  import opened SchemaCompiler
  import opened SchemaConflicts

  /** What a path of the schema holds. */
  datatype Kind = Nothing | RuleKind(nullable: bool) | ObjectKind | ArrayKind(rules: map<string, bool>)

  /** `g` puts an array or a rule above `path`, which hides whatever was there. */
  predicate Buries(segments: Path, g: Group, path: Path) {
    if EndsInArray(segments, g) then segments < path
    else |path| > |segments| + 1 && segments <= path && path[|segments|] in g.fields
  }

  predicate Touches(segments: Path, g: Group, path: Path) {
    || WantsRule(segments, g, path) || WantsArray(segments, g, path) || WantsObject(segments, g, path)
    || Buries(segments, g, path)
  }

  function Puts(segments: Path, g: Group, path: Path): Kind {
    if WantsRule(segments, g, path) then RuleKind(g.nullable)
    else if WantsArray(segments, g, path) then ArrayKind(FieldRules(g))
    else if WantsObject(segments, g, path) then ObjectKind
    else Nothing
  }

  /** What the last group to touch `path` puts there. */
  function LastWritten(groups: seq<Group>, path: Path): Kind {
    if groups == [] then Nothing
    else
      var last := groups[|groups| - 1];
      if Touches(Segments(last), last, path) then Puts(Segments(last), last, path)
      else LastWritten(groups[..|groups| - 1], path)
  }

  /** Where `g` wants something, `kind` is that, or a rule at least as strict. */
  predicate Suits(segments: Path, g: Group, path: Path, kind: Kind) {
    && (WantsRule(segments, g, path) ==> kind.RuleKind? && (kind.nullable ==> g.nullable))
    && (WantsObject(segments, g, path) ==> kind.ObjectKind?)
    && (WantsArray(segments, g, path) ==>
          kind.ArrayKind? && forall f | f in g.fields :: f in kind.rules && (kind.rules[f] ==> g.nullable))
  }

  // ----- the compiler keeps what the last writer put

  function KindAt(plan: Plan, path: Path): Kind
    requires path != []
  {
    match Lookup(plan, path)
    case None => Nothing
    case Some(RuleNode(n)) => RuleKind(n)
    case Some(ObjectNode(_)) => ObjectKind
    case Some(ArrayNode(rules)) => ArrayKind(rules)
  }

  lemma {:induction false} KindBelow(plan: Plan, segment: string, path: Path)
    requires |path| > 1 && path[0] == segment
    ensures KindAt(plan, path) == KindAt(Existing(plan, segment), path[1..])
    ensures forall properties :: KindAt(plan[segment := ObjectNode(properties)], path) == KindAt(properties, path[1..])
  {
  }

  /** Wanting and burying shift with the first segment. */
  lemma {:induction false} WantsBelow(segments: Path, g: Group, path: Path)
    requires segments != [] && !(|segments| == 1 && g.isArray) && |path| > 1 && path[0] == segments[0]
    ensures Touches(segments, g, path) <==> Touches(segments[1..], g, path[1..])
    ensures Puts(segments, g, path) == Puts(segments[1..], g, path[1..])
  {
    var s, t := segments[1..], path[1..];
    assert segments == [segments[0]] + s && path == [path[0]] + t;
    assert path <= segments <==> t <= s;
    assert segments <= path <==> s <= t;
    assert path == segments <==> t == s;
  }

  lemma {:induction false} ElsewhereIsUntouched(segments: Path, g: Group, path: Path)
    requires segments != [] && path != [] && path[0] != segments[0]
    ensures !Touches(segments, g, path)
  {
  }

  lemma {:induction false} RulesPut(plan: Plan, g: Group, path: Path)
    requires path != []
    ensures KindAt(Insert(plan, [], g), path) == if Touches([], g, path) then Puts([], g, path) else KindAt(plan, path)
  {
    var next := Insert(plan, [], g);
    if path[0] in g.fields {
      assert next[path[0]] == RuleNode(g.nullable);
    }
    assert [] <= path;
  }

  lemma {:induction false} ArrayPut(plan: Plan, segment: string, g: Group, path: Path)
    requires path != [] && path[0] == segment && g.isArray
    ensures KindAt(Insert(plan, [segment], g), path) == Puts([segment], g, path) && Touches([segment], g, path)
  {
    if |path| == 1 {
      assert path == [segment];
    } else {
      assert [segment] < path;
    }
  }

  lemma {:induction false} InsertPuts(plan: Plan, segments: Path, g: Group, path: Path)
    requires path != []
    ensures KindAt(Insert(plan, segments, g), path) ==
      if Touches(segments, g, path) then Puts(segments, g, path) else KindAt(plan, path)
    decreases |segments|
  {
    if segments == [] {
      RulesPut(plan, g, path);
    } else if path[0] != segments[0] {
      ElsewhereIsUntouched(segments, g, path);
    } else if |segments| == 1 && g.isArray {
      assert segments == [segments[0]];
      ArrayPut(plan, segments[0], g, path);
    } else if |path| == 1 {
      assert WantsObject(segments, g, path);
    } else {
      InsertPuts(Existing(plan, segments[0]), segments[1..], g, path[1..]);
      KindBelow(plan, segments[0], path);
      WantsBelow(segments, g, path);
    }
  }

  lemma {:induction false} CompiledKindIsLastWritten(groups: seq<Group>, path: Path)
    requires path != []
    ensures KindAt(Compile(groups), path) == LastWritten(groups, path)
  {
    if groups != [] {
      var n := |groups| - 1;
      CompiledKindIsLastWritten(groups[..n], path);
      InsertPuts(Compile(groups[..n]), Segments(groups[n]), groups[n], path);
    }
  }

  // ----- retained means suited at every path

  ghost predicate SuitedBy(plan: Plan, segments: Path, g: Group) {
    forall path: Path | path != [] :: Suits(segments, g, path, KindAt(plan, path))
  }

  lemma {:induction false} SuitsBelow(segments: Path, g: Group, path: Path, kind: Kind)
    requires segments != [] && !(|segments| == 1 && g.isArray) && |path| > 1 && path[0] == segments[0]
    ensures Suits(segments, g, path, kind) <==> Suits(segments[1..], g, path[1..], kind)
  {
    var s, t := segments[1..], path[1..];
    assert segments == [segments[0]] + s && path == [path[0]] + t;
    assert path <= segments <==> t <= s;
    assert segments <= path <==> s <= t;
    assert path == segments <==> t == s;
  }

  lemma {:induction false} SuitedFields(plan: Plan, g: Group)
    ensures Retained(plan, [], g) <==> SuitedBy(plan, [], g)
  {
    if SuitedBy(plan, [], g) {
      forall f | f in g.fields ensures f in plan && plan[f].RuleNode? && (plan[f].nullable ==> g.nullable) {
        assert Suits([], g, [f], KindAt(plan, [f]));
        assert WantsRule([], g, [f]);
      }
    }
    if Retained(plan, [], g) {
      forall path: Path | path != [] ensures Suits([], g, path, KindAt(plan, path)) {
        if WantsRule([], g, path) {
          assert path[0] in plan && Lookup(plan, path) == Some(plan[path[0]]);
        }
      }
    }
  }

  lemma {:induction false} SuitedArray(plan: Plan, segment: string, g: Group)
    requires g.isArray
    ensures Retained(plan, [segment], g) <==> SuitedBy(plan, [segment], g)
  {
    if SuitedBy(plan, [segment], g) {
      assert Suits([segment], g, [segment], KindAt(plan, [segment]));
      assert WantsArray([segment], g, [segment]);
    }
    if Retained(plan, [segment], g) {
      forall path: Path | path != [] ensures Suits([segment], g, path, KindAt(plan, path)) {
        if |path| == 1 && path[0] == segment {
          assert path == [segment] && Lookup(plan, path) == Some(plan[segment]);
        }
      }
    }
  }

  lemma {:induction false} SuitedObject(plan: Plan, segments: Path, g: Group)
    requires segments != [] && !(|segments| == 1 && g.isArray)
    ensures SuitedBy(plan, segments, g) <==>
      segments[0] in plan && plan[segments[0]].ObjectNode? && SuitedBy(plan[segments[0]].properties, segments[1..], g)
  {
    var segment, rest := segments[0], segments[1..];
    if SuitedBy(plan, segments, g) {
      assert WantsObject(segments, g, [segment]);
      assert Suits(segments, g, [segment], KindAt(plan, [segment]));
      forall path: Path | path != [] ensures Suits(rest, g, path, KindAt(plan[segment].properties, path)) {
        var longer := [segment] + path;
        assert longer[1..] == path && Suits(segments, g, longer, KindAt(plan, longer));
        KindBelow(plan, segment, longer);
        SuitsBelow(segments, g, longer, KindAt(plan, longer));
      }
    }
    if segment in plan && plan[segment].ObjectNode? && SuitedBy(plan[segment].properties, rest, g) {
      forall path: Path | path != [] ensures Suits(segments, g, path, KindAt(plan, path)) {
        ObjectSuits(plan, segments, g, path);
      }
    }
  }

  lemma {:induction false} ObjectSuits(plan: Plan, segments: Path, g: Group, path: Path)
    requires segments != [] && !(|segments| == 1 && g.isArray) && path != []
    requires segments[0] in plan && plan[segments[0]].ObjectNode? && SuitedBy(plan[segments[0]].properties, segments[1..], g)
    ensures Suits(segments, g, path, KindAt(plan, path))
  {
    if path[0] != segments[0] {
      ElsewhereIsUntouched(segments, g, path);
    } else if |path| > 1 {
      KindBelow(plan, segments[0], path);
      SuitsBelow(segments, g, path, KindAt(plan, path));
    } else {
      assert path == [segments[0]] && Lookup(plan, path) == Some(plan[segments[0]]);
    }
  }

  lemma {:induction false} RetainedIffSuited(plan: Plan, segments: Path, g: Group)
    ensures Retained(plan, segments, g) <==> SuitedBy(plan, segments, g)
    decreases |segments|
  {
    if segments == [] {
      SuitedFields(plan, g);
    } else if |segments| == 1 && g.isArray {
      assert segments == [segments[0]];
      SuitedArray(plan, segments[0], g);
    } else {
      SuitedObject(plan, segments, g);
      if segments[0] in plan && plan[segments[0]].ObjectNode? {
        RetainedIffSuited(plan[segments[0]].properties, segments[1..], g);
      }
    }
  }

  // ----- the condition on the list

  /** At every path `g` wants, the last group of the list to touch it suits. */
  ghost predicate LastWriterAgrees(groups: seq<Group>, g: Group) {
    forall path: Path | path != [] :: Suits(Segments(g), g, path, LastWritten(groups, path))
  }

  lemma {:induction false} SuitedIffLastWriterAgrees(groups: seq<Group>, g: Group)
    ensures SuitedBy(Compile(groups), Segments(g), g) <==> LastWriterAgrees(groups, g)
  {
    if SuitedBy(Compile(groups), Segments(g), g) {
      forall path: Path | path != [] ensures Suits(Segments(g), g, path, LastWritten(groups, path)) {
        CompiledKindIsLastWritten(groups, path);
      }
    }
    if LastWriterAgrees(groups, g) {
      forall path: Path | path != [] ensures Suits(Segments(g), g, path, KindAt(Compile(groups), path)) {
        CompiledKindIsLastWritten(groups, path);
        assert Suits(Segments(g), g, path, LastWritten(groups, path));
      }
    }
  }

  /**
   The finished schema means the conjunction of all groups if and only if, at every path some group wants,
   what the last group to touch it puts there suits the first.
   */
  lemma {:induction false} SchemaIsExactIffLastWritersAgree(groups: seq<Group>)
    ensures MeansAllHold(groups) <==> forall i | 0 <= i < |groups| :: LastWriterAgrees(groups, groups[i])
  {
    SchemaIsExactIffAllRetained(groups);
    forall i | 0 <= i < |groups|
      ensures Retained(Compile(groups), Segments(groups[i]), groups[i]) <==> LastWriterAgrees(groups, groups[i])
    {
      RetainedIffSuited(Compile(groups), Segments(groups[i]), groups[i]);
      SuitedIffLastWriterAgrees(groups, groups[i]);
    }
  }
}
