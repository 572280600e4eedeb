/** What the compiled schema means in terms of the segments of the dotted prefixes (jsonSchemaValidators.ts). */
module SchemaPaths {
  import opened JsonSchema
  import opened SchemaCompiler
  import opened SchemaConflicts
  import opened SchemaLastWriter
  import Text

  /** `path` lists what stands between the dots of the group's prefix; the empty prefix has no segments. */
  predicate Addresses(g: Group, path: Path) {
    if path == [] then g.prefix == ""
    else
      && (forall i | 0 <= i < |path| :: '.' !in path[i])
      && g.prefix == Text.Join(path, ".") != ""
  }

  predicate AllAddressed(groups: seq<Group>, paths: seq<Path>) {
    |groups| == |paths| && forall i | 0 <= i < |groups| :: Addresses(groups[i], paths[i])
  }

  lemma {:induction false} AddressedSegments(g: Group, path: Path)
    requires Addresses(g, path)
    ensures Segments(g) == path
  {
    if path != [] {
      Text.SplitJoin(path, '.');
    }
  }

  /** One group alone means its own rule at its own path. */
  lemma {:induction false} SingleGroupMeans(g: Group, path: Path, doc: Bson)
    requires Addresses(g, path)
    ensures Accepts(CompiledSchema([g]), doc) <==> doc.Obj? && Holds(doc.fields, path, g)
  {
    AddressedSegments(g, path);
    NoGroups();
    EmptyPlanFits(Segments(g), g);
    FittingGroupIsAdded([], g);
    assert [] + [g] == [g];
    CompiledStep([], g);
    assert Accepts(CompiledSchema([g]), doc) <==> AllHold([g], doc);
  }

  /** The document meets every group's rule at that group's path. */
  ghost predicate AllHoldAt(groups: seq<Group>, paths: seq<Path>, doc: Bson)
    requires |groups| == |paths|
  {
    doc.Obj? && forall i | 0 <= i < |groups| :: Holds(doc.fields, paths[i], groups[i])
  }

  /** What the last group to touch `path` puts there, the groups standing at the given paths. */
  function LastWrittenAt(groups: seq<Group>, paths: seq<Path>, path: Path): Kind
    requires |groups| == |paths|
  {
    if groups == [] then Nothing
    else
      var n := |groups| - 1;
      if Touches(paths[n], groups[n], path) then Puts(paths[n], groups[n], path)
      else LastWrittenAt(groups[..n], paths[..n], path)
  }

  ghost predicate AgreesAt(groups: seq<Group>, paths: seq<Path>, i: nat)
    requires |groups| == |paths| && i < |groups|
  {
    forall path: Path | path != [] :: Suits(paths[i], groups[i], path, LastWrittenAt(groups, paths, path))
  }

  lemma {:induction false} SameLastWritten(groups: seq<Group>, paths: seq<Path>, path: Path)
    requires AllAddressed(groups, paths)
    ensures LastWrittenAt(groups, paths, path) == LastWritten(groups, path)
  {
    if groups != [] {
      var n := |groups| - 1;
      AddressedSegments(groups[n], paths[n]);
      SameLastWritten(groups[..n], paths[..n], path);
    }
  }

  lemma {:induction false} SameAgreement(groups: seq<Group>, paths: seq<Path>, i: nat)
    requires AllAddressed(groups, paths) && i < |groups|
    ensures AgreesAt(groups, paths, i) <==> LastWriterAgrees(groups, groups[i])
  {
    AddressedSegments(groups[i], paths[i]);
    if AgreesAt(groups, paths, i) {
      forall path: Path | path != [] ensures Suits(Segments(groups[i]), groups[i], path, LastWritten(groups, path)) {
        SameLastWritten(groups, paths, path);
        assert Suits(paths[i], groups[i], path, LastWrittenAt(groups, paths, path));
      }
    }
    if LastWriterAgrees(groups, groups[i]) {
      forall path: Path | path != [] ensures Suits(paths[i], groups[i], path, LastWrittenAt(groups, paths, path)) {
        SameLastWritten(groups, paths, path);
        assert Suits(Segments(groups[i]), groups[i], path, LastWritten(groups, path));
      }
    }
  }

  lemma {:induction false} SameDemand(groups: seq<Group>, paths: seq<Path>, doc: Bson)
    requires AllAddressed(groups, paths)
    ensures AllHold(groups, doc) <==> AllHoldAt(groups, paths, doc)
  {
    forall i | 0 <= i < |groups| ensures Segments(groups[i]) == paths[i] {
      AddressedSegments(groups[i], paths[i]);
    }
  }

  ghost predicate MeansAllHoldAt(groups: seq<Group>, paths: seq<Path>)
    requires |groups| == |paths|
  {
    forall doc: Bson :: Accepts(CompiledSchema(groups), doc) <==> AllHoldAt(groups, paths, doc)
  }

  lemma {:induction false} SameMeaning(groups: seq<Group>, paths: seq<Path>)
    requires AllAddressed(groups, paths)
    ensures MeansAllHold(groups) <==> MeansAllHoldAt(groups, paths)
  {
    if MeansAllHold(groups) {
      forall doc: Bson ensures Accepts(CompiledSchema(groups), doc) <==> AllHoldAt(groups, paths, doc) {
        SameDemand(groups, paths, doc);
      }
    }
    if MeansAllHoldAt(groups, paths) {
      forall doc: Bson ensures Accepts(CompiledSchema(groups), doc) <==> AllHold(groups, doc) {
        SameDemand(groups, paths, doc);
      }
    }
  }

  /**
   For any list of groups with dotted prefixes: the schema accepts exactly the documents that meet every
   group's rule at the segments of its prefix if and only if at every path a group wants, the last group to
   touch it suits.
   */
  lemma {:induction false} PathsAreExactIffLastWritersAgree(groups: seq<Group>, paths: seq<Path>)
    requires AllAddressed(groups, paths)
    ensures MeansAllHoldAt(groups, paths) <==> forall i | 0 <= i < |groups| :: AgreesAt(groups, paths, i)
  {
    SameMeaning(groups, paths);
    SchemaIsExactIffLastWritersAgree(groups);
    forall i | 0 <= i < |groups| ensures AgreesAt(groups, paths, i) <==> LastWriterAgrees(groups, groups[i]) {
      SameAgreement(groups, paths, i);
    }
  }

  lemma {:induction false} HoldsBelow(fields: map<string, Bson>, segment: string, rest: Path, g: Group, inner: map<string, Bson>)
    requires !g.isArray && segment in fields && fields[segment] == Obj(inner)
    ensures Holds(fields, [segment] + rest, g) <==> Holds(inner, rest, g)
  {
    assert ([segment] + rest)[1..] == rest;
  }

  lemma {:induction false} TextIsNoAmount(inner: map<string, Bson>, g: Group, field: string, s: string)
    requires field in g.fields && field in inner && inner[field] == Bson.Text(s)
    ensures !Holds(inner, [], g)
  {
    assert !FieldOk(inner[field], g.nullable);
  }

  /** A prefix of two segments reaches the nested field: text in it is rejected. */
  lemma {:induction false} NestedFieldIsChecked(g: Group, first: string, second: string, field: string,
                                                inner: map<string, Bson>, outer: map<string, Bson>, doc: map<string, Bson>, s: string)
    requires '.' !in first && '.' !in second && g.prefix == first + "." + second && !g.isArray && field in g.fields
    requires field in inner && inner[field] == Bson.Text(s)
    requires second in outer && outer[second] == Obj(inner)
    requires first in doc && doc[first] == Obj(outer)
    ensures !Accepts(CompiledSchema([g]), Obj(doc))
  {
    var path := [first] + ([second] + []);
    assert path == [first, second];
    assert Text.Join(path, ".") == first + "." + second by { assert path[1..] == [second]; }
    SingleGroupMeans(g, path, Obj(doc));
    HoldsBelow(doc, first, [second] + [], g, outer);
    HoldsBelow(outer, second, [], g, inner);
    TextIsNoAmount(inner, g, field, s);
  }

  /** The registry's own group: under parsed, gst and cgstMinor. */
  lemma {:induction false} RegistryGroupIsChecked(inner: map<string, Bson>, outer: map<string, Bson>, doc: map<string, Bson>, s: string)
    requires "cgstMinor" in inner && inner["cgstMinor"] == Bson.Text(s)
    requires "gst" in outer && outer["gst"] == Obj(inner)
    requires "parsed" in doc && doc["parsed"] == Obj(outer)
    ensures !Accepts(CompiledSchema([Group("parsed.gst", ["cgstMinor"], true, false)]), Obj(doc))
  {
    assert "parsed.gst" == "parsed" + "." + "gst";
    NestedFieldIsChecked(Group("parsed.gst", ["cgstMinor"], true, false), "parsed", "gst", "cgstMinor", inner, outer, doc, s);
  }
}
