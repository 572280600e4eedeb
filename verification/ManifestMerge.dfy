/**
 The recursive merge of configuration overrides into a manifest (runtimeManifestConfig.ts). Records
 are maps: the order of their keys is not kept.
 */
module ManifestMerge {
  import opened Wrappers

  datatype Json = Undefined | Null | Scalar(id: int) | Arr(items: seq<Json>) | Rec(fields: map<string, Json>)

  /** Reading the keys of null throws. */
  datatype MergeError = NullBase

  /** What reading a property gives. */
  function Get(fields: map<string, Json>, key: string): Json {
    if key in fields then fields[key] else Undefined
  }

  predicate Overrides(v: Json) {
    v != Undefined && v != Null
  }

  /** The value of one key: both records merge, and any other override replaces the base value. */
  function Combined(base: Json, override: Json): Json
    decreases base, 1
  {
    if !Overrides(override) then base
    else if base.Rec? && override.Rec? then Rec(Merged(base, override))
    else override
  }

  function Merged(base: Json, override: Json): map<string, Json>
    requires base.Rec? && override.Rec?
    decreases base, 0
  {
    map key | key in base.fields :: Combined(base.fields[key], Get(override.fields, key))
  }

  /** No record is merged into a null, at any depth. */
  ghost predicate Mergeable(base: Json, override: Json)
    requires base.Rec? && override.Rec?
    decreases base, 0
  {
    forall key | key in base.fields :: Combinable(base.fields[key], Get(override.fields, key))
  }

  ghost predicate Combinable(base: Json, override: Json)
    decreases base, 1
  {
    override.Rec? ==> base != Null && (base.Rec? ==> Mergeable(base, override))
  }

  method DeepMerge(base: Json, overrides: Json) returns (result: Result<map<string, Json>, MergeError>)
    requires base.Rec? && overrides.Rec?
    ensures result == if Mergeable(base, overrides) then Success(Merged(base, overrides)) else Failure(NullBase)
    decreases base
  {
    var merged := base.fields;
    var keys := base.fields.Keys;
    while keys != {}
      invariant keys <= base.fields.Keys == merged.Keys
      invariant forall key | key in keys :: merged[key] == base.fields[key]
      invariant forall key | key in base.fields && key !in keys :: merged[key] == Combined(base.fields[key], Get(overrides.fields, key))
      invariant forall key | key in base.fields && key !in keys :: Combinable(base.fields[key], Get(overrides.fields, key))
      decreases |keys|
    {
      var key :| key in keys;
      keys := keys - {key};
      var current, override := base.fields[key], Get(overrides.fields, key);
      if override == Undefined || override == Null {
        continue;
      }
      if override.Rec? && (current.Rec? || current == Null) {
        if current == Null {
          return Failure(NullBase);
        }
        var inner := DeepMerge(current, override);
        if inner.Failure? {
          return inner;
        }
        merged := merged[key := Rec(inner.value)];
      } else {
        merged := merged[key := override];
      }
    }
    assert merged == Merged(base, overrides);
    result := Success(merged);
  }

  // ----- laws

  /** The value at a path of keys. */
  function At(v: Json, path: seq<string>): Json
    decreases |path|
  {
    if path == [] then v else if v.Rec? then At(Get(v.fields, path[0]), path[1..]) else Undefined
  }

  /** `path` passes through records only, in the base and in the override alike, and ends in one. */
  ghost predicate MergesAlong(base: Json, override: Json, path: seq<string>)
    decreases |path|
  {
    && base.Rec?
    && override.Rec?
    && (path != [] ==> MergesAlong(Get(base.fields, path[0]), Get(override.fields, path[0]), path[1..]))
  }

  /** At any depth, a merged record has exactly the keys of the base record there. */
  lemma {:induction false} KeysAreTheBases(base: Json, override: Json, path: seq<string>)
    requires MergesAlong(base, override, path)
    ensures var before, after := At(base, path), At(Rec(Merged(base, override)), path);
      before.Rec? && after.Rec? && after.fields.Keys == before.fields.Keys
  {
    if path != [] {
      KeysAreTheBases(base.fields[path[0]], override.fields[path[0]], path[1..]);
    }
  }

  /**
   What a reader finds below a merged record: nothing under a key the base lacks; otherwise the
   override's value if it has one that is not a record merged further, and the base's if not.
   */
  lemma {:induction false} ValueBelowMergedRecord(base: Json, override: Json, path: seq<string>, key: string)
    requires MergesAlong(base, override, path)
    ensures At(base, path).Rec?
    ensures var before, offered, after := At(base, path + [key]), At(override, path + [key]), At(Rec(Merged(base, override)), path + [key]);
      && (key !in At(base, path).fields ==> after == Undefined)
      && (key in At(base, path).fields && !Overrides(offered) ==> after == before)
      && (key in At(base, path).fields && Overrides(offered) && !(before.Rec? && offered.Rec?) ==> after == offered)
  {
    if path == [] {
      assert path + [key] == [key];
      AtOneKey(base, key);
      AtOneKey(override, key);
      AtOneKey(Rec(Merged(base, override)), key);
    } else {
      assert (path + [key])[0] == path[0] && (path + [key])[1..] == path[1..] + [key];
      ValueBelowMergedRecord(base.fields[path[0]], override.fields[path[0]], path[1..], key);
    }
  }

  /** An override without values, such as the empty record, changes nothing. */
  lemma {:induction false} EmptyOverrideIsIdentity(base: Json, override: Json)
    requires base.Rec? && override.Rec? && forall key | key in override.fields :: !Overrides(override.fields[key])
    ensures Merged(base, override) == base.fields && Mergeable(base, override)
  {
  }

  /** Merging a record into itself gives it back. */
  lemma {:induction false} MergingIntoItself(v: Json)
    requires v.Rec?
    ensures Mergeable(v, v) && Merged(v, v) == v.fields
    decreases v
  {
    forall key | key in v.fields
      ensures Combinable(v.fields[key], v.fields[key]) && Combined(v.fields[key], v.fields[key]) == v.fields[key]
    {
      if v.fields[key].Rec? {
        MergingIntoItself(v.fields[key]);
      }
    }
  }

  /** Merging the same override twice is merging it once, whatever kinds of value it replaces. */
  lemma {:induction false} MergingTwiceIsOnce(base: Json, override: Json)
    requires base.Rec? && override.Rec? && Mergeable(base, override)
    ensures var once := Rec(Merged(base, override));
      Mergeable(once, override) && Merged(once, override) == once.fields
    decreases base
  {
    var once := Rec(Merged(base, override));
    forall key | key in base.fields
      ensures Combinable(once.fields[key], Get(override.fields, key))
      ensures Combined(once.fields[key], Get(override.fields, key)) == once.fields[key]
    {
      CombiningTwice(base, key, Get(override.fields, key));
    }
  }

  lemma {:induction false} CombiningTwice(base: Json, key: string, override: Json)
    requires base.Rec? && key in base.fields && Combinable(base.fields[key], override)
    ensures var once := Combined(base.fields[key], override);
      Combinable(once, override) && Combined(once, override) == once
    decreases base, 0
  {
    if override.Rec? {
      if base.fields[key].Rec? {
        MergingTwiceIsOnce(base.fields[key], override);
      } else {
        MergingIntoItself(override);
      }
    }
  }

  /** Below a record merged into a record, a record is offered for a null. */
  ghost predicate NullMeetsRecord(base: Json, override: Json, path: seq<string>, key: string) {
    MergesAlong(base, override, path) && At(base, path + [key]) == Null && At(override, path + [key]).Rec?
  }

  /**
   When the merge of a manifest throws: exactly when at some depth a record is offered for a null.
   */
  lemma {:induction false} ThrowsIffNullMeetsRecord(base: Json, override: Json)
    requires base.Rec? && override.Rec?
    ensures !Mergeable(base, override) <==>
      exists path: seq<string>, key: string :: NullMeetsRecord(base, override, path, key)
  {
    if !Mergeable(base, override) {
      var path, key := NullBelow(base, override);
    }
    forall path: seq<string>, key: string | NullMeetsRecord(base, override, path, key)
      ensures !Mergeable(base, override)
    {
      NullThrows(base, override, path, key);
    }
  }

  /** A record that holds null under some key cannot take a record for that key. */
  lemma {:induction false} NullDefaultThrows(key: string, inner: map<string, Json>)
    ensures var base, override := Rec(map[key := Null]), Rec(map[key := Rec(inner)]);
      !Mergeable(base, override) && NullMeetsRecord(base, override, [], key)
  {
    var base, override := Rec(map[key := Null]), Rec(map[key := Rec(inner)]);
    assert [] + [key] == [key];
    AtOneKey(base, key);
    AtOneKey(override, key);
    ThrowsIffNullMeetsRecord(base, override);
  }

  lemma {:induction false} NullBelow(base: Json, override: Json) returns (path: seq<string>, key: string)
    requires base.Rec? && override.Rec? && !Mergeable(base, override)
    ensures NullMeetsRecord(base, override, path, key)
    decreases base
  {
    var first :| first in base.fields && !Combinable(base.fields[first], Get(override.fields, first));
    if base.fields[first] == Null {
      path, key := [], first;
      assert path + [key] == [first];
      AtOneKey(base, first);
      AtOneKey(override, first);
    } else {
      var rest;
      rest, key := NullBelow(base.fields[first], override.fields[first]);
      path := [first] + rest;
      assert path[1..] == rest;
      assert (path + [key])[0] == first && (path + [key])[1..] == rest + [key];
    }
  }

  lemma {:induction false} AtOneKey(v: Json, key: string)
    requires v.Rec?
    ensures At(v, [key]) == Get(v.fields, key)
  {
    assert [key][1..] == [];
  }

  lemma {:induction false} NullThrows(base: Json, override: Json, path: seq<string>, key: string)
    requires NullMeetsRecord(base, override, path, key)
    ensures !Mergeable(base, override)
    decreases |path|
  {
    if path == [] {
      assert path + [key] == [key];
      AtOneKey(base, key);
      AtOneKey(override, key);
      assert !Combinable(base.fields[key], Get(override.fields, key));
    } else {
      assert (path + [key])[0] == path[0] && (path + [key])[1..] == path[1..] + [key];
      assert MergesAlong(Get(base.fields, path[0]), Get(override.fields, path[0]), path[1..]);
      NullThrows(base.fields[path[0]], override.fields[path[0]], path[1..], key);
      assert !Combinable(base.fields[path[0]], Get(override.fields, path[0]));
    }
  }
}
