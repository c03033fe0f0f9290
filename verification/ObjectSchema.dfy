/** Merging the `allOf` members of an object schema into one closed description,
    against the meaning of the schemas. */
module ObjectSchema {
  import opened Bytes
  import opened Json

  // ------------------------------------------------------------ what a schema accepts

  /** How a keyword that stands by itself judges an instance. */
  type Judge = (string, Json, Json) -> bool

  function PropertyNames(s: Fields): set<string> {
    if "properties" in s && s["properties"].Obj? then s["properties"].fields.Keys else {}
  }

  /** Every keyword of the schema accepts the instance; the schema `false` accepts none. */
  ghost predicate Accepts(judge: Judge, s: Json, v: Json)
    decreases s, 1
  {
    s != Bool(false) && (s.Obj? ==> forall k | k in s.fields :: Holds(judge, s, k, v))
  }

  ghost predicate Holds(judge: Judge, s: Json, k: string, v: Json)
    requires s.Obj? && k in s.fields
    decreases s, 0
  {
    var w := s.fields[k];
    if k == "properties" then
      w.Obj? && v.Obj? ==> forall n | n in w.fields && n in v.fields :: Accepts(judge, w.fields[n], v.fields[n])
    else if k == "required" then
      w.Arr? && v.Obj? ==> forall e | e in w.items && e.Str? :: e.s in v.fields
    else if k == "allOf" then
      w.Arr? ==> forall i | 0 <= i < |w.items| :: Accepts(judge, w.items[i], v)
    else if k == "additionalProperties" then
      v.Obj? ==> forall n | n in v.fields && n !in PropertyNames(s.fields) :: Accepts(judge, w, v.fields[n])
    else judge(k, w, v)
  }

  // ----------------------------------------------------------------------- the merge

  /** The fields of `more` that are not yet there, in order. */
  function Added(present: seq<Json>, more: seq<Json>): seq<Json>
    decreases |more|
  {
    if more == [] then present
    else Added(if more[0] in present then present else present + [more[0]], more[1..])
  }

  /** Two property sets that define a common name differently. */
  predicate Conflict(a: Fields, b: Fields) {
    exists n :: n in a && n in b && a[n] != b[n]
  }

  /** What a member's keyword makes of the one already there, if they agree. */
  function MergeKey(existing: Option<Json>, k: string, w: Json): Option<Json> {
    if k == "properties" then
      if w.Obj? then
        var was := if existing.None? || existing.value.Null? then Some(map[])
                   else if existing.value.Obj? then Some(existing.value.fields)
                   else None;
        if w.fields == map[] then Some(if existing.None? then Obj(map[]) else existing.value)
        else if was.None? || Conflict(was.value, w.fields) then None
        else Some(Obj(was.value + w.fields))
      else None
    else if k == "required" then
      var was := if existing.None? then Arr([]) else existing.value;
      if was.Arr? && w.Arr? then Some(Arr(Added(was.items, w.items))) else None
    else if existing.Some? && existing.value != w then None
    else Some(w)
  }

  function Lookup(f: Fields, k: string): Option<Json> {
    if k in f then Some(f[k]) else None
  }

  predicate Mergeable(result: Fields, member: Fields) {
    forall k | k in member :: MergeKey(Lookup(result, k), k, member[k]).Some?
  }

  /** The value a keyword merges to, where it does. */
  function MergeTo(result: Fields, k: string, w: Json): Json {
    var to := MergeKey(Lookup(result, k), k, w);
    if to.Some? then to.value else Null
  }

  /** The result with every keyword of the member but those in `left` merged in. */
  function Overlay(result: Fields, member: Fields, left: set<string>): Fields {
    result + map k | k in member && k !in left :: MergeTo(result, k, member[k])
  }

  function MergeMember(result: Fields, member: Fields): Option<Fields> {
    if Mergeable(result, member) then Some(Overlay(result, member, {})) else None
  }

  /** The source's `object_schema`: the merged schema, or nothing where the
      intersection is not evident. */
  function Merged(s: Json): Option<Fields>
    decreases s, 1, 0
  {
    if !s.Obj? || "oneOf" in s.fields || "anyOf" in s.fields ||
       ("type" in s.fields && s.fields["type"] != Str("object")) then None
    else
      var result := MergedWith(s, s.fields - {"allOf"}, 0);
      if result.Some? && "properties" in result.value && result.value["properties"].Obj? then result else None
  }

  /** Merge the `allOf` members from the `i`-th on into `result`. */
  function MergedWith(s: Json, result: Fields, i: nat): Option<Fields>
    requires s.Obj? && i <= |GetArray(s, "allOf")|
    decreases s, 0, |GetArray(s, "allOf")| - i
  {
    var members := GetArray(s, "allOf");
    if i == |members| then Some(result)
    else
      var member := Merged(members[i]);
      if member.None? then None
      else
        var next := MergeMember(result, member.value);
        if next.None? then None else MergedWith(s, next.value, i + 1)
  }

  // --------------------------------------------------------------------- no unions left

  /** The merged schema is an object description with no composition left in it. */
  lemma {:induction false} MergedIsPlain(s: Json)
    requires Merged(s).Some?
    ensures var m := Merged(s).value;
            && "allOf" !in m && "oneOf" !in m && "anyOf" !in m
            && "properties" in m && m["properties"].Obj?
            && ("type" in m ==> m["type"] == Str("object"))
    decreases s, 1, 0
  {
    MergedWithIsPlain(s, s.fields - {"allOf"}, 0);
  }

  predicate NoUnions(m: Fields) {
    "allOf" !in m && "oneOf" !in m && "anyOf" !in m && ("type" in m ==> m["type"] == Str("object"))
  }

  lemma {:induction false} MergedWithIsPlain(s: Json, result: Fields, i: nat)
    requires s.Obj? && i <= |GetArray(s, "allOf")|
    requires NoUnions(result) && MergedWith(s, result, i).Some?
    ensures NoUnions(MergedWith(s, result, i).value)
    decreases s, 0, |GetArray(s, "allOf")| - i
  {
    hide MergeMember, NoUnions;
    var members := GetArray(s, "allOf");
    if i < |members| {
      var member := Merged(members[i]).value;
      MergedIsPlain(members[i]);
      NoUnionsLeft(member);
      MemberAddsNoUnions(result, member);
      MergedWithIsPlain(s, MergeMember(result, member).value, i + 1);
    }
  }

  lemma NoUnionsLeft(m: Fields)
    requires "allOf" !in m && "oneOf" !in m && "anyOf" !in m && ("type" in m ==> m["type"] == Str("object"))
    ensures NoUnions(m)
  {
  }

  lemma MemberAddsNoUnions(result: Fields, member: Fields)
    requires NoUnions(result) && NoUnions(member) && MergeMember(result, member).Some?
    ensures NoUnions(MergeMember(result, member).value)
  {
  }

  // --------------------------------------------------------------- which schemas merge

  /** Keyword by keyword `b` can be laid over `a`: a property both define is defined
      alike, both lists of required fields are lists, and everything else both say is
      the same. */
  predicate Compatible(a: Fields, b: Fields) {
    forall k | k in b :: Alike(a, b, k)
  }

  predicate Alike(a: Fields, b: Fields, k: string)
    requires k in b
  {
    if k == "properties" then
      b[k].Obj? && (k in a && b[k].fields != map[] ==>
        a[k].Null? ||
        (a[k].Obj? && forall n | n in a[k].fields && n in b[k].fields :: a[k].fields[n] == b[k].fields[n]))
    else if k == "required" then b[k].Arr? && (k in a ==> a[k].Arr?)
    else k in a ==> a[k] == b[k]
  }

  lemma MergesIfCompatible(a: Fields, b: Fields)
    ensures MergeMember(a, b).Some? <==> Compatible(a, b)
  {
    forall k | k in b ensures MergeKey(Lookup(a, k), k, b[k]).Some? <==> Alike(a, b, k) {
    }
  }

  /** A third schema goes with the merge of two exactly when it goes with both. */
  lemma CompatibleWithBoth(a: Fields, b: Fields, p: Fields)
    requires Compatible(a, b) && MergeMember(a, b).Some?
    requires "properties" in b ==> b["properties"].Obj?
    ensures Compatible(MergeMember(a, b).value, p) <==> Compatible(a, p) && Compatible(b, p)
  {
    var merged := MergeMember(a, b).value;
    forall k | k in p ensures Alike(merged, p, k) <==> Alike(a, p, k) && Alike(b, p, k) {
      AlikeBoth(a, b, merged, p, k);
    }
  }

  lemma AlikeBoth(a: Fields, b: Fields, merged: Fields, p: Fields, k: string)
    requires Compatible(a, b) && MergeMember(a, b) == Some(merged) && k in p
    requires "properties" in b ==> b["properties"].Obj?
    ensures Alike(merged, p, k) <==> Alike(a, p, k) && Alike(b, p, k)
  {
    assert k in b ==> Alike(a, b, k);
    assert k in merged <==> k in a || k in b;
    if k in b {
      assert merged[k] == MergeTo(a, k, b[k]);
    } else if k in a {
      assert merged[k] == a[k];
    }
  }

  /** The base of the schema goes with each merged member from the `i`-th on, and they
      go with each other. */
  predicate AllCompatible(result: Fields, members: seq<Json>, i: nat) {
    && (forall j | i <= j < |members| :: Merged(members[j]).Some? && Compatible(result, Merged(members[j]).value))
    && (forall j, k | i <= j < k < |members| :: Compatible(Merged(members[j]).value, Merged(members[k]).value))
  }

  lemma {:induction false} RestMerges(s: Json, result: Fields, i: nat)
    requires s.Obj? && i <= |GetArray(s, "allOf")|
    ensures MergedWith(s, result, i).Some? <==> AllCompatible(result, GetArray(s, "allOf"), i)
    decreases |GetArray(s, "allOf")| - i
  {
    hide MergeMember, Merged, Compatible;
    var members := GetArray(s, "allOf");
    if i < |members| && Merged(members[i]).Some? {
      var member := Merged(members[i]).value;
      MergesIfCompatible(result, member);
      if MergeMember(result, member).Some? {
        var next := MergeMember(result, member).value;
        RestMerges(s, next, i + 1);
        MergedIsPlain(members[i]);
        forall j | i < j < |members| && Merged(members[j]).Some?
          ensures var p := Merged(members[j]).value;
                  Compatible(next, p) <==> Compatible(result, p) && Compatible(member, p)
        {
          CompatibleWithBoth(result, member, Merged(members[j]).value);
        }
      }
    }
  }

  /** Some merged member from the `i`-th on describes a property. */
  predicate SomeProperty(members: seq<Json>, i: nat) {
    exists j | i <= j < |members| :: Merged(members[j]).Some? && PropertyNames(Merged(members[j]).value) != {}
  }

  lemma {:induction false} RestDescribes(s: Json, result: Fields, i: nat)
    requires s.Obj? && i <= |GetArray(s, "allOf")| && MergedWith(s, result, i).Some?
    ensures var merged, w := MergedWith(s, result, i).value, Lookup(result, "properties");
            "properties" in merged && merged["properties"].Obj? <==>
              || (w.Some? && w.value.Obj?)
              || (w.None? && i < |GetArray(s, "allOf")|)
              || (w == Some(Null) && SomeProperty(GetArray(s, "allOf"), i))
    decreases |GetArray(s, "allOf")| - i
  {
    hide Merged;
    var members := GetArray(s, "allOf");
    if i < |members| {
      var member := Merged(members[i]).value;
      var next := MergeMember(result, member).value;
      MergedIsPlain(members[i]);
      NextProperties(result, member, next);
      hide MergeMember;
      RestDescribes(s, next, i + 1);
    }
  }

  lemma NextProperties(result: Fields, member: Fields, next: Fields)
    requires MergeMember(result, member) == Some(next) && "properties" in member && member["properties"].Obj?
    ensures "properties" in next
    ensures next["properties"].Obj? <==>
              "properties" !in result || result["properties"].Obj? ||
              (result["properties"].Null? && PropertyNames(member) != {})
    ensures next["properties"].Null? <==>
              "properties" in result && result["properties"].Null? && PropertyNames(member) == {}
  {
  }

  /** A schema merges exactly when it is an object schema without unions, its members
      merge, no two of the schema and the merged members contradict each other, and
      there are properties to describe. */
  lemma MergesExactly(s: Json)
    ensures Merged(s).Some? <==>
              && s.Obj? && "oneOf" !in s.fields && "anyOf" !in s.fields
              && ("type" in s.fields ==> s.fields["type"] == Str("object"))
              && AllCompatible(s.fields - {"allOf"}, GetArray(s, "allOf"), 0)
              && var w := Lookup(s.fields, "properties");
                 || (w.Some? && w.value.Obj?)
                 || (w.None? && GetArray(s, "allOf") != [])
                 || (w == Some(Null) && SomeProperty(GetArray(s, "allOf"), 0))
  {
    if s.Obj? {
      var base := s.fields - {"allOf"};
      assert Lookup(base, "properties") == Lookup(s.fields, "properties");
      RestMerges(s, base, 0);
      hide AllCompatible, SomeProperty;
      if MergedWith(s, base, 0).Some? {
        RestDescribes(s, base, 0);
      }
    }
  }

  // ------------------------------------------------------------------ meaning preserved

  lemma {:induction false} AddedHasBoth(present: seq<Json>, more: seq<Json>)
    ensures forall e :: e in Added(present, more) <==> e in present || e in more
    decreases |more|
  {
    if more != [] {
      AddedHasBoth(if more[0] in present then present else present + [more[0]], more[1..]);
      assert more == [more[0]] + more[1..];
    }
  }

  /** What `additionalProperties` says of the properties among `names` that are not
      described beside it. */
  ghost predicate FitsHere(judge: Judge, m: Fields, names: set<string>, v: Json) {
    "additionalProperties" in m && v.Obj? ==>
      forall n | n in v.fields && n in names && n !in PropertyNames(m) ::
        Accepts(judge, m["additionalProperties"], v.fields[n])
  }

  /** Merging one member accepts whatever both accept; and nothing else that fits the
      `additionalProperties` of both on the merged properties. */
  lemma MemberKeepsMeaning(judge: Judge, result: Fields, member: Fields, names: set<string>, v: Json)
    requires MergeMember(result, member).Some? && "allOf" !in result && "allOf" !in member
    ensures var merged := MergeMember(result, member).value;
            && (Accepts(judge, Obj(result), v) && Accepts(judge, Obj(member), v) ==> Accepts(judge, Obj(merged), v))
            && (FitsHere(judge, result, names, v) && FitsHere(judge, member, names, v) ==>
                  FitsHere(judge, merged, names, v))
            && (FitsHere(judge, result, names, v) && FitsHere(judge, member, names, v) &&
                PropertyNames(merged) <= names && Accepts(judge, Obj(merged), v) ==>
                  Accepts(judge, Obj(result), v) && Accepts(judge, Obj(member), v))
  {
    var merged := MergeMember(result, member).value;
    if Accepts(judge, Obj(result), v) && Accepts(judge, Obj(member), v) {
      forall k | k in merged ensures Holds(judge, Obj(merged), k, v) {
        KeyAccepts(judge, result, member, merged, k, v);
      }
    }
    if FitsHere(judge, result, names, v) && FitsHere(judge, member, names, v) {
      MergedFits(judge, result, member, merged, names, v);
      if PropertyNames(merged) <= names && Accepts(judge, Obj(merged), v) {
        forall k | k in result ensures Holds(judge, Obj(result), k, v) {
          KeyRejects(judge, result, member, merged, names, k, v);
        }
        forall k | k in member ensures Holds(judge, Obj(member), k, v) {
          KeyRejects(judge, result, member, merged, names, k, v);
        }
      }
    }
  }

  lemma MergedFits(judge: Judge, result: Fields, member: Fields, merged: Fields, names: set<string>, v: Json)
    requires MergeMember(result, member) == Some(merged)
    requires FitsHere(judge, result, names, v) && FitsHere(judge, member, names, v)
    ensures FitsHere(judge, merged, names, v)
  {
    NamesGrow(result, member, merged);
    var k := "additionalProperties";
    assert k in merged ==> (k in result && merged[k] == result[k]) || (k in member && merged[k] == member[k]);
  }

  lemma KeyAccepts(judge: Judge, result: Fields, member: Fields, merged: Fields, k: string, v: Json)
    requires MergeMember(result, member) == Some(merged) && k in merged && k != "allOf"
    requires Accepts(judge, Obj(result), v) && Accepts(judge, Obj(member), v)
    ensures Holds(judge, Obj(merged), k, v)
  {
    assert k in result ==> Holds(judge, Obj(result), k, v);
    assert k in member ==> Holds(judge, Obj(member), k, v);
    if k == "required" && k in member {
      AddedHasBoth(if k in result then result[k].items else [], member[k].items);
    } else if k == "additionalProperties" {
      NamesGrow(result, member, merged);
    }
  }

  lemma NamesGrow(result: Fields, member: Fields, merged: Fields)
    requires MergeMember(result, member) == Some(merged)
    ensures PropertyNames(result) <= PropertyNames(merged) && PropertyNames(member) <= PropertyNames(merged)
  {
  }

  lemma KeyRejects(judge: Judge, result: Fields, member: Fields, merged: Fields, names: set<string>, k: string,
                   v: Json)
    requires MergeMember(result, member) == Some(merged) && k != "allOf"
    requires FitsHere(judge, result, names, v) && FitsHere(judge, member, names, v)
    requires PropertyNames(merged) <= names && Accepts(judge, Obj(merged), v)
    ensures k in result ==> Holds(judge, Obj(result), k, v)
    ensures k in member ==> Holds(judge, Obj(member), k, v)
  {
    if k in result || k in member {
      assert Holds(judge, Obj(merged), k, v);
      if k == "required" && k in member {
        AddedHasBoth(if k in result then result[k].items else [], member[k].items);
      }
    }
  }

  /** The schema and every nested `allOf` member fit the instance on `names`. */
  ghost predicate Fits(judge: Judge, s: Json, names: set<string>, v: Json)
    decreases s
  {
    s.Obj? ==>
      && FitsHere(judge, s.fields, names, v)
      && forall i | 0 <= i < |GetArray(s, "allOf")| :: Fits(judge, GetArray(s, "allOf")[i], names, v)
  }

  /** A schema fits whatever it accepts. */
  lemma {:induction false} AcceptedFits(judge: Judge, s: Json, names: set<string>, v: Json)
    requires Accepts(judge, s, v)
    ensures Fits(judge, s, names, v)
    decreases s
  {
    if s.Obj? {
      var k := "additionalProperties";
      assert k in s.fields ==> Holds(judge, s, k, v);
      forall i | 0 <= i < |GetArray(s, "allOf")| ensures Fits(judge, GetArray(s, "allOf")[i], names, v) {
        assert Holds(judge, s, "allOf", v);
        AcceptedFits(judge, GetArray(s, "allOf")[i], names, v);
      }
    }
  }

  /** Every one of the schema and its nested `allOf` members that has
      `additionalProperties` describes all of `names`. */
  predicate Covers(s: Json, names: set<string>)
    decreases s
  {
    s.Obj? ==>
      && ("additionalProperties" in s.fields ==> names <= PropertyNames(s.fields))
      && forall i | 0 <= i < |GetArray(s, "allOf")| :: Covers(GetArray(s, "allOf")[i], names)
  }

  /** No `additionalProperties` in the schema or in any nested `allOf` member. */
  predicate Open(s: Json)
    decreases s
  {
    s.Obj? ==>
      && "additionalProperties" !in s.fields
      && forall i | 0 <= i < |GetArray(s, "allOf")| :: Open(GetArray(s, "allOf")[i])
  }

  lemma {:induction false} OpenFits(judge: Judge, s: Json, names: set<string>, v: Json)
    requires Open(s) || Covers(s, names)
    ensures Fits(judge, s, names, v)
    decreases s
  {
    if s.Obj? {
      forall i | 0 <= i < |GetArray(s, "allOf")| ensures Fits(judge, GetArray(s, "allOf")[i], names, v) {
        OpenFits(judge, GetArray(s, "allOf")[i], names, v);
      }
    }
  }

  ghost predicate AllAccept(judge: Judge, members: seq<Json>, i: nat, v: Json) {
    forall j | i <= j < |members| :: Accepts(judge, members[j], v)
  }

  ghost predicate AllFit(judge: Judge, members: seq<Json>, i: nat, names: set<string>, v: Json) {
    forall j | i <= j < |members| :: Fits(judge, members[j], names, v)
  }

  lemma SplitAllOf(judge: Judge, s: Json, v: Json)
    requires s.Obj?
    ensures Accepts(judge, s, v) <==>
              Accepts(judge, Obj(s.fields - {"allOf"}), v) && AllAccept(judge, GetArray(s, "allOf"), 0, v)
  {
    var base := s.fields - {"allOf"};
    assert PropertyNames(base) == PropertyNames(s.fields);
    forall k | k in base ensures Holds(judge, Obj(base), k, v) <==> Holds(judge, s, k, v) {
    }
    if "allOf" in s.fields {
      assert Holds(judge, s, "allOf", v) <==> AllAccept(judge, GetArray(s, "allOf"), 0, v);
    }
  }

  /** Property names only grow while the remaining members are merged. */
  lemma {:induction false} RestNamesGrow(s: Json, result: Fields, i: nat)
    requires s.Obj? && i <= |GetArray(s, "allOf")| && MergedWith(s, result, i).Some?
    ensures PropertyNames(result) <= PropertyNames(MergedWith(s, result, i).value)
    ensures forall j | i <= j < |GetArray(s, "allOf")| ::
              Merged(GetArray(s, "allOf")[j]).Some? &&
              PropertyNames(Merged(GetArray(s, "allOf")[j]).value) <= PropertyNames(MergedWith(s, result, i).value)
    decreases |GetArray(s, "allOf")| - i
  {
    hide MergeMember, Merged, PropertyNames;
    var members := GetArray(s, "allOf");
    if i < |members| {
      var member := Merged(members[i]).value;
      var next := MergeMember(result, member).value;
      NamesGrow(result, member, next);
      RestNamesGrow(s, next, i + 1);
    }
  }

  /** Merging the remaining members accepts whatever the result so far and all of
      them accept; and nothing else that fits them on the merged properties. */
  lemma {:induction false} RestKeepsMeaning(judge: Judge, s: Json, result: Fields, i: nat, names: set<string>, v: Json)
    requires s.Obj? && i <= |GetArray(s, "allOf")| && "allOf" !in result
    requires MergedWith(s, result, i).Some?
    ensures var merged, members := MergedWith(s, result, i).value, GetArray(s, "allOf");
            && (Accepts(judge, Obj(result), v) && AllAccept(judge, members, i, v) ==> Accepts(judge, Obj(merged), v))
            && (FitsHere(judge, result, names, v) && AllFit(judge, members, i, names, v) &&
                PropertyNames(merged) <= names ==>
                  FitsHere(judge, merged, names, v) &&
                  (Accepts(judge, Obj(merged), v) ==>
                     Accepts(judge, Obj(result), v) && AllAccept(judge, members, i, v)))
    decreases s, 0, |GetArray(s, "allOf")| - i
  {
    hide Accepts, MergeMember, Merged, Fits, FitsHere, PropertyNames;
    var members := GetArray(s, "allOf");
    if i < |members| {
      var member := Merged(members[i]).value;
      var next := MergeMember(result, member).value;
      MergedHasNoAllOf(members[i]);
      RestNamesGrow(s, result, i);
      RestNamesGrow(s, next, i + 1);
      MergeKeepsMeaning(judge, members[i], names, v);
      MemberKeepsMeaning(judge, result, member, names, v);
      NextHasNoAllOf(result, member);
      RestKeepsMeaning(judge, s, next, i + 1, names, v);
    }
  }

  lemma MergedHasNoAllOf(s: Json)
    requires Merged(s).Some?
    ensures "allOf" !in Merged(s).value
  {
    MergedIsPlain(s);
  }

  lemma NextHasNoAllOf(result: Fields, member: Fields)
    requires "allOf" !in result && "allOf" !in member && MergeMember(result, member).Some?
    ensures "allOf" !in MergeMember(result, member).value
  {
  }

  /** The merged schema accepts every instance the schema and all its nested `allOf`
      members accept; and nothing else that fits them on the merged properties. */
  lemma {:induction false} MergeKeepsMeaning(judge: Judge, s: Json, names: set<string>, v: Json)
    requires Merged(s).Some?
    ensures Accepts(judge, s, v) ==> Accepts(judge, Obj(Merged(s).value), v)
    ensures Fits(judge, s, names, v) && PropertyNames(Merged(s).value) <= names ==>
              FitsHere(judge, Merged(s).value, names, v) &&
              (Accepts(judge, Obj(Merged(s).value), v) ==> Accepts(judge, s, v))
    decreases s, 1, 0
  {
    var base := s.fields - {"allOf"};
    SplitAllOf(judge, s, v);
    RestKeepsMeaning(judge, s, base, 0, names, v);
  }

  /** The schema accepts exactly the instances that the merged schema accepts and
      whose merged properties fit every `additionalProperties` they were merged
      under without being described beside it. */
  lemma MergeMeansExactly(judge: Judge, s: Json, v: Json)
    requires Merged(s).Some?
    ensures Accepts(judge, s, v) <==>
              Accepts(judge, Obj(Merged(s).value), v) && Fits(judge, s, PropertyNames(Merged(s).value), v)
  {
    var names := PropertyNames(Merged(s).value);
    MergeKeepsMeaning(judge, s, names, v);
    if Accepts(judge, s, v) {
      AcceptedFits(judge, s, names, v);
    }
  }

  /** So the merge means the same for every instance when no member brings a property
      that a schema with `additionalProperties` lacks, and in particular when none has
      the keyword. */
  lemma MergeMeansTheSame(judge: Judge, s: Json, v: Json)
    requires Merged(s).Some? && (Open(s) || Covers(s, PropertyNames(Merged(s).value)))
    ensures Accepts(judge, Obj(Merged(s).value), v) <==> Accepts(judge, s, v)
  {
    hide Accepts, Merged, Fits;
    OpenFits(judge, s, PropertyNames(Merged(s).value), v);
    MergeMeansExactly(judge, s, v);
  }

  const A_ONLY: Fields := map["properties" := Obj(map["a" := Null]), "additionalProperties" := Bool(false)]
  const B_ONLY: Fields := map["properties" := Obj(map["b" := Null])]
  const A_OR_B: Fields := map["properties" := Obj(map["a" := Null, "b" := Null]), "additionalProperties" := Bool(false)]

  lemma ClosedMerge()
    ensures Merged(Obj(A_ONLY["allOf" := Arr([Obj(B_ONLY)])])) == Some(A_OR_B)
  {
    var s := Obj(A_ONLY["allOf" := Arr([Obj(B_ONLY)])]);
    OverlaidAB();
    hide MergeMember;
    assert B_ONLY - {"allOf"} == B_ONLY && s.fields - {"allOf"} == A_ONLY;
    assert Merged(Obj(B_ONLY)) == Some(B_ONLY);
    assert MergedWith(s, A_OR_B, 1) == Some(A_OR_B);
  }

  lemma OverlaidAB()
    ensures MergeMember(A_ONLY, B_ONLY) == Some(A_OR_B)
  {
    var k := "properties";
    assert MergeTo(A_ONLY, k, B_ONLY[k]) == A_OR_B[k] by {
      assert map["a" := Null] + map["b" := Null] == map["a" := Null, "b" := Null];
    }
    hide MergeTo;
    assert Overlay(A_ONLY, B_ONLY, {}) == A_OR_B;
  }

  lemma WidenedAccepts(judge: Judge, v: Json)
    requires (forall k, w, x :: judge(k, w, x)) && v == Obj(map["b" := Null])
    ensures Accepts(judge, Obj(A_OR_B), v) && !Accepts(judge, Bool(false), Null)
  {
  }

  /** With `additionalProperties` the merge can accept more: closing the base against
      a member's property is lost once that property is merged in. */
  lemma AdditionalPropertiesWiden(judge: Judge) returns (s: Json, v: Json)
    requires forall k, w, x :: judge(k, w, x)
    ensures Merged(s).Some? && Accepts(judge, Obj(Merged(s).value), v) && !Accepts(judge, s, v)
  {
    s := Obj(A_ONLY["allOf" := Arr([Obj(B_ONLY)])]);
    v := Obj(map["b" := Null]);
    ClosedMerge();
    WidenedAccepts(judge, v);
    hide Merged, Accepts;
    MergeMeansExactly(judge, s, v);
    assert "b" in v.fields && "b" !in PropertyNames(s.fields);
    assert !FitsHere(judge, s.fields, PropertyNames(A_OR_B), v);
  }

  // -------------------------------------------------------------------------- the loops

  /** The source's loop over one member's fields not already required. */
  method AddRequired(present: seq<Json>, more: seq<Json>) returns (required: seq<Json>)
    ensures required == Added(present, more)
  {
    required := present;
    for i := 0 to |more|
      invariant Added(required, more[i..]) == Added(present, more)
    {
      assert more[i..][1..] == more[i + 1..];
      if more[i] !in required {
        required := required + [more[i]];
      }
    }
  }

  /** The source's loop over one member's properties; it stops at the first conflict. */
  method AddProperties(present: Fields, more: Fields) returns (properties: Option<Fields>)
    ensures properties == if Conflict(present, more) then None else Some(present + more)
  {
    hide Part, Agree;
    var done, names := present, more.Keys;
    PartStart(present, more);
    while names != {}
      invariant names <= more.Keys
      invariant Agree(present, more, names)
      invariant done == Part(present, more, names)
      decreases |names|
    {
      var name :| name in names;
      PartStep(present, more, names, name);
      if name in done && done[name] != more[name] {
        return None;
      }
      done := done[name := more[name]];
      names := names - {name};
    }
    PartEnd(present, more);
    properties := Some(done);
  }

  /** The present properties with all of `more` but those in `left` added. */
  function Part(present: Fields, more: Fields, left: set<string>): Fields {
    present + map n | n in more && n !in left :: more[n]
  }

  predicate Agree(present: Fields, more: Fields, left: set<string>) {
    forall n :: n in more && n !in left ==> n !in present || present[n] == more[n]
  }

  lemma PartStart(present: Fields, more: Fields)
    ensures Part(present, more, more.Keys) == present && Agree(present, more, more.Keys)
  {
  }

  lemma PartStep(present: Fields, more: Fields, left: set<string>, n: string)
    requires n in left && n in more && Agree(present, more, left)
    ensures Lookup(Part(present, more, left), n) == Lookup(present, n)
    ensures Part(present, more, left - {n}) == Part(present, more, left)[n := more[n]]
    ensures if n in present && present[n] != more[n] then Conflict(present, more) else Agree(present, more, left - {n})
  {
  }

  lemma PartEnd(present: Fields, more: Fields)
    requires Agree(present, more, {})
    ensures Part(present, more, {}) == present + more && !Conflict(present, more)
  {
  }

  /** One keyword of a member merged into the result so far. */
  method MergeOneKey(result: Fields, k: string, w: Json) returns (merged: Option<Fields>)
    ensures merged == var to := MergeKey(Lookup(result, k), k, w);
                      if to.None? then None else Some(result[k := to.value])
  {
    if k == "properties" {
      if !w.Obj? {
        return None;
      }
      var existing := if k in result then result[k] else Obj(map[]);
      if w.fields == map[] {
        return Some(result[k := existing]);
      }
      if !existing.Obj? && !existing.Null? {
        return None;
      }
      var properties := AddProperties(if existing.Null? then map[] else existing.fields, w.fields);
      merged := if properties.None? then None else Some(result[k := Obj(properties.value)]);
    } else if k == "required" {
      var existing := if k in result then result[k] else Arr([]);
      if !existing.Arr? || !w.Arr? {
        return None;
      }
      var required := AddRequired(existing.items, w.items);
      merged := Some(result[k := Arr(required)]);
    } else if k in result && result[k] != w {
      merged := None;
    } else {
      merged := Some(result[k := w]);
    }
  }

  /** The source's loop over one member's keywords, in whatever order. */
  method MergeOneMember(result: Fields, member: Fields) returns (merged: Option<Fields>)
    ensures merged == MergeMember(result, member)
  {
    hide MergeKey, Overlay, Agreed, MergeMember;
    var done, keys := result, member.Keys;
    OverlayStart(result, member);
    while keys != {}
      invariant keys <= member.Keys
      invariant Agreed(result, member, keys)
      invariant done == Overlay(result, member, keys)
      decreases |keys|
    {
      var key :| key in keys;
      OverlayStep(result, member, keys, key);
      var next := MergeOneKey(done, key, member[key]);
      if next.None? {
        return None;
      }
      done := next.value;
      keys := keys - {key};
    }
    OverlayEnd(result, member);
    merged := Some(done);
  }

  predicate Agreed(result: Fields, member: Fields, left: set<string>) {
    forall k :: k in member && k !in left ==> MergeKey(Lookup(result, k), k, member[k]).Some?
  }

  lemma OverlayStart(result: Fields, member: Fields)
    ensures Overlay(result, member, member.Keys) == result && Agreed(result, member, member.Keys)
  {
    hide MergeTo, MergeKey;
    assert Overlay(result, member, member.Keys) == result;
  }

  lemma OverlayStep(result: Fields, member: Fields, left: set<string>, k: string)
    requires k in left && k in member && Agreed(result, member, left)
    ensures Lookup(Overlay(result, member, left), k) == Lookup(result, k)
    ensures var to := MergeKey(Lookup(result, k), k, member[k]);
            if to.None? then MergeMember(result, member).None?
            else Agreed(result, member, left - {k}) &&
                 Overlay(result, member, left - {k}) == Overlay(result, member, left)[k := to.value]
  {
    hide MergeKey;
    var to := MergeTo(result, k, member[k]);
    assert Overlay(result, member, left - {k}) == Overlay(result, member, left)[k := to] by {
      hide MergeTo;
    }
  }

  lemma OverlayEnd(result: Fields, member: Fields)
    requires Agreed(result, member, {})
    ensures MergeMember(result, member) == Some(Overlay(result, member, {}))
  {
    hide MergeKey, Overlay;
  }

  /** The source's `object_schema`. */
  method MergeObjectSchema(s: Json) returns (merged: Option<Fields>)
    ensures merged == Merged(s)
    decreases s
  {
    if !s.Obj? || "oneOf" in s.fields || "anyOf" in s.fields ||
       ("type" in s.fields && s.fields["type"] != Str("object")) {
      return None;
    }
    var result := s.fields - {"allOf"};
    var members := GetArray(s, "allOf");
    for i := 0 to |members|
      invariant MergedWith(s, result, i) == MergedWith(s, s.fields - {"allOf"}, 0)
    {
      var member := MergeObjectSchema(members[i]);
      if member.None? {
        return None;
      }
      var next := MergeOneMember(result, member.value);
      if next.None? {
        return None;
      }
      result := next.value;
    }
    merged := if "properties" in result && result["properties"].Obj? then Some(result) else None;
  }
}
