/**
 * The update of the new project's `package.json` performed by `init`:
 * the dependencies field is defaulted, the tool's own dependencies are
 * merged in unless flagged optional, the result is rebuilt with its keys
 * in ascending order, and four policy fields are stamped in. The
 * manifests are JavaScript objects, modelled as ordered dictionaries; the
 * object is mutated step by step, so each step is a method over a local
 * dictionary.
 */
module PackageManifest {
  import opened Wrappers
  import opened Text
  import opened Json
  import opened StringOrder

  /** The `browserslist` written into every project. */
  const DefaultBrowsers: Value := Arr([Str(">0.2%"), Str("not dead"), Str("not ie <= 11"), Str("not op_mini all")])

  /** The `scripts` block: each command runs the ejected script of the same name. */
  const Scripts: Value := Obj(Dict(["start", "build", "test"],
    map["start" := Str("node scripts/start"), "build" := Str("node scripts/build"), "test" := Str("node scripts/test")]))

  /** `{presets: ["react-app"]}`. */
  const Babel: Value := Obj(Dict(["presets"], map["presets" := Arr([Str("react-app")])]))

  /** `{extends: "react-app"}`. */
  const EslintConfig: Value := Obj(Dict(["extends"], map["extends" := Str("react-app")]))

  /** The top-level fields `init` assigns, in the order of their first assignment. */
  const PolicyFields: seq<string> := ["dependencies", "browserslist", "eslintConfig", "scripts", "babel"]

  /**
   * `field || {}` for a field that is used as an object afterwards: a falsy
   * field reads as an empty object; `None` stands for a truthy value that
   * is not an object, which the code would index as if it were one.
   */
  function ObjectOrEmpty(field: Option<Value>): (r: Option<Dict<Value>>)
    ensures !Truthy(field) ==> r == Some(EmptyDict())
    ensures r.Some? && Truthy(field) ==> field.value == Obj(r.value)
    ensures r.Some? <==> !Truthy(field) || field.value.Obj?
  {
    if !Truthy(field) then Some(EmptyDict())
    else if field.value.Obj? then Some(field.value.obj)
    else None
  }

  /** `optional[key]` when `optional` is not `null` or `undefined`. */
  function Member(optional: Value, key: string): Option<Value>
  {
    if optional.Obj? then optional.obj.Get(key) else None
  }

  /** The own manifest's `optionalDependencies[key]` is truthy: the own value is skipped. */
  predicate Flagged(optional: Option<Value>, key: string)
  {
    optional.Some? && Truthy(Member(optional.value, key))
  }

  /** `optionalDependencies[key]` can be evaluated without throwing. */
  predicate OptionalReadable(optional: Option<Value>)
  {
    optional.Some? && !optional.value.Null?
  }

  /**
   * The merged dependencies as a map: every existing entry, overridden by
   * every own entry that is not flagged optional.
   */
  ghost function Merged(deps: map<string, Value>, own: map<string, Value>, optional: Option<Value>): map<string, Value>
  {
    map k | k in deps.Keys + own.Keys && (k in deps || !Flagged(optional, k)) ::
      if k in own && !Flagged(optional, k) then own[k] else deps[k]
  }

  /** Own keys, in own order, that the merge adds as new entries. */
  ghost function AddedKeys(ownKeys: seq<string>, deps: map<string, Value>, optional: Option<Value>): seq<string>
    decreases |ownKeys|
  {
    if ownKeys == [] then []
    else
      var k := ownKeys[|ownKeys| - 1];
      AddedKeys(ownKeys[..|ownKeys| - 1], deps, optional) + (if k !in deps && !Flagged(optional, k) then [k] else [])
  }

  /** The merge's outcome on each key: own wins unless flagged, everything else is kept. */
  lemma MergedEntries(deps: map<string, Value>, own: map<string, Value>, optional: Option<Value>, k: string)
    ensures k in Merged(deps, own, optional) <==> k in deps || (k in own && !Flagged(optional, k))
    ensures k in own && !Flagged(optional, k) ==> Merged(deps, own, optional)[k] == own[k]
    ensures k in deps && (k !in own || Flagged(optional, k)) ==> Merged(deps, own, optional)[k] == deps[k]
  {
  }

  /** The added keys are exactly the unflagged own keys that were missing, in own order. */
  lemma {:induction false} AddedKeysMembers(ownKeys: seq<string>, deps: map<string, Value>, optional: Option<Value>)
    ensures forall k :: k in AddedKeys(ownKeys, deps, optional) <==> k in ownKeys && k !in deps && !Flagged(optional, k)
    ensures IsSubsequence(AddedKeys(ownKeys, deps, optional), ownKeys)
    decreases |ownKeys|
  {
    if ownKeys != [] {
      var front := ownKeys[..|ownKeys| - 1];
      var k := ownKeys[|ownKeys| - 1];
      AddedKeysMembers(front, deps, optional);
      assert ownKeys == front + [k];
      var added := AddedKeys(front, deps, optional);
      if k !in deps && !Flagged(optional, k) {
        assert AddedKeys(ownKeys, deps, optional) == added + [k];
        SubsequenceKeepBack(added, front, [k]);
      } else {
        assert AddedKeys(ownKeys, deps, optional) == added;
        SubsequenceDropBack(added, front, [k]);
      }
    }
  }

  /** A common suffix can be added to both sides. */
  lemma {:induction false} SubsequenceKeepBack(a: seq<string>, b: seq<string>, q: seq<string>)
    requires IsSubsequence(a, b)
    ensures IsSubsequence(a + q, b + q)
    decreases |b|
  {
    if a == [] {
      SubsequenceRefl(q);
      SubsequenceDropFront(q, b, q);
      assert a + q == q;
    } else if a[0] == b[0] && IsSubsequence(a[1..], b[1..]) {
      SubsequenceKeepBack(a[1..], b[1..], q);
      assert (a + q)[1..] == a[1..] + q && (b + q)[1..] == b[1..] + q;
    } else {
      SubsequenceKeepBack(a, b[1..], q);
      assert (b + q)[1..] == b[1..] + q;
    }
  }

  /** Elements added after the end of the larger sequence keep the relation. */
  lemma {:induction false} SubsequenceDropBack(a: seq<string>, b: seq<string>, q: seq<string>)
    requires IsSubsequence(a, b)
    ensures IsSubsequence(a, b + q)
    decreases |b|
  {
    if a != [] {
      if a[0] == b[0] && IsSubsequence(a[1..], b[1..]) {
        SubsequenceDropBack(a[1..], b[1..], q);
      } else {
        SubsequenceDropBack(a, b[1..], q);
      }
      assert (b + q)[1..] == b[1..] + q;
    }
  }

  /** The entries of `m` whose keys are listed in `ks`. */
  ghost function Restrict(m: map<string, Value>, ks: seq<string>): map<string, Value>
  {
    map k | k in ks && k in m :: m[k]
  }

  lemma RestrictStep(m: map<string, Value>, ks: seq<string>, k: string)
    requires k in m
    ensures Restrict(m, ks + [k]) == Restrict(m, ks)[k := m[k]]
  {
  }

  /** Merging one more own entry: a flagged one changes nothing, any other is set. */
  lemma MergedStep(deps: map<string, Value>, own: map<string, Value>, optional: Option<Value>, k: string, v: Value)
    ensures Flagged(optional, k) ==> Merged(deps, own[k := v], optional) == Merged(deps, own, optional)
    ensures !Flagged(optional, k) ==> Merged(deps, own[k := v], optional) == Merged(deps, own, optional)[k := v]
  {
  }

  /** The object after the loop has visited the own keys `ks`, in order. */
  ghost function MergeInto(deps: Dict<Value>, own: map<string, Value>, ks: seq<string>, optional: Option<Value>): (d: Dict<Value>)
    requires deps.Valid()
    requires forall i :: 0 <= i < |ks| ==> ks[i] in own
    ensures d.Valid()
    decreases |ks|
  {
    if ks == [] then deps
    else
      var k := ks[|ks| - 1];
      var front := MergeInto(deps, own, ks[..|ks| - 1], optional);
      if Flagged(optional, k) then front else front.Put(k, own[k])
  }

  /** The entries after the loop are the merged entries of the visited keys. */
  lemma {:induction false} MergeIntoValues(deps: Dict<Value>, own: map<string, Value>, ks: seq<string>, optional: Option<Value>)
    requires deps.Valid()
    requires forall i :: 0 <= i < |ks| ==> ks[i] in own
    ensures MergeInto(deps, own, ks, optional).values == Merged(deps.values, Restrict(own, ks), optional)
    decreases |ks|
  {
    if ks != [] {
      var front := ks[..|ks| - 1];
      var k := ks[|ks| - 1];
      assert ks == front + [k];
      MergeIntoValues(deps, own, front, optional);
      RestrictStep(own, front, k);
      MergedStep(deps.values, Restrict(own, front), optional, k, own[k]);
    }
  }

  /** Keys already present keep their place; the visited keys that were missing follow, in visiting order. */
  lemma {:induction false} MergeIntoKeys(deps: Dict<Value>, own: map<string, Value>, ks: seq<string>, optional: Option<Value>)
    requires deps.Valid() && NoRepeats(ks)
    requires forall i :: 0 <= i < |ks| ==> ks[i] in own
    ensures MergeInto(deps, own, ks, optional).keys == deps.keys + AddedKeys(ks, deps.values, optional)
    decreases |ks|
  {
    if ks != [] {
      var front := ks[..|ks| - 1];
      MergeIntoKeys(deps, own, front, optional);
      MergeIntoFresh(deps, own, front, optional, ks[|ks| - 1]);
      MergeIntoKeysLast(deps, own, ks, optional);
    }
  }

  /** The step of `MergeIntoKeys` for the last visited key. */
  lemma MergeIntoKeysLast(deps: Dict<Value>, own: map<string, Value>, ks: seq<string>, optional: Option<Value>)
    requires deps.Valid() && ks != []
    requires forall i :: 0 <= i < |ks| ==> ks[i] in own
    requires MergeInto(deps, own, ks[..|ks| - 1], optional).keys == deps.keys + AddedKeys(ks[..|ks| - 1], deps.values, optional)
    requires ks[|ks| - 1] in MergeInto(deps, own, ks[..|ks| - 1], optional).values <==> ks[|ks| - 1] in deps.values
    ensures MergeInto(deps, own, ks, optional).keys == deps.keys + AddedKeys(ks, deps.values, optional)
  {
    var front := ks[..|ks| - 1];
    var k := ks[|ks| - 1];
    var before := MergeInto(deps, own, front, optional);
    var added := AddedKeys(front, deps.values, optional);
    if Flagged(optional, k) || k in deps.values {
      assert MergeInto(deps, own, ks, optional).keys == before.keys;
      assert AddedKeys(ks, deps.values, optional) == added + [] == added;
    } else {
      assert MergeInto(deps, own, ks, optional).keys == before.keys + [k];
      assert AddedKeys(ks, deps.values, optional) == added + [k];
      Regroup(deps.keys, added, [k]);
    }
  }

  /** A key the loop has not visited yet is present only if it was present before. */
  lemma MergeIntoFresh(deps: Dict<Value>, own: map<string, Value>, ks: seq<string>, optional: Option<Value>, k: string)
    requires deps.Valid() && k !in ks
    requires forall i :: 0 <= i < |ks| ==> ks[i] in own
    ensures k in MergeInto(deps, own, ks, optional).values <==> k in deps.values
  {
    MergeIntoValues(deps, own, ks, optional);
    assert k !in Restrict(own, ks);
  }

  /**
   * The loop over the own dependencies: an own entry is copied over the
   * existing one unless its `optionalDependencies` entry is truthy. An
   * overridden key keeps its place; a new key goes last.
   */
  method MergeOwnDependencies(deps: Dict<Value>, own: Dict<Value>, optional: Option<Value>) returns (merged: Dict<Value>)
    requires deps.Valid() && own.Valid()
    requires own.keys != [] ==> OptionalReadable(optional)
    ensures merged.Valid()
    ensures merged.values == Merged(deps.values, own.values, optional)
    ensures merged.keys == deps.keys + AddedKeys(own.keys, deps.values, optional)
  {
    merged := deps;
    for i := 0 to |own.keys|
      invariant merged == MergeInto(deps, own.values, own.keys[..i], optional)
    {
      var key := own.keys[i];
      assert own.keys[..i + 1][..i] == own.keys[..i];
      if !Flagged(optional, key) {
        merged := merged.Put(key, own.values[key]);
      }
    }
    assert own.keys[..|own.keys|] == own.keys;
    MergeIntoValues(deps, own.values, own.keys, optional);
    MergeIntoKeys(deps, own.values, own.keys, optional);
    assert Restrict(own.values, own.keys) == own.values;
  }

  /**
   * The rebuild of the dependencies: a fresh object refilled with the keys
   * in ascending order, each with its old value.
   */
  method SortDependencies(deps: Dict<Value>) returns (sorted: Dict<Value>)
    requires deps.Valid()
    ensures sorted.Valid()
    ensures sorted.values == deps.values
    ensures StrictlyIncreasing(sorted.keys)
  {
    NoRepeatsDistinct(deps.keys);
    SortDistinct(deps.keys);
    var order := SortStrings(deps.keys);
    sorted := Refill(deps, order);
  }

  /** The `forEach` that copies the entries of `deps` into `{}` in the order `order` lists their keys. */
  method Refill(deps: Dict<Value>, order: seq<string>) returns (filled: Dict<Value>)
    requires Distinct(order)
    requires forall k :: k in order <==> k in deps.values
    ensures filled.Valid()
    ensures filled.keys == order
    ensures filled.values == deps.values
  {
    filled := EmptyDict();
    for i := 0 to |order|
      invariant filled.Valid()
      invariant filled.keys == order[..i]
      invariant forall k :: k in filled.values ==> k in deps.values && filled.values[k] == deps.values[k]
    {
      assert order[i] !in order[..i];
      filled := filled.Put(order[i], deps.values[order[i]]);
      assert order[..i + 1] == order[..i] + [order[i]];
    }
    assert order[..|order|] == order;
  }

  /**
   * The rebuilt dependencies depend only on the entries, not on the order
   * they were inserted in: two key-sorted objects with the same entries are
   * the same object, so sorting twice changes nothing.
   */
  lemma SortedDependenciesUnique(a: Dict<Value>, b: Dict<Value>)
    requires a.Valid() && b.Valid()
    requires StrictlyIncreasing(a.keys) && StrictlyIncreasing(b.keys)
    requires a.values == b.values
    ensures a == b
  {
    StrictlyIncreasingUnique(a.keys, b.keys);
  }

  /**
   * A template that depends on `react`, merged with own dependencies on
   * `typescript` and `eslint` where `eslint` is flagged optional, gains
   * `typescript` only.
   */
  lemma MergeExample()
    ensures Merged(map["react" := Str("^17.0.0")],
                   map["typescript" := Str("^4.0.0"), "eslint" := Str("^7.0.0")],
                   Some(Obj(Dict(["eslint"], map["eslint" := Bool(true)]))))
            == map["react" := Str("^17.0.0"), "typescript" := Str("^4.0.0")]
  {
  }

  /** `[k]` when the object lacks `k`: the key an assignment to `k` appends. */
  function Missing(k: string, d: Dict<Value>): seq<string>
  {
    if k in d.values then [] else [k]
  }

  /** The dependencies to start from and to merge, when both fields can be read as objects. */
  ghost predicate ManifestsReadable(app: Dict<Value>, own: Dict<Value>)
  {
    app.Valid() && own.Valid() &&
    ObjectOrEmpty(app.Get("dependencies")).Some? && ObjectOrEmpty(app.Get("dependencies")).value.Valid() &&
    ObjectOrEmpty(own.Get("dependencies")).Some? && ObjectOrEmpty(own.Get("dependencies")).value.Valid() &&
    (ObjectOrEmpty(own.Get("dependencies")).value.keys != [] ==> OptionalReadable(own.Get("optionalDependencies")))
  }

  /** The five field names are pairwise different; the first three have the same length and differ in their first letter. */
  lemma FieldNamesDiffer()
    ensures "dependencies" != "browserslist" && "dependencies" != "eslintConfig" && "browserslist" != "eslintConfig"
    ensures "scripts" != "dependencies" && "scripts" != "browserslist" && "scripts" != "eslintConfig"
    ensures "babel" != "dependencies" && "babel" != "browserslist" && "babel" != "eslintConfig" && "babel" != "scripts"
  {
    assert "dependencies"[0] == 'd' && "browserslist"[0] == 'b' && "eslintConfig"[0] == 'e';
  }

  /** An assignment to `k` appends `k` when it is new and otherwise keeps the key order. */
  lemma PutKeys(d: Dict<Value>, k: string, v: Value)
    requires d.Valid()
    ensures d.Put(k, v).keys == d.keys + Missing(k, d)
  {
  }

  /** Assigning one field leaves whether another field is missing unchanged. */
  lemma PutMissing(d: Dict<Value>, k: string, v: Value, j: string)
    requires d.Valid() && j != k
    ensures Missing(j, d.Put(k, v)) == Missing(j, d)
  {
  }

  /** The fields set before the files are copied: the dependencies default, `browserslist` and `eslintConfig`. */
  method SetDefaultFields(app: Dict<Value>) returns (out: Dict<Value>, deps: Dict<Value>)
    requires app.Valid() && ObjectOrEmpty(app.Get("dependencies")).Some?
    ensures deps == ObjectOrEmpty(app.Get("dependencies")).value
    ensures out.Valid()
    ensures out.keys == app.keys + Missing("dependencies", app) + Missing("browserslist", app) + Missing("eslintConfig", app)
    ensures out.values == app.values["dependencies" := Obj(deps)]["browserslist" := DefaultBrowsers]["eslintConfig" := EslintConfig]
  {
    FieldNamesDiffer();
    deps := ObjectOrEmpty(app.Get("dependencies")).value;
    var withDeps := app.Put("dependencies", Obj(deps));
    PutKeys(app, "dependencies", Obj(deps));
    var withBrowsers := withDeps.Put("browserslist", DefaultBrowsers);
    PutKeys(withDeps, "browserslist", DefaultBrowsers);
    PutMissing(app, "dependencies", Obj(deps), "browserslist");
    out := withBrowsers.Put("eslintConfig", EslintConfig);
    PutKeys(withBrowsers, "eslintConfig", EslintConfig);
    PutMissing(app, "dependencies", Obj(deps), "eslintConfig");
    PutMissing(withDeps, "browserslist", DefaultBrowsers, "eslintConfig");
  }

  /** The fields set after the merge: the sorted dependencies, `scripts`, `babel` and `eslintConfig` again. */
  method StampPolicyFields(pkg: Dict<Value>, sorted: Dict<Value>) returns (out: Dict<Value>)
    requires pkg.Valid() && "dependencies" in pkg.values && "eslintConfig" in pkg.values
    ensures out.Valid()
    ensures out.keys == pkg.keys + Missing("scripts", pkg) + Missing("babel", pkg)
    ensures out.values == pkg.values["dependencies" := Obj(sorted)]["scripts" := Scripts]["babel" := Babel]["eslintConfig" := EslintConfig]
  {
    FieldNamesDiffer();
    var withDeps := pkg.Put("dependencies", Obj(sorted));
    var withScripts := withDeps.Put("scripts", Scripts);
    PutKeys(withDeps, "scripts", Scripts);
    PutMissing(pkg, "dependencies", Obj(sorted), "scripts");
    var withBabel := withScripts.Put("babel", Babel);
    PutKeys(withScripts, "babel", Babel);
    PutMissing(pkg, "dependencies", Obj(sorted), "babel");
    PutMissing(withDeps, "scripts", Scripts, "babel");
    out := withBabel.Put("eslintConfig", EslintConfig);
  }

  /** What the two phases leave in each field of the manifest. */
  lemma StampedFields(app: Dict<Value>, pkg: Dict<Value>, out: Dict<Value>, deps: Dict<Value>, sorted: Dict<Value>)
    requires pkg.values == app.values["dependencies" := Obj(deps)]["browserslist" := DefaultBrowsers]["eslintConfig" := EslintConfig]
    requires out.values == pkg.values["dependencies" := Obj(sorted)]["scripts" := Scripts]["babel" := Babel]["eslintConfig" := EslintConfig]
    ensures forall k :: k !in PolicyFields ==> out.Get(k) == app.Get(k)
    ensures out.Get("browserslist") == Some(DefaultBrowsers)
    ensures out.Get("eslintConfig") == Some(EslintConfig)
    ensures out.Get("scripts") == Some(Scripts)
    ensures out.Get("babel") == Some(Babel)
    ensures out.Get("dependencies") == Some(Obj(sorted))
    ensures Missing("scripts", pkg) == Missing("scripts", app) && Missing("babel", pkg) == Missing("babel", app)
  {
    FieldNamesDiffer();
  }

  /**
   * Everything `init` does to the project's manifest `app`, given the
   * tool's own manifest `own`: the dependencies become the merged entries
   * in ascending key order, the four policy fields take their fixed
   * values, every other field is kept, and fields that were missing are
   * appended in the order they are first assigned.
   */
  method UpdateAppPackage(app: Dict<Value>, own: Dict<Value>) returns (out: Dict<Value>)
    requires ManifestsReadable(app, own)
    ensures out.Valid()
    ensures out.keys == app.keys + Missing("dependencies", app) + Missing("browserslist", app) + Missing("eslintConfig", app)
                                  + Missing("scripts", app) + Missing("babel", app)
    ensures forall k :: k !in PolicyFields ==> out.Get(k) == app.Get(k)
    ensures out.Get("browserslist") == Some(DefaultBrowsers)
    ensures out.Get("eslintConfig") == Some(EslintConfig)
    ensures out.Get("scripts") == Some(Scripts)
    ensures out.Get("babel") == Some(Babel)
    ensures out.Get("dependencies").Some? && out.Get("dependencies").value.Obj?
    ensures var d := out.Get("dependencies").value.obj;
      d.Valid() && StrictlyIncreasing(d.keys) &&
      d.values == Merged(ObjectOrEmpty(app.Get("dependencies")).value.values,
                         ObjectOrEmpty(own.Get("dependencies")).value.values,
                         own.Get("optionalDependencies"))
  {
    var pkg, deps := SetDefaultFields(app);
    var ownDeps := ObjectOrEmpty(own.Get("dependencies")).value;
    var merged := MergeOwnDependencies(deps, ownDeps, own.Get("optionalDependencies"));
    var sorted := SortDependencies(merged);
    out := StampPolicyFields(pkg, sorted);
    StampedFields(app, pkg, out, deps, sorted);
  }
}
