/**
 * JSON values as the scaffolding code sees them after `require` or
 * `ts.readConfigFile`, and JavaScript objects as ordered dictionaries:
 * a key list in insertion order beside the key-to-value map.
 */
module Json {
  import opened Wrappers
  import opened Text

  /** A JavaScript object: its own keys in insertion order and their values. */
  datatype Dict<V> = Dict(keys: seq<string>, values: map<string, V>)
  {
    /** Each key is listed once, and exactly the keys that have values are listed. */
    ghost predicate Valid()
    {
      NoRepeats(keys) && forall k :: k in keys <==> k in values
    }

    /** `obj[k] = v`: an existing key keeps its place, a new key goes last. */
    function Put(k: string, v: V): (d: Dict<V>)
      requires Valid()
      ensures d.Valid()
      ensures d.values == values[k := v]
      ensures k in values ==> d.keys == keys
      ensures k !in values ==> d.keys == keys + [k]
    {
      assert (keys + [k])[..|keys|] == keys;
      if k in values then Dict(keys, values[k := v]) else Dict(keys + [k], values[k := v])
    }

    /**
     * `obj[k]` for an own property: `None` is `undefined`. On a
     * well-formed object a key reads as defined exactly when it is listed.
     */
    function Get(k: string): (r: Option<V>)
      ensures Valid() ==> (r.Some? <==> k in keys)
      ensures r.Some? ==> k in values && r.value == values[k]
    {
      if k in values then Some(values[k]) else None
    }
  }

  /** The empty object `{}`. */
  function EmptyDict<V>(): (d: Dict<V>)
    ensures d.Valid() && d.keys == [] && d.values == map[]
  {
    Dict([], map[])
  }

  /**
   * A JSON value. `Token` stands for a value the TypeScript compiler
   * produces for an enumerated option (`ts.ScriptTarget.ES5` and the like);
   * tokens are compared only for identity.
   */
  datatype Value =
    | Null
    | Bool(b: bool)
    | Num(n: int)
    | Str(s: string)
    | Arr(items: seq<Value>)
    | Obj(obj: Dict<Value>)
    | Token(name: string)

  /** JavaScript truthiness, used by `if (x)`. */
  predicate Truthy(v: Option<Value>)
  {
    match v
    case None => false
    case Some(Null) => false
    case Some(Bool(b)) => b
    case Some(Num(n)) => n != 0
    case Some(Str(s)) => s != ""
    case Some(_) => true
  }
}
