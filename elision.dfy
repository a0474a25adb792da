/**
 * Subset-mode field elision (pkg/kubecfg/diff.go, isEmptyValue,
 * removeFields, removeMapFields, removeListFields): the live tree is
 * projected onto the shape of the config tree, so that fields the server
 * adds and the user never wrote do not show up as differences.
 */
module Elision {
  import opened Json

  /**
   * isEmptyValue: zero length for strings, maps and lists, false, zero.
   * A JSON null reaches the Go code as a nil interface, whose reflected kind
   * is Invalid; no case matches it and it is NOT empty.
   */
  predicate IsEmpty(v: Value)
    ensures IsEmpty(v) <==>
      v == JBool(false) || v == JNum(0) || v == JStr("") || v == JObj(map[]) || v == JArr([])
  {
    match v
    case JStr(s) => |s| == 0
    case JObj(m) => |m| == 0
    case JArr(a) => |a| == 0
    case JBool(b) => !b
    case JNum(n) => n == 0
    case JNull => false
  }

  /**
   * The inputs on which removeFields does not panic: wherever the recursion
   * meets a map (a list) in the config, the live value at the same place is a
   * map (a list) too. The Go type assertions `live.(map[string]interface{})`
   * and `live.([]interface{})` panic otherwise.
   */
  predicate Compatible(config: Value, live: Value)
    ensures config.JObj? && !live.JObj? ==> !Compatible(config, live)
    ensures config.JArr? && !live.JArr? ==> !Compatible(config, live)
    ensures !config.JObj? && !config.JArr? ==> Compatible(config, live)
    decreases config, 1
  {
    match config
    case JObj(cm) => live.JObj? && MapCompatible(cm, live.fields)
    case JArr(ca) => live.JArr? && ListCompatible(ca, live.items)
    case _ => true
  }

  predicate MapCompatible(config: map<string, Value>, live: map<string, Value>)
    decreases JObj(config), 0
  {
    forall k :: k in config && k in live ==> Compatible(config[k], live[k])
  }

  predicate ListCompatible(config: seq<Value>, live: seq<Value>)
    decreases JArr(config), 0
  {
    forall i :: 0 <= i < |config| && i < |live| ==> Compatible(config[i], live[i])
  }

  /** removeFields: dispatch on the shape of the config value. */
  function RemoveFields(config: Value, live: Value): (r: Value)
    requires Compatible(config, live)
    ensures !config.JObj? && !config.JArr? ==> r == live
    ensures config.JObj? ==> r.JObj? && r.fields.Keys <= config.fields.Keys
    ensures config.JArr? ==> r.JArr? && |r.items| == |live.items|
    decreases config, 1
  {
    match config
    case JObj(cm) => JObj(RemoveMapFields(cm, live.fields))
    case JArr(ca) => JArr(RemoveListFields(ca, live.items))
    case _ => live
  }

  /**
   * removeMapFields: only the config's keys survive; a key the live map
   * lacks survives, with the config's value, exactly when that value is empty.
   */
  function RemoveMapFields(config: map<string, Value>, live: map<string, Value>): (r: map<string, Value>)
    requires MapCompatible(config, live)
    ensures r.Keys <= config.Keys
    ensures forall k :: k in live && k !in config ==> k !in r
    ensures forall k :: k in config && k in live ==> k in r && r[k] == RemoveFields(config[k], live[k])
    ensures forall k :: k in config && k !in live ==> (k in r <==> IsEmpty(config[k]))
    ensures forall k :: k in r && k !in live ==> r[k] == config[k]
    decreases JObj(config), 0
  {
    map k | k in config && (k in live || IsEmpty(config[k])) ::
      if k in live then RemoveFields(config[k], live[k]) else config[k]
  }

  /**
   * removeListFields: the result is as long as the live list; positions the
   * config covers are projected, later live elements are kept as they are,
   * config elements past the end of the live list are dropped.
   */
  function RemoveListFields(config: seq<Value>, live: seq<Value>): (r: seq<Value>)
    requires ListCompatible(config, live)
    ensures |r| == |live|
    ensures forall i :: 0 <= i < |config| && i < |live| ==> r[i] == RemoveFields(config[i], live[i])
    ensures forall i :: |config| <= i < |live| ==> r[i] == live[i]
    decreases JArr(config), 0
  {
    seq(|live|, i requires 0 <= i < |live| =>
      if i < |config| then RemoveFields(config[i], live[i]) else live[i])
  }

  /**
   * The live value says everything the config says: each config key is in
   * live with an agreeing value, or is missing from live and empty; lists
   * have the same length and agree position by position; anything else is
   * equal.
   */
  ghost predicate Agrees(config: Value, live: Value)
    decreases config, 1
  {
    match config
    case JObj(cm) => live.JObj? && MapAgrees(cm, live.fields)
    case JArr(ca) => live.JArr? && |ca| == |live.items| &&
      forall i :: 0 <= i < |ca| ==> Agrees(ca[i], live.items[i])
    case _ => live == config
  }

  ghost predicate MapAgrees(config: map<string, Value>, live: map<string, Value>)
    decreases JObj(config), 0
  {
    forall k :: k in config ==>
      if k in live then Agrees(config[k], live[k]) else IsEmpty(config[k])
  }

  lemma {:induction false} AgreesIsCompatible(config: Value, live: Value)
    requires Agrees(config, live)
    ensures Compatible(config, live)
    decreases config
  {
    match config
    case JObj(cm) =>
      forall k | k in cm && k in live.fields
        ensures Compatible(cm[k], live.fields[k])
      {
        AgreesIsCompatible(cm[k], live.fields[k]);
      }
    case JArr(ca) =>
      forall i | 0 <= i < |ca| && i < |live.items|
        ensures Compatible(ca[i], live.items[i])
      {
        AgreesIsCompatible(ca[i], live.items[i]);
      }
    case _ =>
  }

  /**
   * The subset comparison reports no difference exactly when the live value
   * agrees with the config on everything the config specifies.
   */
  lemma {:induction false} UnchangedIffAgrees(config: Value, live: Value)
    requires Compatible(config, live)
    ensures RemoveFields(config, live) == config <==> Agrees(config, live)
    decreases config
  {
    match config
    case JObj(cm) =>
      var lm := live.fields;
      var r := RemoveMapFields(cm, lm);
      forall k | k in cm && k in lm
        ensures r[k] == cm[k] <==> Agrees(cm[k], lm[k])
      {
        UnchangedIffAgrees(cm[k], lm[k]);
      }
      if MapAgrees(cm, lm) {
        assert r.Keys == cm.Keys;
        assert r == cm;
      }
      if r == cm {
        forall k | k in cm
          ensures if k in lm then Agrees(cm[k], lm[k]) else IsEmpty(cm[k])
        {
          assert k in r;
        }
      }
    case JArr(ca) =>
      var la := live.items;
      var r := RemoveListFields(ca, la);
      forall i | 0 <= i < |ca| && i < |la|
        ensures r[i] == ca[i] <==> Agrees(ca[i], la[i])
      {
        UnchangedIffAgrees(ca[i], la[i]);
      }
      if r == ca {
        assert |ca| == |la|;
        forall i | 0 <= i < |ca|
          ensures Agrees(ca[i], la[i])
        {
          assert r[i] == ca[i];
        }
      }
    case _ =>
  }

  lemma {:induction false} AgreesWithSelf(v: Value)
    ensures Agrees(v, v)
    decreases v
  {
    match v
    case JObj(m) =>
      forall k | k in m
        ensures Agrees(m[k], m[k])
      {
        AgreesWithSelf(m[k]);
      }
    case JArr(a) =>
      forall i | 0 <= i < |a|
        ensures Agrees(a[i], a[i])
      {
        AgreesWithSelf(a[i]);
      }
    case _ =>
  }

  /** Projecting a config onto itself gives the config back. */
  lemma ProjectionOfSelf(config: Value)
    ensures Compatible(config, config) && RemoveFields(config, config) == config
  {
    AgreesWithSelf(config);
    AgreesIsCompatible(config, config);
    UnchangedIffAgrees(config, config);
  }

  /** Projecting an already projected live value changes nothing more. */
  lemma {:induction false} ProjectionIdempotent(config: Value, live: Value)
    requires Compatible(config, live)
    ensures Compatible(config, RemoveFields(config, live))
    ensures RemoveFields(config, RemoveFields(config, live)) == RemoveFields(config, live)
    decreases config
  {
    match config
    case JObj(cm) =>
      var lm := live.fields;
      var r := RemoveMapFields(cm, lm);
      forall k | k in cm && k in r
        ensures Compatible(cm[k], r[k]) && RemoveFields(cm[k], r[k]) == r[k]
      {
        if k in lm {
          ProjectionIdempotent(cm[k], lm[k]);
        } else {
          ProjectionOfSelf(cm[k]);
        }
      }
      assert MapCompatible(cm, r);
      var rr := RemoveMapFields(cm, r);
      assert rr.Keys == r.Keys;
      assert rr == r;
    case JArr(ca) =>
      var la := live.items;
      var r := RemoveListFields(ca, la);
      forall i | 0 <= i < |ca| && i < |r|
        ensures Compatible(ca[i], r[i]) && RemoveFields(ca[i], r[i]) == r[i]
      {
        ProjectionIdempotent(ca[i], la[i]);
      }
      assert ListCompatible(ca, r);
      var rr := RemoveListFields(ca, r);
      assert rr == r;
    case _ =>
  }
  /** A live field the config never mentions is pruned. */
  lemma ExtraLiveFieldPruned()
    ensures RemoveFields(JObj(map["a" := JStr("x")]), JObj(map["a" := JStr("x"), "b" := JStr("y")]))
            == JObj(map["a" := JStr("x")])
  {
    var r := RemoveMapFields(map["a" := JStr("x")], map["a" := JStr("x"), "b" := JStr("y")]);
    assert r.Keys == {"a"};
  }

  /** An explicitly empty config value that live lacks is kept; a non-empty or null one is dropped. */
  lemma MissingLiveFieldExamples()
    ensures RemoveFields(JObj(map["a" := JStr("")]), JObj(map[])) == JObj(map["a" := JStr("")])
    ensures RemoveFields(JObj(map["a" := JStr("x")]), JObj(map[])) == JObj(map[])
    ensures RemoveFields(JObj(map["a" := JNull]), JObj(map[])) == JObj(map[])
  {
    var r1 := RemoveMapFields(map["a" := JStr("x")], map[]);
    assert r1.Keys == {};
    var r2 := RemoveMapFields(map["a" := JNull], map[]);
    assert r2.Keys == {};
  }

  /** Trailing live list elements are kept, so a longer live list is a difference. */
  lemma TrailingLiveElementsKept()
    ensures RemoveFields(JArr([JStr("p")]), JArr([JStr("p"), JStr("q"), JStr("r")]))
            == JArr([JStr("p"), JStr("q"), JStr("r")])
  {
  }
}
