/** Properties of the secret-reference walk as a whole. */
module WalkerProperties {
  import opened Common
  import opened Strings
  import opened Payload
  import opened Walker

  /** A value holds no key (at any depth) that the walk would try to resolve. */
  predicate Inert(v: Value, guard: string)
    decreases v, 0
  {
    match v
    case Obj(m) => forall k :: k in m ==> InertEntry(k, m[k], guard)
    case _ => true
  }

  /** The entry `k -> v` of a map is a nested inert map, or not a `true`-valued guard key. */
  predicate InertEntry(k: string, v: Value, guard: string)
    decreases v, 1
  {
    if v.Obj? then Inert(v, guard) else !(Contains(k, guard) && v == Bool(true))
  }

  /** Walking a payload with nothing to resolve changes neither the payload nor the log. */
  lemma {:induction false} WalkInertIsIdentity(env: Env, guard: string, m: map<string, Value>, fails: seq<Failure>)
    requires env.Valid() && Inert(Obj(m), guard)
    ensures WalkMap(env, guard, m, fails) == Walked(m, fails)
    decreases Obj(m), 1
  {
    WalkKeysInertIsIdentity(env, guard, m, env.order(m), fails);
  }

  lemma {:induction false} WalkKeysInertIsIdentity(env: Env, guard: string, m: map<string, Value>,
                                                   keys: seq<string>, fails: seq<Failure>)
    requires env.Valid() && Inert(Obj(m), guard) && Distinct(keys) && Live(m, m, keys)
    ensures WalkKeys(env, guard, m, m, keys, fails) == Walked(m, fails)
    decreases Obj(m), 0, |keys|
  {
    if keys != [] {
      var k := keys[0];
      var v := Get(m, k);
      if v.Obj? {
        assert InertEntry(k, m[k], guard);
        WalkInertIsIdentity(env, guard, v.fields, fails);
        assert m[k := Obj(v.fields)] == m;
      } else {
        assert k in m ==> InertEntry(k, m[k], guard);
      }
      WalkKeysInertIsIdentity(env, guard, m, keys[1..], fails);
    }
  }

  /**
   * A key the walk cannot write keeps its value: it is not a map, not a
   * `true`-valued guard key, and no marker of the map names it as its field.
   */
  lemma {:induction false} UntouchedKeyKeepsValue(env: Env, guard: string, m: map<string, Value>,
                                                  fails: seq<Failure>, j: string)
    requires env.Valid()
    requires j in m && !m[j].Obj? && !(Contains(j, guard) && m[j] == Bool(true))
    requires forall k :: k in m && Contains(k, MarkerSeparator) ==> FieldName(k) != j
    requires WalkMap(env, guard, m, fails).Walked?
    ensures j in WalkMap(env, guard, m, fails).payload
    ensures WalkMap(env, guard, m, fails).payload[j] == m[j]
  {
    assert IsSnapshot(env.order(m), m);
    UntouchedKeyKeepsValueFrom(env, guard, m, m, env.order(m), fails, j);
  }

  lemma {:induction false} UntouchedKeyKeepsValueFrom(env: Env, guard: string, orig: map<string, Value>,
                                                      cur: map<string, Value>, keys: seq<string>,
                                                      fails: seq<Failure>, j: string)
    requires env.Valid() && Distinct(keys) && Live(orig, cur, keys)
    requires forall k :: k in keys ==> k in orig
    requires j in orig && !orig[j].Obj? && !(Contains(j, guard) && orig[j] == Bool(true))
    requires forall k :: k in orig && Contains(k, MarkerSeparator) ==> FieldName(k) != j
    requires j in cur && cur[j] == orig[j]
    requires WalkKeys(env, guard, orig, cur, keys, fails).Walked?
    ensures j in WalkKeys(env, guard, orig, cur, keys, fails).payload
    ensures WalkKeys(env, guard, orig, cur, keys, fails).payload[j] == orig[j]
    decreases |keys|
  {
    if keys != [] {
      var k := keys[0];
      var v := Get(cur, k);
      if v.Obj? {
        var n := WalkMap(env, guard, v.fields, fails);
        UntouchedKeyKeepsValueFrom(env, guard, orig, cur[k := Obj(n.payload)], keys[1..], n.fails, j);
      } else {
        var w := Visit(env, guard, cur, k, fails);
        VisitKeepsUntouched(env, guard, orig, cur, keys, fails, j);
        UntouchedKeyKeepsValueFrom(env, guard, orig, w.payload, keys[1..], w.fails, j);
      }
    }
  }

  /** Visiting one plain key keeps the untouched key and the live snapshot for the keys after it. */
  lemma VisitKeepsUntouched(env: Env, guard: string, orig: map<string, Value>, cur: map<string, Value>,
                            keys: seq<string>, fails: seq<Failure>, j: string)
    requires keys != [] && Distinct(keys) && Live(orig, cur, keys) && !Get(cur, keys[0]).Obj?
    requires keys[0] in orig
    requires j in orig && !orig[j].Obj? && !(Contains(j, guard) && orig[j] == Bool(true))
    requires forall k :: k in orig && Contains(k, MarkerSeparator) ==> FieldName(k) != j
    requires j in cur && cur[j] == orig[j]
    ensures var w := Visit(env, guard, cur, keys[0], fails);
            w.Walked? ==> Live(orig, w.payload, keys[1..]) && j in w.payload && w.payload[j] == orig[j]
  {
    var k := keys[0];
    if Contains(k, guard) && Get(cur, k) == Bool(true) && Resolve(env, k).Resolved? {
      assert Resolve(env, k).field == FieldName(k) != j;
    }
  }

  /**
   * A payload whose only resolvable key is the marker `k` (holding `true`)
   * ends exactly as the resolution of `k` says, whatever the key order:
   * the field replaces the marker, or the error is written back at the
   * marker and logged, or the walk panics at `k`.
   */
  lemma {:induction false} SingleMarker(env: Env, guard: string, m: map<string, Value>, k: string, fails: seq<Failure>)
    requires env.Valid()
    requires k in m && m[k] == Bool(true) && Contains(k, guard)
    requires Inert(Obj(m - {k}), guard)
    ensures match Resolve(env, k)
            case Malformed => WalkMap(env, guard, m, fails) == Crashed(k)
            case Failed(msg) => WalkMap(env, guard, m, fails) == Walked(m[k := Str(msg)], fails + [Failure(k, msg)])
            case Resolved(field, text) => WalkMap(env, guard, m, fails) == Walked(m[field := Str(text)] - {k}, fails)
  {
    var keys := env.order(m);
    assert IsSnapshot(keys, m);
    BeforeMarker(env, guard, m, k, keys, fails);
  }

  /** The keys before the marker leave the map as it is. */
  lemma {:induction false} BeforeMarker(env: Env, guard: string, m: map<string, Value>, k: string,
                                        keys: seq<string>, fails: seq<Failure>)
    requires env.Valid() && Distinct(keys) && Live(m, m, keys)
    requires forall j :: j in keys ==> j in m
    requires k in keys && m[k] == Bool(true) && Contains(k, guard)
    requires Inert(Obj(m - {k}), guard)
    ensures WalkKeys(env, guard, m, m, keys, fails) == Visit(env, guard, m, k, fails)
    decreases |keys|
  {
    var j := keys[0];
    if j == k {
      match Visit(env, guard, m, k, fails)
      case Crashed(_) =>
      case Walked(t, fails') =>
        assert forall i :: i in m && i != k ==> i in t && (t[i] == m[i] || t[i].Str?);
        AfterMarker(env, guard, m, k, t, keys[1..], fails');
    } else {
      assert j in m - {k};
      assert InertEntry(j, m[j], guard);
      if m[j].Obj? {
        WalkInertIsIdentity(env, guard, m[j].fields, fails);
        assert m[j := Obj(m[j].fields)] == m;
      }
      BeforeMarker(env, guard, m, k, keys[1..], fails);
    }
  }

  /** After the marker, every remaining key is inert or holds a string written by the marker's visit. */
  lemma {:induction false} AfterMarker(env: Env, guard: string, m: map<string, Value>, k: string,
                                       t: map<string, Value>, keys: seq<string>, fails: seq<Failure>)
    requires env.Valid() && Distinct(keys) && Live(m, t, keys)
    requires forall j :: j in keys ==> j in m && j != k
    requires Inert(Obj(m - {k}), guard)
    requires forall i :: i in m && i != k ==> i in t && (t[i] == m[i] || t[i].Str?)
    ensures WalkKeys(env, guard, m, t, keys, fails) == Walked(t, fails)
    decreases |keys|
  {
    if keys != [] {
      var j := keys[0];
      assert j in m - {k};
      assert InertEntry(j, m[j], guard);
      if t[j].Obj? {
        WalkInertIsIdentity(env, guard, t[j].fields, fails);
        assert t[j := Obj(t[j].fields)] == t;
      }
      assert Distinct(keys[1..]);
      assert Live(m, t, keys[1..]);
      assert forall i :: i in keys[1..] ==> i in keys;
      AfterMarker(env, guard, m, k, t, keys[1..], fails);
    }
  }

  /** A payload made of one `true`-valued guard key without `@/e2e/` panics at that key. */
  lemma CrashedAlone(env: Env, k: string, fails: seq<Failure>)
    requires env.Valid() && Contains(k, MarkerGuard) && !Contains(k, MarkerSeparator)
    ensures WalkMap(env, MarkerGuard, map[k := Bool(true)], fails) == Crashed(k)
  {
    var m := map[k := Bool(true)];
    assert m - {k} == map[];
    SingleMarker(env, MarkerGuard, m, k, fails);
  }

  /**
   * As written, a key that contains `@/` but not `@/e2e/` and holds `true`
   * makes the walk panic: `{"x@/kv/a.b": true}` is such a payload.
   */
  lemma GuardPanicExample(env: Env, fails: seq<Failure>)
    requires env.Valid()
    ensures WalkMap(env, MarkerGuard, map["x@/kv/a.b" := Bool(true)], fails) == Crashed("x@/kv/a.b")
  {
    var k := "x@/kv/a.b";
    OccursAtByChars(k, MarkerGuard, 1);
    assert !Contains(k, MarkerSeparator) by {
      forall j | 0 <= j <= |k| ensures !OccursAt(k, MarkerSeparator, j) {
        if j + 6 <= |k| {
          assert k[j + 2] != MarkerSeparator[2];
          assert k[j..j + 6][2] == k[j + 2];
        }
      }
    }
    CrashedAlone(env, k, fails);
  }

  /** A marker that fails beside a plain key: the error is written back and logged, the plain key kept. */
  lemma FailedBesidePlain(env: Env, k: string, msg: string, j: string, v: Value, fails: seq<Failure>)
    requires env.Valid() && Contains(k, MarkerGuard) && Resolve(env, k) == Failed(msg)
    requires j != k && !v.Obj? && !(Contains(j, MarkerGuard) && v == Bool(true))
    ensures WalkMap(env, MarkerGuard, map[k := Bool(true), j := v], fails)
            == Walked(map[k := Str(msg), j := v], fails + [Failure(k, msg)])
  {
    var m := map[k := Bool(true), j := v];
    var rest := map[j := v];
    assert m - {k} == rest;
    assert Inert(Obj(rest), MarkerGuard) by {
      assert forall i :: i in rest ==> i == j;
      assert InertEntry(j, v, MarkerGuard);
    }
    SingleMarker(env, MarkerGuard, m, k, fails);
    assert m[k := Str(msg)] == map[k := Str(msg), j := v];
  }

  /**
   * A marker whose secret is absent is replaced by "Error: path not found"
   * and logged once, and a sibling plain key keeps its value.
   */
  lemma AbsentSecretExample(env: Env, fails: seq<Failure>)
    requires env.Valid() && env.get("missing") == Absent
    ensures var k := "a@/e2e/missing.x";
            var m := map[k := Bool(true), "b" := Num(1.0)];
            WalkMap(env, MarkerGuard, m, fails)
            == Walked(map[k := Str(NotFound), "b" := Num(1.0)], fails + [Failure(k, NotFound)])
  {
    var k := MarkerKey("a", "missing", "x");
    assert k == "a@/e2e/missing.x";
    assert !Contains("a", MarkerSeparator);
    WithoutChar("missing", '.');
    MarkerKeyParts("a", "missing", "x");
    SeparatorPassesGuard(k);
    AbsentSecretIsNotFound(env, k);
    FailedBesidePlain(env, k, NotFound, "b", Num(1.0), fails);
  }

  /** A payload made of one marker that resolves becomes the payload made of its field. */
  lemma ResolvedAlone(env: Env, k: string, field: string, text: string, fails: seq<Failure>)
    requires env.Valid() && Contains(k, MarkerGuard) && Resolve(env, k) == Resolved(field, text)
    ensures WalkMap(env, MarkerGuard, map[k := Bool(true)], fails) == Walked(map[field := Str(text)], fails)
  {
    var m := map[k := Bool(true)];
    assert m - {k} == map[];
    SingleMarker(env, MarkerGuard, m, k, fails);
    assert k != field by {
      assert OccursAt(k, MarkerSeparator, |field|);
    }
    assert m[field := Str(text)] - {k} == map[field := Str(text)];
  }

  /**
   * A marker whose secret resolves is replaced by its field: the payload
   * `{"pw@/e2e/db.pass": true}` becomes `{"pw": <the rendered text>}`.
   */
  lemma ResolvedMarkerExample(env: Env, fails: seq<Failure>, blob: seq<Byte>, data: map<string, Value>, k: string)
    requires k == "pw@/e2e/db.pass"
    requires env.Valid() && env.get("db") == Found(blob) && env.unmarshal(blob) == Decoded(data)
    requires env.parse("{{.pass}}") == None && env.execute("{{.pass}}", data) == Rendered("s3cret")
    ensures WalkMap(env, MarkerGuard, map[k := Bool(true)], fails) == Walked(map["pw" := Str("s3cret")], fails)
  {
    assert k == MarkerKey("pw", "db", "pass");
    assert !Contains("pw", MarkerSeparator);
    WithoutChar("db", '.');
    assert "{{" + ("." + "pass") + "}}" == "{{.pass}}";
    ResolveMarkerKey(env, "pw", "db", "pass", blob, data, "s3cret");
    SeparatorPassesGuard(k);
    ResolvedAlone(env, k, "pw", "s3cret", fails);
  }

  /** Distinct keys that are all `o` are at most one. */
  lemma DistinctAllSame(keys: seq<string>, o: string)
    requires Distinct(keys) && forall i :: 0 <= i < |keys| ==> keys[i] == o
    ensures |keys| <= 1
  {
    if |keys| >= 2 {
      DistinctPair(keys, 0, 1);
      assert false;
    }
  }

  lemma DistinctPair(keys: seq<string>, i: nat, j: nat)
    requires Distinct(keys) && i < j < |keys|
    ensures keys[i] != keys[j]
  {
  }

  /** A map holding one nested map is walked by walking the nested map and storing the result back. */
  lemma NestedAlone(env: Env, guard: string, o: string, inner: map<string, Value>, fails: seq<Failure>)
    requires env.Valid()
    ensures match WalkMap(env, guard, inner, fails)
            case Crashed(c) => WalkMap(env, guard, map[o := Obj(inner)], fails) == Crashed(c)
            case Walked(n, fails') => WalkMap(env, guard, map[o := Obj(inner)], fails) == Walked(map[o := Obj(n)], fails')
  {
    var m := map[o := Obj(inner)];
    var keys := env.order(m);
    assert IsSnapshot(keys, m);
    forall i | 0 <= i < |keys| ensures keys[i] == o {
      assert keys[i] in keys;
    }
    DistinctAllSame(keys, o);
    assert o in keys;
    assert keys == [o];
    NestedStep(env, guard, m, m, keys, fails);
    match WalkMap(env, guard, inner, fails)
    case Crashed(_) =>
    case Walked(n, _) =>
      assert m[o := Obj(n)] == map[o := Obj(n)];
  }

  /**
   * A marker one level down is resolved inside its own map, and the walked
   * map is stored back under its key: `{o: {k: true}}` ends as the
   * resolution of `k` says, one level down.
   */
  lemma NestedMarker(env: Env, guard: string, o: string, k: string, fails: seq<Failure>)
    requires env.Valid() && Contains(k, guard)
    ensures var r := Resolve(env, k);
            var w := WalkMap(env, guard, map[o := Obj(map[k := Bool(true)])], fails);
            && (r.Malformed? ==> w == Crashed(k))
            && (r.Failed? ==> w == Walked(map[o := Obj(map[k := Str(r.msg)])], fails + [Failure(k, r.msg)]))
            && (r.Resolved? ==> w == Walked(map[o := Obj(map[r.field := Str(r.text)])], fails))
  {
    var inner := map[k := Bool(true)];
    assert inner - {k} == map[];
    SingleMarker(env, guard, inner, k, fails);
    NestedAlone(env, guard, o, inner, fails);
    match Resolve(env, k)
    case Malformed =>
    case Failed(msg) =>
      assert inner[k := Str(msg)] == map[k := Str(msg)];
    case Resolved(field, text) =>
      FieldNameIsNotKey(k);
      assert inner[field := Str(text)] - {k} == map[field := Str(text)];
  }

  /**
   * Nested resolution: in `{"outer": {"inner@/e2e/x.y": true}}` the marker is
   * resolved inside `outer`, which ends as `{"inner": <text>}` or holds the
   * marker's error, logged once.
   */
  lemma NestedMarkerExample(env: Env, fails: seq<Failure>, k: string)
    requires k == "inner@/e2e/x.y" && env.Valid()
    ensures var r := Resolve(env, k);
            var w := WalkMap(env, MarkerGuard, map["outer" := Obj(map[k := Bool(true)])], fails);
            && !r.Malformed?
            && (r.Failed? ==> w == Walked(map["outer" := Obj(map[k := Str(r.msg)])], fails + [Failure(k, r.msg)]))
            && (r.Resolved? ==> w == Walked(map["outer" := Obj(map["inner" := Str(r.text)])], fails))
  {
    assert k == MarkerKey("inner", "x", "y");
    assert !Contains("inner", MarkerSeparator);
    WithoutChar("x", '.');
    MarkerKeyParts("inner", "x", "y");
    SeparatorPassesGuard(k);
    NestedMarker(env, MarkerGuard, "outer", k, fails);
  }
}
