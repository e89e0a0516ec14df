/**
 * The walk under the guard `@/e2e/` over a map whose markers sit at its top
 * level: every marker ends as its own resolution says, whatever the key
 * order and whatever the other markers do, and the log grows by exactly
 * the errors of the failing markers, in key order.
 */
module WalkerMarkers {
  import opened Common
  import opened Strings
  import opened Payload
  import opened Walker
  import opened WalkerProperties

  /** `k` is a marker of `m`: it contains `@/e2e/` and holds `true`. */
  predicate IsMarker(m: map<string, Value>, k: string)
  {
    Contains(k, MarkerSeparator) && Get(m, k) == Bool(true)
  }

  /** What the key `k` of `m` adds to the log on its own: one entry when it is a marker that fails. */
  function Recorded(env: Env, m: map<string, Value>, k: string): seq<Failure>
  {
    if IsMarker(m, k) && Resolve(env, k).Failed? then [Failure(k, Resolve(env, k).msg)] else []
  }

  /** The errors the markers among `keys` record, in key order, each judged on `m` alone. */
  function MarkerFailures(env: Env, m: map<string, Value>, keys: seq<string>): (r: seq<Failure>)
    ensures forall i :: 0 <= i < |r| ==>
              r[i].key in keys && IsMarker(m, r[i].key) && Resolve(env, r[i].key) == Failed(r[i].msg)
  {
    if keys == [] then [] else Recorded(env, m, keys[0]) + MarkerFailures(env, m, keys[1..])
  }

  /** Marker `k` ended in `p` as its resolution says: its error written back at it, or the marker removed. */
  predicate Settled(env: Env, k: string, p: map<string, Value>)
  {
    match Resolve(env, k)
    case Failed(msg) => k in p && p[k] == Str(msg)
    case Resolved(_, _) => k !in p
    case Malformed => false
  }

  /** `k` is a marker of `m` that resolves, and no other resolving marker of `m` names the same field. */
  ghost predicate SoleResolver(env: Env, m: map<string, Value>, k: string)
  {
    && IsMarker(m, k) && Resolve(env, k).Resolved?
    && forall j :: IsMarker(m, j) && Resolve(env, j).Resolved? && j != k ==>
         Resolve(env, j).field != Resolve(env, k).field
  }

  /** The field of the resolved marker `k` holds its rendered text in `p`. */
  predicate FieldWritten(env: Env, k: string, p: map<string, Value>)
    requires Resolve(env, k).Resolved?
  {
    Resolve(env, k).field in p && p[Resolve(env, k).field] == Str(Resolve(env, k).text)
  }

  /** `j` is the field of the key `k` when `k` is a marker of `m` that resolves. */
  predicate Targets(env: Env, m: map<string, Value>, k: string, j: string)
  {
    IsMarker(m, k) && Resolve(env, k).Resolved? && Resolve(env, k).field == j
  }

  /** No key among `keys` is a resolving marker of `m` whose field is `j`. */
  predicate Untargeted(env: Env, m: map<string, Value>, keys: seq<string>, j: string)
  {
    forall k :: k in keys ==> !Targets(env, m, k, j)
  }

  /** `p` and `q` agree at `k`: both lack it, or both hold the same value there. */
  predicate SameAt(p: map<string, Value>, q: map<string, Value>, k: string)
  {
    (k in p <==> k in q) && (k in p ==> p[k] == q[k])
  }

  /** No map-valued entry of `m` holds a marker, at any depth. */
  predicate NestedInert(m: map<string, Value>)
  {
    forall k :: k in m && m[k].Obj? ==> Inert(m[k], MarkerSeparator)
  }

  /** The map-valued entries of `cur` are entries of `m`, unchanged. */
  predicate MapsFrom(m: map<string, Value>, cur: map<string, Value>)
  {
    forall k :: k in cur && cur[k].Obj? ==> k in m && cur[k] == m[k]
  }

  /**
   * The visit of one plain key under `@/e2e/`: it never panics, it records
   * what `Recorded` says, it settles the key when the key is a marker of
   * `m`, writing a resolved marker's text at its field, and it leaves
   * every other key that contains `@/e2e/` alone (a field name never
   * contains `@/e2e/`), and every key without `@/e2e/` but that field.
   */
  lemma VisitUnderSeparator(env: Env, m: map<string, Value>, cur: map<string, Value>, k: string, fails: seq<Failure>)
    requires !Get(cur, k).Obj? && MapsFrom(m, cur)
    requires Contains(k, MarkerSeparator) ==> Get(cur, k) == Get(m, k)
    ensures var w := Visit(env, MarkerSeparator, cur, k, fails);
            && w.Walked? && w.fails == fails + Recorded(env, m, k)
            && (IsMarker(m, k) ==> Settled(env, k, w.payload))
            && (IsMarker(m, k) && Resolve(env, k).Resolved? ==> FieldWritten(env, k, w.payload))
            && MapsFrom(m, w.payload)
            && (forall j :: j != k && Contains(j, MarkerSeparator) ==> SameAt(w.payload, cur, j))
            && forall j :: !Contains(j, MarkerSeparator) && !Targets(env, m, k, j) ==> SameAt(w.payload, cur, j)
  {
    if IsMarker(m, k) && Resolve(env, k).Resolved? {
      assert !Contains(Resolve(env, k).field, MarkerSeparator);
      FieldNameIsNotKey(k);
    }
  }

  /**
   * One step of the walk over `keys`: the head key is walked into the map
   * `next` and the log `after`, and the rest of the walk goes on from there.
   */
  lemma HeadStep(env: Env, m: map<string, Value>, cur: map<string, Value>, keys: seq<string>, fails: seq<Failure>)
      returns (next: map<string, Value>, after: seq<Failure>)
    requires env.Valid() && Distinct(keys) && keys != [] && NestedInert(m) && MapsFrom(m, cur)
    requires forall k :: k in keys && Contains(k, MarkerSeparator) ==> Get(cur, k) == Get(m, k)
    ensures Live(m, cur, keys) && Live(m, next, keys[1..]) && Distinct(keys[1..])
    ensures WalkKeys(env, MarkerSeparator, m, cur, keys, fails)
            == WalkKeys(env, MarkerSeparator, m, next, keys[1..], after)
    ensures after == fails + Recorded(env, m, keys[0]) && MapsFrom(m, next)
    ensures forall k :: k in keys[1..] && Contains(k, MarkerSeparator) ==> Get(next, k) == Get(m, k)
    ensures IsMarker(m, keys[0]) ==> Settled(env, keys[0], next)
    ensures IsMarker(m, keys[0]) && Resolve(env, keys[0]).Resolved? ==> FieldWritten(env, keys[0], next)
    ensures forall j :: j != keys[0] && Contains(j, MarkerSeparator) ==> SameAt(next, cur, j)
    ensures forall j :: !Contains(j, MarkerSeparator) && !Targets(env, m, keys[0], j) ==> SameAt(next, cur, j)
  {
    var k := keys[0];
    assert Distinct(keys[1..]);
    assert forall j :: j in keys[1..] ==> j in keys && j != k;
    if Get(cur, k).Obj? {
      NestedStep(env, MarkerSeparator, m, cur, keys, fails);
      var inner := Get(cur, k).fields;
      assert Inert(Obj(inner), MarkerSeparator);
      WalkInertIsIdentity(env, MarkerSeparator, inner, fails);
      assert cur[k := Obj(inner)] == cur;
      next, after := cur, fails;
    } else {
      VisitStep(env, MarkerSeparator, m, cur, keys, fails);
      VisitUnderSeparator(env, m, cur, k, fails);
      var w := Visit(env, MarkerSeparator, cur, k, fails);
      next, after := w.payload, w.fails;
    }
  }

  /**
   * Walking `keys` over the live map `cur`: every marker of `m` among the
   * keys settles, the log grows by `MarkerFailures`, each sole resolver
   * among the keys leaves its text at its field, and keys with `@/e2e/`
   * outside `keys`, like keys without it that no resolving marker among
   * `keys` names, are left alone.
   */
  lemma {:induction false} MarkersFrom(env: Env, m: map<string, Value>, cur: map<string, Value>,
                                       keys: seq<string>, fails: seq<Failure>)
    requires env.Valid() && Distinct(keys) && NestedInert(m) && MapsFrom(m, cur)
    requires forall k :: k in keys && Contains(k, MarkerSeparator) ==> Get(cur, k) == Get(m, k)
    ensures Live(m, cur, keys)
    ensures var w := WalkKeys(env, MarkerSeparator, m, cur, keys, fails);
            && w.fails == fails + MarkerFailures(env, m, keys)
            && (forall k :: k in keys && IsMarker(m, k) ==> Settled(env, k, w.payload))
            && (forall k :: k in keys && SoleResolver(env, m, k) ==> FieldWritten(env, k, w.payload))
            && (forall k :: k !in keys && Contains(k, MarkerSeparator) ==> SameAt(w.payload, cur, k))
            && (forall j :: !Contains(j, MarkerSeparator) && Untargeted(env, m, keys, j) ==> SameAt(w.payload, cur, j))
    decreases |keys|
  {
    if keys != [] {
      var k := keys[0];
      var next, after := HeadStep(env, m, cur, keys, fails);
      MarkersFrom(env, m, next, keys[1..], after);
      assert forall j :: j in keys <==> j == k || j in keys[1..];
      assert k !in keys[1..];
      assert after + MarkerFailures(env, m, keys[1..]) == fails + MarkerFailures(env, m, keys);
      if SoleResolver(env, m, k) {
        var f := Resolve(env, k).field;
        assert !Contains(f, MarkerSeparator);
        assert Untargeted(env, m, keys[1..], f);
      }
    }
  }

  /** The failing markers of `m`. */
  function FailingMarkers(env: Env, m: map<string, Value>): set<string>
  {
    set k | k in m && IsMarker(m, k) && Resolve(env, k).Failed?
  }

  /** The failing markers among `keys`. */
  function FailingAmong(env: Env, m: map<string, Value>, keys: seq<string>): set<string>
  {
    set k | k in keys && IsMarker(m, k) && Resolve(env, k).Failed?
  }

  /** The failing markers among `keys` are those of its head and those of its tail. */
  lemma FailingAmongSplit(env: Env, m: map<string, Value>, keys: seq<string>)
    requires keys != []
    ensures FailingAmong(env, m, keys)
            == (if IsMarker(m, keys[0]) && Resolve(env, keys[0]).Failed? then {keys[0]} else {})
               + FailingAmong(env, m, keys[1..])
  {
    assert forall j :: j in keys <==> j == keys[0] || j in keys[1..];
  }

  /** Over distinct keys, `MarkerFailures` has one entry per failing marker. */
  lemma {:induction false} MarkerFailuresCount(env: Env, m: map<string, Value>, keys: seq<string>)
    requires Distinct(keys)
    ensures |MarkerFailures(env, m, keys)| == |FailingAmong(env, m, keys)|
  {
    if keys != [] {
      assert Distinct(keys[1..]);
      MarkerFailuresCount(env, m, keys[1..]);
      FailingAmongSplit(env, m, keys);
      assert keys[0] !in FailingAmong(env, m, keys[1..]);
    }
  }

  /**
   * Best effort, not all or nothing: under the guard `@/e2e/`, in a map
   * whose nested maps hold no markers, every marker ends as its own
   * resolution says, whatever the key order: its error written back at it,
   * or the marker removed and, unless another resolving marker names the
   * same field, its text at its field. The log grows by the failing
   * markers' errors, in key order, one per failing marker.
   */
  lemma EveryMarkerSettles(env: Env, m: map<string, Value>, fails: seq<Failure>)
    requires env.Valid() && NestedInert(m)
    ensures var w := WalkMap(env, MarkerSeparator, m, fails);
            && w.fails == fails + MarkerFailures(env, m, env.order(m))
            && |w.fails| == |fails| + |FailingMarkers(env, m)|
            && (forall k :: IsMarker(m, k) ==> Settled(env, k, w.payload))
            && forall k :: SoleResolver(env, m, k) ==> FieldWritten(env, k, w.payload)
  {
    var keys := env.order(m);
    assert IsSnapshot(keys, m);
    MarkersFrom(env, m, m, keys, fails);
    MarkerFailuresCount(env, m, keys);
    assert FailingAmong(env, m, keys) == FailingMarkers(env, m);
  }

  /** Where a visit under `@/` does not panic, it is the visit under `@/e2e/`. */
  lemma VisitGuardsAgree(env: Env, cur: map<string, Value>, k: string, fails: seq<Failure>)
    requires !Get(cur, k).Obj? && Visit(env, MarkerGuard, cur, k, fails).Walked?
    ensures Visit(env, MarkerGuard, cur, k, fails) == Visit(env, MarkerSeparator, cur, k, fails)
  {
    if Contains(k, MarkerSeparator) {
      SeparatorPassesGuard(k);
    }
  }

  /**
   * The walk as written, with markers recognised by `@/`, agrees with the
   * walk under `@/e2e/` whenever it does not panic: a key with `@/e2e/`
   * passes both guards, and one with `@/` alone panics under the first.
   */
  lemma {:induction false} GuardsAgree(env: Env, m: map<string, Value>, fails: seq<Failure>)
    requires env.Valid()
    ensures WalkMap(env, MarkerGuard, m, fails).Walked? ==>
              WalkMap(env, MarkerGuard, m, fails) == WalkMap(env, MarkerSeparator, m, fails)
    decreases Obj(m), 1, 0
  {
    assert IsSnapshot(env.order(m), m);
    GuardsAgreeKeys(env, m, m, env.order(m), fails);
  }

  /** `GuardsAgree` for the walk over the remaining snapshot keys. */
  lemma {:induction false} GuardsAgreeKeys(env: Env, orig: map<string, Value>, cur: map<string, Value>,
                                           keys: seq<string>, fails: seq<Failure>)
    requires env.Valid() && Distinct(keys) && Live(orig, cur, keys)
    ensures WalkKeys(env, MarkerGuard, orig, cur, keys, fails).Walked? ==>
              WalkKeys(env, MarkerGuard, orig, cur, keys, fails) == WalkKeys(env, MarkerSeparator, orig, cur, keys, fails)
    decreases Obj(orig), 0, |keys|
  {
    if keys != [] {
      var k := keys[0];
      assert Distinct(keys[1..]);
      if Get(cur, k).Obj? {
        var inner := Get(cur, k).fields;
        assert Obj(inner) == orig[k];
        NestedStep(env, MarkerGuard, orig, cur, keys, fails);
        NestedStep(env, MarkerSeparator, orig, cur, keys, fails);
        GuardsAgree(env, inner, fails);
        match WalkMap(env, MarkerGuard, inner, fails)
        case Crashed(_) =>
        case Walked(n, fails') =>
          GuardsAgreeKeys(env, orig, cur[k := Obj(n)], keys[1..], fails');
      } else {
        VisitStep(env, MarkerGuard, orig, cur, keys, fails);
        VisitStep(env, MarkerSeparator, orig, cur, keys, fails);
        match Visit(env, MarkerGuard, cur, k, fails)
        case Crashed(_) =>
        case Walked(cur', fails') =>
          VisitGuardsAgree(env, cur, k, fails);
          GuardsAgreeKeys(env, orig, cur', keys[1..], fails');
      }
    }
  }

  /**
   * The walk as written settles every marker: when `populate` completes
   * with the map `p` and the log `fails'` (the `Completed` case of
   * `Populate`), every marker of a map whose nested maps hold no markers
   * ends as `EveryMarkerSettles` says.
   */
  lemma CompletedWalkSettles(env: Env, m: map<string, Value>, fails: seq<Failure>,
                             p: map<string, Value>, fails': seq<Failure>)
    requires env.Valid() && NestedInert(m)
    requires WalkMap(env, MarkerGuard, m, fails) == Walked(p, fails')
    ensures fails' == fails + MarkerFailures(env, m, env.order(m))
    ensures |fails'| == |fails| + |FailingMarkers(env, m)|
    ensures forall k :: IsMarker(m, k) ==> Settled(env, k, p)
    ensures forall k :: SoleResolver(env, m, k) ==> FieldWritten(env, k, p)
  {
    GuardsAgree(env, m, fails);
    EveryMarkerSettles(env, m, fails);
  }
}
