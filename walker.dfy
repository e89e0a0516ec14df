/**
 * The secret-reference walker: `populate` and `payloadError` of
 * plugin/path_payload.go. The specification functions describe one walk
 * over a map (keys snapshot first, values read live); the methods do the
 * walk step by step on a shared error log, as the Go code does through
 * its `*errorCount` and `*errors` pointers.
 */
module Walker {
  import opened Common
  import opened Strings
  import opened Payload

  /** One recorded resolution error: the marker key and the message written back at it. */
  datatype Failure = Failure(key: string, msg: string)

  /** The error-list line for the `n`-th error, `fmt.Sprintf("%3d) `%s`: %s", n, key, msg)`. */
  function Entry(n: nat, f: Failure): string
  {
    PadLeft3(Decimal(n)) + ") `" + f.key + "`: " + f.msg
  }

  /**
   * The layout of an error-list line: the number right-aligned in three
   * columns (more for 1000 and beyond), then ``) ` ``, the key, ``` `: ```,
   * and the message at the end.
   */
  lemma EntryLayout(n: nat, f: Failure)
    ensures var r := Entry(n, f); var num := PadLeft3(Decimal(n));
            && |num| + 6 + |f.key| + |f.msg| == |r|
            && TrimLeft(r[..|num|], " ") == Decimal(n)
            && (n < 1000 ==> |num| == 3)
            && r[|num|..|num| + 3] == ") `"
            && r[|num| + 3..|num| + 3 + |f.key|] == f.key
            && r[|num| + 3 + |f.key|..|num| + 6 + |f.key|] == "`: "
            && r[|r| - |f.msg|..] == f.msg
  {
    Columns(PadLeft3(Decimal(n)), f.key, f.msg);
    EntryNumber(n, f);
  }

  /** The first column of an error-list line reads, spaces trimmed, as the error's number. */
  lemma EntryNumber(n: nat, f: Failure)
    ensures var r := Entry(n, f); var num := PadLeft3(Decimal(n));
            && |num| <= |r| && TrimLeft(r[..|num|], " ") == Decimal(n)
            && (n < 1000 ==> |num| == 3)
  {
    var num := PadLeft3(Decimal(n));
    assert Entry(n, f)[..|num|] == num;
    TrimPadding(Decimal(n));
    ShortDecimal(n);
  }

  /** Where each part of `num + ") `" + key + "`: " + msg` sits. */
  lemma Columns(num: string, key: string, msg: string)
    ensures var r := num + ") `" + key + "`: " + msg;
            && |num| + 6 + |key| + |msg| == |r|
            && r[..|num|] == num
            && r[|num|..|num| + 3] == ") `"
            && r[|num| + 3..|num| + 3 + |key|] == key
            && r[|num| + 3 + |key|..|num| + 6 + |key|] == "`: "
            && r[|r| - |msg|..] == msg
  {
    var tail := ") `" + key + "`: " + msg;
    var r := num + tail;
    assert r[..|num|] == num && r[|num|..] == tail;
    assert r[|num|..|num| + 3] == tail[..3] == ") `";
    assert r[|num| + 3..|num| + 3 + |key|] == tail[3..3 + |key|] == key;
    assert r[|num| + 3 + |key|..|num| + 6 + |key|] == tail[3 + |key|..6 + |key|] == "`: ";
  }

  /** The result of walking a map: the updated map and the whole failure log, or a panic at a key. */
  datatype Walk = Walked(payload: map<string, Value>, fails: seq<Failure>) | Crashed(key: string)

  /** No key occurs twice in `keys`. */
  ghost predicate Distinct(keys: seq<string>)
  {
    forall i, j :: 0 <= i < j < |keys| ==> keys[i] != keys[j]
  }

  /**
   * Every key still to be visited whose live value is a map holds the value it
   * had when the keys were snapshot, so the walk recurses only into parts of
   * the original tree.
   */
  ghost predicate Live(orig: map<string, Value>, cur: map<string, Value>, keys: seq<string>)
  {
    forall k :: k in keys && k in cur && cur[k].Obj? ==> k in orig && cur[k] == orig[k]
  }

  /** `fails'` extends `fails` only by errors written as `Error: ...` at keys that hold `@/e2e/`. */
  ghost predicate LogExtends(fails: seq<Failure>, fails': seq<Failure>)
  {
    && fails <= fails'
    && forall j :: |fails| <= j < |fails'| ==>
         ErrorPrefix <= fails'[j].msg && Contains(fails'[j].key, MarkerSeparator)
  }

  lemma LogExtendsTrans(a: seq<Failure>, b: seq<Failure>, c: seq<Failure>)
    requires LogExtends(a, b) && LogExtends(b, c)
    ensures LogExtends(a, c)
  {
  }

  /**
   * The visit of one key whose live value is not a map: a key that contains
   * `guard` and holds `true` is resolved; its resolution either replaces the
   * marker by `field -> text`, writes the error back at the marker and logs
   * it, or panics; every other key is left alone.
   */
  function Visit(env: Env, guard: string, cur: map<string, Value>, k: string, fails: seq<Failure>): (w: Walk)
    requires !Get(cur, k).Obj?
    ensures !(Contains(k, guard) && Get(cur, k) == Bool(true)) ==> w == Walked(cur, fails)
    ensures w.Crashed? <==> Contains(k, guard) && Get(cur, k) == Bool(true) && !Contains(k, MarkerSeparator)
    ensures w.Walked? ==> LogExtends(fails, w.fails) && |w.fails| <= |fails| + 1
    ensures w.Walked? && |w.fails| > |fails| ==>
              w.fails[|fails|].key == k && w.payload == cur[k := Str(w.fails[|fails|].msg)]
    ensures w.Walked? && |w.fails| == |fails| && w.payload != cur ==>
              k !in w.payload && Contains(k, MarkerSeparator) && FieldName(k) in w.payload
              && w.payload[FieldName(k)].Str? && w.payload[FieldName(k)].s != []
              && forall j :: j != k && j != FieldName(k) ==> Get(w.payload, j) == Get(cur, j)
  {
    if Contains(k, guard) && Get(cur, k) == Bool(true) then
      match Resolve(env, k)
      case Malformed => Crashed(k)
      case Failed(msg) => Walked(cur[k := Str(msg)], fails + [Failure(k, msg)])
      case Resolved(field, text) => Walked(cur[field := Str(text)] - {k}, fails)
    else
      Walked(cur, fails)
  }

  /** The walk of one map: its keys are snapshot in the order `MapKeys` gives, then visited. */
  function WalkMap(env: Env, guard: string, m: map<string, Value>, fails: seq<Failure>): (w: Walk)
    requires env.Valid()
    ensures w.Walked? ==> LogExtends(fails, w.fails)
    ensures guard == MarkerSeparator ==> w.Walked?
    decreases Obj(m), 1, 0
  {
    WalkKeys(env, guard, m, m, env.order(m), fails)
  }

  /**
   * Visits `keys` in order over the live map `cur`; `orig` is the map the
   * keys were snapshot from. A key whose live value is a map is walked
   * recursively (sharing the log) and the walked map is stored back; the
   * first panic ends the whole walk.
   */
  function WalkKeys(env: Env, guard: string, orig: map<string, Value>, cur: map<string, Value>,
                    keys: seq<string>, fails: seq<Failure>): (w: Walk)
    requires env.Valid() && Distinct(keys) && Live(orig, cur, keys)
    ensures w.Walked? ==> LogExtends(fails, w.fails)
    ensures guard == MarkerSeparator ==> w.Walked?
    decreases Obj(orig), 0, |keys|
  {
    if keys == [] then Walked(cur, fails)
    else
      var k := keys[0];
      var v := Get(cur, k);
      if v.Obj? then
        assert Obj(v.fields) == orig[k];
        match WalkMap(env, guard, v.fields, fails)
        case Crashed(c) => Crashed(c)
        case Walked(n, fails') =>
          var w := WalkKeys(env, guard, orig, cur[k := Obj(n)], keys[1..], fails');
          if w.Walked? then LogExtendsTrans(fails, fails', w.fails); w else w
      else
        match Visit(env, guard, cur, k, fails)
        case Crashed(c) => Crashed(c)
        case Walked(cur', fails') =>
          var w := WalkKeys(env, guard, orig, cur', keys[1..], fails');
          if w.Walked? then LogExtendsTrans(fails, fails', w.fails); w else w
  }

  /**
   * A key whose live value is a map is walked recursively, the walked map is
   * stored back at the key, and the walk goes on with the remaining keys and
   * the extended log; a panic inside the nested map ends the whole walk.
   */
  lemma NestedStep(env: Env, guard: string, orig: map<string, Value>, cur: map<string, Value>,
                   keys: seq<string>, fails: seq<Failure>)
    requires env.Valid() && Distinct(keys) && Live(orig, cur, keys)
    requires keys != [] && Get(cur, keys[0]).Obj?
    ensures match WalkMap(env, guard, Get(cur, keys[0]).fields, fails)
            case Crashed(c) => WalkKeys(env, guard, orig, cur, keys, fails) == Crashed(c)
            case Walked(n, fails') =>
              && Live(orig, cur[keys[0] := Obj(n)], keys[1..])
              && WalkKeys(env, guard, orig, cur, keys, fails)
                 == WalkKeys(env, guard, orig, cur[keys[0] := Obj(n)], keys[1..], fails')
  {
  }

  /** A key whose live value is not a map is visited, and the walk goes on from the visit's result. */
  lemma VisitStep(env: Env, guard: string, orig: map<string, Value>, cur: map<string, Value>,
                  keys: seq<string>, fails: seq<Failure>)
    requires env.Valid() && Distinct(keys) && Live(orig, cur, keys)
    requires keys != [] && !Get(cur, keys[0]).Obj?
    ensures match Visit(env, guard, cur, keys[0], fails)
            case Crashed(c) => WalkKeys(env, guard, orig, cur, keys, fails) == Crashed(c)
            case Walked(cur', fails') =>
              && Live(orig, cur', keys[1..])
              && WalkKeys(env, guard, orig, cur, keys, fails) == WalkKeys(env, guard, orig, cur', keys[1..], fails')
  {
  }

  /**
   * The shared error state of one request: `errorCount` and `errors` of
   * `pathPayloadCreate`, which every (nested) call of `populate` updates
   * through pointers. `failures` is the log they render.
   */
  class ErrorLog {
    var errorCount: int
    var errors: seq<string>
    ghost var failures: seq<Failure>

    /** The count is the number of entries, and entry `i` carries the number `i + 1`. */
    ghost predicate Valid()
      reads this
    {
      && errorCount == |errors| == |failures|
      && forall i :: 0 <= i < |errors| ==> errors[i] == Entry(i + 1, failures[i])
    }

    /** `errors := []string{}; errorCount := 0`. */
    constructor ()
      ensures Valid() && failures == [] && errors == [] && errorCount == 0
    {
      errorCount := 0;
      errors := [];
      failures := [];
    }
  }

  /**
   * `payloadError`: writes `errmsg` back at `key`, increments the shared count
   * and appends the numbered entry for `key`.
   */
  method PayloadError(payload: map<string, Value>, key: string, errmsg: string, log: ErrorLog)
    returns (updated: map<string, Value>)
    requires log.Valid()
    modifies log
    ensures log.Valid()
    ensures updated == payload[key := Str(errmsg)]
    ensures log.errorCount == old(log.errorCount) + 1
    ensures log.errors == old(log.errors) + [Entry(log.errorCount, Failure(key, errmsg))]
    ensures log.failures == old(log.failures) + [Failure(key, errmsg)]
  {
    updated := payload[key := Str(errmsg)];
    log.errorCount := log.errorCount + 1;
    log.errors := log.errors + [Entry(log.errorCount, Failure(key, errmsg))];
    log.failures := log.failures + [Failure(key, errmsg)];
  }

  /** What `populate` leaves behind: the updated map, or the key at which it panicked. */
  datatype Populated = Completed(payload: map<string, Value>) | Panicked(key: string)

  /**
   * `populate` over a map payload: snapshot the keys, then for each key read
   * its live value; recurse into maps; resolve `@/` keys that hold `true`.
   */
  method Populate(env: Env, payload: map<string, Value>, log: ErrorLog) returns (r: Populated)
    requires env.Valid() && log.Valid()
    modifies log
    ensures log.Valid()
    ensures r.Completed? ==> WalkMap(env, MarkerGuard, payload, old(log.failures)) == Walked(r.payload, log.failures)
    ensures r.Panicked? ==> WalkMap(env, MarkerGuard, payload, old(log.failures)) == Crashed(r.key)
    decreases Obj(payload)
  {
    var keys := env.order(payload);
    var cur := payload;
    ghost var spec := WalkMap(env, MarkerGuard, payload, log.failures);
    for i := 0 to |keys|
      invariant log.Valid()
      invariant Live(payload, cur, keys[i..])
      invariant WalkKeys(env, MarkerGuard, payload, cur, keys[i..], log.failures) == spec
    {
      assert keys[i..][1..] == keys[i + 1..];
      var k := keys[i];
      var v := Get(cur, k);
      if v.Obj? {
        NestedStep(env, MarkerGuard, payload, cur, keys[i..], log.failures);
        var nested := Populate(env, v.fields, log);
        if nested.Panicked? {
          return nested;
        }
        cur := cur[k := Obj(nested.payload)];
        continue;
      }
      ghost var visit := Visit(env, MarkerGuard, cur, k, log.failures);
      VisitStep(env, MarkerGuard, payload, cur, keys[i..], log.failures);
      if Contains(k, MarkerGuard) && v == Bool(true) {
        match Resolve(env, k)
        case Malformed =>
          // `parts[1]` is out of range: the Go code panics here.
          assert visit == Crashed(k);
          return Panicked(k);
        case Failed(msg) =>
          cur := PayloadError(cur, k, msg, log);
        case Resolved(field, text) =>
          cur := cur[field := Str(text)];
          cur := cur - {k};
      }
      assert visit == Walked(cur, log.failures);
    }
    assert keys[|keys|..] == [];
    r := Completed(cur);
  }
}
