/**
 * The enrolment key a payload request reads (plugin/path_payload.go:83):
 * `"enrole/" + strings.TrimLeft(req.Path, "payload/")`. TrimLeft drops
 * leading characters drawn from the set {p, a, y, l, o, d, /}, not the
 * prefix "payload/".
 */
module Naming {
  import opened Strings

  const PathPrefix: string := "payload/"
  const EnrolePrefix: string := "enrole/"

  /** The enrolment key as written: the request path trimmed by the cutset of "payload/". */
  function EnrolmentKey(path: string): (key: string)
    ensures EnrolePrefix <= key
    ensures var name := key[|EnrolePrefix|..];
            && |name| <= |path|
            && name == path[|path| - |name|..]
            && (forall i :: 0 <= i < |path| - |name| ==> path[i] in PathPrefix)
            && (name == [] || name[0] !in PathPrefix)
  {
    EnrolePrefix + TrimLeft(path, PathPrefix)
  }

  /**
   * As written, the key for endpoint `name` is `enrole/name` exactly when
   * the name is empty or does not start with one of p, a, y, l, o, d, /.
   */
  lemma EnrolmentKeyOfName(name: string)
    ensures EnrolmentKey(PathPrefix + name) == EnrolePrefix + name <==> name == [] || name[0] !in PathPrefix
  {
    var path := PathPrefix + name;
    var trimmed := TrimLeft(path, PathPrefix);
    assert |trimmed| <= |name|;
    if name != [] && name[0] in PathPrefix {
      assert path[|PathPrefix|] == name[0];
      assert |trimmed| < |name|;
      assert (EnrolePrefix + trimmed)[|EnrolePrefix|..] == trimmed;
    } else {
      assert path[|PathPrefix|..] == name;
      assert trimmed == name;
    }
  }

  /** TrimLeft passes over a leading run of cutset characters. */
  lemma {:induction false} TrimLeftSkips(s: string, cutset: string, n: nat)
    requires n <= |s|
    requires forall i :: 0 <= i < n ==> s[i] in cutset
    ensures TrimLeft(s, cutset) == TrimLeft(s[n..], cutset)
    decreases n
  {
    if n > 0 {
      assert s[0] in cutset;
      TrimLeftSkips(s[1..], cutset, n - 1);
      assert s[1..][n - 1..] == s[n..];
    }
  }

  /** TrimLeft stops at the first character outside the cutset. */
  lemma TrimLeftStopsAt(s: string, cutset: string, n: nat)
    requires n < |s|
    requires forall i :: 0 <= i < n ==> s[i] in cutset
    requires s[n] !in cutset
    ensures TrimLeft(s, cutset) == s[n..]
  {
    TrimLeftSkips(s, cutset, n);
  }

  /** A cutset passes over a copy of itself. */
  lemma TrimLeftOwnCutset(cutset: string, rest: string)
    ensures TrimLeft(cutset + rest, cutset) == TrimLeft(rest, cutset)
  {
    var s := cutset + rest;
    forall i | 0 <= i < |cutset| ensures s[i] in cutset {
      assert s[i] == cutset[i];
    }
    TrimLeftSkips(s, cutset, |cutset|);
    assert s[|cutset|..] == rest;
  }

  /** The cutset of "payload/" drops the leading `alp` of "alpha" and stops at `h`. */
  lemma AlphaTrimmed(name: string)
    requires name == "alpha"
    ensures TrimLeft(name, PathPrefix) == "ha"
  {
    assert name[0] == PathPrefix[1] && name[1] == PathPrefix[3] && name[2] == PathPrefix[0];
    forall i | 0 <= i < 3 ensures name[i] in PathPrefix {
    }
    assert name[3] !in PathPrefix by {
      assert name[3] == 'h';
      forall i | 0 <= i < |PathPrefix| ensures PathPrefix[i] != 'h' {
      }
    }
    TrimLeftStopsAt(name, PathPrefix, 3);
    assert name[3..] == "ha";
  }

  /** The endpoint "alpha" is looked up as "enrole/ha". */
  lemma EnrolmentKeyExample(name: string)
    requires name == "alpha"
    ensures EnrolmentKey(PathPrefix + name) == EnrolePrefix + "ha"
  {
    TrimLeftOwnCutset(PathPrefix, name);
    AlphaTrimmed(name);
  }

  /** `strings.TrimPrefix`: drops `prefix` once when `s` starts with it. */
  function TrimPrefix(s: string, prefix: string): (r: string)
    ensures prefix <= s ==> s == prefix + r
    ensures !(prefix <= s) ==> r == s
  {
    if prefix <= s then s[|prefix|..] else s
  }

  /** The enrolment key with the path prefix stripped once. */
  function IntendedEnrolmentKey(path: string): string
  {
    EnrolePrefix + TrimPrefix(path, PathPrefix)
  }

  /** Stripping the prefix once maps every endpoint name to its own enrolment key. */
  lemma IntendedEnrolmentKeyOfName(name: string)
    ensures IntendedEnrolmentKey(PathPrefix + name) == EnrolePrefix + name
  {
    assert (PathPrefix + name)[|PathPrefix|..] == name;
  }
}
