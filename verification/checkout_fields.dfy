/**
 * The settings rewrite `saveFields` applies to submitted checkout-field settings before
 * storing them: only the sections the stored settings already have are kept, and the
 * name fields are forced into exactly one naming mode, either a single full-name field
 * or the first-name and last-name fields.
 */
module CheckoutFields {
  import opened Wrappers

  /** A settings value: a string, some other scalar (told apart by a tag), or a nested array. */
  datatype Setting = Text(s: string) | Scalar(tag: int) | Group(entries: map<string, Setting>)

  type Settings = map<string, Setting>

  /** `Arr::only`: the entries under the given keys. */
  function Only(m: Settings, keys: set<string>): (r: Settings)
    ensures r.Keys == m.Keys * keys
    ensures forall k :: k in r ==> r[k] == m[k]
  {
    map k | k in m.Keys * keys :: m[k]
  }

  /**
   * `Arr::get` on a dotted key, split into its segments: walk down through nested arrays;
   * a missing key or a value that is not an array on the way gives nothing.
   */
  function Get(m: Settings, path: seq<string>): Option<Setting>
    requires |path| >= 1
    decreases |path|
  {
    if path[0] !in m then None
    else if |path| == 1 then Some(m[path[0]])
    else
      match m[path[0]]
      case Group(e) => Get(e, path[1..])
      case _ => None
  }

  /**
   * `Arr::set` on a dotted key: walk down, replacing every missing or non-array value on
   * the way by an empty array, and store the value under the last segment.
   */
  function Set(m: Settings, path: seq<string>, v: Setting): (r: Settings)
    requires |path| >= 1
    ensures r.Keys == m.Keys + {path[0]}
    ensures forall k :: k in m && k != path[0] ==> r[k] == m[k]
    decreases |path|
  {
    if |path| == 1 then m[path[0] := v]
    else
      var child := if path[0] in m && m[path[0]].Group? then m[path[0]].entries else map[];
      m[path[0] := Group(Set(child, path[1..], v))]
  }

  /** Two key paths that part ways at some segment: neither runs through the other. */
  predicate Diverge(p: seq<string>, q: seq<string>) {
    exists i :: 0 <= i < |p| && i < |q| && p[i] != q[i]
  }

  /** Reading back what was just written gives it. */
  lemma {:induction false} GetSetSame(m: Settings, p: seq<string>, v: Setting)
    requires |p| >= 1
    ensures Get(Set(m, p, v), p) == Some(v)
    decreases |p|
  {
    if |p| > 1 {
      var child := if p[0] in m && m[p[0]].Group? then m[p[0]].entries else map[];
      GetSetSame(child, p[1..], v);
    }
  }

  /** Writing under one path changes nothing read under a path that parts ways with it. */
  lemma {:induction false} GetSetOther(m: Settings, p: seq<string>, q: seq<string>, v: Setting)
    requires |p| >= 1 && |q| >= 1 && Diverge(p, q)
    ensures Get(Set(m, p, v), q) == Get(m, q)
    decreases |p|
  {
    if p[0] == q[0] {
      var i :| 0 <= i < |p| && i < |q| && p[i] != q[i];
      assert i >= 1;
      assert p[1..][i - 1] == p[i] && q[1..][i - 1] == q[i];
      var child := if p[0] in m && m[p[0]].Group? then m[p[0]].entries else map[];
      GetSetOther(child, p[1..], q[1..], v);
    }
  }

  /** Writing a value that is already there changes nothing. */
  lemma {:induction false} SetPresent(m: Settings, p: seq<string>, v: Setting)
    requires |p| >= 1 && Get(m, p) == Some(v)
    ensures Set(m, p, v) == m
    decreases |p|
  {
    if |p| > 1 {
      SetPresent(m[p[0]].entries, p[1..], v);
    }
  }

  /** Keeping some top-level keys changes what a path reads only when its first segment is dropped. */
  lemma GetOnly(m: Settings, keys: set<string>, p: seq<string>)
    requires |p| >= 1
    ensures Get(Only(m, keys), p) == if p[0] in keys then Get(m, p) else None
  {
  }

  // ---------------------------------------------------------------- the naming fields

  const FirstEnabled: seq<string> := ["basic_info", "first_name", "enabled"]
  const FirstRequired: seq<string> := ["basic_info", "first_name", "required"]
  const LastEnabled: seq<string> := ["basic_info", "last_name", "enabled"]
  const LastRequired: seq<string> := ["basic_info", "last_name", "required"]
  const FullEnabled: seq<string> := ["basic_info", "full_name", "enabled"]
  const FullRequired: seq<string> := ["basic_info", "full_name", "required"]

  /** `Arr::get($settings, $key, 'no') === 'yes'`. */
  predicate IsYes(m: Settings, path: seq<string>)
    requires |path| >= 1
  {
    Get(m, path) == Some(Text("yes"))
  }

  /** Whether the submitted settings enable a name field, as the rewrite sees them. */
  predicate Enables(settings: Settings, prevKeys: set<string>, enabled: seq<string>)
    requires |enabled| >= 1
  {
    enabled[0] in prevKeys && IsYes(settings, enabled)
  }

  /**
   * `saveFields`' rewrite of the submitted settings against the keys of the stored ones.
   * The top-level keys are the submitted ones the stored settings have, plus `basic_info`,
   * which the name rules always write; every other section is passed through as submitted.
   */
  function Normalize(settings: Settings, prevKeys: set<string>): (r: Settings)
    ensures r.Keys == (settings.Keys * prevKeys) + {"basic_info"}
    ensures forall k :: k in r && k != "basic_info" ==> k in prevKeys && r[k] == settings[k]
  {
    var s0 := Only(settings, prevKeys);
    var first := IsYes(s0, FirstEnabled);
    var last := IsYes(s0, LastEnabled);
    var flag := if first || last then "no" else "yes";
    var s1 := Set(Set(s0, FullEnabled, Text(flag)), FullRequired, Text(flag));
    if first then Set(s1, FirstRequired, Text("yes"))
    else if last then Set(s1, LastRequired, Text("yes"))
    else s1
  }

  /** The paths the rewrite writes, and the ones it reads, part ways pairwise. */
  lemma NamingPathsDiverge()
    ensures Diverge(FullEnabled, FullRequired) && Diverge(FullRequired, FullEnabled)
    ensures Diverge(FullEnabled, FirstEnabled) && Diverge(FullEnabled, LastEnabled)
    ensures Diverge(FullRequired, FirstEnabled) && Diverge(FullRequired, LastEnabled)
    ensures Diverge(FirstRequired, FirstEnabled) && Diverge(FirstRequired, LastEnabled)
    ensures Diverge(LastRequired, FirstEnabled) && Diverge(LastRequired, LastEnabled)
    ensures Diverge(FirstRequired, FullEnabled) && Diverge(FirstRequired, FullRequired)
    ensures Diverge(LastRequired, FullEnabled) && Diverge(LastRequired, FullRequired)
    ensures Diverge(FullEnabled, FirstRequired) && Diverge(FullRequired, FirstRequired)
    ensures Diverge(FullEnabled, LastRequired) && Diverge(FullRequired, LastRequired)
    ensures Diverge(LastRequired, FirstRequired)
  {
    assert FullEnabled[2] != FullRequired[2];
    assert FullEnabled[1] != FirstEnabled[1] && FullEnabled[1] != LastEnabled[1];
    assert FirstRequired[2] != FirstEnabled[2] && FirstRequired[1] != LastEnabled[1];
    assert LastRequired[1] != FirstEnabled[1] && LastRequired[2] != LastEnabled[2];
    assert FirstRequired[1] != FullEnabled[1] && LastRequired[1] != FullEnabled[1];
    assert LastRequired[1] != FirstRequired[1];
  }

  /** The rewrite leaves the two enable flags of the split name fields as submitted. */
  lemma NormalizeKeepsFlags(settings: Settings, prevKeys: set<string>)
    ensures Get(Normalize(settings, prevKeys), FirstEnabled) == Get(Only(settings, prevKeys), FirstEnabled)
    ensures Get(Normalize(settings, prevKeys), LastEnabled) == Get(Only(settings, prevKeys), LastEnabled)
    ensures IsYes(Normalize(settings, prevKeys), FirstEnabled) == Enables(settings, prevKeys, FirstEnabled)
    ensures IsYes(Normalize(settings, prevKeys), LastEnabled) == Enables(settings, prevKeys, LastEnabled)
  {
    NamingPathsDiverge();
    NormalizeLeavesOthers(settings, prevKeys, FirstEnabled);
    NormalizeLeavesOthers(settings, prevKeys, LastEnabled);
    GetOnly(settings, prevKeys, FirstEnabled);
    GetOnly(settings, prevKeys, LastEnabled);
  }

  /**
   * The naming rules. When a split name field is enabled, the full name is disabled and
   * not required; otherwise the full name is enabled and required. An enabled first name
   * becomes required; failing that, an enabled last name becomes required and the first
   * name's required flag is left as submitted.
   */
  lemma NormalizeNaming(settings: Settings, prevKeys: set<string>)
    ensures var r := Normalize(settings, prevKeys);
      var first := Enables(settings, prevKeys, FirstEnabled);
      var last := Enables(settings, prevKeys, LastEnabled);
      && (first || last ==> Get(r, FullEnabled) == Some(Text("no")) && Get(r, FullRequired) == Some(Text("no")))
      && (!first && !last ==> Get(r, FullEnabled) == Some(Text("yes")) && Get(r, FullRequired) == Some(Text("yes")))
      && (first ==> Get(r, FirstRequired) == Some(Text("yes")))
      && (!first && last ==>
            Get(r, LastRequired) == Some(Text("yes")) && Get(r, FirstRequired) == Get(Only(settings, prevKeys), FirstRequired))
  {
    var s0 := Only(settings, prevKeys);
    GetOnly(settings, prevKeys, FirstEnabled);
    GetOnly(settings, prevKeys, LastEnabled);
    var first := IsYes(s0, FirstEnabled);
    var last := IsYes(s0, LastEnabled);
    var flag := if first || last then "no" else "yes";
    var a := Set(s0, FullEnabled, Text(flag));
    var s1 := Set(a, FullRequired, Text(flag));
    NamingPathsDiverge();
    GetSetSame(s0, FullEnabled, Text(flag));
    GetSetOther(a, FullRequired, FullEnabled, Text(flag));
    GetSetSame(a, FullRequired, Text(flag));
    if first {
      GetSetSame(s1, FirstRequired, Text("yes"));
      GetSetOther(s1, FirstRequired, FullEnabled, Text("yes"));
      GetSetOther(s1, FirstRequired, FullRequired, Text("yes"));
    } else if last {
      GetSetSame(s1, LastRequired, Text("yes"));
      GetSetOther(s1, LastRequired, FullEnabled, Text("yes"));
      GetSetOther(s1, LastRequired, FullRequired, Text("yes"));
      GetSetOther(s1, LastRequired, FirstRequired, Text("yes"));
      GetSetOther(a, FullRequired, FirstRequired, Text(flag));
      GetSetOther(s0, FullEnabled, FirstRequired, Text(flag));
    }
  }

  /**
   * After the rewrite exactly one naming mode is active: the full-name field is enabled
   * exactly when neither the first-name nor the last-name field is.
   */
  lemma NormalizeOneMode(settings: Settings, prevKeys: set<string>)
    ensures var r := Normalize(settings, prevKeys);
      IsYes(r, FullEnabled) <==> !(IsYes(r, FirstEnabled) || IsYes(r, LastEnabled))
  {
    NormalizeKeepsFlags(settings, prevKeys);
    NormalizeNaming(settings, prevKeys);
  }

  /** A path the rewrite neither writes nor runs through. */
  predicate Untouched(q: seq<string>) {
    && Diverge(FullEnabled, q) && Diverge(FullRequired, q)
    && Diverge(FirstRequired, q) && Diverge(LastRequired, q)
  }

  /** Every setting the naming rules do not write reads as submitted. */
  lemma NormalizeLeavesOthers(settings: Settings, prevKeys: set<string>, q: seq<string>)
    requires |q| >= 1 && Untouched(q)
    ensures Get(Normalize(settings, prevKeys), q) == Get(Only(settings, prevKeys), q)
  {
    var s0 := Only(settings, prevKeys);
    var first := IsYes(s0, FirstEnabled);
    var last := IsYes(s0, LastEnabled);
    var flag := if first || last then "no" else "yes";
    var a := Set(s0, FullEnabled, Text(flag));
    var s1 := Set(a, FullRequired, Text(flag));
    GetSetOther(s0, FullEnabled, q, Text(flag));
    GetSetOther(a, FullRequired, q, Text(flag));
    GetSetOther(s1, FirstRequired, q, Text("yes"));
    GetSetOther(s1, LastRequired, q, Text("yes"));
  }

  /**
   * Saving the saved settings again changes nothing. When the stored settings have a
   * `basic_info` section, the saved settings are kept whole and every write is already in
   * place; when they do not, the second save drops the written `basic_info` again and
   * rewrites it from the same submitted sections.
   */
  lemma NormalizeIdempotent(settings: Settings, prevKeys: set<string>)
    ensures Normalize(Normalize(settings, prevKeys), prevKeys) == Normalize(settings, prevKeys)
  {
    if "basic_info" in prevKeys {
      NormalizeIdempotentStored(settings, prevKeys);
    } else {
      var r := Normalize(settings, prevKeys);
      assert Only(r, prevKeys) == Only(settings, prevKeys);
    }
  }

  /** The case of `NormalizeIdempotent` where the stored settings have a `basic_info` section. */
  lemma NormalizeIdempotentStored(settings: Settings, prevKeys: set<string>)
    requires "basic_info" in prevKeys
    ensures Normalize(Normalize(settings, prevKeys), prevKeys) == Normalize(settings, prevKeys)
  {
    var r := Normalize(settings, prevKeys);
    assert Only(r, prevKeys) == r;
    NormalizeKeepsFlags(settings, prevKeys);
    NormalizeNaming(settings, prevKeys);
    GetOnly(settings, prevKeys, FirstEnabled);
    GetOnly(settings, prevKeys, LastEnabled);
    var first := IsYes(r, FirstEnabled);
    var last := IsYes(r, LastEnabled);
    var flag := if first || last then "no" else "yes";
    SetPresent(r, FullEnabled, Text(flag));
    SetPresent(r, FullRequired, Text(flag));
    if first {
      SetPresent(r, FirstRequired, Text("yes"));
    } else if last {
      SetPresent(r, LastRequired, Text("yes"));
    }
  }
}
