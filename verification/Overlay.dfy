/** Configuration overlays of `src/agent_core/config.py`: the recursive merge of an operator's document over
    the shipped one, and the validation of the result against the shipped document. */
module Overlay {
  import opened Wrappers

  /** A YAML value with string keys. */
  datatype Value =
    | Null
    | Bool(flag: bool)
    | Int(number: int)
    | Float(amount: real)
    | NotFinite
    | Text(text: string)
    | List(items: seq<Value>)
    | Mapping(fields: map<string, Value>)

  // ---- merging ----

  /** What becomes of a shipped value under an overlaid one: two mappings are merged, recursively. */
  function Over(base: Value, overlay: Value): Value
    decreases overlay
  {
    if base.Mapping? && overlay.Mapping? then
      Mapping(map k | k in base.fields.Keys + overlay.fields.Keys ::
        if k !in overlay.fields then base.fields[k]
        else if k !in base.fields then overlay.fields[k]
        else Over(base.fields[k], overlay.fields[k]))
    else overlay
  }

  /** `_merge_mappings`: the shipped entries are copied, then each overlaid one is laid on top. */
  method MergeMappings(base: Value, overlay: Value) returns (merged: Value)
    requires base.Mapping? && overlay.Mapping?
    ensures merged == Over(base, overlay)
    decreases overlay
  {
    var fields := base.fields;
    var left := overlay.fields.Keys;
    while left != {}
      invariant left <= overlay.fields.Keys
      invariant fields.Keys == base.fields.Keys + (overlay.fields.Keys - left)
      invariant forall k | k in fields :: fields[k] == Laid(base, overlay, left, k)
    {
      var k :| k in left;
      left := left - {k};
      var laid := overlay.fields[k];
      if k in fields && fields[k].Mapping? && laid.Mapping? {
        laid := MergeMappings(fields[k], laid);
      }
      fields := fields[k := laid];
    }
    merged := Mapping(fields);
    assert fields == Over(base, overlay).fields;
  }

  /** The entry of `k` while the keys in `left` are still to be laid on. */
  function Laid(base: Value, overlay: Value, left: set<string>, k: string): Value
    requires base.Mapping? && overlay.Mapping? && k in base.fields.Keys + (overlay.fields.Keys - left)
  {
    if k !in overlay.fields || k in left then (if k in base.fields then base.fields[k] else Null)
    else if k !in base.fields then overlay.fields[k]
    else Over(base.fields[k], overlay.fields[k])
  }

  /** Laying a value over itself changes nothing ... */
  lemma {:induction false} OverItself(v: Value)
    ensures Over(v, v) == v
    decreases v
  {
    if v.Mapping? {
      forall k | k in v.fields ensures Over(v.fields[k], v.fields[k]) == v.fields[k] {
        OverItself(v.fields[k]);
      }
      assert Over(v, v).fields == v.fields;
    }
  }

  /** ... and laying an overlay on twice is the same as once. */
  lemma {:induction false} MergeIsIdempotent(base: Value, overlay: Value)
    ensures Over(Over(base, overlay), overlay) == Over(base, overlay)
    decreases overlay
  {
    var once := Over(base, overlay);
    if base.Mapping? && overlay.Mapping? {
      var twice := Over(once, overlay);
      forall k | k in once.fields ensures twice.fields[k] == once.fields[k] {
        if k in overlay.fields {
          if k in base.fields {
            MergeIsIdempotent(base.fields[k], overlay.fields[k]);
          } else {
            OverItself(overlay.fields[k]);
          }
        }
      }
      assert twice.fields == once.fields;
    } else {
      OverItself(overlay);
    }
  }

  // ---- paths ----

  /** The value at a path of keys. */
  function Find(v: Value, path: seq<string>): Option<Value>
    decreases |path|
  {
    if path == [] then Some(v)
    else if v.Mapping? && path[0] in v.fields then Find(v.fields[path[0]], path[1..])
    else None
  }

  /** Along the path, the overlay holds mappings for as long as it holds anything. */
  predicate Open(overlay: Value, path: seq<string>)
    decreases |path|
  {
    path == [] || (overlay.Mapping? && (path[0] in overlay.fields ==> Open(overlay.fields[path[0]], path[1..])))
  }

  /** An overlaid value that is no mapping replaces whatever was shipped; a shipped path is lost only below
      such a value; and a shipped value stays as it was where the overlay has nothing. */
  lemma {:induction false} MergedAt(base: Value, overlay: Value, path: seq<string>)
    ensures Find(overlay, path).Some? && !Find(overlay, path).value.Mapping? ==>
              Find(Over(base, overlay), path) == Find(overlay, path)
    ensures Open(overlay, path) && Find(base, path).Some? ==> Find(Over(base, overlay), path).Some?
    ensures Open(overlay, path) && Find(overlay, path).None? ==> Find(Over(base, overlay), path) == Find(base, path)
    decreases |path|
  {
    if path != [] && overlay.Mapping? && path[0] in overlay.fields && base.Mapping? && path[0] in base.fields {
      MergedAt(base.fields[path[0]], overlay.fields[path[0]], path[1..]);
    }
  }

  // ---- validation ----

  datatype Fault = NotAMapping(at: string) | Required(at: string) | WrongType(at: string) | BelowMinimum(at: string)

  /** `MINIMUM_CONFIG_VALUES`, by location within one document. */
  type Minima = map<string, real>

  function Child(path: string, key: string): string {
    if path == "" then key else path + "." + key
  }

  predicate RightType(value: Value, shipped: Value) {
    match shipped
    case Null => value.Null?
    case Bool(_) => value.Bool?
    case Int(_) => value.Int?
    case Float(_) => value.Int? || value.Float? || value.NotFinite?
    case NotFinite => value.Int? || value.Float? || value.NotFinite?
    case Text(_) => value.Text?
    case List(_) => value.List?
    case Mapping(_) => value.Mapping?
  }

  /** Python's booleans are numbers too. */
  predicate AtLeast(value: Value, minimum: real) {
    match value
    case Bool(b) => (if b then 1.0 else 0.0) >= minimum
    case Int(n) => n as real >= minimum
    case Float(x) => x >= minimum
    case NotFinite => false
    case _ => true
  }

  predicate HighEnough(minima: Minima, path: string, value: Value) {
    path in minima ==> AtLeast(value, minima[path])
  }

  /** Everything `_validate_document_value` may raise; it raises the first it comes upon. */
  function Faults(minima: Minima, path: string, value: Value, shipped: Value): set<Fault>
    decreases shipped
  {
    if shipped.Mapping? then
      if !value.Mapping? then {NotAMapping(path)}
      else set k, f | k in shipped.fields && f in FaultsAt(minima, path, value, shipped, k) :: f
    else if !RightType(value, shipped) then {WrongType(path)}
    else if !HighEnough(minima, path, value) then {BelowMinimum(path)}
    else {}
  }

  function FaultsAt(minima: Minima, path: string, value: Value, shipped: Value, k: string): set<Fault>
    requires value.Mapping? && shipped.Mapping? && k in shipped.fields
    decreases shipped, 0
  {
    if k !in value.fields then {Required(Child(path, k))}
    else Faults(minima, Child(path, k), value.fields[k], shipped.fields[k])
  }

  lemma FaultIsFound(minima: Minima, path: string, value: Value, shipped: Value, k: string, f: Fault)
    requires value.Mapping? && shipped.Mapping? && k in shipped.fields
    requires f in FaultsAt(minima, path, value, shipped, k)
    ensures f in Faults(minima, path, value, shipped)
  {
  }

  /** `_validate_document_value` */
  method Validate(minima: Minima, path: string, value: Value, shipped: Value) returns (fault: Option<Fault>)
    ensures fault.None? <==> Faults(minima, path, value, shipped) == {}
    ensures fault.Some? ==> fault.value in Faults(minima, path, value, shipped)
    decreases shipped
  {
    if shipped.Mapping? {
      if !value.Mapping? {
        return Some(NotAMapping(path));
      }
      var left := shipped.fields.Keys;
      while left != {}
        invariant left <= shipped.fields.Keys
        invariant forall k | k in shipped.fields && k !in left :: FaultsAt(minima, path, value, shipped, k) == {}
      {
        var k :| k in left;
        left := left - {k};
        if k !in value.fields {
          FaultIsFound(minima, path, value, shipped, k, Required(Child(path, k)));
          return Some(Required(Child(path, k)));
        }
        fault := Validate(minima, Child(path, k), value.fields[k], shipped.fields[k]);
        if fault.Some? {
          FaultIsFound(minima, path, value, shipped, k, fault.value);
          return;
        }
      }
      return None;
    }
    if !RightType(value, shipped) {
      return Some(WrongType(path));
    }
    if !HighEnough(minima, path, value) {
      return Some(BelowMinimum(path));
    }
    fault := None;
  }

  function Location(path: string, keys: seq<string>): string
    decreases |keys|
  {
    if keys == [] then path else Location(Child(path, keys[0]), keys[1..])
  }

  /** A value may stand where the shipped one did: it is of the same kind, or both are numbers and the shipped
      one is no integer. */
  predicate Compatible(value: Value, shipped: Value) {
    && (value.Mapping? <==> shipped.Mapping?) && (value.List? <==> shipped.List?) && (value.Text? <==> shipped.Text?)
    && (value.Bool? <==> shipped.Bool?) && (value.Null? <==> shipped.Null?)
    && (shipped.Int? ==> value.Int?)
  }

  /** A number is finite and at least the minimum; a truth value counts as 0 or 1. */
  predicate NotBelow(value: Value, minimum: real) {
    && !value.NotFinite?
    && (value.Int? ==> minimum <= value.number as real) && (value.Float? ==> minimum <= value.amount)
    && (value == Bool(true) ==> minimum <= 1.0) && (value == Bool(false) ==> minimum <= 0.0)
  }

  lemma CompatibleIff(value: Value, shipped: Value)
    ensures RightType(value, shipped) <==> Compatible(value, shipped)
  {
  }

  lemma NotBelowIff(value: Value, minimum: real)
    ensures AtLeast(value, minimum) <==> NotBelow(value, minimum)
  {
  }

  /** One shipped path is honoured: the document has it, with a compatible type, and not below its minimum. */
  predicate Honoured(minima: Minima, path: string, value: Value, shipped: Value, keys: seq<string>) {
    Find(shipped, keys).Some? ==>
      && Find(value, keys).Some?
      && Compatible(Find(value, keys).value, Find(shipped, keys).value)
      && (!Find(shipped, keys).value.Mapping? && Location(path, keys) in minima ==>
            NotBelow(Find(value, keys).value, minima[Location(path, keys)]))
  }

  /** A document is accepted exactly when it honours every shipped path. */
  lemma {:induction false} AcceptedIff(minima: Minima, path: string, value: Value, shipped: Value)
    ensures Faults(minima, path, value, shipped) == {} <==>
            forall keys :: Honoured(minima, path, value, shipped, keys)
    decreases shipped
  {
    if !shipped.Mapping? || !value.Mapping? {
      LeafAccepted(minima, path, value, shipped);
    } else {
      forall k | k in shipped.fields && k in value.fields
        ensures FaultsAt(minima, path, value, shipped, k) == {} <==>
                forall keys :: Honoured(minima, Child(path, k), value.fields[k], shipped.fields[k], keys) {
        AcceptedIff(minima, Child(path, k), value.fields[k], shipped.fields[k]);
      }
      if Faults(minima, path, value, shipped) == {} {
        forall keys ensures Honoured(minima, path, value, shipped, keys) {
          if keys != [] && keys[0] in shipped.fields {
            NoFaultAt(minima, path, value, shipped, keys[0]);
            assert Honoured(minima, Child(path, keys[0]), value.fields[keys[0]], shipped.fields[keys[0]], keys[1..]);
          }
        }
      }
      if forall keys :: Honoured(minima, path, value, shipped, keys) {
        forall k | k in shipped.fields ensures FaultsAt(minima, path, value, shipped, k) == {} {
          assert [k][1..] == [];
          assert Find(shipped, [k]) == Some(shipped.fields[k]);
          assert Honoured(minima, path, value, shipped, [k]);
          assert k in value.fields;
          forall keys ensures Honoured(minima, Child(path, k), value.fields[k], shipped.fields[k], keys) {
            assert Honoured(minima, path, value, shipped, [k] + keys);
            assert ([k] + keys)[1..] == keys;
          }
        }
      }
    }
  }

  /** The dotted place of a path of keys. */
  lemma {:induction false} LocationGrows(path: string, keys: seq<string>, k: string)
    ensures Location(path, []) == path
    ensures var at := Location(path, keys); Location(path, keys + [k]) == if at == "" then k else at + "." + k
    decreases |keys|
  {
    if keys != [] {
      assert (keys + [k])[1..] == keys[1..] + [k];
      LocationGrows(Child(path, keys[0]), keys[1..], k);
    } else {
      assert ([] + [k])[1..] == [];
    }
  }

  /** What is wrong at one shipped path: a key missing in a mapping that is there, no mapping where one was
      shipped, a value of another kind, or a number below its minimum. */
  predicate FaultAt(minima: Minima, path: string, value: Value, shipped: Value, keys: seq<string>, f: Fault) {
    && Find(shipped, keys).Some?
    && var s, at := Find(shipped, keys).value, Location(path, keys);
       match Find(value, keys)
       case None =>
         f == Required(at) && keys != []
         && var above := Find(value, keys[..|keys| - 1]); above.Some? && above.value.Mapping?
       case Some(v) =>
         if s.Mapping? then f == NotAMapping(at) && !v.Mapping?
         else if !Compatible(v, s) then f == WrongType(at)
         else f == BelowMinimum(at) && at in minima && !NotBelow(v, minima[at])
  }

  /** The faults of a document are those at its shipped paths. */
  lemma {:induction false} FaultIff(minima: Minima, path: string, value: Value, shipped: Value, f: Fault)
    ensures f in Faults(minima, path, value, shipped) <==>
            exists keys :: FaultAt(minima, path, value, shipped, keys, f)
    decreases shipped
  {
    hide FaultAt;
    LeafFaultIff(minima, path, value, shipped, f);
    if shipped.Mapping? && value.Mapping? {
      forall k | k in shipped.fields
        ensures f in FaultsAt(minima, path, value, shipped, k) <==>
                exists keys :: keys != [] && keys[0] == k && FaultAt(minima, path, value, shipped, keys, f) {
        FaultBelow(minima, path, value, shipped, k, [], f);
        assert [k] + [] == [k];
        if k in value.fields {
          FaultIff(minima, Child(path, k), value.fields[k], shipped.fields[k], f);
          if keys :| FaultAt(minima, Child(path, k), value.fields[k], shipped.fields[k], keys, f) {
            FaultBelow(minima, path, value, shipped, k, keys, f);
          }
        }
        forall keys: seq<string> | keys != [] && keys[0] == k && FaultAt(minima, path, value, shipped, keys, f)
          ensures f in FaultsAt(minima, path, value, shipped, k) {
          assert keys == [k] + keys[1..];
          FaultBelow(minima, path, value, shipped, k, keys[1..], f);
        }
      }
      forall keys: seq<string> | keys != [] && FaultAt(minima, path, value, shipped, keys, f)
        ensures keys[0] in shipped.fields {
        ShippedFirst(minima, path, value, shipped, keys, f);
      }
    }
  }

  lemma ShippedFirst(minima: Minima, path: string, value: Value, shipped: Value, keys: seq<string>, f: Fault)
    requires shipped.Mapping? && keys != [] && FaultAt(minima, path, value, shipped, keys, f)
    ensures keys[0] in shipped.fields
  {
  }

  /** At the place itself. */
  lemma LeafFaultIff(minima: Minima, path: string, value: Value, shipped: Value, f: Fault)
    ensures shipped.Mapping? && value.Mapping? ==> !FaultAt(minima, path, value, shipped, [], f)
    ensures !shipped.Mapping? || !value.Mapping? ==>
              (f in Faults(minima, path, value, shipped) <==> FaultAt(minima, path, value, shipped, [], f))
              && forall keys | keys != [] :: !FaultAt(minima, path, value, shipped, keys, f)
  {
    CompatibleIff(value, shipped);
    if path in minima {
      NotBelowIff(value, minima[path]);
    }
    hide Compatible, NotBelow, RightType, AtLeast;
    forall keys: seq<string> | keys != [] && (!shipped.Mapping? || !value.Mapping?)
      ensures !FaultAt(minima, path, value, shipped, keys, f) {
      if !value.Mapping? {
        NothingAbove(value, keys);
      }
    }
  }

  lemma NothingAbove(value: Value, keys: seq<string>)
    requires keys != [] && !value.Mapping?
    ensures Find(value, keys).None?
    ensures Find(value, keys[..|keys| - 1]).Some? ==> !Find(value, keys[..|keys| - 1]).value.Mapping?
  {
  }

  /** And below one of its keys. */
  lemma FaultBelow(minima: Minima, path: string, value: Value, shipped: Value, k: string, keys: seq<string>, f: Fault)
    requires shipped.Mapping? && value.Mapping? && k in shipped.fields
    ensures FaultAt(minima, path, value, shipped, [k] + keys, f) <==>
            if k in value.fields then FaultAt(minima, Child(path, k), value.fields[k], shipped.fields[k], keys, f)
            else keys == [] && f == Required(Child(path, k))
  {
    hide Compatible, NotBelow;
    var all := [k] + keys;
    assert all[1..] == keys && all[0] == k;
    assert Location(path, all) == Location(Child(path, k), keys);
    if keys != [] {
      var above := all[..|all| - 1];
      assert above[0] == k && above[1..] == keys[..|keys| - 1];
      assert Find(value, above) == if k in value.fields then Find(value.fields[k], keys[..|keys| - 1]) else None;
    } else {
      assert all[..|all| - 1] == [] && Find(value, []) == Some(value);
      assert k in value.fields ==> Find(value.fields[k], keys) == Some(value.fields[k]);
    }
    assert Find(shipped, all) == Find(shipped.fields[k], keys);
    assert Find(value, all) == if k in value.fields then Find(value.fields[k], keys) else None;
  }

  lemma RequiredIsFound(minima: Minima, path: string, value: Value, shipped: Value, k: string)
    requires value.Mapping? && shipped.Mapping? && k in shipped.fields && k !in value.fields
    ensures Faults(minima, path, value, shipped) != {}
  {
    FaultIsFound(minima, path, value, shipped, k, Required(Child(path, k)));
  }

  lemma NoFaultAt(minima: Minima, path: string, value: Value, shipped: Value, k: string)
    requires value.Mapping? && shipped.Mapping? && k in shipped.fields && Faults(minima, path, value, shipped) == {}
    ensures k in value.fields && FaultsAt(minima, path, value, shipped, k) == {}
  {
    if k !in value.fields {
      RequiredIsFound(minima, path, value, shipped, k);
    }
    if f :| f in FaultsAt(minima, path, value, shipped, k) {
      FaultIsFound(minima, path, value, shipped, k, f);
    }
  }

  lemma LeafAccepted(minima: Minima, path: string, value: Value, shipped: Value)
    requires !shipped.Mapping? || !value.Mapping?
    ensures Faults(minima, path, value, shipped) == {} <==>
            forall keys :: Honoured(minima, path, value, shipped, keys)
  {
    CompatibleIff(value, shipped);
    if path in minima {
      NotBelowIff(value, minima[path]);
    }
    if Faults(minima, path, value, shipped) == {} {
      forall keys ensures Honoured(minima, path, value, shipped, keys) {
        if keys != [] { assert Find(shipped, keys).None?; }
      }
    }
    if forall keys :: Honoured(minima, path, value, shipped, keys) {
      assert Honoured(minima, path, value, shipped, []);
    }
  }

  // ---- the two together ----

  /** Merging can never leave a shipped key missing: whatever the overlay, the validation of the merged
      document never finds anything required. */
  lemma {:induction false} NeverRequired(minima: Minima, path: string, shipped: Value, overlay: Value)
    ensures forall f | f in Faults(minima, path, Over(shipped, overlay), shipped) :: !f.Required?
    decreases shipped
  {
    var merged := Over(shipped, overlay);
    if shipped.Mapping? && overlay.Mapping? {
      forall k, f | k in shipped.fields && f in FaultsAt(minima, path, merged, shipped, k) ensures !f.Required? {
        if k in overlay.fields {
          NeverRequired(minima, Child(path, k), shipped.fields[k], overlay.fields[k]);
        } else {
          NeverRequired(minima, Child(path, k), shipped.fields[k], shipped.fields[k]);
          OverItself(shipped.fields[k]);
        }
      }
    }
  }

  /** A shipped path below which the overlay holds nothing, and above which only mappings, stays honoured. */
  lemma UntouchedIsHonoured(minima: Minima, shipped: Value, overlay: Value, keys: seq<string>)
    requires Open(overlay, keys) && Find(overlay, keys).None?
    requires Honoured(minima, "", shipped, shipped, keys)
    ensures Honoured(minima, "", Over(shipped, overlay), shipped, keys)
  {
    MergedAt(shipped, overlay, keys);
  }
}
