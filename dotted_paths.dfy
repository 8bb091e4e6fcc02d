/**
 * The type-level path grammar of `utility.types.ts`, evaluated on values:
 * `DottedObjNotation<T, D>` is the set of dotted paths into a record type
 * `T` up to a depth `D`, `Join` glues a key to a sub-path, `Previous`
 * counts the depth down, and `ExtractFromDottedPath<T, P>` is the type
 * found at path `P`. A type is a Shape; the type `never` is None.
 */
module DottedPaths {
  import opened Text
  import opened JsValues
  import opened TypeGuards
  import opened TypeCoercions

  /** A property key of an object type. */
  datatype FieldKey = StrField(name: string) | NumField(num: int) | SymField(id: nat)

  /** A type: a record type with its fields, or a type that is no record. */
  datatype Shape = Prim | Record(fields: map<FieldKey, Shape>)

  /**
   * `Previous[D]` for the tuple `[never, 0, 1, ..., 10, ...0[]]`: never at
   * 0, D - 1 up to 11, and 0 from 12 on (the rest element).
   */
  function Previous(d: nat): (p: Option<nat>)
    ensures p.None? <==> d == 0
    ensures p.Some? ==> p.value < d && p.value <= 10
  {
    if d == 0 then None
    else if d <= 11 then Some(d - 1)
    else Some(0)
  }

  /** `Join<Key, P>` for one member `P` of the sub-path union: the key alone for `''`, else `Key.P`. */
  function JoinPath(key: string, p: string): (r: string)
    ensures p == "" ==> r == key
    ensures p != "" ==> |r| == |key| + 1 + |p| && r[..|key|] == key && r[|key|] == '.' && r[|key| + 1..] == p
  {
    if p == "" then key else key + "." + p
  }

  /**
   * `DottedObjNotation<T, D>`: no path at depth never; `''` for a type that
   * is no record; for a record, every string key `K` and `Join<K, P>` for
   * each path `P` of `T[K]` at depth `Previous[D]`.
   */
  function Paths(s: Shape, depth: Option<nat>): set<string>
    decreases s, 1
  {
    if depth.None? then {}
    else
      match s
      case Prim => {""}
      case Record(fields) => KeyNames(fields) + SubPaths(fields, Previous(depth.value))
  }

  /** The string keys of a record type (`Key extends string`). */
  function KeyNames(fields: map<FieldKey, Shape>): set<string>
  {
    set k | k in fields && k.StrField? :: k.name
  }

  /** `Join<K, P>` over every string key `K` and every path `P` of `T[K]` at `depth`. */
  function SubPaths(fields: map<FieldKey, Shape>, depth: Option<nat>): set<string>
    decreases Record(fields), 0
  {
    set k, p | k in fields && k.StrField? && p in Paths(fields[k], depth) :: JoinPath(k.name, p)
  }

  /** The default depth of `DottedObjNotation`. */
  const DefaultDepth: nat := 3

  /** Record keys contain no `.`, so that the dots of a path separate its segments. */
  predicate DotFreeKeys(s: Shape)
    decreases s
  {
    match s
    case Prim => true
    case Record(fields) =>
      forall k | k in fields :: (k.StrField? ==> '.' !in k.name) && DotFreeKeys(fields[k])
  }

  function CountDots(s: string): nat
  {
    if s == [] then 0 else (if s[0] == '.' then 1 else 0) + CountDots(s[1..])
  }

  lemma {:induction false} NoDotsCountZero(s: string)
    requires '.' !in s
    ensures CountDots(s) == 0
  {
    if s != [] {
      assert s[0] in s;
      assert forall c :: c in s[1..] ==> c in s;
      NoDotsCountZero(s[1..]);
    }
  }

  lemma {:induction false} CountDotsAppend(a: string, b: string)
    ensures CountDots(a + b) == CountDots(a) + CountDots(b)
    decreases |a|
  {
    if a == [] {
      assert a + b == b;
    } else {
      assert (a + b)[1..] == a[1..] + b;
      CountDotsAppend(a[1..], b);
    }
  }

  /** The most dots a path at depth `d` has: `d` up to 11, and 1 from 12 on. */
  function MaxDots(d: nat): nat
  {
    if d <= 11 then d else 1
  }

  /**
   * The segment bound: with dot-free keys, a path at depth D has at most
   * D + 1 segments for D up to 11, and at most 2 from 12 on.
   */
  lemma {:induction false} SegmentBound(s: Shape, d: nat, p: string)
    requires DotFreeKeys(s) && p in Paths(s, Some(d))
    ensures CountDots(p) <= MaxDots(d)
    decreases s
  {
    match s
    case Prim =>
    case Record(fields) =>
      if p in KeyNames(fields) {
        var k :| k in fields && k.StrField? && p == k.name;
        NoDotsCountZero(k.name);
      } else {
        assert p in SubPaths(fields, Previous(d));
        var k, q :| k in fields && k.StrField? && q in Paths(fields[k], Previous(d)) && p == JoinPath(k.name, q);
        assert q != "";
        SegmentBound(fields[k], Previous(d).value, q);
        CountDotsAppend(k.name, ".");
        CountDotsAppend(k.name + ".", q);
        NoDotsCountZero(k.name);
        assert CountDots(".") == 1;
      }
  }

  /** Depth never gives no path, so depth 0 gives only the record's own string keys. */
  lemma DepthZeroIsKeys(fields: map<FieldKey, Shape>)
    ensures Paths(Record(fields), None) == {}
    ensures Paths(Record(fields), Some(0)) == KeyNames(fields)
  {
    assert SubPaths(fields, None) == {};
  }

  /**
   * Each string key is a path, each non-empty sub-path `P` of `T[K]` gives
   * `K.P`, and nothing else is a path; a field that is no record gives just
   * its key. Number and symbol keys give nothing.
   */
  lemma RecordPaths(fields: map<FieldKey, Shape>, d: nat, p: string)
    ensures p in Paths(Record(fields), Some(d)) <==>
      exists k :: k in fields && k.StrField? &&
        (p == k.name || exists q :: q in Paths(fields[k], Previous(d)) && q != "" && p == k.name + "." + q)
  {
    if p in KeyNames(fields) {
      var k :| k in fields && k.StrField? && p == k.name;
    } else if p in SubPaths(fields, Previous(d)) {
      var k, q :| k in fields && k.StrField? && q in Paths(fields[k], Previous(d)) && p == JoinPath(k.name, q);
      assert q != "";
    }
    if exists k :: k in fields && k.StrField? && exists q :: q in Paths(fields[k], Previous(d)) && q != "" && p == k.name + "." + q {
      var k :| k in fields && k.StrField? && exists q :: q in Paths(fields[k], Previous(d)) && q != "" && p == k.name + "." + q;
      var q :| q in Paths(fields[k], Previous(d)) && q != "" && p == k.name + "." + q;
      SubPathIsPath(fields, d, k, q);
    }
  }

  lemma KeyIsPath(fields: map<FieldKey, Shape>, d: nat, k: FieldKey)
    requires k in fields && k.StrField?
    ensures k.name in Paths(Record(fields), Some(d))
  {
  }

  lemma SubPathIsPath(fields: map<FieldKey, Shape>, d: nat, k: FieldKey, q: string)
    requires k in fields && k.StrField? && q in Paths(fields[k], Previous(d))
    ensures JoinPath(k.name, q) in Paths(Record(fields), Some(d))
  {
  }

  /** Paths grow with the depth up to 11. */
  lemma {:induction false} PathsMonotone(s: Shape, d1: nat, d2: nat)
    requires d1 <= d2 <= 11
    ensures Paths(s, Some(d1)) <= Paths(s, Some(d2))
    decreases s, 2
  {
    if s.Record? {
      forall p | p in Paths(s, Some(d1))
        ensures p in Paths(s, Some(d2))
      {
        PathMonotone(s.fields, d1, d2, p);
      }
    }
  }

  lemma {:induction false} PathMonotone(fields: map<FieldKey, Shape>, d1: nat, d2: nat, p: string)
    requires d1 <= d2 <= 11 && p in Paths(Record(fields), Some(d1))
    ensures p in Paths(Record(fields), Some(d2))
    decreases Record(fields), 1
  {
    if p in KeyNames(fields) {
      var k :| k in fields && k.StrField? && p == k.name;
      KeyIsPath(fields, d2, k);
    } else {
      var k, q := SubPathWitness(fields, d1, p);
      JoinedPathMonotone(fields, d1, d2, k, q);
    }
  }

  lemma {:induction false} JoinedPathMonotone(fields: map<FieldKey, Shape>, d1: nat, d2: nat, k: FieldKey, q: string)
    requires 1 <= d1 <= d2 <= 11 && k in fields && k.StrField? && q in Paths(fields[k], Some(d1 - 1))
    ensures JoinPath(k.name, q) in Paths(Record(fields), Some(d2))
    decreases Record(fields), 0
  {
    PathsMonotone(fields[k], d1 - 1, d2 - 1);
    assert q in Paths(fields[k], Previous(d2));
    SubPathIsPath(fields, d2, k, q);
  }

  /** A path that is no key of the record is a key joined to a sub-path, at a positive depth. */
  lemma SubPathWitness(fields: map<FieldKey, Shape>, d: nat, p: string) returns (k: FieldKey, q: string)
    requires d <= 11 && p in Paths(Record(fields), Some(d)) && p !in KeyNames(fields)
    ensures d >= 1 && k in fields && k.StrField? && q in Paths(fields[k], Some(d - 1)) && p == JoinPath(k.name, q)
  {
    assert p in SubPaths(fields, Previous(d));
    k, q :| k in fields && k.StrField? && q in Paths(fields[k], Previous(d)) && p == JoinPath(k.name, q);
  }

  /** From depth 12 on, `Previous` gives 0, so the paths are those of depth 1. */
  lemma DeepDepthIsDepthOne(s: Shape, d: nat)
    requires d >= 12
    ensures Paths(s, Some(d)) == Paths(s, Some(1))
  {
  }

  /**
   * `ExtractFromDottedPath<T, P>`: never unless `P` is a path of `T` at the
   * default depth; at the first `.`, the key must be a key of `T` and the
   * rest is extracted from `T[Key]`; a single segment gives `T[P]`.
   */
  function Extract(s: Shape, path: string): (r: Option<Shape>)
    ensures r.Some? ==> path in Paths(s, Some(DefaultDepth))
    decreases s
  {
    if path !in Paths(s, Some(DefaultDepth)) then None
    else if '.' in path then
      var i := IndexOf(path, '.');
      var key := StrField(path[..i]);
      if s.Record? && key in s.fields then Extract(s.fields[key], path[i + 1..]) else None
    else if s.Record? && StrField(path) in s.fields then Some(s.fields[StrField(path)])
    else None
  }

  /** A value has a shape when it is an object holding, as own fields, every string-keyed field of the record type. */
  predicate Conforms(v: Value, s: Shape)
    decreases s
  {
    match s
    case Prim => true
    case Record(fields) =>
      v.Rec? && forall k | k in fields && k.StrField? :: k.name in v.own && Conforms(v.own[k.name], fields[k])
  }

  /**
   * The value a path names in a value of shape `s`, split at the first `.`
   * as `Extract` splits it: the own field of the first segment, then the
   * rest of the path inside it; undefined where a field is missing.
   */
  function ValueAt(v: Value, s: Shape, path: string): Value
    decreases s
  {
    if '.' in path then
      var i := IndexOf(path, '.');
      var key := path[..i];
      if s.Record? && StrField(key) in s.fields && v.Rec? && key in v.own
      then ValueAt(v.own[key], s.fields[StrField(key)], path[i + 1..])
      else Undefined
    else if v.Rec? && path in v.own then v.own[path]
    else Undefined
  }

  /** The first `.` of `K.P` with a dot-free key `K` sits right after `K`. */
  lemma FirstDotAfterKey(key: string, q: string)
    requires '.' !in key
    ensures '.' in key + "." + q
    ensures IndexOf(key + "." + q, '.') == |key|
    ensures (key + "." + q)[..|key|] == key && (key + "." + q)[|key| + 1..] == q
  {
    var p := key + "." + q;
    assert p[|key|] == '.';
    var i := IndexOf(p, '.');
    assert i <= |key|;
  }

  /**
   * The type-level lookup and the runtime resolver split paths alike: on a
   * value of a record shape with dot-free keys, every path of the default
   * depth has a type, and `tryParseProperty` finds a value of that type.
   */
  lemma {:induction false} ExtractMatchesResolver(v: Value, s: Shape, p: string)
    requires s.Record? && DotFreeKeys(s) && Conforms(v, s)
    requires p in Paths(s, Some(DefaultDepth))
    ensures Extract(s, p).Some?
    ensures TryParseProperty(v, p) == ValueAt(v, s, p)
    ensures Conforms(TryParseProperty(v, p), Extract(s, p).value)
    decreases s
  {
    var fields := s.fields;
    if k :| k in fields && k.StrField? && p == k.name {
      assert '.' !in p;
    } else {
      var k, q :| k in fields && k.StrField? && q in Paths(fields[k], Previous(DefaultDepth)) && p == JoinPath(k.name, q);
      assert q != "";
      var child := fields[k];
      FirstDotAfterKey(k.name, q);
      PathsMonotone(child, 2, 3);
      assert child.Record?;
      SplitRest(p, '.');
      assert TryParseProperty(v, p) == TryParseProperty(v.own[k.name], q);
      ExtractMatchesResolver(v.own[k.name], child, q);
    }
  }

  lemma PathExamples()
    ensures Paths(Record(map[StrField("a") := Record(map[StrField("b") := Prim]), NumField(0) := Prim]), Some(3))
         == {"a", "a.b"}
  {
    var fields := map[StrField("a") := Record(map[StrField("b") := Prim]), NumField(0) := Prim];
    ExampleKeyNames(fields);
    ExampleSubPaths(fields);
    assert Paths(Record(fields), Some(3)) == KeyNames(fields) + SubPaths(fields, Some(2));
  }

  lemma ExampleKeyNames(fields: map<FieldKey, Shape>)
    requires fields == map[StrField("a") := Record(map[StrField("b") := Prim]), NumField(0) := Prim]
    ensures KeyNames(fields) == {"a"}
  {
    assert "a" in KeyNames(fields) by {
      assert StrField("a") in fields;
    }
  }

  lemma ExampleSubPaths(fields: map<FieldKey, Shape>)
    requires fields == map[StrField("a") := Record(map[StrField("b") := Prim]), NumField(0) := Prim]
    ensures SubPaths(fields, Some(2)) == {"a.b"}
  {
    var inner := Record(map[StrField("b") := Prim]);
    InnerPaths(inner);
    assert JoinPath("a", "b") == "a.b";
    assert "a.b" in SubPaths(fields, Some(2)) by {
      assert StrField("a") in fields && fields[StrField("a")] == inner;
    }
    forall x | x in SubPaths(fields, Some(2)) ensures x == "a.b" {
      var k, p :| k in fields && k.StrField? && p in Paths(fields[k], Some(2)) && x == JoinPath(k.name, p);
      assert k == StrField("a");
    }
  }

  lemma InnerPaths(inner: Shape)
    requires inner == Record(map[StrField("b") := Prim])
    ensures Paths(inner, Some(2)) == {"b"}
  {
    assert Paths(Prim, Some(1)) == {""};
    assert KeyNames(inner.fields) == {"b"} by {
      assert StrField("b") in inner.fields;
    }
    assert SubPaths(inner.fields, Some(1)) == {"b"} by {
      assert JoinPath("b", "") == "b";
      assert StrField("b") in inner.fields && "" in Paths(inner.fields[StrField("b")], Some(1));
    }
  }
}
