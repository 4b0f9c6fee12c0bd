/** Rewriting a generated flat world into an empty one (e2e/scripts/prepare-vanilla-1171-void-world.py). */
module World {
  import opened Wrappers
  import opened Bytes
  import opened Nbt
  import opened NbtReader

  function Ascii(s: string): (b: Bytes)
    ensures |b| == |s|
  {
    seq(|s|, i requires 0 <= i < |s| => s[i] as int % 128)
  }

  // ---------------------------------------------------------------- dicts

  type Path = seq<Bytes>

  datatype Entry = Entry(kind: Byte, item: Value)

  function Get(fields: seq<Field>, name: Bytes): Option<Entry> {
    if fields == [] then None
    else if fields[0].name == name then Some(Entry(fields[0].kind, fields[0].item))
    else Get(fields[1..], name)
  }

  /** Assignment to a key: in place when the key exists, at the end otherwise. */
  function Put(fields: seq<Field>, name: Bytes, e: Entry): seq<Field> {
    if fields == [] then [Field(name, e.kind, e.item)]
    else if fields[0].name == name then [Field(name, e.kind, e.item)] + fields[1..]
    else [fields[0]] + Put(fields[1..], name, e)
  }

  /** The keys in order. */
  function Keys(fields: seq<Field>): seq<Bytes> {
    if fields == [] then [] else [fields[0].name] + Keys(fields[1..])
  }

  lemma {:induction false} PutMeansAssign(fields: seq<Field>, name: Bytes, e: Entry, other: Bytes)
    ensures Get(Put(fields, name, e), other) == if other == name then Some(e) else Get(fields, other)
    ensures Keys(Put(fields, name, e)) == Keys(fields) + if Get(fields, name).Some? then [] else [name]
    ensures Get(fields, name) == Some(e) ==> Put(fields, name, e) == fields
  {
    if fields != [] && fields[0].name != name {
      PutMeansAssign(fields[1..], name, e, other);
    } else if fields != [] {
      assert Put(fields, name, e)[1..] == fields[1..];
      assert [fields[0]] + fields[1..] == fields;
    }
  }

  // ---------------------------------------------------------------- nested dicts

  /** The compound an entry holds, if it is one. */
  function Inside(e: Option<Entry>): Option<seq<Field>> {
    if e.Some? && e.value.kind == 10 && e.value.item.Compound? then Some(e.value.item.fields) else None
  }

  function Lookup(fields: seq<Field>, path: Path): Option<Entry>
    decreases |path|
  {
    if path == [] then None
    else if |path| == 1 then Get(fields, path[0])
    else
      match Inside(Get(fields, path[0]))
      case None => None
      case Some(inner) => Lookup(inner, path[1..])
  }

  /** The compound at a path; the empty path is the root. */
  function CompoundAt(fields: seq<Field>, path: Path): Option<seq<Field>> {
    if path == [] then Some(fields) else Inside(Lookup(fields, path))
  }

  /** `root[p0]...[pn] = e`, through compounds that exist. */
  function Assign(fields: seq<Field>, path: Path, e: Entry): seq<Field>
    decreases |path|
  {
    if path == [] then fields
    else if |path| == 1 then Put(fields, path[0], e)
    else
      match Inside(Get(fields, path[0]))
      case None => fields
      case Some(inner) => Put(fields, path[0], Entry(10, Compound(Assign(inner, path[1..], e))))
  }

  predicate Comparable(p: Path, q: Path) {
    p <= q || q <= p
  }

  lemma ComparableTail(p: Path, q: Path)
    requires p != [] && q != [] && p[0] == q[0]
    ensures Comparable(p, q) <==> Comparable(p[1..], q[1..])
    ensures p <= q <==> p[1..] <= q[1..]
  {
    assert p == [p[0]] + p[1..] && q == [q[0]] + q[1..];
  }

  /** An assignment is seen at its own path, changes nothing at paths it is not comparable with, and leaves the
  compounds above it compounds. */
  lemma {:induction false} AssignMeansAssign(fields: seq<Field>, path: Path, e: Entry, q: Path)
    requires path != [] && CompoundAt(fields, path[..|path| - 1]).Some?
    ensures Lookup(Assign(fields, path, e), path) == Some(e)
    ensures !Comparable(path, q) ==> Lookup(Assign(fields, path, e), q) == Lookup(fields, q)
    ensures q < path && q != [] ==> Inside(Lookup(Assign(fields, path, e), q)).Some?
    decreases |path|
  {
    if |path| == 1 {
      if q != [] {
        PutMeansAssign(fields, path[0], e, q[0]);
      }
      PutMeansAssign(fields, path[0], e, path[0]);
      if q != [] && q[0] == path[0] {
        assert path <= q;
      }
    } else {
      var tail := path[1..];
      CompoundAbove(fields, path);
      var inner := Inside(Get(fields, path[0])).value;
      assert tail[..|tail| - 1] == path[..|path| - 1][1..];
      var changed := Entry(10, Compound(Assign(inner, tail, e)));
      PutMeansAssign(fields, path[0], changed, path[0]);
      AssignMeansAssign(inner, tail, e, if q != [] then q[1..] else q);
      if q != [] {
        PutMeansAssign(fields, path[0], changed, q[0]);
        if q[0] == path[0] {
          ComparableTail(path, q);
          ComparableTail(q, path);
          if |q| == 1 {
            assert q <= path;
          }
        }
      }
    }
  }

  /** A compound deep below makes every step on the way a compound. */
  lemma CompoundAbove(fields: seq<Field>, path: Path)
    requires |path| > 1 && CompoundAt(fields, path[..|path| - 1]).Some?
    ensures Inside(Get(fields, path[0])).Some?
    ensures CompoundAt(Inside(Get(fields, path[0])).value, path[1..][..|path| - 2]).Some?
  {
    var p := path[..|path| - 1];
    assert p[0] == path[0] && p[1..] == path[1..][..|path| - 2];
    if |p| == 1 {
      assert p[1..] == [];
    }
  }

  /** Assigning what is already there changes nothing. */
  lemma {:induction false} AssignSame(fields: seq<Field>, path: Path, e: Entry)
    requires path != [] && Lookup(fields, path) == Some(e)
    ensures Assign(fields, path, e) == fields
    decreases |path|
  {
    if |path| == 1 {
      PutMeansAssign(fields, path[0], e, path[0]);
    } else {
      var inner := Inside(Get(fields, path[0])).value;
      AssignSame(inner, path[1..], e);
      PutMeansAssign(fields, path[0], Entry(10, Compound(inner)), path[0]);
    }
  }

  lemma OneKeyKeepsOrder(fields: seq<Field>, name: Bytes, e: Entry, q: Path)
    requires !([name] <= q) && CompoundAt(fields, q).Some?
    ensures CompoundAt(Put(fields, name, e), q).Some?
    ensures Keys(CompoundAt(Put(fields, name, e), q).value) == Keys(CompoundAt(fields, q).value) +
            if q == [] && Get(fields, name).None? then [name] else []
  {
    hide Get, Put, Keys;
    PutMeansAssign(fields, name, e, name);
    if q != [] {
      PutMeansAssign(fields, name, e, q[0]);
      assert q[0] == name ==> [name] <= q;
    }
  }

  /** Every compound keeps its keys in order; only the one assigned into may gain the new key, at its end. */
  lemma {:induction false} AssignKeepsOrder(fields: seq<Field>, path: Path, e: Entry, q: Path)
    requires path != [] && CompoundAt(fields, path[..|path| - 1]).Some?
    requires !(path <= q) && CompoundAt(fields, q).Some?
    ensures CompoundAt(Assign(fields, path, e), q).Some?
    ensures Keys(CompoundAt(Assign(fields, path, e), q).value) == Keys(CompoundAt(fields, q).value) +
            if q == path[..|path| - 1] && Lookup(fields, path).None? then [path[|path| - 1]] else []
    decreases |path|
  {
    hide Get, Put, Keys;
    if |path| == 1 {
      assert path == [path[0]];
      OneKeyKeepsOrder(fields, path[0], e, q);
    } else {
      var tail := path[1..];
      CompoundAbove(fields, path);
      var inner := Inside(Get(fields, path[0])).value;
      assert tail[..|tail| - 1] == path[..|path| - 1][1..];
      var changed := Entry(10, Compound(Assign(inner, tail, e)));
      PutMeansAssign(fields, path[0], changed, path[0]);
      if q != [] {
        PutMeansAssign(fields, path[0], changed, q[0]);
        if q[0] == path[0] {
          ComparableTail(path, q);
          assert CompoundAt(inner, q[1..]).Some?;
          AssignKeepsOrder(inner, tail, e, q[1..]);
          if q[1..] == tail[..|tail| - 1] {
            assert q == [q[0]] + q[1..] && path[..|path| - 1] == [path[0]] + path[..|path| - 1][1..];
          }
        } else {
          assert path[..|path| - 1][0] == path[0];
        }
      }
    }
  }

  // ---------------------------------------------------------------- well-formedness survives assignment

  lemma {:induction false} PutWellFormed(fields: seq<Field>, seen: set<Bytes>, depth: nat, name: Bytes, e: Entry)
    requires FieldsWellFormed(fields, seen, depth) && name !in seen && NameOk(name)
    requires e.kind != 0 && WellFormed(e.kind, e.item, depth + 1)
    ensures FieldsWellFormed(Put(fields, name, e), seen, depth)
  {
    hide WellFormed, NameOk;
    if fields == [] {
      assert [Field(name, e.kind, e.item)][1..] == [];
    } else if fields[0].name != name {
      PutWellFormed(fields[1..], seen + {fields[0].name}, depth, name, e);
      assert Put(fields, name, e)[1..] == Put(fields[1..], name, e);
    } else {
      assert Put(fields, name, e)[1..] == fields[1..];
    }
  }

  lemma {:induction false} GetWellFormed(fields: seq<Field>, seen: set<Bytes>, depth: nat, name: Bytes)
    requires FieldsWellFormed(fields, seen, depth) && Get(fields, name).Some?
    ensures var e := Get(fields, name).value;
            e.kind != 0 && WellFormed(e.kind, e.item, depth + 1) && NameOk(name) && name !in seen
  {
    hide WellFormed, NameOk;
    if fields[0].name != name {
      GetWellFormed(fields[1..], seen + {fields[0].name}, depth, name);
    }
  }

  lemma {:induction false} AssignWellFormed(fields: seq<Field>, path: Path, e: Entry, depth: nat)
    requires path != [] && CompoundAt(fields, path[..|path| - 1]).Some? && FieldsWellFormed(fields, {}, depth)
    requires NameOk(path[|path| - 1]) && e.kind != 0 && WellFormed(e.kind, e.item, depth + |path|)
    ensures FieldsWellFormed(Assign(fields, path, e), {}, depth)
    decreases |path|
  {
    hide NameOk;
    if |path| == 1 {
      PutWellFormed(fields, {}, depth, path[0], e);
    } else {
      var tail := path[1..];
      CompoundAbove(fields, path);
      GetWellFormed(fields, {}, depth, path[0]);
      var inner := Inside(Get(fields, path[0])).value;
      assert tail[..|tail| - 1] == path[1..][..|path| - 2];
      AssignWellFormed(inner, tail, e, depth + 1);
      PutWellFormed(fields, {}, depth, path[0], Entry(10, Compound(Assign(inner, tail, e))));
    }
  }

  // ---------------------------------------------------------------- the rewrite

  const WORLDGEN: Path := [Ascii("Data"), Ascii("WorldGenSettings")]
  const GENERATOR: Path := WORLDGEN + [Ascii("dimensions"), Ascii("minecraft:overworld"), Ascii("generator")]
  const SETTINGS: Path := GENERATOR + [Ascii("settings")]

  const TYPE: Path := GENERATOR + [Ascii("type")]
  const LAYERS: Path := SETTINGS + [Ascii("layers")]
  const FEATURES: Path := SETTINGS + [Ascii("features")]
  const LAKES: Path := SETTINGS + [Ascii("lakes")]
  const GENERATE: Path := WORLDGEN + [Ascii("generate_features")]

  const FLAT := Entry(8, Str(Ascii("minecraft:flat")))
  const FALSE := Entry(1, Int(0))
  const AIR_LAYER := Compound([Field(Ascii("height"), 3, Int(1)),
                               Field(Ascii("block"), 8, Str(Ascii("minecraft:air")))])
  const AIR := Entry(9, List(10, [AIR_LAYER]))

  /** A world whose overworld uses the server's own flat generator. */
  predicate Rewritable(root: seq<Field>) {
    && CompoundAt(root, SETTINGS).Some?
    && Lookup(root, TYPE) == Some(FLAT)
    && Lookup(root, LAYERS).Some? && Lookup(root, LAYERS).value.kind == 9
  }

  function Rewrite(root: seq<Field>): seq<Field> {
    Assign(Assign(Assign(Assign(root, LAYERS, AIR), FEATURES, FALSE), LAKES, FALSE), GENERATE, FALSE)
  }

  function ParseRoot(data: Bytes): Option<(Bytes, seq<Field>)> {
    if data == [] || data[0] != 10 then None
    else
      match ParseName(data, 1)
      case None => None
      case Some((name, start)) =>
        var tree := Parse(data, start, 10, 0);
        if tree.None? || tree.value.1 != |data| || !tree.value.0.Compound? then None
        else Some((name, tree.value.0.fields))
  }

  function EncodeRoot(name: Bytes, root: seq<Field>): Option<Bytes> {
    Join(Join(Some([10]), EncodeName(name)), Encode(10, Compound(root), 0))
  }

  function Prepared(data: Bytes): Option<Bytes> {
    match ParseRoot(data)
    case None => None
    case Some((name, root)) => if Rewritable(root) then EncodeRoot(name, Rewrite(root)) else None
  }

  /** One step down from a compound. */
  lemma {:induction false} StepInto(fields: seq<Field>, path: Path, name: Bytes)
    ensures CompoundAt(fields, path).Some? ==>
              && Lookup(fields, path + [name]) == Get(CompoundAt(fields, path).value, name)
              && CompoundAt(fields, path + [name]) == Inside(Get(CompoundAt(fields, path).value, name))
    ensures CompoundAt(fields, path).None? ==>
              Lookup(fields, path + [name]).None? && CompoundAt(fields, path + [name]).None?
    decreases |path|
  {
    var p := path + [name];
    if path != [] {
      var inner := Inside(Get(fields, path[0]));
      assert p[1..] == path[1..] + [name];
      if inner.Some? {
        StepInto(inner.value, path[1..], name);
      }
    }
  }

  method Prepare(data: Bytes) returns (r: Option<Bytes>)
    ensures r == Prepared(data)
  {
    hide Assign, Encode, Ascii, Get, Inside, Lookup, CompoundAt, Parse;
    var parser := new Reader(data);
    var tag := parser.TakeBytes(1);
    if tag.None? || tag.value[0] != 10 {
      return None;
    }
    var name := parser.Name();
    if name.None? {
      return None;
    }
    var tree := parser.Payload(10, 0);
    if tree.None? || parser.pos != |data| {
      return None;
    }
    if !tree.value.Compound? {
      return None;
    }
    var root := tree.value.fields;
    PathsStepByStep(root);
    var world := Inside(Get(root, Ascii("Data")));
    if world.None? {
      return None;
    }
    var worldgen := Inside(Get(world.value, Ascii("WorldGenSettings")));
    if worldgen.None? {
      return None;
    }
    var dims := Inside(Get(worldgen.value, Ascii("dimensions")));
    if dims.None? {
      return None;
    }
    var overworld := Inside(Get(dims.value, Ascii("minecraft:overworld")));
    if overworld.None? {
      return None;
    }
    var generator := Inside(Get(overworld.value, Ascii("generator")));
    if generator.None? || Get(generator.value, Ascii("type")) != Some(FLAT) {
      return None;
    }
    var settings := Inside(Get(generator.value, Ascii("settings")));
    if settings.None? {
      return None;
    }
    var layers := Get(settings.value, Ascii("layers"));
    if layers.None? || layers.value.kind != 9 {
      return None;
    }
    // The four assignments into the nested dicts, in the order of the script.
    root := Assign(root, LAYERS, AIR);
    root := Assign(root, FEATURES, FALSE);
    root := Assign(root, LAKES, FALSE);
    root := Assign(root, GENERATE, FALSE);
    r := EncodeRoot(name.value, root);
  }

  /** The script's walk down the dicts, one key at a time, is the lookup along each whole path. */
  lemma PathsStepByStep(root: seq<Field>)
    ensures var world := Inside(Get(root, Ascii("Data")));
            var worldgen := if world.Some? then Inside(Get(world.value, Ascii("WorldGenSettings"))) else None;
            var dims := if worldgen.Some? then Inside(Get(worldgen.value, Ascii("dimensions"))) else None;
            var overworld := if dims.Some? then Inside(Get(dims.value, Ascii("minecraft:overworld"))) else None;
            var generator := if overworld.Some? then Inside(Get(overworld.value, Ascii("generator"))) else None;
            var settings := if generator.Some? then Inside(Get(generator.value, Ascii("settings"))) else None;
            && CompoundAt(root, WORLDGEN) == worldgen
            && CompoundAt(root, SETTINGS) == settings
            && Lookup(root, TYPE) == (if generator.Some? then Get(generator.value, Ascii("type")) else None)
            && Lookup(root, LAYERS) == (if settings.Some? then Get(settings.value, Ascii("layers")) else None)
  {
    hide Get, Inside, Ascii, Lookup;
    var p1 := [Ascii("Data")];
    var p3 := WORLDGEN + [Ascii("dimensions")];
    var p4 := p3 + [Ascii("minecraft:overworld")];
    assert [] + [Ascii("Data")] == p1 && p1 + [Ascii("WorldGenSettings")] == WORLDGEN;
    assert p4 + [Ascii("generator")] == GENERATOR;
    StepInto(root, [], Ascii("Data"));
    StepInto(root, p1, Ascii("WorldGenSettings"));
    StepInto(root, WORLDGEN, Ascii("dimensions"));
    StepInto(root, p3, Ascii("minecraft:overworld"));
    StepInto(root, p4, Ascii("generator"));
    StepInto(root, GENERATOR, Ascii("settings"));
    StepInto(root, GENERATOR, Ascii("type"));
    StepInto(root, SETTINGS, Ascii("layers"));
  }

  /** The keys and texts below are bytes by their ASCII codes. */
  lemma AsciiExactly(s: string)
    requires forall c | c in s :: c as int < 0x80
    ensures |Ascii(s)| == |s| && forall i | 0 <= i < |s| :: Ascii(s)[i] == s[i] as int
    ensures Ascii("Data") == [0x44, 0x61, 0x74, 0x61] && Ascii("type") == [0x74, 0x79, 0x70, 0x65]
  {
    assert forall i | 0 <= i < |s| :: s[i] in s;
  }

  /** Where the script looks and writes, and what. */
  lemma PathsExactly()
    ensures var generator := [Ascii("Data"), Ascii("WorldGenSettings"), Ascii("dimensions"),
                              Ascii("minecraft:overworld"), Ascii("generator")];
            && TYPE == generator + [Ascii("type")] && SETTINGS == generator + [Ascii("settings")]
            && LAYERS == generator + [Ascii("settings"), Ascii("layers")]
            && FEATURES == generator + [Ascii("settings"), Ascii("features")]
            && LAKES == generator + [Ascii("settings"), Ascii("lakes")]
            && GENERATE == [Ascii("Data"), Ascii("WorldGenSettings"), Ascii("generate_features")]
    ensures FLAT == Entry(8, Str(Ascii("minecraft:flat"))) && FALSE == Entry(1, Int(0))
    ensures AIR == Entry(9, List(10, [Compound([Field(Ascii("height"), 3, Int(1)),
                                                Field(Ascii("block"), 8, Str(Ascii("minecraft:air")))])]))
  {
  }

  /** A world is rewritten if and only if its overworld generator is the flat one and has settings with a list of
  layers. */
  lemma RewritableExactly(root: seq<Field>)
    ensures Rewritable(root) <==>
              && Lookup(root, TYPE) == Some(Entry(8, Str(Ascii("minecraft:flat"))))
              && (exists settings :: Lookup(root, SETTINGS) == Some(Entry(10, Compound(settings))))
              && exists layers :: Lookup(root, LAYERS) == Some(Entry(9, layers))
  {
    hide Lookup, Ascii;
    var s := Lookup(root, SETTINGS);
    if s.Some? && s.value.item.Compound? {
      assert s == Some(Entry(s.value.kind, Compound(s.value.item.fields)));
    }
    var l := Lookup(root, LAYERS);
    assert l.Some? ==> l == Some(Entry(l.value.kind, l.value.item));
  }

  /** With distinct names, looking a name up finds exactly the field that has it. */
  lemma {:induction false} GetExactly(fields: seq<Field>, name: Bytes, e: Entry)
    requires forall i, j | 0 <= i < j < |fields| :: fields[i].name != fields[j].name
    ensures Get(fields, name) == Some(e) <==> Field(name, e.kind, e.item) in fields
  {
    if fields != [] {
      assert forall i | 0 <= i < |fields[1..]| :: fields[1..][i] == fields[i + 1];
      GetExactly(fields[1..], name, e);
      assert fields == [fields[0]] + fields[1..];
      forall f | f in fields[1..]
        ensures f.name != fields[0].name
      {
        var i :| 0 <= i < |fields[1..]| && fields[1..][i] == f;
        assert fields[i + 1] == f;
      }
    }
  }

  // ---------------------------------------------------------------- what the rewrite changes, and what it keeps

  lemma ApartAt(p: Path, q: Path, i: nat)
    requires i < |p| && i < |q| && p[i] != q[i]
    ensures !Comparable(p, q) && !Comparable(q, p)
  {
  }

  lemma PathsApart()
    ensures !Comparable(LAYERS, FEATURES) && !Comparable(LAYERS, LAKES) && !Comparable(FEATURES, LAKES)
    ensures !Comparable(FEATURES, LAYERS) && !Comparable(LAKES, LAYERS) && !Comparable(LAKES, FEATURES)
    ensures !Comparable(GENERATE, LAYERS) && !Comparable(GENERATE, FEATURES) && !Comparable(GENERATE, LAKES)
    ensures !Comparable(LAYERS, TYPE) && !Comparable(FEATURES, TYPE) && !Comparable(LAKES, TYPE)
            && !Comparable(GENERATE, TYPE)
    ensures !Comparable(GENERATE, SETTINGS)
  {
    hide Ascii, Comparable;
    ApartAt(LAYERS, FEATURES, 6);
    ApartAt(LAYERS, LAKES, 6);
    ApartAt(FEATURES, LAKES, 6);
    ApartAt(GENERATE, LAYERS, 2);
    ApartAt(GENERATE, FEATURES, 2);
    ApartAt(GENERATE, LAKES, 2);
    ApartAt(LAYERS, TYPE, 5);
    ApartAt(FEATURES, TYPE, 5);
    ApartAt(LAKES, TYPE, 5);
    ApartAt(GENERATE, TYPE, 2);
    ApartAt(GENERATE, SETTINGS, 2);
  }

  lemma PathsBelow()
    ensures LAYERS[..|LAYERS| - 1] == SETTINGS && FEATURES[..|FEATURES| - 1] == SETTINGS
            && LAKES[..|LAKES| - 1] == SETTINGS
    ensures GENERATE[..|GENERATE| - 1] == WORLDGEN
    ensures SETTINGS < LAYERS && SETTINGS < FEATURES && SETTINGS < LAKES
    ensures WORLDGEN < LAYERS && WORLDGEN < FEATURES && WORLDGEN < LAKES
  {
  }

  /** The states of the tree after each of the four assignments. */
  function Stage(root: seq<Field>, n: nat): seq<Field> {
    if n == 0 then root
    else if n == 1 then Assign(root, LAYERS, AIR)
    else if n == 2 then Assign(Stage(root, 1), FEATURES, FALSE)
    else if n == 3 then Assign(Stage(root, 2), LAKES, FALSE)
    else Assign(Stage(root, 3), GENERATE, FALSE)
  }

  function Target(n: nat): Path {
    if n == 0 then LAYERS else if n == 1 then FEATURES else if n == 2 then LAKES else GENERATE
  }

  function NewEntry(n: nat): Entry {
    if n == 0 then AIR else FALSE
  }

  lemma StageBegins(root: seq<Field>)
    ensures Stage(root, 0) == root
  {
  }

  lemma StageStep(root: seq<Field>, n: nat)
    requires n < 4
    ensures Stage(root, n + 1) == Assign(Stage(root, n), Target(n), NewEntry(n)) && Stage(root, 4) == Rewrite(root)
  {
    hide Assign;
    assert Stage(root, 1) == Assign(root, LAYERS, AIR);
    assert Stage(root, 2) == Assign(Stage(root, 1), FEATURES, FALSE);
    assert Stage(root, 3) == Assign(Stage(root, 2), LAKES, FALSE);
  }

  /** Both parents are compounds all the way through. */
  lemma {:induction false} ParentsStay(root: seq<Field>, n: nat)
    requires Rewritable(root) && n <= 4
    ensures CompoundAt(Stage(root, n), SETTINGS).Some? && CompoundAt(Stage(root, n), WORLDGEN).Some?
    ensures n < 4 ==> CompoundAt(Stage(root, n), Target(n)[..|Target(n)| - 1]).Some?
  {
    hide Assign, Lookup, Ascii, Comparable;
    PathsBelow();
    if n == 0 {
      PathsStepByStep(root);
    } else {
      ParentsStay(root, n - 1);
      StageStep(root, n - 1);
      PathsApart();
      AssignMeansAssign(Stage(root, n - 1), Target(n - 1), NewEntry(n - 1), SETTINGS);
      if n < 4 {
        AssignMeansAssign(Stage(root, n - 1), Target(n - 1), NewEntry(n - 1), WORLDGEN);
      } else {
        AssignMeansAssign(Stage(root, 3), GENERATE, FALSE, WORLDGEN);
      }
    }
  }

  /** Paths that none of the first `n` assignments touches. */
  predicate Untouched(q: Path, n: nat) {
    && (n > 0 ==> !Comparable(LAYERS, q)) && (n > 1 ==> !Comparable(FEATURES, q))
    && (n > 2 ==> !Comparable(LAKES, q)) && (n > 3 ==> !Comparable(GENERATE, q))
  }

  lemma {:induction false} UntouchedStays(root: seq<Field>, q: Path, n: nat)
    requires Rewritable(root) && n <= 4 && Untouched(q, n)
    ensures Lookup(Stage(root, n), q) == Lookup(root, q)
  {
    hide Assign, Lookup, Ascii, Comparable;
    if n > 0 {
      UntouchedStays(root, q, n - 1);
      ParentsStay(root, n - 1);
      StageStep(root, n - 1);
      AssignMeansAssign(Stage(root, n - 1), Target(n - 1), NewEntry(n - 1), q);
    }
  }

  /** What assignment `m` wrote is still there after the later ones. */
  lemma {:induction false} WrittenStays(root: seq<Field>, m: nat, n: nat)
    requires Rewritable(root) && m < n <= 4
    ensures Lookup(Stage(root, n), Target(m)) == Some(NewEntry(m))
  {
    hide Assign, Lookup, Ascii, Comparable;
    PathsApart();
    ParentsStay(root, n - 1);
    StageStep(root, n - 1);
    AssignMeansAssign(Stage(root, n - 1), Target(n - 1), NewEntry(n - 1), Target(m));
    if m < n - 1 {
      WrittenStays(root, m, n - 1);
    }
  }

  /** The rewritten tree holds the four new entries and agrees with the old one everywhere off their paths. */
  lemma RewriteFrame(root: seq<Field>, q: Path)
    requires Rewritable(root)
    ensures var r := Rewrite(root);
            && Lookup(r, LAYERS) == Some(AIR) && Lookup(r, FEATURES) == Some(FALSE)
            && Lookup(r, LAKES) == Some(FALSE) && Lookup(r, GENERATE) == Some(FALSE)
            && (!Comparable(LAYERS, q) && !Comparable(FEATURES, q) && !Comparable(LAKES, q)
                && !Comparable(GENERATE, q) ==>
                  Lookup(r, q) == Lookup(root, q))
            && Rewritable(r)
  {
    hide Assign, Lookup, Ascii, Comparable, CompoundAt;
    StageStep(root, 3);
    WrittenStays(root, 0, 4);
    WrittenStays(root, 1, 4);
    WrittenStays(root, 2, 4);
    WrittenStays(root, 3, 4);
    if Untouched(q, 4) {
      UntouchedStays(root, q, 4);
    }
    PathsApart();
    UntouchedStays(root, TYPE, 4);
    ParentsStay(root, 4);
  }

  /** The keys the first `n` assignments add to the compound at `q`, in order. */
  function NewKeys(root: seq<Field>, q: Path, n: nat): seq<Bytes> {
    if n == 0 then []
    else
      var p := Target(if n <= 4 then n - 1 else 0);
      NewKeys(root, q, n - 1) +
      if q == p[..|p| - 1] && Lookup(Stage(root, n - 1), p).None? then [p[|p| - 1]] else []
  }

  /** No compound loses or reorders a key: those that existed come first, in their order, and only the settings and
  worldgen compounds can gain keys. */
  lemma {:induction false} RewriteKeepsOrder(root: seq<Field>, q: Path, n: nat)
    requires Rewritable(root) && n <= 4 && CompoundAt(root, q).Some? && !(LAYERS <= q)
    requires !(FEATURES <= q) && !(LAKES <= q) && !(GENERATE <= q)
    ensures CompoundAt(Stage(root, n), q).Some?
    ensures Keys(CompoundAt(Stage(root, n), q).value) == Keys(CompoundAt(root, q).value) + NewKeys(root, q, n)
    ensures q != SETTINGS && q != WORLDGEN ==> NewKeys(root, q, n) == []
  {
    hide Assign, Lookup, Ascii, CompoundAt, Keys, Stage;
    StageBegins(root);
    if n > 0 {
      RewriteKeepsOrder(root, q, n - 1);
      ParentsStay(root, n - 1);
      StageStep(root, n - 1);
      PathsBelow();
      AssignKeepsOrder(Stage(root, n - 1), Target(n - 1), NewEntry(n - 1), q);
    }
  }

  /** Rewriting twice is rewriting once. */
  lemma RewriteIdempotent(root: seq<Field>)
    requires Rewritable(root)
    ensures Rewritable(Rewrite(root)) && Rewrite(Rewrite(root)) == Rewrite(root)
  {
    hide Assign, Lookup, Ascii, Comparable, CompoundAt;
    var r := Rewrite(root);
    RewriteFrame(root, TYPE);
    AssignSame(r, LAYERS, AIR);
    AssignSame(r, FEATURES, FALSE);
    AssignSame(r, LAKES, FALSE);
    AssignSame(r, GENERATE, FALSE);
  }

  // ---------------------------------------------------------------- the output as a file

  lemma AsciiNameOk(s: string)
    requires |s| <= 65535
    ensures NameOk(Ascii(s))
  {
    AsciiIsUtf8(Ascii(s));
  }

  lemma NewEntriesWellFormed(n: nat, depth: nat)
    requires n < 4 && depth + 2 <= MAX_DEPTH
    ensures NewEntry(n).kind != 0 && WellFormed(NewEntry(n).kind, NewEntry(n).item, depth)
    ensures NameOk(Target(n)[|Target(n)| - 1])
  {
    hide ValidUtf8;
    AsciiNameOk("layers");
    AsciiNameOk("features");
    AsciiNameOk("lakes");
    AsciiNameOk("generate_features");
    AsciiNameOk("height");
    AsciiNameOk("block");
    AsciiNameOk("minecraft:air");
    var height, block := Field(Ascii("height"), 3, Int(1)), Field(Ascii("block"), 8, Str(Ascii("minecraft:air")));
    assert Pow256(1) == 256 && Pow256(4) == 0x1_0000_0000;
    assert [height, block][1..] == [block] && [block][1..] == [];
    assert |height.name| != |block.name|;
    assert FieldsWellFormed([], {height.name, block.name}, depth + 1);
    assert FieldsWellFormed([block], {} + {height.name}, depth + 1);
    assert FieldsWellFormed([height, block], {}, depth + 1);
    assert WellFormed(10, AIR_LAYER, depth + 1);
    assert [AIR_LAYER][1..] == [];
    assert ItemsWellFormed(10, [AIR_LAYER], depth);
  }

  lemma {:induction false} StageWellFormed(root: seq<Field>, n: nat)
    requires Rewritable(root) && n <= 4 && FieldsWellFormed(root, {}, 0)
    ensures FieldsWellFormed(Stage(root, n), {}, 0)
  {
    hide Assign, WellFormed, FieldsWellFormed, NameOk, Ascii, Lookup, CompoundAt;
    if n > 0 {
      StageWellFormed(root, n - 1);
      ParentsStay(root, n - 1);
      StageStep(root, n - 1);
      NewEntriesWellFormed(n - 1, |Target(n - 1)|);
      AssignWellFormed(Stage(root, n - 1), Target(n - 1), NewEntry(n - 1), 0);
    }
  }

  /** A well-formed root prints, and the file parses back to its last byte. */
  lemma RootRoundTrip(name: Bytes, root: seq<Field>)
    requires NameOk(name) && FieldsWellFormed(root, {}, 0)
    ensures EncodeRoot(name, root).Some? && ParseRoot(EncodeRoot(name, root).value) == Some((name, root))
  {
    hide Parse, ParseName, ValidUtf8, BigEndian, FieldsWellFormed, EncodeFields;
    assert WellFormed(10, Compound(root), 0) by {
      RootWellFormed(root);
    }
    var header, body := EncodeName(name).value, Encode(10, Compound(root), 0);
    EncodeThenParse(10, Compound(root), 0, [], 0);
    hide Encode, WellFormed, EncodeName;
    var data := [10] + header + body.value;
    assert data[0] == 10;
    assert Has(data, 1, header) && Has(data, 1 + |header|, body.value);
    NameParses(name, data, 1);
    EncodeThenParse(10, Compound(root), 0, data, 1 + |header|);
  }

  lemma RootWellFormed(root: seq<Field>)
    ensures WellFormed(10, Compound(root), 0) <==> FieldsWellFormed(root, {}, 0)
  {
  }

  /** What is parsed as a root is well formed, and prints back to the file. */
  lemma RootPrints(data: Bytes)
    requires ParseRoot(data).Some?
    ensures var (name, root) := ParseRoot(data).value;
            NameOk(name) && FieldsWellFormed(root, {}, 0) && EncodeRoot(name, root) == Some(data)
  {
    hide Parse, ParseName, ValidUtf8, BigEndian, FieldsWellFormed, Encode, EncodeName, WellFormed;
    var (name, start) := ParseName(data, 1).value;
    var (tree, end) := Parse(data, start, 10, 0).value;
    NamePrints(data, 1);
    ParseThenEncode(data, start, 10, 0);
    RootWellFormed(tree.fields);
    assert PrintsTo(Some([10]), data, 0, 1);
    JoinPrints(Some([10]), EncodeName(name), data, 0, 1, start);
    JoinPrints(Join(Some([10]), EncodeName(name)), Encode(10, tree, 0), data, 0, start, end);
    assert data[0..|data|] == data;
  }

  /** The prepared file always parses, to the rewritten tree under the same name. */
  lemma PreparedParses(data: Bytes)
    requires Prepared(data).Some?
    ensures var (name, root) := ParseRoot(data).value;
            ParseRoot(Prepared(data).value) == Some((name, Rewrite(root)))
  {
    hide ParseRoot, Rewrite, EncodeRoot, Rewritable, FieldsWellFormed, NameOk;
    var (name, root) := ParseRoot(data).value;
    RootPrints(data);
    StageStep(root, 3);
    StageWellFormed(root, 4);
    RootRoundTrip(name, Rewrite(root));
  }

  /** A world that can be read and rewritten is always written; preparing a prepared world changes no byte. */
  lemma PrepareTwice(data: Bytes)
    ensures Prepared(data).Some? <==> ParseRoot(data).Some? && Rewritable(ParseRoot(data).value.1)
    ensures Prepared(data).Some? ==> Prepared(Prepared(data).value) == Prepared(data)
  {
    hide ParseRoot, Rewrite, EncodeRoot, Rewritable, FieldsWellFormed, NameOk;
    if ParseRoot(data).Some? && Rewritable(ParseRoot(data).value.1) {
      var (name, root) := ParseRoot(data).value;
      RootPrints(data);
      StageStep(root, 3);
      StageWellFormed(root, 4);
      RootRoundTrip(name, Rewrite(root));
      PreparedParses(data);
      RewriteIdempotent(root);
    }
  }
}
