/** The reader that walks through the bytes (e2e/scripts/prepare-vanilla-1171-void-world.py). */
module NbtReader {
  import opened Wrappers
  import opened Bytes
  import opened Nbt

  /** Puts elements already read in front of those still to come. */
  function After<T>(done: seq<T>, rest: Option<(seq<T>, nat)>): Option<(seq<T>, nat)> {
    if rest.None? then None else Some((done + rest.value.0, rest.value.1))
  }

  lemma AfterNothing<T>(rest: Option<(seq<T>, nat)>)
    ensures After([], rest) == rest
  {
    if rest.Some? {
      assert [] + rest.value.0 == rest.value.0;
    }
  }

  lemma AfterOne<T>(done: seq<T>, x: T, rest: Option<(seq<T>, nat)>)
    ensures After(done, After([x], rest)) == After(done + [x], rest)
  {
    if rest.Some? {
      assert done + ([x] + rest.value.0) == done + [x] + rest.value.0;
    }
  }

  lemma NoneAfter<T>(done: seq<T>)
    ensures After(done, None) == None
  {
  }

  lemma NothingAfter<T>(done: seq<T>, end: nat)
    ensures After(done, Some(([], end))) == Some((done, end))
  {
    assert done + [] == done;
  }

  lemma NoNames()
    ensures Names([]) == {}
  {
  }

  lemma ItemsEnd(data: Bytes, pos: nat, kind: int, depth: nat, items: seq<Value>)
    requires pos <= |data| && depth <= MAX_DEPTH
    ensures After(items, ParseItems(data, pos, kind, 0, depth)) == Some((items, pos))
  {
    NothingAfter(items, pos);
  }

  lemma ItemsStep(data: Bytes, pos: nat, kind: int, n: nat, depth: nat)
    requires pos <= |data| && depth <= MAX_DEPTH && n > 0
    ensures var head := Parse(data, pos, kind, depth + 1);
            ParseItems(data, pos, kind, n, depth) ==
            if head.None? then None
            else After([head.value.0], ParseItems(data, head.value.1, kind, n - 1, depth))
  {
    hide Parse;
  }

  lemma FieldsStep(data: Bytes, pos: nat, seen: set<Bytes>, depth: nat)
    requires pos < |data| && depth <= MAX_DEPTH && data[pos] != 0
    ensures var r, name := ParseFields(data, pos, seen, depth), ParseName(data, pos + 1);
            if name.None? || name.value.0 in seen then r == None
            else
              var item := Parse(data, name.value.1, data[pos], depth + 1);
              if item.None? then r == None
              else r == After([Field(name.value.0, data[pos], item.value.0)],
                              ParseFields(data, item.value.1, seen + {name.value.0}, depth))
  {
    hide Parse, ParseName;
  }

  lemma FieldsEnd(data: Bytes, pos: nat, seen: set<Bytes>, depth: nat)
    requires pos <= |data| && depth <= MAX_DEPTH
    ensures pos == |data| ==> ParseFields(data, pos, seen, depth).None?
    ensures pos < |data| && data[pos] == 0 ==> ParseFields(data, pos, seen, depth) == Some(([], pos + 1))
  {
    hide Parse, ParseName;
  }

  function Names(fields: seq<Field>): set<Bytes> {
    set i | 0 <= i < |fields| :: fields[i].name
  }

  lemma NamesGrow(fields: seq<Field>, f: Field)
    ensures Names(fields + [f]) == Names(fields) + {f.name}
  {
    var all := fields + [f];
    forall name | name in Names(fields) + {f.name}
      ensures name in Names(all)
    {
      if name == f.name {
        assert all[|fields|].name == name;
      } else {
        var i :| 0 <= i < |fields| && fields[i].name == name;
        assert all[i].name == name;
      }
    }
  }

  class Reader {
    const data: Bytes
    var pos: nat

    ghost predicate Valid()
      reads this
    {
      pos <= |data|
    }

    constructor (data: Bytes)
      ensures Valid() && this.data == data && pos == 0
    {
      this.data := data;
      pos := 0;
    }

    /** Nothing moves when the bytes run out. */
    method TakeBytes(n: int) returns (r: Option<Bytes>)
      requires Valid()
      modifies this
      ensures Valid() && r == Take(data, old(pos), n)
      ensures pos == (if r.Some? then old(pos) + n else old(pos))
    {
      if n < 0 || pos + n > |data| {
        return None;
      }
      r := Some(data[pos..pos + n]);
      pos := pos + n;
    }

    method Name() returns (r: Option<Bytes>)
      requires Valid()
      modifies this
      ensures Valid() && (r.Some? <==> ParseName(data, old(pos)).Some?)
      ensures r.Some? ==> ParseName(data, old(pos)) == Some((r.value, pos))
    {
      var length := TakeBytes(2);
      if length.None? {
        return None;
      }
      var text := TakeBytes(Unsigned(length.value));
      if text.None? || !ValidUtf8(text.value) {
        return None;
      }
      r := text;
    }

    /** Reads one payload; on success the reader stands right behind it. */
    method Payload(tag: int, depth: nat) returns (r: Option<Value>)
      requires Valid()
      modifies this
      ensures Valid() && (r.Some? <==> Parse(data, old(pos), tag, depth).Some?)
      ensures r.Some? ==> Parse(data, old(pos), tag, depth) == Some((r.value, pos))
      decreases Levels(depth), 1
    {
      if depth > MAX_DEPTH {
        return None;
      }
      if IsNumber(tag) {
        var raw := TakeBytes(Width(tag));
        return if raw.None? then None else Some(Number(tag, raw.value));
      }
      if IsArray(tag) {
        var length := TakeBytes(4);
        if length.None? {
          return None;
        }
        var raw := TakeBytes(Signed(Unsigned(length.value), 4) * ElementWidth(tag));
        return if raw.None? then None else Some(Raw(raw.value));
      }
      if tag == 8 {
        var text := Name();
        return if text.None? then None else Some(Str(text.value));
      }
      if tag == 9 {
        r := ListPayload(depth);
        return;
      }
      if tag == 10 {
        r := CompoundPayload(depth);
        return;
      }
      r := None;
    }

    method ListPayload(depth: nat) returns (r: Option<Value>)
      requires Valid() && depth <= MAX_DEPTH
      modifies this
      ensures Valid() && (r.Some? <==> Parse(data, old(pos), 9, depth).Some?)
      ensures r.Some? ==> Parse(data, old(pos), 9, depth) == Some((r.value, pos))
      decreases Levels(depth), 0
    {
      hide ParseFields, ParseItems, Signed, Unsigned;
      ghost var start := pos;
      var head := TakeBytes(5);
      if head.None? {
        return None;
      }
      var kind, n := head.value[0], Signed(Unsigned(head.value[1..]), 4);
      if n < 0 || n > MAX_NBT_BYTES || (kind == 0 && n != 0) {
        return None;
      }
      var items: seq<Value> := [];
      AfterNothing(ParseItems(data, pos, kind, n, depth));
      for i := 0 to n
        invariant Valid()
        invariant ParseItems(data, start + 5, kind, n, depth) == After(items, ParseItems(data, pos, kind, n - i, depth))
      {
        ItemsStep(data, pos, kind, n - i, depth);
        var item := Payload(kind, depth + 1);
        if item.None? {
          NoneAfter<Value>(items);
          return None;
        }
        AfterOne(items, item.value, ParseItems(data, pos, kind, n - i - 1, depth));
        items := items + [item.value];
      }
      ItemsEnd(data, pos, kind, depth, items);
      r := Some(List(kind, items));
    }

    method CompoundPayload(depth: nat) returns (r: Option<Value>)
      requires Valid() && depth <= MAX_DEPTH
      modifies this
      ensures Valid() && (r.Some? <==> Parse(data, old(pos), 10, depth).Some?)
      ensures r.Some? ==> Parse(data, old(pos), 10, depth) == Some((r.value, pos))
      decreases Levels(depth), 0
    {
      hide ParseItems, ParseFields, ParseName, Names;
      ghost var start := pos;
      NoNames();
      var fields: seq<Field> := [];
      AfterNothing(ParseFields(data, pos, {}, depth));
      while true
        invariant Valid()
        invariant ParseFields(data, start, {}, depth) == After(fields, ParseFields(data, pos, Names(fields), depth))
        decreases |data| - pos
      {
        NoneAfter<Field>(fields);
        FieldsEnd(data, pos, Names(fields), depth);
        if pos < |data| && data[pos] != 0 {
          FieldsStep(data, pos, Names(fields), depth);
        }
        var kind := TakeBytes(1);
        if kind.None? {
          return None;
        }
        if kind.value[0] == 0 {
          NothingAfter(fields, pos);
          return Some(Compound(fields));
        }
        var name := Name();
        if name.None? || name.value in Names(fields) {
          return None;
        }
        var item := Payload(kind.value[0], depth + 1);
        if item.None? {
          return None;
        }
        var f := Field(name.value, kind.value[0], item.value);
        NamesGrow(fields, f);
        AfterOne(fields, f, ParseFields(data, pos, Names(fields) + {f.name}, depth));
        fields := fields + [f];
      }
    }
  }
}
