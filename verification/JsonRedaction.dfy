/**
 Redacting JSON (pkg/bouncer/redactor.go): the walk over a decoded document, and the test that lets a
 document through without decoding it.
 */
module JsonRedaction {
  import opened Utf8
  import opened Folding
  import opened Regex
  import opened Prefilter
  import opened PrefilterFinds
  import opened Spans
  import opened Redaction
  import opened StringRedaction
  import opened Wrappers
  import Sorting

  /** A decoded document. The fields of an object are listed in the order its map is iterated. */
  datatype Json =
    | Str(text: Bytes)
    | Obj(fields: seq<Field>)
    | Arr(items: seq<Json>)
    | Scalar(id: int) // number, boolean, null

  datatype Field = Field(key: Bytes, val: Json)

  function Put(fields: seq<Field>, key: Bytes, val: Json): seq<Field> {
    if fields == [] then [Field(key, val)]
    else if fields[0].key == key then [Field(key, val)] + fields[1..]
    else [fields[0]] + Put(fields[1..], key, val)
  }

  function PutAll(fields: seq<Field>, more: seq<Field>): seq<Field>
    decreases more
  {
    if more == [] then fields else PutAll(Put(fields, more[0].key, more[0].val), more[1..])
  }

  predicate KeyIsSensitive(r: Redactor, key: Bytes) { r.sensitiveKey.find(key) != [] }

  predicate HoldsSecret(r: Redactor, f: Field) {
    f.val.Str? && f.val.text != [] && KeyIsSensitive(r, f.key)
  }

  datatype Walk = Walk(kept: seq<Field>, renamed: seq<Field>, count: nat)

  /** What redactInterface makes of a value. */
  ghost function RedactValue(r: Redactor, v: Json): Counted<Json>
    requires Valid(r)
    decreases v, 0
  {
    match v
    case Str(text) =>
      var s := RedactString(r, text);
      Counted(Str(s.value), s.count)
    case Obj(fields) =>
      var walk := RedactFields(r, fields, []);
      Counted(Obj(PutAll(walk.kept, walk.renamed)), walk.count)
    case Arr(items) =>
      var res := RedactItems(r, items);
      Counted(Arr(res.value), res.count)
    case Scalar(_) => Counted(v, 0)
  }

  ghost function RedactItems(r: Redactor, items: seq<Json>): Counted<seq<Json>>
    requires Valid(r)
    decreases items, 0
  {
    if items == [] then Counted([], 0)
    else
      var head := RedactValue(r, items[0]);
      var rest := RedactItems(r, items[1..]);
      Counted([head.value] + rest.value, head.count + rest.count)
  }

  ghost function NewValue(r: Redactor, f: Field): Counted<Json>
    requires Valid(r)
    decreases f, 1
  {
    if HoldsSecret(r, f) then Counted(Str(SECRET_REDACTED), 1) else RedactValue(r, f.val)
  }

  /** The fields that keep their key, and those to re-insert under a redacted one once the range is over. */
  ghost function RedactFields(r: Redactor, fields: seq<Field>, renamed: seq<Field>): Walk
    requires Valid(r)
    decreases fields, 0
  {
    if fields == [] then Walk([], renamed, 0)
    else
      var key := fields[0].key;
      var newVal := NewValue(r, fields[0]);
      var newKey := RedactString(r, key);
      var rest := RedactFields(r, fields[1..],
                               if newKey.count == 0 then renamed else Put(renamed, newKey.value, newVal.value));
      Walk((if newKey.count == 0 then [Field(key, newVal.value)] else []) + rest.kept,
           rest.renamed, newVal.count + newKey.count + rest.count)
  }

  lemma ItemsStep(r: Redactor, items: seq<Json>, i: nat)
    requires Valid(r) && i < |items|
    ensures RedactItems(r, items[i..]) ==
            Counted([RedactValue(r, items[i]).value] + RedactItems(r, items[i + 1..]).value,
                    RedactValue(r, items[i]).count + RedactItems(r, items[i + 1..]).count)
  {
    assert items[i..][0] == items[i] && items[i..][1..] == items[i + 1..];
  }

  /** The second loop: the renamed keys go back into the map. */
  method PutBack(kept: seq<Field>, renamed: seq<Field>) returns (whole: seq<Field>)
    ensures whole == PutAll(kept, renamed)
  {
    whole := kept;
    for i := 0 to |renamed|
      invariant PutAll(whole, renamed[i..]) == PutAll(kept, renamed)
    {
      assert renamed[i..][0] == renamed[i] && renamed[i..][1..] == renamed[i + 1..];
      whole := Put(whole, renamed[i].key, renamed[i].val);
    }
  }

  lemma NoFields(r: Redactor, renamed: seq<Field>)
    requires Valid(r)
    ensures RedactFields(r, [], renamed) == Walk([], renamed, 0)
  {
  }

  /** A walk with fields and counts that came before it. */
  function Ahead(kept: seq<Field>, w: Walk, count: nat): Walk {
    Walk(kept + w.kept, w.renamed, count + w.count)
  }

  lemma FieldsStep(r: Redactor, fields: seq<Field>, i: nat, renamed: seq<Field>)
    requires Valid(r) && i < |fields|
    ensures var val := NewValue(r, fields[i]);
            var key := RedactString(r, fields[i].key);
            RedactFields(r, fields[i..], renamed) ==
              if key.count == 0
              then Ahead([Field(fields[i].key, val.value)], RedactFields(r, fields[i + 1..], renamed), val.count)
              else Ahead([], RedactFields(r, fields[i + 1..], Put(renamed, key.value, val.value)),
                         val.count + key.count)
  {
    hide Valid, RedactString, NewValue, Put;
    assert fields[i..][0] == fields[i] && fields[i..][1..] == fields[i + 1..];
  }

  /** redactInterface. Arrays are updated element by element; of an object, the keys that are themselves
      redacted are taken out and re-inserted once the range over it is complete. */
  method ComputeRedactValue(r: Redactor, v: Json) returns (res: Json, count: nat)
    requires Valid(r)
    ensures Counted(res, count) == RedactValue(r, v)
    decreases v, 0
  {
    match v
    case Str(text) =>
      var s, n := ComputeRedactString(r, text);
      res, count := Str(s), n;
    case Obj(fields) => res, count := ComputeRedactObject(r, fields);
    case Arr(items) => res, count := ComputeRedactArray(r, items);
    case Scalar(_) => res, count := v, 0;
  }

  method ComputeRedactArray(r: Redactor, items: seq<Json>) returns (res: Json, count: nat)
    requires Valid(r)
    ensures Counted(res, count) == RedactValue(r, Arr(items))
    decreases items, 0
  {
    hide Valid;
    count := 0;
    var v := items;
    assert items[0..] == items && v[..0] + RedactItems(r, items).value == RedactItems(r, items).value;
    for i := 0 to |items|
      invariant |v| == |items| && v[i..] == items[i..]
      invariant RedactItems(r, items) ==
                Counted(v[..i] + RedactItems(r, items[i..]).value, count + RedactItems(r, items[i..]).count)
    {
      ItemsStep(r, items, i);
      var newVal, n := ComputeRedactValue(r, items[i]);
      assert v[i := newVal][..i + 1] == v[..i] + [newVal];
      Sorting.Reassociate(v[..i], [newVal], RedactItems(r, items[i + 1..]).value);
      v := v[i := newVal];
      count := count + n;
    }
    assert items[|items|..] == [] && v[..|items|] + [] == v;
    res := Arr(v);
  }

  method ComputeRedactObject(r: Redactor, fields: seq<Field>) returns (res: Json, count: nat)
    requires Valid(r)
    ensures Counted(res, count) == RedactValue(r, Obj(fields))
    decreases fields, 0
  {
    hide Valid, RedactFields, RedactString, HoldsSecret;
    var kept: seq<Field>, renamed: seq<Field> := [], [];
    count := 0;
    assert fields[0..] == fields;
    for i := 0 to |fields|
      invariant RedactFields(r, fields, []) == Ahead(kept, RedactFields(r, fields[i..], renamed), count)
    {
      FieldsStep(r, fields, i, renamed);
      var Field(key, val) := fields[i];
      var newVal: Json, n: nat;
      if HoldsSecret(r, fields[i]) {
        newVal, n := Str(SECRET_REDACTED), 1;
      } else {
        newVal, n := ComputeRedactValue(r, val);
      }
      var newKey, keyCount := ComputeRedactString(r, key);
      var stays: seq<Field> := [];
      if keyCount == 0 {
        stays := [Field(key, newVal)];
      } else {
        renamed := Put(renamed, newKey, newVal);
      }
      Sorting.Reassociate(kept, stays, RedactFields(r, fields[i + 1..], renamed).kept);
      kept := kept + stays;
      count := count + n + keyCount;
    }
    NoFields(r, renamed);
    assert fields[|fields|..] == [] && kept + [] == kept;
    var whole := PutBack(kept, renamed);
    res := Obj(whole);
  }

  // ---- what the walk finds ----

  /** Nothing in the document is to be redacted: every string and every key is safe, and no sensitive key
      holds a non-empty string. */
  ghost predicate Clean(r: Redactor, v: Json)
    decreases v, 0
  {
    match v
    case Str(text) => SafeText(r, text)
    case Obj(fields) => CleanFields(r, fields)
    case Arr(items) => CleanItems(r, items)
    case Scalar(_) => true
  }

  ghost predicate CleanItems(r: Redactor, items: seq<Json>)
    decreases items, 0
  {
    items == [] || (Clean(r, items[0]) && CleanItems(r, items[1..]))
  }

  ghost predicate CleanFields(r: Redactor, fields: seq<Field>)
    decreases fields, 0
  {
    fields == [] ||
    (SafeText(r, fields[0].key) && !HoldsSecret(r, fields[0]) && Clean(r, fields[0].val) && CleanFields(r, fields[1..]))
  }

  /** The walk finds something at whatever depth exactly if there is something to find, and if there is not it
      changes nothing. */
  lemma {:induction false} WalkFindsAll(r: Redactor, v: Json)
    requires Valid(r)
    ensures RedactValue(r, v).count == 0 <==> Clean(r, v)
    ensures Clean(r, v) ==> RedactValue(r, v).value == v
    decreases v, 0
  {
    match v
    case Str(text) => RedactStringUntouched(r, text);
    case Obj(fields) => WalkFindsAllFields(r, fields, []);
    case Arr(items) => WalkFindsAllItems(r, items);
    case Scalar(_) =>
  }

  lemma {:induction false} WalkFindsAllItems(r: Redactor, items: seq<Json>)
    requires Valid(r)
    ensures RedactItems(r, items).count == 0 <==> CleanItems(r, items)
    ensures CleanItems(r, items) ==> RedactItems(r, items).value == items
    decreases items, 0
  {
    if items != [] {
      WalkFindsAll(r, items[0]);
      WalkFindsAllItems(r, items[1..]);
      assert items == [items[0]] + items[1..];
    }
  }

  lemma {:induction false} WalkFindsAllFields(r: Redactor, fields: seq<Field>, renamed: seq<Field>)
    requires Valid(r)
    ensures RedactFields(r, fields, renamed).count == 0 <==> CleanFields(r, fields)
    ensures CleanFields(r, fields) ==> RedactFields(r, fields, renamed) == Walk(fields, renamed, 0)
    decreases fields, 0
  {
    hide Valid, SafeText;
    if fields != [] {
      var key := RedactString(r, fields[0].key);
      RedactStringUntouched(r, fields[0].key);
      WalkFindsAll(r, fields[0].val);
      WalkFindsAllFields(r, fields[1..],
        if key.count == 0 then renamed else Put(renamed, key.value, NewValue(r, fields[0]).value));
      assert fields == [Field(fields[0].key, fields[0].val)] + fields[1..];
    }
  }

  predicate LacksKey(fields: seq<Field>, key: Bytes) { forall j :: 0 <= j < |fields| ==> fields[j].key != key }

  lemma {:induction false} PutKeys(fields: seq<Field>, key: Bytes, val: Json, other: Bytes)
    requires key != other && LacksKey(fields, other)
    ensures LacksKey(Put(fields, key, val), other)
  {
    if fields != [] && fields[0].key != key {
      PutKeys(fields[1..], key, val, other);
    }
  }

  lemma {:induction false} KeptAndRenamed(r: Redactor, fields: seq<Field>, renamed: seq<Field>, key: Bytes)
    requires Valid(r)
    requires LacksKey(renamed, key)
    requires forall j :: 0 <= j < |fields| && !SafeText(r, fields[j].key) ==>
                           RedactString(r, fields[j].key).value != key
    ensures forall j :: 0 <= j < |fields| && SafeText(r, fields[j].key) ==>
              Field(fields[j].key, NewValue(r, fields[j]).value) in RedactFields(r, fields, renamed).kept
    ensures LacksKey(RedactFields(r, fields, renamed).renamed, key)
    decreases fields
  {
    hide Valid, SafeText, RedactString, HoldsSecret;
    if fields != [] {
      RedactStringUntouched(r, fields[0].key);
      var newKey := RedactString(r, fields[0].key);
      var next := if newKey.count == 0 then renamed else Put(renamed, newKey.value, NewValue(r, fields[0]).value);
      if newKey.count != 0 {
        PutKeys(renamed, newKey.value, NewValue(r, fields[0]).value, key);
      }
      KeptAndRenamed(r, fields[1..], next, key);
      FieldsStep(r, fields, 0, renamed);
      assert fields[0..] == fields;
      assert forall j :: 0 < j < |fields| ==> fields[j] == fields[1..][j - 1];
    }
  }

  lemma {:induction false} PutKeeps(fields: seq<Field>, key: Bytes, val: Json, f: Field)
    requires f in fields && f.key != key
    ensures f in Put(fields, key, val)
  {
    assert fields == [fields[0]] + fields[1..];
    if fields[0].key != key && f != fields[0] {
      PutKeeps(fields[1..], key, val, f);
    }
  }

  lemma {:induction false} PutAllKeeps(fields: seq<Field>, more: seq<Field>, f: Field)
    requires f in fields && LacksKey(more, f.key)
    ensures f in PutAll(fields, more)
    decreases more
  {
    if more != [] {
      PutKeeps(fields, more[0].key, more[0].val, f);
      PutAllKeeps(Put(fields, more[0].key, more[0].val), more[1..], f);
    }
  }

  lemma SafeKeyStays(r: Redactor, fields: seq<Field>, i: nat)
    requires Valid(r) && i < |fields| && SafeText(r, fields[i].key)
    requires forall j :: 0 <= j < |fields| && !SafeText(r, fields[j].key) ==>
                           RedactString(r, fields[j].key).value != fields[i].key
    ensures RedactValue(r, Obj(fields)).value.Obj?
    ensures Field(fields[i].key, NewValue(r, fields[i]).value) in RedactValue(r, Obj(fields)).value.fields
  {
    hide Valid, SafeText, RedactString;
    KeptAndRenamed(r, fields, [], fields[i].key);
    var walk := RedactFields(r, fields, []);
    PutAllKeeps(walk.kept, walk.renamed, Field(fields[i].key, NewValue(r, fields[i]).value));
  }

  function Keys(fields: seq<Field>): seq<Bytes> {
    if fields == [] then [] else [fields[0].key] + Keys(fields[1..])
  }

  /** What the fields of an object are to become: redacted keys with redacted values. */
  ghost function NewFields(r: Redactor, fields: seq<Field>): seq<Field>
    requires Valid(r)
  {
    if fields == [] then []
    else [Field(RedactString(r, fields[0].key).value, NewValue(r, fields[0]).value)] + NewFields(r, fields[1..])
  }

  function Members(keys: seq<Bytes>): set<Bytes> { set x | x in keys }

  lemma ConsMembers(x: Bytes, rest: seq<Bytes>)
    ensures Members([x] + rest) == {x} + Members(rest)
    ensures Sorting.Distinct([x] + rest) <==> x !in Members(rest) && Sorting.Distinct(rest)
  {
    var s := [x] + rest;
    assert s[0] == x && forall j :: 0 < j < |s| ==> s[j] == rest[j - 1];
    if Sorting.Distinct(s) {
      forall i, j | 0 <= i < j < |rest| ensures rest[i] != rest[j] {
        assert s[i + 1] == rest[i] && s[j + 1] == rest[j];
      }
      forall j | 0 <= j < |rest| ensures rest[j] != x {
        assert s[j + 1] == rest[j];
      }
    }
  }

  lemma {:induction false} MembersCount(keys: seq<Bytes>)
    ensures |Members(keys)| <= |keys| && (|Members(keys)| == |keys| <==> Sorting.Distinct(keys))
  {
    if keys != [] {
      hide Sorting.Distinct;
      assert keys == [keys[0]] + keys[1..];
      MembersCount(keys[1..]);
      ConsMembers(keys[0], keys[1..]);
    } else {
      assert Members(keys) == {};
    }
  }

  lemma {:induction false} PutMembers(fields: seq<Field>, key: Bytes, val: Json)
    ensures Members(Keys(Put(fields, key, val))) == Members(Keys(fields)) + {key}
    ensures Sorting.Distinct(Keys(fields)) ==> Sorting.Distinct(Keys(Put(fields, key, val)))
  {
    ConsMembers(key, []);
    assert Members([]) == {};
    if fields != [] {
      hide Sorting.Distinct, Members;
      PutMembers(fields[1..], key, val);
      ConsMembers(fields[0].key, Keys(fields[1..]));
      ConsMembers(fields[0].key, Keys(Put(fields[1..], key, val)));
    }
  }

  lemma {:induction false} PutAllMembers(fields: seq<Field>, more: seq<Field>)
    ensures Members(Keys(PutAll(fields, more))) == Members(Keys(fields)) + Members(Keys(more))
    ensures Sorting.Distinct(Keys(fields)) ==> Sorting.Distinct(Keys(PutAll(fields, more)))
    decreases more
  {
    if more != [] {
      PutMembers(fields, more[0].key, more[0].val);
      PutAllMembers(Put(fields, more[0].key, more[0].val), more[1..]);
    }
  }

  lemma {:induction false} KeysLength(fields: seq<Field>)
    ensures |Keys(fields)| == |fields|
  {
    if fields != [] {
      KeysLength(fields[1..]);
    }
  }

  /** What a walk still has to do, given the fields ahead and those renamed so far. */
  ghost predicate WalkHasMembers(r: Redactor, fields: seq<Field>, renamed: seq<Field>, w: Walk)
    requires Valid(r)
  {
    && Members(Keys(w.kept)) + Members(Keys(w.renamed))
       == Members(Keys(NewFields(r, fields))) + Members(Keys(renamed))
    && Members(Keys(w.kept)) <= Members(Keys(fields)) && Sorting.Distinct(Keys(w.kept))
  }

  lemma KeptStep(r: Redactor, fields: seq<Field>, renamed: seq<Field>, f: Field, newVal: Json, w: Walk)
    requires Valid(r) && WalkHasMembers(r, fields, renamed, w) && f.key !in Members(Keys(fields))
    requires NewFields(r, [f] + fields) == [Field(f.key, newVal)] + NewFields(r, fields)
    ensures WalkHasMembers(r, [f] + fields, renamed, Ahead([Field(f.key, newVal)], w, 0))
  {
    hide Valid, NewFields, Sorting.Distinct, Members;
    ConsMembers(f.key, Keys(fields));
    ConsMembers(f.key, Keys(w.kept));
    ConsMembers(f.key, Keys(NewFields(r, fields)));
  }

  lemma RenamedStep(r: Redactor, fields: seq<Field>, renamed: seq<Field>, f: Field, g: Field, w: Walk)
    requires Valid(r) && WalkHasMembers(r, fields, Put(renamed, g.key, g.val), w)
    requires NewFields(r, [f] + fields) == [g] + NewFields(r, fields)
    ensures WalkHasMembers(r, [f] + fields, renamed, w)
  {
    hide Valid, NewFields, Sorting.Distinct, Members;
    PutMembers(renamed, g.key, g.val);
    ConsMembers(f.key, Keys(fields));
    ConsMembers(g.key, Keys(NewFields(r, fields)));
  }

  lemma NewFieldsStep(r: Redactor, f: Field, fields: seq<Field>)
    requires Valid(r)
    ensures NewFields(r, [f] + fields)
         == [Field(RedactString(r, f.key).value, NewValue(r, f).value)] + NewFields(r, fields)
  {
    assert ([f] + fields)[1..] == fields;
  }

  lemma CountIsForCounting(r: Redactor, fields: seq<Field>, renamed: seq<Field>, w: Walk, count: nat)
    requires Valid(r) && WalkHasMembers(r, fields, renamed, w)
    ensures WalkHasMembers(r, fields, renamed, w.(count := count))
  {
  }

  lemma NoFieldsMembers(r: Redactor, renamed: seq<Field>)
    requires Valid(r)
    ensures WalkHasMembers(r, [], renamed, Walk([], renamed, 0))
  {
    hide Valid;
    assert Members([]) == {};
  }

  /** Kept and redacted keys together are those that the fields are to have. */
  lemma {:induction false} WalkMembers(r: Redactor, fields: seq<Field>, renamed: seq<Field>)
    requires Valid(r) && Sorting.Distinct(Keys(fields))
    ensures WalkHasMembers(r, fields, renamed, RedactFields(r, fields, renamed))
    decreases fields
  {
    hide Valid, RedactString, SafeText, Sorting.Distinct, NewValue, WalkHasMembers, RedactFields, NewFields;
    if fields == [] {
      NoFields(r, renamed);
      NoFieldsMembers(r, renamed);
    } else {
      var f, rest := fields[0], fields[1..];
      var key, val := RedactString(r, f.key), NewValue(r, f).value;
      var next := if key.count == 0 then renamed else Put(renamed, key.value, val);
      assert fields == [f] + rest && fields[0..] == fields;
      RedactStringUntouched(r, f.key);
      FieldsStep(r, fields, 0, renamed);
      NewFieldsStep(r, f, rest);
      ConsMembers(f.key, Keys(rest));
      WalkMembers(r, rest, next);
      var w := RedactFields(r, rest, next);
      if key.count == 0 {
        KeptStep(r, rest, renamed, f, val, w);
        CountIsForCounting(r, fields, renamed, Ahead([Field(f.key, val)], w, 0),
                           RedactFields(r, fields, renamed).count);
      } else {
        RenamedStep(r, rest, renamed, f, Field(key.value, val), w);
        assert [] + w.kept == w.kept;
        CountIsForCounting(r, fields, renamed, w, RedactFields(r, fields, renamed).count);
      }
    }
  }

  lemma {:induction false} NewFieldsLength(r: Redactor, fields: seq<Field>)
    requires Valid(r)
    ensures |NewFields(r, fields)| == |fields|
  {
    hide Valid, RedactString, NewValue;
    if fields != [] {
      NewFieldsLength(r, fields[1..]);
    }
  }

  /** An object, whose keys differ, keeps as many fields as it has redacted keys; so it keeps all of its fields exactly
      if those differ too. */
  lemma FieldsStayIffKeysDiffer(r: Redactor, fields: seq<Field>)
    requires Valid(r) && Sorting.Distinct(Keys(fields))
    ensures RedactValue(r, Obj(fields)).value.Obj?
    ensures var out := RedactValue(r, Obj(fields)).value.fields;
            && Sorting.Distinct(Keys(out))
            && Members(Keys(out)) == Members(Keys(NewFields(r, fields)))
            && (|out| == |fields| <==> Sorting.Distinct(Keys(NewFields(r, fields))))
  {
    hide Valid, RedactFields, NewFields, Sorting.Distinct;
    var w := RedactFields(r, fields, []);
    var out := PutAll(w.kept, w.renamed);
    WalkMembers(r, fields, []);
    assert WalkHasMembers(r, fields, [], w);
    PutAllMembers(w.kept, w.renamed);
    MembersCount(Keys(out));
    MembersCount(Keys(NewFields(r, fields)));
    KeysLength(out);
    KeysLength(NewFields(r, fields));
    NewFieldsLength(r, fields);
    assert Members(Keys([])) == {};
  }

  // ---- what each part of a document becomes ----

  /** No other field has a key that is redacted to the same as the key of field i. */
  ghost predicate LandsAlone(r: Redactor, fields: seq<Field>, i: nat)
    requires Valid(r) && i < |fields|
  {
    forall j :: 0 <= j < |fields| && j != i && !SafeText(r, fields[j].key) ==>
                  RedactString(r, fields[j].key).value != RedactString(r, fields[i].key).value
  }

  lemma {:induction false} PutHas(fields: seq<Field>, key: Bytes, val: Json)
    ensures Field(key, val) in Put(fields, key, val)
  {
    if fields != [] && fields[0].key != key {
      PutHas(fields[1..], key, val);
    }
  }

  lemma {:induction false} KeysLacking(fields: seq<Field>, key: Bytes)
    ensures key !in Keys(fields) <==> LacksKey(fields, key)
  {
    if fields != [] {
      KeysLacking(fields[1..], key);
      assert LacksKey(fields, key) <==> fields[0].key != key && LacksKey(fields[1..], key) by {
        assert forall j :: 0 < j < |fields| ==> fields[j] == fields[1..][j - 1];
      }
    }
  }

  lemma {:induction false} PutAllHas(fields: seq<Field>, more: seq<Field>, f: Field)
    requires f in more && Sorting.Distinct(Keys(more))
    ensures f in PutAll(fields, more)
    decreases more
  {
    var next := Put(fields, more[0].key, more[0].val);
    assert more == [more[0]] + more[1..];
    ConsMembers(more[0].key, Keys(more[1..]));
    if f == more[0] {
      PutHas(fields, f.key, f.val);
      KeysLacking(more[1..], f.key);
      PutAllKeeps(next, more[1..], f);
    } else {
      PutAllHas(next, more[1..], f);
    }
  }

  /** The fields renamed once the first of those ahead has been dealt with. */
  ghost function RenamedNext(r: Redactor, f: Field, renamed: seq<Field>): seq<Field>
    requires Valid(r)
  {
    var key := RedactString(r, f.key);
    if key.count == 0 then renamed else Put(renamed, key.value, NewValue(r, f).value)
  }

  lemma WalkStep(r: Redactor, fields: seq<Field>, renamed: seq<Field>)
    requires Valid(r) && fields != []
    ensures var f, w := fields[0], RedactFields(r, fields, renamed);
            var rest := RedactFields(r, fields[1..], RenamedNext(r, f, renamed));
            && w.renamed == rest.renamed
            && w.kept == (if SafeText(r, f.key) then [Field(f.key, NewValue(r, f).value)] else []) + rest.kept
  {
    hide Valid, SafeText, RedactString, NewValue, RedactFields;
    RedactStringUntouched(r, fields[0].key);
    FieldsStep(r, fields, 0, renamed);
    assert fields[0..] == fields;
  }

  lemma {:induction false} RenamedDistinct(r: Redactor, fields: seq<Field>, renamed: seq<Field>)
    requires Valid(r) && Sorting.Distinct(Keys(renamed))
    ensures Sorting.Distinct(Keys(RedactFields(r, fields, renamed).renamed))
    decreases fields
  {
    hide Valid, RedactString, NewValue, Sorting.Distinct, Keys;
    if fields != [] {
      var key, val := RedactString(r, fields[0].key), NewValue(r, fields[0]).value;
      PutMembers(renamed, key.value, val);
      RenamedDistinct(r, fields[1..], RenamedNext(r, fields[0], renamed));
    }
  }

  lemma {:induction false} RenamedStays(r: Redactor, fields: seq<Field>, renamed: seq<Field>, f: Field)
    requires Valid(r) && f in renamed
    requires forall j :: 0 <= j < |fields| && !SafeText(r, fields[j].key) ==>
                           RedactString(r, fields[j].key).value != f.key
    ensures f in RedactFields(r, fields, renamed).renamed
    decreases fields
  {
    if fields != [] {
      hide Valid, RedactString, NewValue, SafeText, RedactFields;
      WalkStep(r, fields, renamed);
      RedactStringUntouched(r, fields[0].key);
      var key := RedactString(r, fields[0].key);
      if key.count != 0 {
        PutKeeps(renamed, key.value, NewValue(r, fields[0]).value, f);
      }
      assert forall j :: 0 <= j < |fields| - 1 ==> fields[1..][j] == fields[j + 1];
      RenamedStays(r, fields[1..], RenamedNext(r, fields[0], renamed), f);
    }
  }

  lemma {:induction false} RenamedLands(r: Redactor, fields: seq<Field>, renamed: seq<Field>, i: nat)
    requires Valid(r) && i < |fields| && !SafeText(r, fields[i].key) && LandsAlone(r, fields, i)
    ensures Field(RedactString(r, fields[i].key).value, NewValue(r, fields[i]).value)
         in RedactFields(r, fields, renamed).renamed
    decreases fields
  {
    hide Valid, RedactString, NewValue, SafeText, RedactFields;
    WalkStep(r, fields, renamed);
    RedactStringUntouched(r, fields[0].key);
    var next := RenamedNext(r, fields[0], renamed);
    assert forall j :: 0 <= j < |fields| - 1 ==> fields[1..][j] == fields[j + 1];
    if i == 0 {
      PutHas(renamed, RedactString(r, fields[0].key).value, NewValue(r, fields[0]).value);
      RenamedStays(r, fields[1..], next, Field(RedactString(r, fields[0].key).value, NewValue(r, fields[0]).value));
    } else {
      RenamedLands(r, fields[1..], next, i - 1);
    }
  }

  lemma FieldLands(r: Redactor, fields: seq<Field>, i: nat)
    requires Valid(r) && i < |fields| && LandsAlone(r, fields, i)
    ensures RedactValue(r, Obj(fields)).value.Obj?
    ensures Field(RedactString(r, fields[i].key).value, NewValue(r, fields[i]).value)
         in RedactValue(r, Obj(fields)).value.fields
  {
    hide Valid, RedactString, NewValue, SafeText, RedactFields;
    RedactStringUntouched(r, fields[i].key);
    if SafeText(r, fields[i].key) {
      SafeKeyStays(r, fields, i);
    } else {
      var w := RedactFields(r, fields, []);
      RenamedLands(r, fields, [], i);
      RenamedDistinct(r, fields, []);
      PutAllHas(w.kept, w.renamed, Field(RedactString(r, fields[i].key).value, NewValue(r, fields[i]).value));
    }
  }

  /** Each field that lands alone comes out with its key redacted and, if the key is sensitive and the value a
      non-empty string, with the marker for a value, else with its value redacted. */
  lemma FieldBecomes(r: Redactor, fields: seq<Field>, i: nat)
    requires Valid(r) && i < |fields| && LandsAlone(r, fields, i)
    ensures RedactValue(r, Obj(fields)).value.Obj?
    ensures var f, out := fields[i], RedactValue(r, Obj(fields)).value.fields;
            if r.sensitiveKey.find(f.key) != [] && f.val.Str? && f.val.text != []
            then Field(RedactString(r, f.key).value, Str(SECRET_REDACTED)) in out
            else Field(RedactString(r, f.key).value, RedactValue(r, f.val).value) in out
  {
    hide Valid, RedactString, SafeText, RedactFields, RedactValue;
    FieldLands(r, fields, i);
  }

  lemma {:induction false} RedactedLength(r: Redactor, items: seq<Json>)
    requires Valid(r)
    ensures |RedactItems(r, items).value| == |items|
  {
    hide Valid, RedactValue;
    if items != [] {
      RedactedLength(r, items[1..]);
    }
  }

  lemma {:induction false} ItemAt(r: Redactor, items: seq<Json>, i: nat)
    requires Valid(r) && i < |items|
    ensures |RedactItems(r, items).value| == |items|
    ensures RedactItems(r, items).value[i] == RedactValue(r, items[i]).value
    decreases i
  {
    hide Valid, RedactValue;
    RedactedLength(r, items);
    if i > 0 {
      ItemAt(r, items[1..], i - 1);
    }
  }

  /** Arrays are redacted item by item, strings by redactString; anything else is left as it is. */
  lemma ItemsBecome(r: Redactor, v: Json)
    requires Valid(r) && !v.Obj?
    ensures var out := RedactValue(r, v).value;
            && (v.Scalar? ==> out == v)
            && (v.Str? ==> out == Str(RedactString(r, v.text).value))
            && (v.Arr? ==> out.Arr? && |out.items| == |v.items| &&
                           forall i :: 0 <= i < |v.items| ==> out.items[i] == RedactValue(r, v.items[i]).value)
  {
    if v.Arr? {
      hide Valid;
      RedactedLength(r, v.items);
      forall i | 0 <= i < |v.items| ensures RedactItems(r, v.items).value[i] == RedactValue(r, v.items[i]).value {
        ItemAt(r, v.items, i);
      }
    }
  }

  lemma {:induction false} ItemCountsAdd(r: Redactor, a: seq<Json>, b: seq<Json>)
    requires Valid(r)
    ensures RedactItems(r, a + b).count == RedactItems(r, a).count + RedactItems(r, b).count
    decreases |a|
  {
    hide Valid, RedactValue;
    if a == [] {
      assert a + b == b;
    } else {
      assert (a + b)[1..] == a[1..] + b;
      ItemCountsAdd(r, a[1..], b);
    }
  }

  /** What is counted for the fields does not depend on those that came before. */
  lemma {:induction false} RenamedDoNotCount(r: Redactor, fields: seq<Field>, before: seq<Field>, other: seq<Field>)
    requires Valid(r)
    ensures RedactFields(r, fields, before).count == RedactFields(r, fields, other).count
    decreases fields
  {
    hide Valid, RedactString, NewValue;
    if fields != [] {
      RenamedDoNotCount(r, fields[1..], RenamedNext(r, fields[0], before), RenamedNext(r, fields[0], other));
    }
  }

  lemma FieldCount(r: Redactor, fields: seq<Field>, renamed: seq<Field>)
    requires Valid(r) && fields != []
    ensures RedactFields(r, fields, renamed).count ==
            NewValue(r, fields[0]).count + RedactString(r, fields[0].key).count + RedactFields(r, fields[1..], []).count
  {
    hide Valid, RedactString, NewValue;
    RenamedDoNotCount(r, fields[1..], RenamedNext(r, fields[0], renamed), []);
  }

  lemma {:induction false} FieldCountsAdd(r: Redactor, a: seq<Field>, b: seq<Field>)
    requires Valid(r)
    ensures RedactFields(r, a + b, []).count == RedactFields(r, a, []).count + RedactFields(r, b, []).count
    decreases |a|
  {
    hide Valid, RedactFields, NewValue;
    if a == [] {
      NoFields(r, []);
      assert a + b == b;
    } else {
      assert (a + b)[1..] == a[1..] + b;
      FieldCount(r, a + b, []);
      FieldCount(r, a, []);
      FieldCountsAdd(r, a[1..], b);
    }
  }

  /** The count of an array is the sum of those of its items. */
  lemma ArrayCountsAdd(r: Redactor, a: seq<Json>, b: seq<Json>, item: Json)
    requires Valid(r)
    ensures RedactValue(r, Arr(a + b)).count == RedactValue(r, Arr(a)).count + RedactValue(r, Arr(b)).count
    ensures RedactValue(r, Arr([item])).count == RedactValue(r, item).count
  {
    hide Valid;
    ItemCountsAdd(r, a, b);
    assert RedactItems(r, [item]).count == RedactValue(r, item).count + RedactItems(r, []).count;
  }

  lemma OneFieldCount(r: Redactor, f: Field)
    requires Valid(r)
    ensures RedactFields(r, [f], []).count == NewValue(r, f).count + RedactString(r, f.key).count
  {
    hide Valid, RedactString, NewValue, RedactFields;
    FieldCount(r, [f], []);
    NoFields(r, []);
    assert [f][1..] == [];
  }

  /** That of an object is the sum of those of its fields: a sensitive value is one, a key what redactString counts
      in it. */
  lemma ObjectCountsAdd(r: Redactor, a: seq<Field>, b: seq<Field>, f: Field)
    requires Valid(r)
    ensures RedactValue(r, Obj(a + b)).count == RedactValue(r, Obj(a)).count + RedactValue(r, Obj(b)).count
    ensures RedactValue(r, Obj([f])).count == RedactString(r, f.key).count +
            if r.sensitiveKey.find(f.key) != [] && f.val.Str? && f.val.text != [] then 1
            else RedactValue(r, f.val).count
  {
    hide Valid, RedactString, RedactFields;
    FieldCountsAdd(r, a, b);
    OneFieldCount(r, f);
  }

  lemma FieldsSplit(r: Redactor, fields: seq<Field>, i: nat)
    requires Valid(r) && i < |fields|
    ensures RedactFields(r, fields, []).count ==
            RedactFields(r, [fields[i]], []).count + RedactFields(r, fields[..i] + fields[i + 1..], []).count
  {
    hide Valid, RedactFields;
    assert fields == fields[..i] + ([fields[i]] + fields[i + 1..]);
    FieldCountsAdd(r, fields[..i], [fields[i]] + fields[i + 1..]);
    FieldCountsAdd(r, [fields[i]], fields[i + 1..]);
    FieldCountsAdd(r, fields[..i], fields[i + 1..]);
  }

  lemma {:induction false} FieldOrderDoesNotCount(r: Redactor, a: seq<Field>, b: seq<Field>)
    requires Valid(r) && multiset(a) == multiset(b)
    ensures RedactFields(r, a, []).count == RedactFields(r, b, []).count
    decreases |a|
  {
    hide Valid, RedactFields;
    Sorting.SameLength(a, b);
    if a != [] {
      var j := Sorting.MatchHead(a, b);
      FieldOrderDoesNotCount(r, a[1..], b[..j] + b[j + 1..]);
      assert a[..0] + a[1..] == a[1..];
      FieldsSplit(r, a, 0);
      FieldsSplit(r, b, j);
    }
  }

  /** In whatever order a map is iterated, the count is the same. */
  lemma CountIgnoresOrder(r: Redactor, a: seq<Field>, b: seq<Field>)
    requires Valid(r) && multiset(a) == multiset(b)
    ensures RedactValue(r, Obj(a)).count == RedactValue(r, Obj(b)).count
  {
    hide Valid, RedactFields;
    FieldOrderDoesNotCount(r, a, b);
  }

  // ---- skipping ----

  /** canSkipJSON. */
  ghost predicate CanSkipJson(r: Redactor, data: Bytes)
    requires Valid(r)
  {
    && r.prefilter.Some?
    && 0x5C !in data // no backslash
    && !HasInvisible(data)
    && !(exists i :: 0 <= i < |r.prefilter.value| && Possible(FoldNorm(r.fold, data), r.prefilter.value[i]))
    && !Possible(FoldNorm(r.fold, data), Triggers(r.fold, r.sensitiveKey.tree))
  }

  method ComputeCanSkipJson(r: Redactor, data: Bytes) returns (skip: bool)
    requires Valid(r)
    ensures skip == CanSkipJson(r, data)
  {
    hide HasInvisible, Possible;
    if r.prefilter.None? || 0x5C in data {
      return false;
    }
    var invisible := ComputeHasInvisible(data);
    if invisible {
      return false;
    }
    var lowered := ComputeFoldNorm(r.fold, data);
    for i := 0 to |r.prefilter.value|
      invariant forall k :: 0 <= k < i ==> !Possible(lowered, r.prefilter.value[k])
    {
      var possible := ComputePossible(lowered, r.prefilter.value[i]);
      if possible {
        return false;
      }
    }
    var sets := ComputeTriggers(r.fold, r.sensitiveKey.tree);
    var sensitive := ComputePossible(lowered, sets);
    skip := !sensitive;
  }

  /** Some trigger set of the tree does not occur in the text. */
  ghost predicate Lacks(sf: Rune -> Rune, tree: Regex, text: Bytes)
    requires WellFormed(tree)
  {
    exists t :: t in Triggers(sf, tree) && !AnyOccurs(text, t)
  }

  /** A document is let through exactly if it has no backslash and nothing invisible, and its folded text lacks a
      trigger of every pattern and of the sensitive keys. */
  lemma SkipsIffLacking(r: Redactor, data: Bytes)
    requires Valid(r) && r.prefilter.Some? && WellFormed(r.sensitiveKey.tree)
    requires forall i :: 0 <= i < |r.patterns| ==> WellFormed(r.patterns[i].tree)
    ensures CanSkipJson(r, data) <==>
            && 0x5C !in data && (forall rune :: rune in Runes(data) ==> rune !in INVISIBLE)
            && (forall i :: 0 <= i < |r.patterns| ==> Lacks(r.fold, r.patterns[i].tree, FoldNorm(r.fold, data)))
            && Lacks(r.fold, r.sensitiveKey.tree, FoldNorm(r.fold, data))
  {
    var text := FoldNorm(r.fold, data);
    hide Possible, IsInvisible, Triggers, FoldNorm, AnyOccurs;
    forall i | 0 <= i < |r.patterns|
      ensures Possible(text, r.prefilter.value[i]) <==> !Lacks(r.fold, r.patterns[i].tree, text)
    {
      PassesIffAllOccur(r.fold, r.patterns[i].tree, text);
    }
    PassesIffAllOccur(r.fold, r.sensitiveKey.tree, text);
    forall rune ensures IsInvisible(rune) <==> rune in INVISIBLE {
      InvisibleAreListed(rune);
    }
  }

  ghost predicate Sandwich(whole: seq<Rune>, a: seq<Rune>, mid: seq<Rune>, b: seq<Rune>) {
    whole == a + mid + b
  }

  /** s reads, rune for rune, like a stretch of the raw document. */
  ghost predicate ReadsWithin(s: Bytes, data: Bytes) {
    exists a, b :: Sandwich(Runes(data), a, Runes(s), b)
  }

  /** Without a backslash a JSON string stands for the text between its quotes (section 7 of RFC 8259). */
  ghost predicate StringsWithin(v: Json, data: Bytes)
    decreases v, 0
  {
    match v
    case Str(text) => ReadsWithin(text, data)
    case Obj(fields) => FieldsWithin(fields, data)
    case Arr(items) => ItemsWithin(items, data)
    case Scalar(_) => true
  }

  ghost predicate ItemsWithin(items: seq<Json>, data: Bytes)
    decreases items, 0
  {
    items == [] || (StringsWithin(items[0], data) && ItemsWithin(items[1..], data))
  }

  ghost predicate FieldsWithin(fields: seq<Field>, data: Bytes)
    decreases fields, 0
  {
    fields == [] ||
    (ReadsWithin(fields[0].key, data) && StringsWithin(fields[0].val, data) && FieldsWithin(fields[1..], data))
  }

  /** Sets with a hit in part of a text have one in the whole of it. */
  lemma PossibleSpreads(sf: Rune -> Rune, s: Bytes, data: Bytes, sets: seq<LitSet>)
    requires ReadsWithin(s, data) && Possible(FoldNorm(sf, s), sets)
    ensures Possible(FoldNorm(sf, data), sets)
  {
    var a, b :| Sandwich(Runes(data), a, Runes(s), b);
    FoldBytesConcat(sf, a + Runes(s), b);
    FoldBytesConcat(sf, a, Runes(s));
    PossibleIn(FoldNorm(sf, s), FoldBytes(sf, a), FoldBytes(sf, b), sets);
  }

  /** On a document that may be skipped, a string of it matches no pattern and is no sensitive key. */
  lemma SkippedString(r: Redactor, s: Bytes, data: Bytes)
    requires Valid(r) && CanSkipJson(r, data) && ReadsWithin(s, data)
    ensures SafeText(r, s) && !KeyIsSensitive(r, s)
  {
    var a, b :| Sandwich(Runes(data), a, Runes(s), b);
    forall i | 0 <= i < |Runes(s)| ensures !IsInvisible(Runes(s)[i]) {
      assert Runes(data)[|a| + i] == Runes(s)[i];
    }
    forall k | 0 <= k < |r.patterns| ensures r.patterns[k].find(s) == [] {
      MatchPasses(r, k, s);
      if Passes(r, k, FoldNorm(r.fold, s)) {
        PossibleSpreads(r.fold, s, data, r.prefilter.value[k]);
      }
    }
    if KeyIsSensitive(r, s) {
      SkipLosesNothing(r, r.sensitiveKey, s, r.sensitiveKey.find(s)[0]);
      PossibleSpreads(r.fold, s, data, Triggers(r.fold, r.sensitiveKey.tree));
    }
  }

  /** Where canSkipJSON says so, there is nothing in the document to redact. */
  lemma {:induction false} JsonSkipIsSound(r: Redactor, v: Json, data: Bytes)
    requires Valid(r) && CanSkipJson(r, data) && StringsWithin(v, data)
    ensures Clean(r, v)
    decreases v, 0
  {
    match v
    case Str(text) => SkippedString(r, text, data);
    case Obj(fields) => SkippedFields(r, fields, data);
    case Arr(items) => SkippedItems(r, items, data);
    case Scalar(_) =>
  }

  lemma {:induction false} SkippedItems(r: Redactor, items: seq<Json>, data: Bytes)
    requires Valid(r) && CanSkipJson(r, data) && ItemsWithin(items, data)
    ensures CleanItems(r, items)
    decreases items, 0
  {
    if items != [] {
      JsonSkipIsSound(r, items[0], data);
      SkippedItems(r, items[1..], data);
    }
  }

  lemma {:induction false} SkippedFields(r: Redactor, fields: seq<Field>, data: Bytes)
    requires Valid(r) && CanSkipJson(r, data) && FieldsWithin(fields, data)
    ensures CleanFields(r, fields)
    decreases fields, 0
  {
    if fields != [] {
      SkippedString(r, fields[0].key, data);
      JsonSkipIsSound(r, fields[0].val, data);
      SkippedFields(r, fields[1..], data);
    }
  }

  /** Nor would the byte-level fallback for invalid JSON have found anything. */
  lemma SkippedFallback(r: Redactor, data: Bytes)
    requires Valid(r) && CanSkipJson(r, data)
    ensures FindSpans(r, data) == [] && Redaction.Redacted(r, data) == data
  {
    forall k | 0 <= k < |r.patterns| ensures r.patterns[k].find(data) == [] {
      MatchPasses(r, k, data);
    }
    NothingScanned(r.patterns, data);
    PrefilterIsInvisible(r, data);
  }

  /** What RedactJSON returns: the input itself, the input redacted as bytes, or a document to encode. */
  datatype Output = Verbatim | Redacted(bytes: Bytes) | Encode(doc: Json)

  /** RedactJSON; `parsed` is the decoded document, if the input is valid JSON. Whether it is skipped or not,
      the count is that of the full treatment, and what is let through verbatim is what that would leave alone. */
  method RedactJson(r: Redactor, data: Bytes, parsed: Option<Json>) returns (out: Output, count: nat)
    requires Valid(r)
    requires parsed.Some? && 0x5C !in data ==> StringsWithin(parsed.value, data)
    ensures parsed.None? ==> count == |FindSpans(r, data)|
    ensures parsed.None? ==> (out == Verbatim && Redaction.Redacted(r, data) == data)
                             || out == Redacted(Redaction.Redacted(r, data))
    ensures parsed.Some? ==> count == RedactValue(r, parsed.value).count
    ensures parsed.Some? ==> (out == Verbatim && RedactValue(r, parsed.value).value == parsed.value)
                             || out == Encode(RedactValue(r, parsed.value).value)
  {
    var skip := ComputeCanSkipJson(r, data);
    if skip {
      if parsed.Some? {
        JsonSkipIsSound(r, parsed.value, data);
        WalkFindsAll(r, parsed.value);
      } else {
        SkippedFallback(r, data);
      }
      return Verbatim, 0;
    }
    if parsed.None? {
      var bytes, n := RedactChunk(r, data);
      return Redacted(bytes), n;
    }
    var doc, n := ComputeRedactValue(r, parsed.value);
    return Encode(doc), n;
  }
}
