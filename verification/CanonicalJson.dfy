/**
 Canonical JSON (src/lib/canonical-json.ts): keys sorted and undefined fields dropped at every depth, then
 printed. Two plain values get the same canonical text exactly when they agree up to key order and
 undefined fields.
 */
module CanonicalJson {
  import opened Wrappers
  import opened Sorting
  import opened Collecting
  import opened JsonText

  // The comparator of keys, as "a comes before b".
  type KeyOrder = (string, string) -> bool

  function FieldBefore(before: KeyOrder): (Field, Field) -> bool {
    (f: Field, g: Field) => before(f.key, g.key)
  }

  // build: every object's entries, sorted by key.
  function Built(before: KeyOrder, v: Json): Json
    decreases v
  {
    match v
    case Arr(items) => Arr(BuiltItems(before, items))
    case Obj(fields) => Obj(Sort(FieldBefore(before), BuiltFields(before, fields)))
    case _ => v
  }

  function BuiltItems(before: KeyOrder, items: seq<Json>): (r: seq<Json>)
    ensures |r| == |items|
    decreases items
  {
    if items == [] then [] else [Built(before, items[0])] + BuiltItems(before, items[1..])
  }

  function BuiltFields(before: KeyOrder, fields: seq<Field>): (r: seq<Field>)
    ensures |r| == |fields|
    decreases fields
  {
    if fields == [] then []
    else [Field(fields[0].key, Built(before, fields[0].value))] + BuiltFields(before, fields[1..])
  }

  // cleanUndefined: fields without a value are dropped; array items stay.
  function Cleaned(v: Json): Json
    decreases v
  {
    match v
    case Arr(items) => Arr(CleanedItems(items))
    case Obj(fields) => Obj(CleanedFields(fields))
    case _ => v
  }

  function CleanedItems(items: seq<Json>): (r: seq<Json>)
    ensures |r| == |items|
    decreases items
  {
    if items == [] then [] else [Cleaned(items[0])] + CleanedItems(items[1..])
  }

  function CleanedFields(fields: seq<Field>): seq<Field>
    decreases fields
  {
    if fields == [] then []
    else
      var rest := CleanedFields(fields[1..]);
      if fields[0].value == Undefined then rest else [Field(fields[0].key, Cleaned(fields[0].value))] + rest
  }

  // JSON.stringify prints an undefined array item as null.
  function Shown(v: Json): Json
    decreases v
  {
    match v
    case Arr(items) => Arr(ShownItems(items))
    case Obj(fields) => Obj(ShownFields(fields))
    case _ => v
  }

  function ShownItems(items: seq<Json>): (r: seq<Json>)
    ensures |r| == |items|
    decreases items
  {
    if items == [] then []
    else [if items[0] == Undefined then Null else Shown(items[0])] + ShownItems(items[1..])
  }

  function ShownFields(fields: seq<Field>): (r: seq<Field>)
    ensures |r| == |fields|
    decreases fields
  {
    if fields == [] then [] else [Field(fields[0].key, Shown(fields[0].value))] + ShownFields(fields[1..])
  }

  // The canonical form of a value.
  function Normal(before: KeyOrder, v: Json): Json {
    Shown(Cleaned(Built(before, v)))
  }

  // canonicalize; a bare undefined has no text.
  function Canonical(before: KeyOrder, v: Json): Option<string> {
    if v == Undefined then None else Some(Text(Normal(before, v)))
  }

  // ----- the code

  // The loop over Object.entries, then the sort.
  method Build(before: KeyOrder, v: Json) returns (r: Json)
    ensures r == Built(before, v)
    decreases v
  {
    match v {
      case Arr(items) =>
        var built: seq<Json> := [];
        for i := 0 to |items|
          invariant built + BuiltItems(before, items[i..]) == BuiltItems(before, items)
        {
          assert items[i..][0] == items[i] && items[i..][1..] == items[i + 1..];
          var item := Build(before, items[i]);
          built := built + [item];
        }
        assert items[|items|..] == [] && built == BuiltItems(before, items);
        return Arr(built);
      case Obj(fields) =>
        var entries: seq<Field> := [];
        for i := 0 to |fields|
          invariant entries + BuiltFields(before, fields[i..]) == BuiltFields(before, fields)
        {
          assert fields[i..][0] == fields[i] && fields[i..][1..] == fields[i + 1..];
          var value := Build(before, fields[i].value);
          entries := entries + [Field(fields[i].key, value)];
        }
        assert fields[|fields|..] == [] && entries == BuiltFields(before, fields);
        return Obj(Sort(FieldBefore(before), entries));
      case _ => return v;
    }
  }

  method CleanUndefined(v: Json) returns (r: Json)
    ensures r == Cleaned(v)
    decreases v
  {
    match v {
      case Arr(items) =>
        var cleaned: seq<Json> := [];
        for i := 0 to |items|
          invariant cleaned + CleanedItems(items[i..]) == CleanedItems(items)
        {
          assert items[i..][0] == items[i] && items[i..][1..] == items[i + 1..];
          var item := CleanUndefined(items[i]);
          cleaned := cleaned + [item];
        }
        return Arr(cleaned);
      case Obj(fields) =>
        var result: seq<Field> := [];
        for i := 0 to |fields|
          invariant result + CleanedFields(fields[i..]) == CleanedFields(fields)
        {
          assert fields[i..][0] == fields[i] && fields[i..][1..] == fields[i + 1..];
          if fields[i].value != Undefined {
            var value := CleanUndefined(fields[i].value);
            result := result + [Field(fields[i].key, value)];
          }
        }
        return Obj(result);
      case _ => return v;
    }
  }

  method Canonicalize(before: KeyOrder, v: Json) returns (r: Option<string>)
    ensures r == Canonical(before, v)
  {
    var result := Build(before, v);
    var cleaned := CleanUndefined(result);
    if cleaned == Undefined {
      return None;
    }
    return Some(Text(Shown(cleaned)));
  }

  // ----- values and their agreement

  ghost predicate DistinctKeys(fields: seq<Field>) {
    forall i, j :: 0 <= i < j < |fields| ==> fields[i].key != fields[j].key
  }

  // A plain value: objects with distinct keys, numbers with their literals.
  ghost predicate Plain(v: Json)
    decreases v
  {
    match v
    case Num(literal) => NumericLiteral(literal)
    case Arr(items) => forall i :: 0 <= i < |items| ==> Plain(items[i])
    case Obj(fields) => DistinctKeys(fields) && forall i :: 0 <= i < |fields| ==> Plain(fields[i].value)
    case _ => true
  }

  ghost predicate Absent(v: Json) {
    v == Undefined || v == Null
  }

  // The same value up to the order of keys and undefined fields, at every depth; an undefined array
  // item is as good as null.
  ghost predicate Agree(v: Json, w: Json)
    decreases v
  {
    match v
    case Arr(items) =>
      w.Arr? && |items| == |w.items|
      && forall i :: 0 <= i < |items| ==> (Absent(items[i]) && Absent(w.items[i])) || Agree(items[i], w.items[i])
    case Obj(fields) =>
      w.Obj?
      && (forall i :: 0 <= i < |fields| && fields[i].value != Undefined ==>
            exists j :: 0 <= j < |w.fields| && w.fields[j].key == fields[i].key
              && Agree(fields[i].value, w.fields[j].value))
      && (forall j :: 0 <= j < |w.fields| && w.fields[j].value != Undefined ==>
            exists i :: 0 <= i < |fields| && fields[i].key == w.fields[j].key
              && Agree(fields[i].value, w.fields[j].value))
    case _ => v == w
  }

  // No two different keys compare as equal.
  ghost predicate NoTies(before: KeyOrder) {
    forall a, b :: a != b ==> before(a, b) || before(b, a)
  }

  // The comparator orders the keys of two fields, if both have a value.
  ghost function Apart(before: KeyOrder): (Field, Field) -> bool {
    (f: Field, g: Field) =>
      f.value == Undefined || g.value == Undefined || before(f.key, g.key) || before(g.key, f.key)
  }

  // In every object of the value, at every depth, the comparator orders the keys of any two fields with
  // a value.
  ghost predicate TellsApart(before: KeyOrder, v: Json)
    decreases v
  {
    match v
    case Arr(items) => forall i :: 0 <= i < |items| ==> TellsApart(before, items[i])
    case Obj(fields) =>
      && (forall i, j :: 0 <= i < j < |fields| ==> Apart(before)(fields[i], fields[j]))
      && (forall i :: 0 <= i < |fields| ==> TellsApart(before, fields[i].value))
    case _ => true
  }

  // ----- the canonical form of arrays and objects, by position and by membership

  lemma {:induction false} NormalItem(before: KeyOrder, items: seq<Json>, i: nat)
    requires i < |items|
    ensures ShownItems(CleanedItems(BuiltItems(before, items)))[i]
         == if items[i] == Undefined then Null else Normal(before, items[i])
  {
    if i > 0 {
      NormalItem(before, items[1..], i - 1);
    }
  }

  lemma {:induction false} BuiltFieldAt(before: KeyOrder, fields: seq<Field>, i: nat)
    requires i < |fields|
    ensures BuiltFields(before, fields)[i] == Field(fields[i].key, Built(before, fields[i].value))
  {
    if i > 0 {
      BuiltFieldAt(before, fields[1..], i - 1);
    }
  }

  // What cleaning and printing keep of a field, and of a list of fields.
  ghost function Keep(y: Field): Option<Field> {
    if y.value == Undefined then None else Some(Field(y.key, Shown(Cleaned(y.value))))
  }

  ghost function KeptFields(fields: seq<Field>): seq<Field> {
    ShownFields(CleanedFields(fields))
  }

  lemma {:induction false} KeptAreCollected(fields: seq<Field>)
    ensures KeptFields(fields) == Collect(Keep, fields)
  {
    if fields != [] {
      KeptAreCollected(fields[1..]);
    }
  }

  ghost predicate OtherKey(f: Field, g: Field) {
    f.key != g.key
  }

  lemma FieldOrderIsWeak(before: KeyOrder)
    requires WeakOrder(before)
    ensures WeakOrder(FieldBefore(before))
  {
    forall f, g: Field | FieldBefore(before)(f, g) ensures !FieldBefore(before)(g, f) {
      assert before(f.key, g.key);
    }
    forall f, g, h: Field | !FieldBefore(before)(f, g) && !FieldBefore(before)(g, h)
      ensures !FieldBefore(before)(f, h)
    {
      assert !before(f.key, g.key) && !before(g.key, h.key);
    }
  }

  lemma BuiltUndefined(before: KeyOrder, v: Json)
    ensures Built(before, v) == Undefined <==> v == Undefined
    ensures Normal(before, v) == Undefined <==> v == Undefined
  {
  }

  // A field of the canonical form comes from a field that has a value.
  ghost predicate ComesFrom(before: KeyOrder, f: Field, x: Field) {
    f.value != Undefined && x == Field(f.key, Normal(before, f.value))
  }

  ghost function SortedFields(before: KeyOrder, fields: seq<Field>): seq<Field> {
    Sort(FieldBefore(before), BuiltFields(before, fields))
  }

  ghost function NormalFields(before: KeyOrder, fields: seq<Field>): seq<Field> {
    KeptFields(SortedFields(before, fields))
  }

  lemma NormalMember(before: KeyOrder, fields: seq<Field>, x: Field)
    ensures x in NormalFields(before, fields) <==> exists i :: 0 <= i < |fields| && ComesFrom(before, fields[i], x)
  {
    var built, sorted := BuiltFields(before, fields), SortedFields(before, fields);
    SortMembers(FieldBefore(before), built);
    KeptAreCollected(sorted);
    if x in NormalFields(before, fields) {
      var p := CollectSource(Keep, sorted, x);
      assert sorted[p] in sorted;
      var i :| 0 <= i < |built| && built[i] == sorted[p];
      BuiltFieldAt(before, fields, i);
      BuiltUndefined(before, fields[i].value);
      assert ComesFrom(before, fields[i], x);
    }
    if i :| 0 <= i < |fields| && ComesFrom(before, fields[i], x) {
      BuiltFieldAt(before, fields, i);
      BuiltUndefined(before, fields[i].value);
      assert built[i] in built;
      var p :| 0 <= p < |sorted| && sorted[p] == built[i];
      CollectMember(Keep, sorted, p);
    }
  }

  // Different fields of an object with distinct keys have different keys, sorted and kept too.
  lemma NormalFieldsDistinct(before: KeyOrder, fields: seq<Field>)
    requires DistinctKeys(fields)
    ensures DistinctKeys(NormalFields(before, fields))
  {
    var built := BuiltFields(before, fields);
    forall i, j | 0 <= i < |built| && 0 <= j < |built| && i != j ensures OtherKey(built[i], built[j]) {
      BuiltFieldAt(before, fields, i);
      BuiltFieldAt(before, fields, j);
      assert i < j || j < i;
    }
    SortPairwise(FieldBefore(before), OtherKey, built);
    KeptAreCollected(SortedFields(before, fields));
    var xs := NormalFields(before, fields);
    forall i, j | 0 <= i < j < |xs| ensures xs[i].key != xs[j].key {
      var p, q := CollectPair(Keep, SortedFields(before, fields), i, j);
      assert OtherKey(SortedFields(before, fields)[p], SortedFields(before, fields)[q]);
    }
  }

  // The fields of a canonical object stand in order.
  lemma NormalFieldsOrdered(before: KeyOrder, fields: seq<Field>)
    requires WeakOrder(before)
    ensures Ordered(FieldBefore(before), NormalFields(before, fields))
  {
    FieldOrderIsWeak(before);
    SortOrdered(FieldBefore(before), BuiltFields(before, fields));
    KeptAreCollected(SortedFields(before, fields));
    var xs := NormalFields(before, fields);
    forall i, j | 0 <= i < j < |xs| ensures !FieldBefore(before)(xs[j], xs[i]) {
      var p, q := CollectPair(Keep, SortedFields(before, fields), i, j);
      assert !FieldBefore(before)(SortedFields(before, fields)[q], SortedFields(before, fields)[p]);
    }
  }

  // In strict order, if the comparator tells them apart.
  lemma NormalFieldsStrict(before: KeyOrder, fields: seq<Field>)
    requires WeakOrder(before)
    requires forall i, j :: 0 <= i < j < |fields| ==> Apart(before)(fields[i], fields[j])
    ensures StrictlyOrdered(FieldBefore(before), NormalFields(before, fields))
  {
    var built := BuiltFields(before, fields);
    forall i, j | 0 <= i < |built| && 0 <= j < |built| && i != j ensures Apart(before)(built[i], built[j]) {
      BuiltFieldAt(before, fields, i);
      BuiltFieldAt(before, fields, j);
      BuiltUndefined(before, fields[i].value);
      BuiltUndefined(before, fields[j].value);
      assert i < j || j < i;
    }
    SortPairwise(FieldBefore(before), Apart(before), built);
    NormalFieldsOrdered(before, fields);
    KeptAreCollected(SortedFields(before, fields));
    var xs := NormalFields(before, fields);
    forall i, j | 0 <= i < j < |xs| ensures FieldBefore(before)(xs[i], xs[j]) {
      var p, q := CollectPair(Keep, SortedFields(before, fields), i, j);
      assert Apart(before)(SortedFields(before, fields)[p], SortedFields(before, fields)[q]);
      assert !FieldBefore(before)(xs[j], xs[i]);
    }
  }

  // ----- agreement is equality of canonical forms

  // Agreeing objects have the same keys with a value.
  lemma FieldPartner(fields: seq<Field>, others: seq<Field>, j: nat) returns (i: nat)
    requires Agree(Obj(fields), Obj(others)) && j < |others| && others[j].value != Undefined
    ensures i < |fields| && fields[i].key == others[j].key && fields[i].value != Undefined
    ensures Agree(fields[i].value, others[j].value)
  {
    i :| 0 <= i < |fields| && fields[i].key == others[j].key && Agree(fields[i].value, others[j].value);
  }

  lemma OtherPartner(fields: seq<Field>, others: seq<Field>, i: nat) returns (j: nat)
    requires Agree(Obj(fields), Obj(others)) && i < |fields| && fields[i].value != Undefined
    ensures j < |others| && fields[i].key == others[j].key && others[j].value != Undefined
    ensures Agree(fields[i].value, others[j].value)
  {
    j :| 0 <= j < |others| && others[j].key == fields[i].key && Agree(fields[i].value, others[j].value);
  }

  lemma {:induction false} AgreeMakesNormalEqual(before: KeyOrder, v: Json, w: Json)
    requires WeakOrder(before) && TellsApart(before, v) && TellsApart(before, w) && Agree(v, w)
    ensures Normal(before, v) == Normal(before, w)
    decreases v, 1
  {
    match v
    case Arr(items) => ItemsNormalEqual(before, items, w.items);
    case Obj(fields) =>
      forall x ensures x in NormalFields(before, fields) <==> x in NormalFields(before, w.fields) {
        MembersNormalEqual(before, fields, w.fields, x);
      }
      NormalFieldsStrict(before, fields);
      NormalFieldsStrict(before, w.fields);
      FieldOrderIsWeak(before);
      StrictlyOrderedUnique(FieldBefore(before), NormalFields(before, fields), NormalFields(before, w.fields));
    case _ =>
  }

  lemma {:induction false} ItemsNormalEqual(before: KeyOrder, items: seq<Json>, others: seq<Json>)
    requires WeakOrder(before) && TellsApart(before, Arr(items)) && TellsApart(before, Arr(others))
    requires Agree(Arr(items), Arr(others))
    ensures ShownItems(CleanedItems(BuiltItems(before, items))) == ShownItems(CleanedItems(BuiltItems(before, others)))
    decreases items, 0
  {
    var xs, ys := ShownItems(CleanedItems(BuiltItems(before, items))),
                  ShownItems(CleanedItems(BuiltItems(before, others)));
    forall i | 0 <= i < |items| ensures xs[i] == ys[i] {
      NormalItem(before, items, i);
      NormalItem(before, others, i);
      if Agree(items[i], others[i]) {
        AgreeMakesNormalEqual(before, items[i], others[i]);
      }
    }
  }

  lemma CarriesOver(before: KeyOrder, f: Field, g: Field, x: Field)
    requires ComesFrom(before, f, x) && f.key == g.key && Normal(before, f.value) == Normal(before, g.value)
    ensures ComesFrom(before, g, x)
  {
    BuiltUndefined(before, f.value);
    BuiltUndefined(before, g.value);
  }

  lemma {:induction false} MembersNormalEqual(before: KeyOrder, fields: seq<Field>, others: seq<Field>, x: Field)
    requires WeakOrder(before) && TellsApart(before, Obj(fields)) && TellsApart(before, Obj(others))
    requires Agree(Obj(fields), Obj(others))
    ensures x in NormalFields(before, fields) <==> x in NormalFields(before, others)
    decreases fields, 0
  {
    NormalMember(before, fields, x);
    NormalMember(before, others, x);
    if i :| 0 <= i < |fields| && ComesFrom(before, fields[i], x) {
      var j := OtherPartner(fields, others, i);
      AgreeMakesNormalEqual(before, fields[i].value, others[j].value);
      CarriesOver(before, fields[i], others[j], x);
    }
    if j :| 0 <= j < |others| && ComesFrom(before, others[j], x) {
      var i := FieldPartner(fields, others, j);
      AgreeMakesNormalEqual(before, fields[i].value, others[j].value);
      CarriesOver(before, others[j], fields[i], x);
    }
  }

  // The canonical form keeps the kind of a value.
  lemma NormalKind(before: KeyOrder, v: Json)
    ensures v.Arr? <==> Normal(before, v).Arr?
    ensures v.Obj? <==> Normal(before, v).Obj?
    ensures !v.Arr? && !v.Obj? ==> Normal(before, v) == v
    ensures v.Obj? ==> Normal(before, v) == Obj(NormalFields(before, v.fields))
    ensures v.Arr? ==> Normal(before, v) == Arr(ShownItems(CleanedItems(BuiltItems(before, v.items))))
  {
  }

  lemma {:induction false} NormalEqualMakesAgree(before: KeyOrder, v: Json, w: Json)
    requires Normal(before, v) == Normal(before, w)
    ensures Agree(v, w)
    decreases v
  {
    NormalKind(before, v);
    NormalKind(before, w);
    match v
    case Arr(items) =>
      forall i | 0 <= i < |items|
        ensures (Absent(items[i]) && Absent(w.items[i])) || Agree(items[i], w.items[i])
      {
        NormalItem(before, items, i);
        NormalItem(before, w.items, i);
        NormalKind(before, items[i]);
        NormalKind(before, w.items[i]);
        if items[i] != Undefined && w.items[i] != Undefined {
          NormalEqualMakesAgree(before, items[i], w.items[i]);
        }
      }
    case Obj(fields) =>
      forall i | 0 <= i < |fields| && fields[i].value != Undefined
        ensures exists j ::
          0 <= j < |w.fields| && w.fields[j].key == fields[i].key && Agree(fields[i].value, w.fields[j].value)
      {
        var j := Partner(before, fields, i, w.fields);
        NormalEqualMakesAgree(before, fields[i].value, w.fields[j].value);
      }
      forall j | 0 <= j < |w.fields| && w.fields[j].value != Undefined
        ensures exists i ::
          0 <= i < |fields| && fields[i].key == w.fields[j].key && Agree(fields[i].value, w.fields[j].value)
      {
        var i := Partner(before, w.fields, j, fields);
        NormalEqualMakesAgree(before, fields[i].value, w.fields[j].value);
      }
    case _ =>
  }

  // Equal canonical fields come from fields with the same key and the same canonical value.
  lemma Partner(before: KeyOrder, fields: seq<Field>, i: nat, others: seq<Field>) returns (j: nat)
    requires NormalFields(before, fields) == NormalFields(before, others)
    requires i < |fields| && fields[i].value != Undefined
    ensures j < |others| && others[j].key == fields[i].key && others[j].value != Undefined
    ensures Normal(before, others[j].value) == Normal(before, fields[i].value)
  {
    var x := Field(fields[i].key, Normal(before, fields[i].value));
    assert ComesFrom(before, fields[i], x);
    NormalMember(before, fields, x);
    NormalMember(before, others, x);
    j :| j < |others| && ComesFrom(before, others[j], x);
  }

  // ----- the canonical form is a plain value with a text

  lemma {:induction false} NormalIsPlain(before: KeyOrder, v: Json)
    requires Plain(v)
    ensures Plain(Normal(before, v)) && (v != Undefined ==> Printable(Normal(before, v)))
    decreases v
  {
    NormalKind(before, v);
    match v
    case Arr(items) =>
      var xs := Normal(before, v).items;
      forall i | 0 <= i < |xs| ensures Plain(xs[i]) && Printable(xs[i]) {
        NormalItem(before, items, i);
        NormalIsPlain(before, items[i]);
      }
    case Obj(fields) =>
      var xs := NormalFields(before, fields);
      NormalFieldsDistinct(before, fields);
      forall i | 0 <= i < |xs| ensures Plain(xs[i].value) && Printable(xs[i].value) {
        NormalMember(before, fields, xs[i]);
        var k :| 0 <= k < |fields| && ComesFrom(before, fields[k], xs[i]);
        NormalIsPlain(before, fields[k].value);
      }
    case _ =>
  }

  lemma SameText(x: Json, y: Json)
    requires Printable(x) && Printable(y) && Text(x) == Text(y)
    ensures x == y
  {
    assert Text(x) + "" == Text(x) && Text(y) + "" == Text(y);
    TextUnique(x, "", y, "");
  }

  /** Whatever the comparator does, the canonical text of plain values decides their canonical forms ... */
  lemma SameCanonicalText(before: KeyOrder, v: Json, w: Json)
    requires Plain(v) && Plain(w)
    ensures Canonical(before, v) == Canonical(before, w) <==> Normal(before, v) == Normal(before, w)
  {
    NormalIsPlain(before, v);
    NormalIsPlain(before, w);
    BuiltUndefined(before, v);
    BuiltUndefined(before, w);
    if v != Undefined && Canonical(before, v) == Canonical(before, w) {
      SameText(Normal(before, v), Normal(before, w));
    }
  }

  /** ... and so values with the same text agree. */
  lemma SameTextAgrees(before: KeyOrder, v: Json, w: Json)
    requires Plain(v) && Plain(w) && Canonical(before, v) == Canonical(before, w)
    ensures Agree(v, w)
  {
    SameCanonicalText(before, v, w);
    NormalEqualMakesAgree(before, v, w);
  }

  // Agreeing values have the same keys with a value, so the comparator tells the keys of both apart, or of neither.
  lemma FieldsApartAt(before: KeyOrder, fields: seq<Field>, i: nat, l: nat, f: Field, g: Field)
    requires i < |fields| && l < |fields| && fields[i].key == f.key && fields[l].key == g.key && f.key != g.key
    requires fields[i].value != Undefined && fields[l].value != Undefined
    requires forall i, j :: 0 <= i < j < |fields| ==> Apart(before)(fields[i], fields[j])
    ensures Apart(before)(f, g)
  {
    assert i < l || l < i;
  }

  lemma FieldsApart(before: KeyOrder, fields: seq<Field>, others: seq<Field>)
    requires Agree(Obj(fields), Obj(others)) && DistinctKeys(others)
    requires forall i, j :: 0 <= i < j < |fields| ==> Apart(before)(fields[i], fields[j])
    ensures forall j, k :: 0 <= j < k < |others| ==> Apart(before)(others[j], others[k])
  {
    forall j, k | 0 <= j < k < |others| ensures Apart(before)(others[j], others[k]) {
      if others[j].value != Undefined && others[k].value != Undefined {
        var i := FieldPartner(fields, others, j);
        var l := FieldPartner(fields, others, k);
        FieldsApartAt(before, fields, i, l, others[j], others[k]);
      }
    }
  }

  lemma {:induction false} AgreeTellsApart(before: KeyOrder, v: Json, w: Json)
    requires Plain(w) && Agree(v, w) && TellsApart(before, v)
    ensures TellsApart(before, w)
    decreases v
  {
    match v
    case Arr(items) =>
      forall i | 0 <= i < |w.items| ensures TellsApart(before, w.items[i]) {
        if !Absent(w.items[i]) {
          AgreeTellsApart(before, items[i], w.items[i]);
        }
      }
    case Obj(fields) =>
      FieldsApart(before, fields, w.fields);
      forall j | 0 <= j < |w.fields| ensures TellsApart(before, w.fields[j].value) {
        if w.fields[j].value != Undefined {
          var i := FieldPartner(fields, w.fields, j);
          AgreeTellsApart(before, fields[i].value, w.fields[j].value);
        }
      }
    case _ =>
  }

  /** Canonical text: when the comparator tells the keys of v apart, a plain value gets the text of v exactly when it
      agrees with v up to key order and undefined fields. */
  lemma CanonicalTextDecidesAgreement(before: KeyOrder, v: Json, w: Json)
    requires WeakOrder(before) && Plain(v) && Plain(w) && TellsApart(before, v)
    ensures Canonical(before, v) == Canonical(before, w) <==> Agree(v, w)
  {
    if Agree(v, w) {
      AgreeTellsApart(before, v, w);
      AgreeMakesNormalEqual(before, v, w);
      SameCanonicalText(before, v, w);
    }
    if Canonical(before, v) == Canonical(before, w) {
      SameTextAgrees(before, v, w);
    }
  }

  // ----- canonical values

  // A value that is canonical already.
  ghost predicate InCanonicalForm(before: KeyOrder, v: Json)
    decreases v
  {
    match v
    case Arr(items) => forall i :: 0 <= i < |items| ==> items[i] != Undefined && InCanonicalForm(before, items[i])
    case Obj(fields) =>
      && Ordered(FieldBefore(before), fields)
      && (forall i :: 0 <= i < |fields| ==>
            fields[i].value != Undefined && InCanonicalForm(before, fields[i].value))
    case _ => true
  }

  lemma {:induction false} NormalIsCanonical(before: KeyOrder, v: Json)
    requires WeakOrder(before)
    ensures InCanonicalForm(before, Normal(before, v))
    decreases v
  {
    NormalKind(before, v);
    match v
    case Arr(items) =>
      var xs := Normal(before, v).items;
      forall i | 0 <= i < |xs| ensures xs[i] != Undefined && InCanonicalForm(before, xs[i]) {
        NormalItem(before, items, i);
        BuiltUndefined(before, items[i]);
        NormalIsCanonical(before, items[i]);
      }
    case Obj(fields) =>
      var xs := NormalFields(before, fields);
      NormalFieldsOrdered(before, fields);
      forall i | 0 <= i < |xs| ensures xs[i].value != Undefined && InCanonicalForm(before, xs[i].value) {
        NormalMember(before, fields, xs[i]);
        var k :| 0 <= k < |fields| && ComesFrom(before, fields[k], xs[i]);
        BuiltUndefined(before, fields[k].value);
        NormalIsCanonical(before, fields[k].value);
      }
    case _ =>
  }

  lemma {:induction false} AllCollected(fields: seq<Field>)
    requires forall i :: 0 <= i < |fields| ==> Keep(fields[i]).Some?
    ensures |Collect(Keep, fields)| == |fields|
    ensures forall i :: 0 <= i < |fields| ==> Keep(fields[i]) == Some(Collect(Keep, fields)[i])
  {
    if fields != [] {
      AllCollected(fields[1..]);
    }
  }

  lemma {:induction false} CanonicalIsFixed(before: KeyOrder, v: Json)
    requires InCanonicalForm(before, v)
    ensures Normal(before, v) == v
    decreases v
  {
    NormalKind(before, v);
    match v
    case Arr(items) =>
      forall i | 0 <= i < |items| ensures Normal(before, v).items[i] == items[i] {
        NormalItem(before, items, i);
        CanonicalIsFixed(before, items[i]);
      }
    case Obj(fields) =>
      var built := BuiltFields(before, fields);
      forall i | 0 <= i < |fields| ensures built[i] == Field(fields[i].key, Built(before, fields[i].value)) {
        BuiltFieldAt(before, fields, i);
      }
      SortFixed(FieldBefore(before), built);
      forall i | 0 <= i < |fields| ensures built[i].value != Undefined {
        BuiltUndefined(before, fields[i].value);
      }
      KeptAreCollected(built);
      AllCollected(built);
      forall i | 0 <= i < |fields| ensures NormalFields(before, fields)[i] == fields[i] {
        CanonicalIsFixed(before, fields[i].value);
        assert Keep(built[i]) == Some(KeptFields(built)[i]);
      }
    case _ =>
  }

  /** Canonicalising a canonical value changes nothing, for every value and even where keys tie. */
  lemma CanonicalIsIdempotent(before: KeyOrder, v: Json)
    requires WeakOrder(before)
    ensures Normal(before, Normal(before, v)) == Normal(before, v)
    ensures Canonical(before, Normal(before, v)) == Canonical(before, v)
  {
    NormalIsCanonical(before, v);
    CanonicalIsFixed(before, Normal(before, v));
    BuiltUndefined(before, v);
  }

  // ----- where keys tie

  lemma {:induction false} AgreeWithItself(v: Json)
    ensures Agree(v, v)
    decreases v
  {
    match v
    case Arr(items) =>
      forall i | 0 <= i < |items| ensures Agree(items[i], items[i]) {
        AgreeWithItself(items[i]);
      }
    case Obj(fields) =>
      forall i | 0 <= i < |fields| ensures Agree(fields[i].value, fields[i].value) {
        AgreeWithItself(fields[i].value);
      }
    case _ =>
  }

  // A value w that agrees with v and has another canonical form.
  ghost predicate Betrays(before: KeyOrder, v: Json, w: Json) {
    Plain(w) && Agree(v, w) && Normal(before, v) != Normal(before, w)
  }

  lemma ItemAgrees(items: seq<Json>, i: nat, x: Json)
    requires i < |items| && Agree(items[i], x)
    ensures Agree(Arr(items), Arr(items[i := x]))
  {
    var others := items[i := x];
    forall k | 0 <= k < |items| ensures Agree(items[k], others[k]) {
      AgreeWithItself(items[k]);
    }
  }

  // With one item replaced by one that betrays it.
  lemma ItemBetrays(before: KeyOrder, items: seq<Json>, i: nat, x: Json)
    requires Plain(Arr(items)) && i < |items| && Betrays(before, items[i], x)
    requires items[i] != Undefined && x != Undefined
    ensures Betrays(before, Arr(items), Arr(items[i := x]))
  {
    var others := items[i := x];
    ItemAgrees(items, i, x);
    NormalItem(before, items, i);
    NormalItem(before, others, i);
    NormalKind(before, Arr(items));
    NormalKind(before, Arr(others));
  }

  // With the value of one field replaced by one that betrays it.
  lemma FieldAgrees(fields: seq<Field>, i: nat, x: Json)
    requires i < |fields| && Agree(fields[i].value, x)
    ensures Agree(Obj(fields), Obj(fields[i := Field(fields[i].key, x)]))
  {
    var others := fields[i := Field(fields[i].key, x)];
    forall k | 0 <= k < |fields| ensures others[k].key == fields[k].key && Agree(fields[k].value, others[k].value) {
      AgreeWithItself(fields[k].value);
    }
  }

  lemma FieldBetrays(before: KeyOrder, fields: seq<Field>, i: nat, x: Json)
    requires Plain(Obj(fields)) && i < |fields| && Betrays(before, fields[i].value, x)
    requires fields[i].value != Undefined && x != Undefined
    ensures Betrays(before, Obj(fields), Obj(fields[i := Field(fields[i].key, x)]))
  {
    var others := fields[i := Field(fields[i].key, x)];
    FieldAgrees(fields, i, x);
    NormalKind(before, Obj(fields));
    NormalKind(before, Obj(others));
    var f := Field(fields[i].key, Normal(before, fields[i].value));
    assert ComesFrom(before, fields[i], f);
    forall m | 0 <= m < |others| ensures !ComesFrom(before, others[m], f) {
      assert m != i ==> fields[m].key != fields[i].key;
    }
    NormalMember(before, fields, f);
    NormalMember(before, others, f);
  }

  ghost function Exchanged(fields: seq<Field>, i: nat, j: nat): (r: seq<Field>)
    requires i < j < |fields|
    ensures |r| == |fields|
  {
    fields[i := fields[j]][j := fields[i]]
  }

  lemma SameFieldsAgree(fields: seq<Field>, others: seq<Field>)
    requires forall f :: f in fields <==> f in others
    ensures Agree(Obj(fields), Obj(others))
  {
    forall k | 0 <= k < |fields|
      ensures exists l :: 0 <= l < |others| && others[l].key == fields[k].key && Agree(fields[k].value, others[l].value)
    {
      AgreeWithItself(fields[k].value);
      assert fields[k] in others;
    }
    forall l | 0 <= l < |others|
      ensures exists k :: 0 <= k < |fields| && fields[k].key == others[l].key && Agree(fields[k].value, others[l].value)
    {
      AgreeWithItself(others[l].value);
      assert others[l] in fields;
    }
  }

  lemma ExchangedMembers(fields: seq<Field>, i: nat, j: nat)
    requires i < j < |fields|
    ensures forall f :: f in fields <==> f in Exchanged(fields, i, j)
  {
    var others := Exchanged(fields, i, j);
    assert others[i] == fields[j] && others[j] == fields[i];
    forall f | f in fields ensures f in others {
      var k :| 0 <= k < |fields| && fields[k] == f;
      assert others[if k == i then j else if k == j then i else k] == f;
    }
  }

  lemma ExchangedIsPlain(fields: seq<Field>, i: nat, j: nat)
    requires i < j < |fields| && Plain(Obj(fields))
    ensures Plain(Obj(Exchanged(fields, i, j)))
  {
    var others := Exchanged(fields, i, j);
    forall k | 0 <= k < |others| ensures Plain(others[k].value) {
      assert others[k] == fields[if k == i then j else if k == j then i else k];
    }
  }

  // Of two tied fields the earlier one stays first in the canonical form.
  lemma TiedFieldsKeepOrder(before: KeyOrder, fields: seq<Field>, i: nat, j: nat)
    requires i < j < |fields| && fields[i].value != Undefined && fields[j].value != Undefined
    requires !before(fields[j].key, fields[i].key)
    ensures Precedes(Field(fields[i].key, Normal(before, fields[i].value)),
                     Field(fields[j].key, Normal(before, fields[j].value)), NormalFields(before, fields))
  {
    var built := BuiltFields(before, fields);
    BuiltFieldAt(before, fields, i);
    BuiltFieldAt(before, fields, j);
    BuiltUndefined(before, fields[i].value);
    BuiltUndefined(before, fields[j].value);
    SortIsStable(FieldBefore(before), built, i, j);
    KeptAreCollected(SortedFields(before, fields));
    CollectPrecedes(Keep, SortedFields(before, fields), built[i], built[j],
                    Field(fields[i].key, Normal(before, fields[i].value)),
                    Field(fields[j].key, Normal(before, fields[j].value)));
  }

  lemma NotBothWays(xs: seq<Field>, x: Field, y: Field)
    requires DistinctKeys(xs) && x.key != y.key && Precedes(x, y, xs)
    ensures !Precedes(y, x, xs)
  {
  }

  lemma ExchangeBetrays(before: KeyOrder, fields: seq<Field>, i: nat, j: nat)
    requires i < j < |fields| && Plain(Obj(fields)) && !Apart(before)(fields[i], fields[j])
    ensures Betrays(before, Obj(fields), Obj(Exchanged(fields, i, j)))
  {
    var others := Exchanged(fields, i, j);
    ExchangedMembers(fields, i, j);
    SameFieldsAgree(fields, others);
    ExchangedIsPlain(fields, i, j);
    TiedFieldsKeepOrder(before, fields, i, j);
    TiedFieldsKeepOrder(before, others, i, j);
    NormalFieldsDistinct(before, fields);
    NotBothWays(NormalFields(before, fields), Field(fields[i].key, Normal(before, fields[i].value)),
                Field(fields[j].key, Normal(before, fields[j].value)));
    NormalKind(before, Obj(fields));
    NormalKind(before, Obj(others));
  }

  // Wherever two keys tie, exchanging their fields shows.
  lemma {:induction false} TiesBetray(before: KeyOrder, v: Json) returns (w: Json)
    requires Plain(v) && !TellsApart(before, v)
    ensures Betrays(before, v, w) && w != Undefined
    decreases v
  {
    match v
    case Arr(items) =>
      var i :| 0 <= i < |items| && !TellsApart(before, items[i]);
      var x := TiesBetray(before, items[i]);
      ItemBetrays(before, items, i, x);
      return Arr(items[i := x]);
    case Obj(fields) =>
      if i, j :| 0 <= i < j < |fields| && !Apart(before)(fields[i], fields[j]) {
        ExchangeBetrays(before, fields, i, j);
        return Obj(Exchanged(fields, i, j));
      }
      var i :| 0 <= i < |fields| && !TellsApart(before, fields[i].value);
      var x := TiesBetray(before, fields[i].value);
      FieldBetrays(before, fields, i, x);
      return Obj(fields[i := Field(fields[i].key, x)]);
    case _ => w := v;
  }

  /** Order-insensitivity, exactly: all plain values that agree with v get its text if and only if the comparator orders
      the keys of any two fields with a value, in every object of v. */
  lemma OrderInsensitiveExactlyWhenToldApart(before: KeyOrder, v: Json)
    requires WeakOrder(before) && Plain(v)
    ensures (forall w :: Plain(w) && Agree(v, w) ==> Canonical(before, v) == Canonical(before, w))
       <==> TellsApart(before, v)
  {
    if TellsApart(before, v) {
      forall w | Plain(w) && Agree(v, w) ensures Canonical(before, v) == Canonical(before, w) {
        CanonicalTextDecidesAgreement(before, v, w);
      }
    } else {
      var w := TiesBetray(before, v);
      SameCanonicalText(before, v, w);
    }
  }

  lemma {:induction false} NoTiesTellsApart(before: KeyOrder, v: Json)
    requires NoTies(before) && Plain(v)
    ensures TellsApart(before, v)
    decreases v
  {
    match v
    case Arr(items) =>
      forall i | 0 <= i < |items| ensures TellsApart(before, items[i]) {
        NoTiesTellsApart(before, items[i]);
      }
    case Obj(fields) =>
      forall i | 0 <= i < |fields| ensures TellsApart(before, fields[i].value) {
        NoTiesTellsApart(before, fields[i].value);
      }
    case _ =>
  }

  // For instance an object with just two tied keys.
  ghost function TwoKeys(a: string, b: string): Json {
    Obj([Field(a, Null), Field(b, Null)])
  }

  lemma TwoTiedKeys(before: KeyOrder, a: string, b: string)
    requires a != b && !before(a, b) && !before(b, a)
    ensures Plain(TwoKeys(a, b)) && Plain(TwoKeys(b, a)) && Agree(TwoKeys(a, b), TwoKeys(b, a))
    ensures Canonical(before, TwoKeys(a, b)) != Canonical(before, TwoKeys(b, a))
  {
    var fields := TwoKeys(a, b).fields;
    assert Exchanged(fields, 0, 1) == TwoKeys(b, a).fields;
    ExchangeBetrays(before, fields, 0, 1);
    SameCanonicalText(before, TwoKeys(a, b), TwoKeys(b, a));
  }

  /** So it holds of all values exactly if no two different keys compare as equal. */
  lemma OrderInsensitiveExactlyWithoutTies(before: KeyOrder)
    requires WeakOrder(before)
    ensures (forall v, w :: Plain(v) && Plain(w) && Agree(v, w) ==> Canonical(before, v) == Canonical(before, w))
       <==> NoTies(before)
  {
    if NoTies(before) {
      forall v, w | Plain(v) && Plain(w) && Agree(v, w) ensures Canonical(before, v) == Canonical(before, w) {
        NoTiesTellsApart(before, v);
        CanonicalTextDecidesAgreement(before, v, w);
      }
    } else {
      var a, b :| a != b && !before(a, b) && !before(b, a);
      TwoTiedKeys(before, a, b);
    }
  }
}
