/** JSON documents and the deep merge under the configuration store (Core/src/Json.cpp). */
module JsonDocs {
  import opened Types
  import opened Wrappers
  import opened Digits

  datatype Json = Null | Bool(flag: bool) | Num(number: int) | Str(text: string) | Arr(items: seq<Json>) | Obj(fields: map<string, Json>)

  const EMPTY: Json := Obj(map[])

  /** What merging an overlay into a document means: objects combine key by key, anything else is replaced. */
  function Merged(base: Json, overlay: Json): Json
    decreases overlay
  {
    if base.Obj? && overlay.Obj? then
      Obj(map k | k in base.fields.Keys + overlay.fields.Keys ::
        if k !in overlay.fields then base.fields[k]
        else if k in base.fields then Merged(base.fields[k], overlay.fields[k])
        else overlay.fields[k])
    else overlay
  }

  /** Every entry of the smaller document stands in the larger one. */
  predicate PartOf(small: Json, large: Json)
    decreases small
  {
    if small.Obj? && large.Obj? then
      && small.fields.Keys <= large.fields.Keys
      && forall k | k in small.fields && k in large.fields :: PartOf(small.fields[k], large.fields[k])
    else small == large
  }

  /** `json::merge`: a loop over the keys of the overlay, in any order, changing the base as it goes. */
  method Merge(base: Json, overlay: Json) returns (r: Json)
    ensures r == Merged(base, overlay)
    decreases overlay
  {
    hide Merged, MergedSoFar;
    MergedEntries(base, overlay);
    if !base.Obj? || !overlay.Obj? {
      return overlay;
    }
    var fields, todo := base.fields, overlay.fields.Keys;
    MergeStart(base, overlay);
    while todo != {}
      invariant todo <= overlay.fields.Keys && MergedSoFar(base, overlay, fields, todo)
      decreases |todo|
    {
      var key :| key in todo;
      var value := overlay.fields[key];
      MergeStep(base, overlay, fields, todo, key);
      if value.Obj? && key in fields && fields[key].Obj? {
        var merged := Merge(fields[key], value);
        fields := fields[key := merged];
      } else {
        fields := fields[key := value];
      }
      todo := todo - {key};
    }
    MergeEnd(base, overlay, fields);
    return Obj(fields);
  }

  /** The keys in `todo` are as in the base, all others as in the merged document. */
  ghost predicate MergedSoFar(base: Json, overlay: Json, fields: map<string, Json>, todo: set<string>)
    requires base.Obj? && overlay.Obj?
  {
    && fields.Keys == base.fields.Keys + (overlay.fields.Keys - todo)
    && forall k | k in fields :: fields[k] ==
         if k in todo || k !in overlay.fields then base.fields[k]
         else if k in base.fields then Merged(base.fields[k], overlay.fields[k])
         else overlay.fields[k]
  }

  lemma MergeStart(base: Json, overlay: Json)
    requires base.Obj? && overlay.Obj?
    ensures MergedSoFar(base, overlay, base.fields, overlay.fields.Keys)
  {
  }

  lemma MergeStep(base: Json, overlay: Json, fields: map<string, Json>, todo: set<string>, key: string)
    requires base.Obj? && overlay.Obj? && todo <= overlay.fields.Keys && key in todo
    requires MergedSoFar(base, overlay, fields, todo)
    ensures
      var value := overlay.fields[key];
      var next := if value.Obj? && key in fields && fields[key].Obj? then Merged(fields[key], value) else value;
      MergedSoFar(base, overlay, fields[key := next], todo - {key})
  {
    hide Merged;
    MergedEntries(if key in base.fields then base.fields[key] else Null, overlay.fields[key]);
  }

  lemma MergeEnd(base: Json, overlay: Json, fields: map<string, Json>)
    requires base.Obj? && overlay.Obj? && MergedSoFar(base, overlay, fields, {})
    ensures Merged(base, overlay) == Obj(fields)
  {
    assert Merged(base, overlay).fields == fields;
  }

  /** One level of the merge. */
  lemma MergedEntries(base: Json, overlay: Json)
    ensures !base.Obj? || !overlay.Obj? ==> Merged(base, overlay) == overlay
    ensures base.Obj? && overlay.Obj? ==>
      var m := Merged(base, overlay);
      && m.Obj? && m.fields.Keys == base.fields.Keys + overlay.fields.Keys
      && (forall k | k in m.fields && k !in overlay.fields :: k in base.fields && m.fields[k] == base.fields[k])
      && (forall k | k in overlay.fields && k in base.fields ::
            m.fields[k] == Merged(base.fields[k], overlay.fields[k]))
      && (forall k | k in overlay.fields && k !in base.fields :: m.fields[k] == overlay.fields[k])
  {
  }

  lemma {:induction false} PartOfItself(doc: Json)
    ensures PartOf(doc, doc)
  {
    if doc.Obj? {
      forall k | k in doc.fields ensures PartOf(doc.fields[k], doc.fields[k]) {
        PartOfItself(doc.fields[k]);
      }
    }
  }

  /** Merging changes nothing exactly when the overlay restates what is there. */
  lemma {:induction false} MergeIsNeutral(doc: Json, overlay: Json)
    ensures Merged(doc, overlay) == doc <==> PartOf(overlay, doc)
    decreases overlay
  {
    hide Merged;
    MergedEntries(doc, overlay);
    if doc.Obj? && overlay.Obj? {
      var m := Merged(doc, overlay);
      forall k | k in overlay.fields && k in doc.fields
        ensures Merged(doc.fields[k], overlay.fields[k]) == doc.fields[k] <==> PartOf(overlay.fields[k], doc.fields[k])
      {
        MergeIsNeutral(doc.fields[k], overlay.fields[k]);
      }
      if PartOf(overlay, doc) {
        assert m.fields == doc.fields;
      }
    }
  }

  /** What was merged in is there. */
  lemma {:induction false} MergeContainsOverlay(base: Json, overlay: Json)
    ensures PartOf(overlay, Merged(base, overlay))
    decreases overlay
  {
    hide Merged;
    MergedEntries(base, overlay);
    PartOfItself(overlay);
    if base.Obj? && overlay.Obj? {
      var m := Merged(base, overlay);
      forall k | k in overlay.fields ensures PartOf(overlay.fields[k], m.fields[k]) {
        if k in base.fields {
          MergeContainsOverlay(base.fields[k], overlay.fields[k]);
        } else {
          PartOfItself(overlay.fields[k]);
        }
      }
    }
  }

  lemma MergeIsIdempotent(base: Json, overlay: Json)
    ensures Merged(Merged(base, overlay), overlay) == Merged(base, overlay)
  {
    MergeContainsOverlay(base, overlay);
    MergeIsNeutral(Merged(base, overlay), overlay);
  }

  // ---------- reading fields ----------

  function Field(doc: Json, key: string): Option<Json> {
    if doc.Obj? && key in doc.fields then Some(doc.fields[key]) else None
  }

  function Signed32(n: int): int {
    (n + 0x8000_0000) % 0x1_0000_0000 - 0x8000_0000
  }

  /**
   A field of type `int` or `u32`: numbers wrap, booleans count as 0 and 1, anything else is replaced by the
   fallback.
   */
  function Number(field: Option<Json>, fallback: int): int {
    match field
    case Some(Num(n)) => n
    case Some(Bool(b)) => if b then 1 else 0
    case _ => fallback
  }

  function GetInt(doc: Json, key: string, fallback: int): int {
    Signed32(Number(Field(doc, key), fallback))
  }

  function GetU32(doc: Json, key: string, fallback: U32): U32 {
    Number(Field(doc, key), fallback) % 0x1_0000_0000
  }

  /** `u64` is the JSON library's own unsigned type, for which a boolean is no number. */
  function GetU64(doc: Json, key: string, fallback: U64): U64 {
    var f := Field(doc, key);
    if f.Some? && f.value.Num? then f.value.number % 0x1_0000_0000_0000_0000 else fallback
  }

  function GetBool(doc: Json, key: string, fallback: bool): bool {
    var f := Field(doc, key);
    if f.Some? && f.value.Bool? then f.value.flag else fallback
  }

  function GetText(doc: Json, key: string, fallback: string): string {
    var f := Field(doc, key);
    if f.Some? && f.value.Str? then f.value.text else fallback
  }

  // ---------- JSON pointers ----------

  /** The element an array token names: a plain index, or "-" for the place after the last. */
  function IndexOf(token: string, length: nat): Option<nat> {
    if token == "-" then Some(length) else if Canonical(token, 10) then Some(Value(token, 10)) else None
  }

  /** A missing or null node becomes an array when the next token could be an index, an object otherwise. */
  function Opened(doc: Json, token: string): Json {
    if doc.Null? then (if AllDigits(token, 10) || token == "-" then Arr([]) else Obj(map[])) else doc
  }

  function Padded(items: seq<Json>, length: nat): (r: seq<Json>)
    ensures |r| >= length && |r| >= |items|
  {
    if |items| >= length then items else items + seq(length - |items|, _ => Null)
  }

  /** Assignment through a pointer, creating what is missing; nothing when a scalar or a bad index is in the way. */
  function SetAt(doc: Json, path: seq<string>, value: Json): Option<Json>
    decreases path
  {
    if path == [] then Some(value)
    else
      var node := Opened(doc, path[0]);
      match node
      case Obj(fields) =>
        var child :- SetAt(if path[0] in fields then fields[path[0]] else Null, path[1..], value);
        Some(Obj(fields[path[0] := child]))
      case Arr(items) =>
        var i :- IndexOf(path[0], |items|);
        var room := Padded(items, i + 1);
        var child :- SetAt(room[i], path[1..], value);
        Some(Arr(room[i := child]))
      case _ => None
  }

  /** The node at a path, if there is one. */
  function GetAt(doc: Json, path: seq<string>): Option<Json>
    decreases path
  {
    if path == [] then Some(doc)
    else match doc
      case Obj(fields) => if path[0] in fields then GetAt(fields[path[0]], path[1..]) else None
      case Arr(items) =>
        if Canonical(path[0], 10) && Value(path[0], 10) < |items| then GetAt(items[Value(path[0], 10)], path[1..]) else None
      case _ => None
  }

  /** The path that names the place an assignment reaches: "-" at an array becomes the index after its last item. */
  function Resolved(doc: Json, path: seq<string>): seq<string>
    decreases path
  {
    if path == [] then []
    else
      match Opened(doc, path[0])
      case Obj(fields) => [path[0]] + Resolved(if path[0] in fields then fields[path[0]] else Null, path[1..])
      case Arr(items) =>
        if path[0] == "-" then [Print(|items|, 10)] + Resolved(Null, path[1..])
        else
          var i := IndexOf(path[0], |items|);
          if i.None? then path else [path[0]] + Resolved(Padded(items, i.value + 1)[i.value], path[1..])
      case _ => path
  }

  /** What was set is what is read back, at the place the path names. */
  lemma {:induction false} GetAfterSet(doc: Json, path: seq<string>, value: Json)
    requires SetAt(doc, path, value).Some?
    ensures GetAt(SetAt(doc, path, value).value, Resolved(doc, path)) == Some(value)
    decreases path
  {
    hide Canonical, Value, AllDigits, Print;
    if path != [] {
      var node, rest := Opened(doc, path[0]), path[1..];
      match node
      case Obj(fields) =>
        var child := if path[0] in fields then fields[path[0]] else Null;
        GetAfterSet(child, rest, value);
        assert Resolved(doc, path)[1..] == Resolved(child, rest);
      case Arr(items) =>
        var i := IndexOf(path[0], |items|).value;
        var child := Padded(items, i + 1)[i];
        GetAfterSet(child, rest, value);
        PrintIsCanonical(|items|, 10);
        ValueOfPrint(|items|, 10);
        assert Resolved(doc, path)[1..] == Resolved(child, rest);
      case _ =>
    }
  }

  /** A path without "-" names its own place. */
  lemma {:induction false} PlainPathIsResolved(doc: Json, path: seq<string>)
    requires "-" !in path
    ensures Resolved(doc, path) == path
    decreases path
  {
    hide Canonical, Value, AllDigits, Print, IndexOf;
    if path != [] {
      assert path[0] in path && forall t | t in path[1..] :: t in path;
      assert path == [path[0]] + path[1..];
      match Opened(doc, path[0])
      case Obj(fields) => PlainPathIsResolved(if path[0] in fields then fields[path[0]] else Null, path[1..]);
      case Arr(items) =>
        var i := IndexOf(path[0], |items|);
        if i.Some? {
          PlainPathIsResolved(Padded(items, i.value + 1)[i.value], path[1..]);
        }
      case _ =>
    }
  }
}
