/**
 The layered configuration store (Core/src/Config.cpp): compiled-in defaults, a file that holds only the
 difference from them, and the effective document everyone reads.
 */
module Config {
  import opened Wrappers
  import opened JsonDocs

  /** What `computeDelta` keeps of an entry: nothing when it says what the default says. */
  function Delta(defaults: Json, effective: Json): Json
    decreases effective, 0
  {
    if defaults.Obj? && effective.Obj? then
      Obj(map k | k in effective.fields && (k !in defaults.fields || Differs(defaults.fields[k], effective.fields[k])) ::
        if k !in defaults.fields then effective.fields[k] else Delta(defaults.fields[k], effective.fields[k]))
    else effective
  }

  predicate Differs(base: Json, value: Json)
    decreases value, 1
  {
    if base.Obj? && value.Obj? then Delta(base, value) != EMPTY else value != base
  }

  /** Every default key is still there, at every level where both documents are objects. */
  predicate KeepsKeys(defaults: Json, effective: Json)
    decreases effective
  {
    defaults.Obj? && effective.Obj? ==>
      && defaults.fields.Keys <= effective.fields.Keys
      && forall k | k in effective.fields && k in defaults.fields :: KeepsKeys(defaults.fields[k], effective.fields[k])
  }

  /** One level of the delta. */
  lemma DeltaEntries(defaults: Json, effective: Json)
    ensures !defaults.Obj? || !effective.Obj? ==> Delta(defaults, effective) == effective
    ensures defaults.Obj? && effective.Obj? ==>
      var delta := Delta(defaults, effective);
      && delta.Obj?
      && (forall k :: k in delta.fields <==>
            k in effective.fields && (k !in defaults.fields || Differs(defaults.fields[k], effective.fields[k])))
      && (forall k | k in delta.fields :: k in effective.fields && delta.fields[k] ==
            if k in defaults.fields then Delta(defaults.fields[k], effective.fields[k]) else effective.fields[k])
  {
  }

  ghost predicate DeltaSoFar(defaults: Json, effective: Json, fields: map<string, Json>, todo: set<string>)
    requires defaults.Obj? && effective.Obj?
  {
    forall k ::
      && (k in fields <==>
          (k in effective.fields && k !in todo
           && (k !in defaults.fields || Differs(defaults.fields[k], effective.fields[k]))))
      && (k in fields ==>
          fields[k] == (if k in defaults.fields then Delta(defaults.fields[k], effective.fields[k]) else effective.fields[k]))
  }

  lemma DeltaEnd(defaults: Json, effective: Json, fields: map<string, Json>)
    requires defaults.Obj? && effective.Obj? && DeltaSoFar(defaults, effective, fields, {})
    ensures Delta(defaults, effective) == Obj(fields)
  {
    hide Delta, Differs;
    DeltaEntries(defaults, effective);
    assert Delta(defaults, effective).fields == fields;
  }

  /** `computeDelta`: a loop over the keys of the effective document, in any order. */
  method ComputeDelta(defaults: Json, effective: Json) returns (delta: Json)
    ensures delta == Delta(defaults, effective)
    decreases effective
  {
    hide Delta;
    DeltaEntries(defaults, effective);
    if !defaults.Obj? || !effective.Obj? {
      return effective;
    }
    var fields: map<string, Json>, todo := map[], effective.fields.Keys;
    while todo != {}
      invariant todo <= effective.fields.Keys && DeltaSoFar(defaults, effective, fields, todo)
      decreases |todo|
    {
      var key :| key in todo;
      var value := effective.fields[key];
      if key !in defaults.fields {
        fields := fields[key := value];
      } else {
        var base := defaults.fields[key];
        if value.Obj? && base.Obj? {
          var nested := ComputeDelta(base, value);
          if nested != EMPTY {
            fields := fields[key := nested];
          }
        } else if value != base {
          DeltaEntries(base, value);
          fields := fields[key := value];
        }
      }
      todo := todo - {key};
    }
    DeltaEnd(defaults, effective, fields);
    return Obj(fields);
  }

  // ---------- delta and merge are inverse ----------

  /** An empty delta of two objects that keep the default keys says they are equal. */
  lemma {:induction false} NothingDiffers(base: Json, value: Json)
    requires KeepsKeys(base, value) && !Differs(base, value)
    ensures value == base
    decreases value
  {
    hide Delta;
    DeltaEntries(base, value);
    if base.Obj? && value.Obj? {
      forall k | k in value.fields ensures k in base.fields && value.fields[k] == base.fields[k] {
        assert k !in Delta(base, value).fields;
        NothingDiffers(base.fields[k], value.fields[k]);
      }
      assert value.fields == base.fields;
    }
  }

  lemma {:induction false} NoDelta(doc: Json)
    ensures !Differs(doc, doc)
  {
    hide Delta;
    DeltaEntries(doc, doc);
    if doc.Obj? {
      forall k | k in doc.fields ensures !Differs(doc.fields[k], doc.fields[k]) {
        NoDelta(doc.fields[k]);
      }
      assert Delta(doc, doc).fields == map[];
    }
  }

  lemma {:induction false} MergeKeepsKeys(defaults: Json, overlay: Json)
    ensures KeepsKeys(defaults, Merged(defaults, overlay))
    decreases overlay
  {
    hide Merged;
    MergedEntries(defaults, overlay);
    if defaults.Obj? && overlay.Obj? {
      var m := Merged(defaults, overlay);
      forall k | k in m.fields && k in defaults.fields ensures KeepsKeys(defaults.fields[k], m.fields[k]) {
        if k in overlay.fields {
          MergeKeepsKeys(defaults.fields[k], overlay.fields[k]);
        } else {
          KeepsOwnKeys(defaults.fields[k]);
        }
      }
    }
  }

  lemma {:induction false} KeepsOwnKeys(doc: Json)
    ensures KeepsKeys(doc, doc)
  {
    if doc.Obj? {
      forall k | k in doc.fields ensures KeepsKeys(doc.fields[k], doc.fields[k]) {
        KeepsOwnKeys(doc.fields[k]);
      }
    }
  }

  lemma {:induction false} DeltaMerges(defaults: Json, effective: Json)
    requires KeepsKeys(defaults, effective)
    ensures Merged(defaults, Delta(defaults, effective)) == effective
    decreases effective
  {
    hide Merged, Delta, Differs;
    var delta := Delta(defaults, effective);
    DeltaEntries(defaults, effective);
    MergedEntries(defaults, delta);
    if defaults.Obj? && effective.Obj? {
      var m := Merged(defaults, delta);
      forall k | k in effective.fields ensures k in m.fields && m.fields[k] == effective.fields[k] {
        if k in defaults.fields {
          if k in delta.fields {
            DeltaMerges(defaults.fields[k], effective.fields[k]);
          } else {
            NothingDiffers(defaults.fields[k], effective.fields[k]);
          }
        }
      }
      assert m.fields == effective.fields;
    }
  }

  /** Saving the delta loses nothing exactly when the effective document keeps the default keys. */
  lemma DeltaRoundTrip(defaults: Json, effective: Json)
    ensures Merged(defaults, Delta(defaults, effective)) == effective <==> KeepsKeys(defaults, effective)
  {
    hide Merged, Delta, KeepsKeys;
    MergeKeepsKeys(defaults, Delta(defaults, effective));
    if KeepsKeys(defaults, effective) {
      DeltaMerges(defaults, effective);
    }
  }

  /** The delta is minimal: every overlay that yields the effective document contains it. */
  lemma {:induction false} DeltaIsMinimal(defaults: Json, overlay: Json)
    ensures PartOf(Delta(defaults, Merged(defaults, overlay)), overlay)
    decreases overlay
  {
    hide Merged, Delta, Differs;
    MergedEntries(defaults, overlay);
    var effective := Merged(defaults, overlay);
    DeltaEntries(defaults, effective);
    if defaults.Obj? && overlay.Obj? {
      var delta := Delta(defaults, effective);
      forall k | k in delta.fields ensures k in overlay.fields && PartOf(delta.fields[k], overlay.fields[k]) {
        if k in overlay.fields {
          if k in defaults.fields {
            DeltaIsMinimal(defaults.fields[k], overlay.fields[k]);
          } else {
            PartOfItself(overlay.fields[k]);
          }
        } else {
          NoDelta(defaults.fields[k]);
        }
      }
    } else {
      PartOfItself(overlay);
    }
  }

  // ---------- documents that fit the defaults ----------

  /** Default objects are objects with at least the default keys, at every level. */
  predicate Fits(defaults: Json, effective: Json)
    decreases defaults
  {
    defaults.Obj? ==>
      && effective.Obj? && defaults.fields.Keys <= effective.fields.Keys
      && forall k | k in defaults.fields && k in effective.fields :: Fits(defaults.fields[k], effective.fields[k])
  }

  /** The overlay replaces no default object by something else. */
  predicate OverlayFits(defaults: Json, overlay: Json)
    decreases defaults
  {
    defaults.Obj? ==>
      && overlay.Obj?
      && forall k | k in defaults.fields && k in overlay.fields :: OverlayFits(defaults.fields[k], overlay.fields[k])
  }

  /** The default value at a path of object keys. */
  function DefaultAt(defaults: Json, path: seq<string>): Option<Json>
    decreases path
  {
    if path == [] then Some(defaults)
    else if defaults.Obj? && path[0] in defaults.fields then DefaultAt(defaults.fields[path[0]], path[1..])
    else None
  }

  lemma {:induction false} FitsItself(doc: Json)
    ensures Fits(doc, doc)
  {
    if doc.Obj? {
      forall k | k in doc.fields ensures Fits(doc.fields[k], doc.fields[k]) {
        FitsItself(doc.fields[k]);
      }
    }
  }

  lemma {:induction false} FitsKeepsKeys(defaults: Json, effective: Json)
    requires Fits(defaults, effective)
    ensures KeepsKeys(defaults, effective)
    decreases defaults
  {
    if defaults.Obj? {
      forall k | k in effective.fields && k in defaults.fields
        ensures KeepsKeys(defaults.fields[k], effective.fields[k]) {
        FitsKeepsKeys(defaults.fields[k], effective.fields[k]);
      }
    }
  }

  /** Merging keeps a fitting document fitting exactly when the overlay fits. */
  lemma {:induction false} MergeFits(defaults: Json, effective: Json, overlay: Json)
    requires Fits(defaults, effective)
    ensures Fits(defaults, Merged(effective, overlay)) <==> OverlayFits(defaults, overlay)
    decreases defaults
  {
    hide Merged;
    MergedEntries(effective, overlay);
    if defaults.Obj? && overlay.Obj? {
      var m := Merged(effective, overlay);
      forall k | k in defaults.fields
        ensures Fits(defaults.fields[k], m.fields[k]) <==>
          (k in overlay.fields ==> OverlayFits(defaults.fields[k], overlay.fields[k]))
      {
        if k in overlay.fields {
          MergeFits(defaults.fields[k], effective.fields[k], overlay.fields[k]);
        }
      }
    }
  }

  /** Setting a value keeps a fitting document fitting exactly when the value fits the default it replaces. */
  lemma {:induction false} SetFits(defaults: Json, effective: Json, path: seq<string>, value: Json)
    requires Fits(defaults, effective) && SetAt(effective, path, value).Some?
    ensures Fits(defaults, SetAt(effective, path, value).value) <==>
      (DefaultAt(defaults, path).Some? ==> Fits(DefaultAt(defaults, path).value, value))
    decreases path
  {
    if path != [] && defaults.Obj? {
      var after := SetAt(effective, path, value).value;
      if path[0] in defaults.fields {
        SetFits(defaults.fields[path[0]], effective.fields[path[0]], path[1..], value);
      }
      assert after.fields == effective.fields[path[0] := after.fields[path[0]]];
    }
  }

  lemma {:induction false} DefaultIsGet(defaults: Json, path: seq<string>)
    requires DefaultAt(defaults, path).Some?
    ensures GetAt(defaults, path) == DefaultAt(defaults, path)
    decreases path
  {
    if path != [] {
      DefaultIsGet(defaults.fields[path[0]], path[1..]);
    }
  }

  // ---------- runs of the store ----------

  datatype FileState = Absent | Corrupt | Document(document: Json)

  /** The store over its file; `file` is what the disk holds at the configured path. */
  datatype Store = Store(defaults: Json, effective: Json, file: FileState)

  datatype Operation =
    | Load
    | Save(written: bool)
    | Set(path: seq<string>, value: Json)
    | Apply(overlay: Json)
    | Reset(at: seq<string>)
    | FileEdited(content: FileState)

  function Fresh(defaults: Json, file: FileState): Store {
    Store(defaults, defaults, file)
  }

  function Step(s: Store, op: Operation): Store {
    match op
    case Load => s.(effective := if s.file.Document? then Merged(s.defaults, s.file.document) else s.defaults)
    case Save(written) => if written then s.(file := Document(Delta(s.defaults, s.effective))) else s
    case Set(path, value) =>
      var after := SetAt(s.effective, path, value);
      if after.Some? then s.(effective := after.value) else s
    case Apply(overlay) => if overlay.Obj? then s.(effective := Merged(s.effective, overlay)) else s
    case Reset(path) =>
      var default, after := GetAt(s.defaults, path), SetAt(s.effective, path, GetAt(s.defaults, path).GetOr(Null));
      if default.Some? && after.Some? then s.(effective := after.value) else s
    case FileEdited(content) => s.(file := content)
  }

  function Run(s: Store, ops: seq<Operation>): Store
    decreases ops
  {
    if ops == [] then s else Run(Step(s, ops[0]), ops[1..])
  }

  /** What a caller, or whoever edits the file, has to respect: no default object is replaced by anything less. */
  predicate Respects(s: Store, op: Operation) {
    match op
    case Load => s.file.Document? ==> OverlayFits(s.defaults, s.file.document)
    case Set(path, value) =>
      DefaultAt(s.defaults, path).Some? && SetAt(s.effective, path, value).Some? ==>
        Fits(DefaultAt(s.defaults, path).value, value)
    case Apply(overlay) => overlay.Obj? ==> OverlayFits(s.defaults, overlay)
    case _ => true
  }

  predicate RespectsAll(s: Store, ops: seq<Operation>)
    decreases ops
  {
    ops == [] || (Respects(s, ops[0]) && RespectsAll(Step(s, ops[0]), ops[1..]))
  }

  /** One operation keeps the effective document fitting the defaults exactly when it respects them. */
  lemma StepFits(s: Store, op: Operation)
    requires Fits(s.defaults, s.effective)
    ensures Fits(s.defaults, Step(s, op).effective) <==> Respects(s, op)
  {
    hide Fits, OverlayFits, SetAt, GetAt, DefaultAt, Merged;
    FitsItself(s.defaults);
    match op
    case Load =>
      if s.file.Document? {
        MergeFits(s.defaults, s.defaults, s.file.document);
      }
    case Set(path, value) =>
      if SetAt(s.effective, path, value).Some? {
        SetFits(s.defaults, s.effective, path, value);
      }
    case Apply(overlay) => MergeFits(s.defaults, s.effective, overlay);
    case Reset(path) => ResetFits(s.defaults, s.effective, path);
    case _ =>
  }

  lemma ResetFits(defaults: Json, effective: Json, path: seq<string>)
    requires Fits(defaults, effective)
    ensures var default := GetAt(defaults, path);
      default.Some? && SetAt(effective, path, default.value).Some? ==>
        Fits(defaults, SetAt(effective, path, default.value).value)
  {
    hide Fits, SetAt, GetAt, DefaultAt;
    var default := GetAt(defaults, path);
    if default.Some? && SetAt(effective, path, default.value).Some? {
      SetFits(defaults, effective, path, default.value);
      if DefaultAt(defaults, path).Some? {
        DefaultIsGet(defaults, path);
        FitsItself(default.value);
      }
    }
  }

  lemma {:induction false} RunFits(s: Store, ops: seq<Operation>)
    requires Fits(s.defaults, s.effective) && RespectsAll(s, ops)
    ensures Run(s, ops).defaults == s.defaults && Fits(s.defaults, Run(s, ops).effective)
    decreases ops
  {
    hide Fits, Respects;
    if ops != [] {
      StepFits(s, ops[0]);
      RunFits(Step(s, ops[0]), ops[1..]);
    }
  }

  /** Whether a save survives a restart: exactly when the effective document keeps the default keys. */
  lemma SaveThenLoad(s: Store)
    ensures Step(Fresh(s.defaults, Step(s, Save(true)).file), Load).effective == s.effective
       <==> KeepsKeys(s.defaults, s.effective)
  {
    DeltaRoundTrip(s.defaults, s.effective);
  }

  /** After any run that respects the defaults, saving and starting afresh reproduces the effective document. */
  lemma RunSurvivesRestart(defaults: Json, file: FileState, ops: seq<Operation>)
    requires RespectsAll(Fresh(defaults, file), ops)
    ensures var last := Run(Fresh(defaults, file), ops);
      Run(last, [Save(true)]).file == Document(Delta(defaults, last.effective))
      && Step(Fresh(defaults, Step(last, Save(true)).file), Load).effective == last.effective
  {
    hide Fits, KeepsKeys, Delta, Merged;
    var s := Fresh(defaults, file);
    FitsItself(defaults);
    RunFits(s, ops);
    var last := Run(s, ops);
    FitsKeepsKeys(defaults, last.effective);
    SaveThenLoad(last);
  }

  /**
   Replacing a default object by a scalar and later by a smaller object loses the default keys for good:
   the saved file no longer says that they are gone.
   */
  lemma LostKeyExample(key: string, inner: string, value: Json)
    ensures
      var defaults := Obj(map[key := Obj(map[inner := value])]);
      var ops := [Apply(Obj(map[key := Null])), Apply(Obj(map[key := EMPTY]))];
      var last := Run(Fresh(defaults, Absent), ops);
      && last.effective == Obj(map[key := EMPTY])
      && Step(Fresh(defaults, Step(last, Save(true)).file), Load).effective == defaults
  {
    var defaults := Obj(map[key := Obj(map[inner := value])]);
    var ops := [Apply(Obj(map[key := Null])), Apply(Obj(map[key := EMPTY]))];
    var scalar, small := Obj(map[key := Null]), Obj(map[key := EMPTY]);
    assert Merged(defaults, scalar).fields == scalar.fields;
    assert Merged(scalar, small).fields == small.fields;
    var s0 := Fresh(defaults, Absent);
    assert ops[1..] == [ops[1]] && ops[1..][1..] == [];
    assert Run(s0, ops) == Run(Step(s0, ops[0]), ops[1..]) == Step(Step(s0, ops[0]), ops[1]);
    assert Delta(defaults.fields[key], EMPTY).fields == map[];
    assert Delta(defaults, small).fields == map[];
    assert Merged(defaults, EMPTY).fields == defaults.fields;
  }
}
