/**
 The store object of Core/src/Config.cpp: its methods do what the steps of module Config say, and report what
 changed.
 */
module ConfigStores {
  import opened Wrappers
  import opened StringUtil
  import opened JsonDocs
  import opened Config

  /** "~0" and "~1" in a pointer token; any other '~' makes the pointer malformed. */
  function Unescaped(token: string): Option<string> {
    if token == "" then Some("")
    else if token[0] == '~' then
      if |token| >= 2 && (token[1] == '0' || token[1] == '1') then
        var rest :- Unescaped(token[2..]);
        Some([if token[1] == '0' then '~' else '/'] + rest)
      else None
    else
      var rest :- Unescaped(token[1..]);
      Some([token[0]] + rest)
  }

  function UnescapedAll(tokens: seq<string>): Option<seq<string>> {
    if tokens == [] then Some([])
    else
      var first :- Unescaped(tokens[0]);
      var rest :- UnescapedAll(tokens[1..]);
      Some([first] + rest)
  }

  /** The path that the pointer "/" followed by `key` stands for. */
  function PathOfKey(key: string): Option<seq<string>> {
    UnescapedAll(Split(key, '/'))
  }

  function EscapedChar(c: char): string {
    if c == '~' then "~0" else if c == '/' then "~1" else [c]
  }

  function Escaped(token: string): string {
    if token == "" then "" else EscapedChar(token[0]) + Escaped(token[1..])
  }

  function EscapedAll(tokens: seq<string>): (r: seq<string>)
    ensures |r| == |tokens|
  {
    if tokens == [] then [] else [Escaped(tokens[0])] + EscapedAll(tokens[1..])
  }

  lemma {:induction false} UnescapedEscaped(token: string)
    ensures Unescaped(Escaped(token)) == Some(token) && '/' !in Escaped(token)
  {
    if token != "" {
      UnescapedEscaped(token[1..]);
      var shown := Escaped(token);
      assert shown[|EscapedChar(token[0])|..] == Escaped(token[1..]);
      assert token == [token[0]] + token[1..];
    }
  }

  lemma {:induction false} AllUnescaped(tokens: seq<string>)
    ensures UnescapedAll(EscapedAll(tokens)) == Some(tokens) && forall t | t in EscapedAll(tokens) :: '/' !in t
  {
    if tokens != [] {
      UnescapedEscaped(tokens[0]);
      AllUnescaped(tokens[1..]);
      assert EscapedAll(tokens)[1..] == EscapedAll(tokens[1..]);
      assert tokens == [tokens[0]] + tokens[1..];
    }
  }

  /** Any path at all can be written as a key, with "~0" for '~' and "~1" for '/', and is read back from it. */
  lemma PointerRoundTrip(path: seq<string>)
    requires path != []
    ensures PathOfKey(Join(EscapedAll(path), '/')) == Some(path)
  {
    AllUnescaped(path);
    SplitOfJoin(EscapedAll(path), '/');
  }

  /** A '~' that is not followed by '0' or '1'. */
  predicate StrayTilde(key: string) {
    exists i | 0 <= i < |key| :: key[i] == '~' && (i + 1 == |key| || (key[i + 1] != '0' && key[i + 1] != '1'))
  }

  lemma StrayOfRest(key: string, n: nat)
    requires n <= |key| && forall i | 0 <= i < n ::
               key[i] != '~' || (i + 1 < n && (key[i + 1] == '0' || key[i + 1] == '1'))
    ensures StrayTilde(key) <==> StrayTilde(key[n..])
  {
    forall i | 0 <= i < |key| - n ensures key[n..][i] == key[n + i] {
    }
    if StrayTilde(key) {
      var i :| 0 <= i < |key| && key[i] == '~' && (i + 1 == |key| || (key[i + 1] != '0' && key[i + 1] != '1'));
      assert key[n..][i - n] == key[i];
    }
    if StrayTilde(key[n..]) {
      var rest := key[n..];
      var i :| 0 <= i < |rest| && rest[i] == '~' && (i + 1 == |rest| || (rest[i + 1] != '0' && rest[i + 1] != '1'));
      assert key[n + i] == '~';
    }
  }

  lemma {:induction false} TokenMalformedExactly(token: string)
    ensures Unescaped(token).None? <==> StrayTilde(token)
  {
    if token != "" {
      if token[0] != '~' {
        StrayOfRest(token, 1);
        TokenMalformedExactly(token[1..]);
      } else if |token| >= 2 && (token[1] == '0' || token[1] == '1') {
        StrayOfRest(token, 2);
        TokenMalformedExactly(token[2..]);
      }
    }
  }

  lemma StrayByToken(key: string, n: nat)
    requires n < |key| && key[n] == '/'
    ensures StrayTilde(key) <==> StrayTilde(key[..n]) || StrayTilde(key[n + 1..])
  {
    var front, back := key[..n], key[n + 1..];
    forall i | 0 <= i < |back| ensures back[i] == key[n + 1 + i] {
    }
    if StrayTilde(key) {
      var i :| 0 <= i < |key| && key[i] == '~' && (i + 1 == |key| || (key[i + 1] != '0' && key[i + 1] != '1'));
      assert i < n ==> front[i] == '~';
      assert i > n ==> back[i - n - 1] == '~';
    }
    if StrayTilde(back) {
      var i :| 0 <= i < |back| && back[i] == '~' && (i + 1 == |back| || (back[i + 1] != '0' && back[i + 1] != '1'));
      assert key[n + 1 + i] == '~';
    }
    if StrayTilde(front) {
      var i :| 0 <= i < n && front[i] == '~' && (i + 1 == n || (front[i + 1] != '0' && front[i + 1] != '1'));
      assert key[i] == '~';
    }
  }

  /** A key stands for no path exactly when it holds a '~' that is not followed by '0' or '1'. */
  lemma {:induction false} MalformedExactly(key: string)
    ensures PathOfKey(key).None? <==> StrayTilde(key)
    decreases |key|
  {
    hide Unescaped, StrayTilde;
    var n := Find(key, '/');
    var tokens := Split(key, '/');
    TokenMalformedExactly(key[..n]);
    if n < |key| {
      StrayByToken(key, n);
      MalformedExactly(key[n + 1..]);
      assert tokens[1..] == Split(key[n + 1..], '/');
    } else {
      assert key[..n] == key && tokens[1..] == [];
      assert UnescapedAll(tokens[1..]) == Some([]);
    }
  }

  predicate PlainKey(key: string) {
    '/' !in key && '~' !in key
  }

  lemma {:induction false} PlainToken(token: string)
    requires '~' !in token
    ensures Unescaped(token) == Some(token)
  {
    if token != "" {
      assert token[0] in token && forall c | c in token[1..] :: c in token;
      PlainToken(token[1..]);
      assert token == [token[0]] + token[1..];
    }
  }

  lemma PlainKeyIsItself(key: string)
    requires PlainKey(key)
    ensures PathOfKey(key) == Some([key])
  {
    FindNone(key, '/');
    PlainToken(key);
    assert Split(key, '/') == [key];
    assert UnescapedAll([key][1..]) == Some([]);
    assert [key] + [] == [key];
  }

  /** Whether `apply` announces a change for this key of the overlay. */
  predicate Announced(before: Json, overlay: Json, key: string) {
    overlay.Obj? && key in overlay.fields && PathOfKey(key).Some? &&
    var current := GetAt(before, PathOfKey(key).value);
    current.None? || Merged(current.value, overlay.fields[key]) != current.value
  }

  /** For a plain key the announcement is exact: it is made if and only if the top-level value changes. */
  lemma AnnouncedExactly(before: Json, overlay: Json, key: string)
    requires before.Obj? && overlay.Obj? && PlainKey(key)
    ensures Announced(before, overlay, key) <==> GetAt(Merged(before, overlay), [key]) != GetAt(before, [key])
  {
    hide Merged, PathOfKey;
    PlainKeyIsItself(key);
    MergedEntries(before, overlay);
    assert [key][1..] == [];
  }

  datatype ResetOutcome = WasReset | NoDefault | Thrown

  datatype ApplyOutcome = Applied | NotAnObject | MalformedKey

  /** A call of a change handler, by its place in the list of handlers, with the path that changed. */
  datatype Notice = Notice(handler: nat, path: seq<string>)

  /** Every handler hears of the path, in the order of registration. */
  function NoticesOf(handlers: nat, path: seq<string>): seq<Notice> {
    seq(handlers, i requires 0 <= i < handlers => Notice(i, path))
  }

  /** The handlers hear of one key after the other. */
  function NoticesOfKeys(handlers: nat, keys: seq<string>): seq<Notice> {
    if keys == [] then []
    else
      var last := keys[|keys| - 1];
      NoticesOfKeys(handlers, keys[..|keys| - 1]) + NoticesOf(handlers, PathOfKey(last).GetOr([last]))
  }

  predicate Distinct(keys: seq<string>) {
    forall i, j | 0 <= i < j < |keys| :: keys[i] != keys[j]
  }

  class ConfigStore {
    const defaults: Json
    var effective: Json
    /** What the disk holds at the store's path. */
    var file: FileState
    /** How many change handlers are registered, and the calls they got. */
    var handlers: nat
    var notices: seq<Notice>

    ghost function State(): Store
      reads this
    {
      Store(defaults, effective, file)
    }

    constructor (defaults: Json, file: FileState)
      ensures State() == Fresh(defaults, file) && handlers == 0 && notices == []
    {
      this.defaults := defaults;
      this.effective := defaults;
      this.file := file;
      handlers, notices := 0, [];
    }

    /** A handler that is not there is not registered. */
    method OnChanged(given: bool)
      modifies this`handlers
      ensures handlers == old(handlers) + if given then 1 else 0
    {
      if given {
        handlers := handlers + 1;
      }
    }

    method Notify(path: seq<string>)
      modifies this`notices
      ensures notices == old(notices) + NoticesOf(handlers, path)
    {
      for i := 0 to handlers
        invariant notices == old(notices) + NoticesOf(handlers, path)[..i]
      {
        notices := notices + [Notice(i, path)];
      }
    }

    /** A missing file is not an error; a corrupt one is, and leaves the store on the defaults. */
    method LoadFile() returns (ok: bool)
      modifies this`effective
      ensures State() == Step(old(State()), Load)
      ensures ok <==> !file.Corrupt?
      ensures effective == if file.Document? then Merged(defaults, file.document) else defaults
    {
      hide Merged;
      match file
      case Absent =>
        effective := defaults;
        ok := true;
      case Corrupt =>
        effective := defaults;
        ok := false;
      case Document(parsed) =>
        effective := Merge(defaults, parsed);
        ok := true;
    }

    /** Writes the delta; `written` is whether the atomic write succeeds. */
    method SaveFile(written: bool) returns (ok: bool)
      modifies this`file
      ensures State() == Step(old(State()), Save(written))
      ensures file == if written then Document(Delta(defaults, effective)) else old(file)
      ensures ok == written
    {
      var toWrite := ComputeDelta(defaults, effective);
      if written {
        file := Document(toWrite);
      }
      return written;
    }

    method SetValue(path: seq<string>, value: Json) returns (ok: bool)
      modifies this`effective, this`notices
      ensures State() == Step(old(State()), Set(path, value))
      ensures ok <==> SetAt(old(effective), path, value).Some?
      ensures ok ==> GetAt(effective, Resolved(old(effective), path)) == Some(value)
      ensures notices == old(notices) + if ok then NoticesOf(handlers, path) else []
    {
      hide SetAt, GetAt, Resolved, NoticesOf;
      var after := SetAt(effective, path, value);
      if after.None? {
        return false;
      }
      GetAfterSet(effective, path, value);
      effective := after.value;
      Notify(path);
      return true;
    }

    /** Without a default it reports; a path that the effective document cannot follow lets an exception out. */
    method ResetValue(path: seq<string>) returns (outcome: ResetOutcome)
      modifies this`effective, this`notices
      ensures State() == Step(old(State()), Reset(path))
      ensures outcome == NoDefault <==> GetAt(defaults, path).None?
      ensures outcome == Thrown <==>
        GetAt(defaults, path).Some? && SetAt(old(effective), path, GetAt(defaults, path).value).None?
      ensures outcome == WasReset ==> GetAt(effective, Resolved(old(effective), path)) == GetAt(defaults, path)
      ensures outcome != WasReset ==> effective == old(effective)
      ensures notices == old(notices) + if outcome == WasReset then NoticesOf(handlers, path) else []
    {
      hide SetAt, GetAt, Resolved, NoticesOf;
      var default := GetAt(defaults, path);
      if default.None? {
        return NoDefault;
      }
      var after := SetAt(effective, path, default.value);
      if after.None? {
        return Thrown;
      }
      GetAfterSet(effective, path, default.value);
      effective := after.value;
      Notify(path);
      return WasReset;
    }

    /** `changed` are the announced keys of the overlay. */
    method ApplyOverlay(overlay: Json) returns (outcome: ApplyOutcome, changed: seq<string>)
      modifies this`effective, this`notices
      ensures outcome == NotAnObject <==> !overlay.Obj?
      ensures outcome == MalformedKey <==> overlay.Obj? && exists k | k in overlay.fields :: PathOfKey(k).None?
      ensures State() == if outcome == Applied then Step(old(State()), Apply(overlay)) else old(State())
      ensures effective == if outcome == Applied then Merged(old(effective), overlay) else old(effective)
      ensures notices == old(notices) + if outcome == Applied then NoticesOfKeys(handlers, changed) else []
      ensures outcome == Applied ==> Distinct(changed) && forall k :: k in changed <==>
        Announced(old(effective), overlay, k)
      ensures outcome == Applied && old(effective).Obj? ==>
        forall k | PlainKey(k) :: k in changed <==> GetAt(effective, [k]) != old(GetAt(effective, [k]))
    {
      hide Merged, PathOfKey, GetAt, NoticesOf;
      changed := [];
      if !overlay.Obj? {
        return NotAnObject, [];
      }
      var todo := overlay.fields.Keys;
      while todo != {}
        invariant todo <= overlay.fields.Keys
        invariant forall k | k in overlay.fields && k !in todo :: PathOfKey(k).Some?
        invariant Distinct(changed) && forall k :: k in changed <==> k !in todo && Announced(effective, overlay, k)
        invariant effective == old(effective) && notices == old(notices)
        decreases |todo|
      {
        var key :| key in todo;
        var pointer := PathOfKey(key);
        if pointer.None? {
          return MalformedKey, [];
        }
        var current := GetAt(effective, pointer.value);
        if current.None? {
          changed := changed + [key];
        } else {
          var merged := Merge(current.value, overlay.fields[key]);
          if merged != current.value {
            changed := changed + [key];
          }
        }
        todo := todo - {key};
      }
      if effective.Obj? {
        forall k | PlainKey(k)
          ensures k in changed <==> GetAt(Merged(effective, overlay), [k]) != GetAt(effective, [k])
        {
          AnnouncedExactly(effective, overlay, k);
        }
      }
      effective := Merge(effective, overlay);
      NotifyAll(changed);
      outcome := Applied;
    }

    /** The loop at the end of `apply`. */
    method NotifyAll(changed: seq<string>)
      modifies this`notices
      ensures notices == old(notices) + NoticesOfKeys(handlers, changed)
    {
      hide NoticesOf, PathOfKey;
      for i := 0 to |changed|
        invariant notices == old(notices) + NoticesOfKeys(handlers, changed[..i])
      {
        assert changed[..i + 1][..i] == changed[..i];
        Notify(PathOfKey(changed[i]).GetOr([changed[i]]));
      }
      assert changed[..|changed|] == changed;
    }
  }
}
