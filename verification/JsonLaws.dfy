/**
 What an assignment through a JSON pointer and a merge leave alone (Core/src/Json.cpp),
   stated of what is read before and
 after.
 */
module JsonLaws {
  import opened Wrappers
  import opened Digits
  import opened JsonDocs

  // ---------- assignment ----------

  /** An array token that stands for an index is its only spelling. */
  lemma OneSpelling(a: string, b: string)
    requires Canonical(a, 10) && Canonical(b, 10) && Value(a, 10) == Value(b, 10)
    ensures a == b
  {
    hide Canonical, Value, Print;
    PrintOfValue(a, 10);
    PrintOfValue(b, 10);
  }

  /** The index an assignment uses in an array, and its spelling in the resolved path. */
  lemma IndexSpelled(token: string, n: nat)
    ensures IndexOf(token, n).Some? ==>
      var t := if token == "-" then Print(n, 10) else token;
      Canonical(t, 10) && Value(t, 10) == IndexOf(token, n).value
  {
    hide Canonical, Value, Print;
    PrintIsCanonical(n, 10);
    ValueOfPrint(n, 10);
  }

  predicate SetInObject(node: Json, path: seq<string>, value: Json, after: Json, rp: seq<string>)
    requires node.Obj? && path != []
  {
    var child := if path[0] in node.fields then node.fields[path[0]] else Null;
    && SetAt(child, path[1..], value).Some?
    && after == Obj(node.fields[path[0] := SetAt(child, path[1..], value).value])
    && rp == [path[0]] + Resolved(child, path[1..])
  }

  predicate SetInArray(node: Json, path: seq<string>, value: Json, after: Json, rp: seq<string>)
    requires node.Arr? && path != []
  {
    var i := IndexOf(path[0], |node.items|);
    && i.Some?
    && var room := Padded(node.items, i.value + 1);
    && SetAt(room[i.value], path[1..], value).Some?
    && after == Arr(room[i.value := SetAt(room[i.value], path[1..], value).value])
    && rp == [if path[0] == "-" then Print(|node.items|, 10) else path[0]] + Resolved(room[i.value], path[1..])
  }

  lemma StepInObject(doc: Json, path: seq<string>, value: Json)
    requires path != [] && SetAt(doc, path, value).Some? && Opened(doc, path[0]).Obj?
    ensures SetInObject(Opened(doc, path[0]), path, value, SetAt(doc, path, value).value, Resolved(doc, path))
  {
    hide Opened, IndexOf, Print;
  }

  lemma StepInArray(doc: Json, path: seq<string>, value: Json)
    requires path != [] && SetAt(doc, path, value).Some? && Opened(doc, path[0]).Arr?
    ensures SetInArray(Opened(doc, path[0]), path, value, SetAt(doc, path, value).value, Resolved(doc, path))
  {
    hide Opened, Canonical, Value, Print;
    PaddedItems(Opened(doc, path[0]).items, |Opened(doc, path[0]).items| + 1);
  }

  lemma StepOfSet(doc: Json, path: seq<string>, value: Json)
    requires path != [] && SetAt(doc, path, value).Some?
    ensures
      var node, after, rp := Opened(doc, path[0]), SetAt(doc, path, value).value, Resolved(doc, path);
      && (node.Obj? || node.Arr?)
      && (node.Obj? ==> SetInObject(node, path, value, after, rp))
      && (node.Arr? ==> SetInArray(node, path, value, after, rp))
  {
    hide Resolved, SetInObject, SetInArray, Opened, IndexOf;
    if Opened(doc, path[0]).Obj? {
      StepInObject(doc, path, value);
    } else if Opened(doc, path[0]).Arr? {
      StepInArray(doc, path, value);
    }
  }

  lemma HeadAndTail(q: seq<string>, t: string, rest: seq<string>)
    requires q != []
    ensures q[0] == t ==> (q <= [t] + rest <==> q[1..] <= rest) && ([t] + rest <= q <==> rest <= q[1..])
  {
    if q[0] == t {
      assert q == [t] + q[1..];
      if q <= [t] + rest {
        assert forall k | 0 <= k < |q| - 1 :: q[1..][k] == ([t] + rest)[k + 1] == rest[k];
      }
      if [t] + rest <= q {
        assert forall k | 0 <= k < |rest| :: rest[k] == ([t] + rest)[k + 1] == q[k + 1];
      }
    }
  }

  /** What stands neither above nor below the place that is set reads as before. */
  lemma {:induction false} SetFrame(doc: Json, path: seq<string>, value: Json, q: seq<string>)
    requires SetAt(doc, path, value).Some? && GetAt(doc, q).Some?
    requires !(q <= Resolved(doc, path)) && !(Resolved(doc, path) <= q)
    ensures GetAt(SetAt(doc, path, value).value, q) == GetAt(doc, q)
    decreases path
  {
    hide Canonical, Value, AllDigits, Print, SetAt, Resolved, IndexOf;
    if path == [] {
      assert Resolved(doc, path) == [] by { NothingResolved(doc); }
    } else {
      StepOfSet(doc, path, value);
      var node, rp := Opened(doc, path[0]), Resolved(doc, path);
      assert q != [] && node == doc;
      match node
      case Obj(fields) =>
        var child := if path[0] in fields then fields[path[0]] else Null;
        HeadAndTail(q, path[0], Resolved(child, path[1..]));
        if q[0] == path[0] {
          SetFrame(child, path[1..], value, q[1..]);
        }
      case Arr(items) =>
        var i := IndexOf(path[0], |items|).value;
        var room := Padded(items, i + 1);
        var t := if path[0] == "-" then Print(|items|, 10) else path[0];
        IndexSpelled(path[0], |items|);
        HeadAndTail(q, t, Resolved(room[i], path[1..]));
        if Value(q[0], 10) == i {
          OneSpelling(q[0], t);
          SetFrame(room[i], path[1..], value, q[1..]);
        }
    }
  }

  lemma NothingResolved(doc: Json)
    ensures Resolved(doc, []) == []
  {
  }

  /** A Null that fills an array up to the index that is set. */
  predicate IsPadding(after: Json, rp: seq<string>, q: seq<string>) {
    var n := |q| - 1;
    && 0 <= n < |rp| && q[..n] == rp[..n] && GetAt(after, q) == Some(Null)
    && Canonical(q[n], 10) && Canonical(rp[n], 10) && Value(q[n], 10) < Value(rp[n], 10)
  }

  lemma PaddingBelow(after: Json, t: string, child: Json, rp: seq<string>, q: seq<string>)
    requires q != [] && q[0] == t && IsPadding(child, rp, q[1..]) && GetAt(after, q) == GetAt(child, q[1..])
    ensures IsPadding(after, [t] + rp, q)
  {
    hide Canonical, Value, GetAt;
    var n := |q| - 1;
    assert q[..n] == [t] + q[1..][..n - 1] && ([t] + rp)[..n] == [t] + rp[..n - 1];
    assert q[n] == q[1..][n - 1] && ([t] + rp)[n] == rp[n - 1];
  }

  /** What is there only afterwards lies above or below the place that is set, or fills an array up to it. */
  lemma {:induction false} SetAddsOnly(doc: Json, path: seq<string>, value: Json, q: seq<string>)
    requires SetAt(doc, path, value).Some?
    requires GetAt(SetAt(doc, path, value).value, q).Some? && GetAt(doc, q).None?
    ensures
      var after, rp := SetAt(doc, path, value).value, Resolved(doc, path);
      q <= rp || rp <= q || IsPadding(after, rp, q)
    decreases path
  {
    hide Canonical, Value, AllDigits, Print, SetAt, Resolved, IndexOf, IsPadding;
    if path == [] {
      NothingResolved(doc);
    } else {
      StepOfSet(doc, path, value);
      var after, rp := SetAt(doc, path, value).value, Resolved(doc, path);
      assert q != [];
      match Opened(doc, path[0])
      case Obj(fields) =>
        var child := if path[0] in fields then fields[path[0]] else Null;
        var below := SetAt(child, path[1..], value).value;
        HeadAndTail(q, path[0], Resolved(child, path[1..]));
        if q[0] == path[0] && q[1..] != [] {
          SetAddsOnly(child, path[1..], value, q[1..]);
          if IsPadding(below, Resolved(child, path[1..]), q[1..]) {
            PaddingBelow(after, path[0], below, Resolved(child, path[1..]), q);
          }
        }
      case Arr(items) =>
        ArrayAddsOnly(doc, items, path, value, q);
    }
  }

  lemma ArrayAddsOnly(doc: Json, items: seq<Json>, path: seq<string>, value: Json, q: seq<string>)
    requires path != [] && q != [] && SetAt(doc, path, value).Some? && Opened(doc, path[0]) == Arr(items)
    requires GetAt(SetAt(doc, path, value).value, q).Some? && GetAt(doc, q).None?
    ensures
      var after, rp := SetAt(doc, path, value).value, Resolved(doc, path);
      q <= rp || rp <= q || IsPadding(after, rp, q)
    decreases path, 0
  {
    hide Canonical, Value, AllDigits, Print, SetAt, Resolved, IndexOf, IsPadding;
    StepOfSet(doc, path, value);
    var after, rp := SetAt(doc, path, value).value, Resolved(doc, path);
    var i := IndexOf(path[0], |items|).value;
    var room := Padded(items, i + 1);
    var t := if path[0] == "-" then Print(|items|, 10) else path[0];
    var below := SetAt(room[i], path[1..], value).value;
    IndexSpelled(path[0], |items|);
    HeadAndTail(q, t, Resolved(room[i], path[1..]));
    var v := Value(q[0], 10);
    if v == i {
      OneSpelling(q[0], t);
      if q[1..] != [] {
        SetAddsOnly(room[i], path[1..], value, q[1..]);
        if IsPadding(below, Resolved(room[i], path[1..]), q[1..]) {
          PaddingBelow(after, t, below, Resolved(room[i], path[1..]), q);
        }
      }
    } else {
      PaddedItems(items, i + 1);
      assert v >= |items| && room[v] == Null;
      assert q[1..] == [];
      PaddingHere(after, rp, q);
    }
  }

  lemma PaddedItems(items: seq<Json>, length: nat)
    ensures |Padded(items, length)| == if |items| >= length then |items| else length
    ensures forall k | 0 <= k < |Padded(items, length)| :: Padded(items, length)[k] == if k < |items| then items[k] else Null
  {
  }

  lemma PaddingHere(after: Json, rp: seq<string>, q: seq<string>)
    requires |q| == 1 && rp != [] && GetAt(after, q) == Some(Null)
    requires Canonical(q[0], 10) && Canonical(rp[0], 10) && Value(q[0], 10) < Value(rp[0], 10)
    ensures IsPadding(after, rp, q)
  {
    assert q[..0] == rp[..0];
  }

  /** Above the place that is set, objects stay objects and arrays stay arrays. */
  lemma {:induction false} SetKeepsKinds(doc: Json, path: seq<string>, value: Json, n: nat)
    requires SetAt(doc, path, value).Some? && n < |Resolved(doc, path)|
    requires GetAt(doc, Resolved(doc, path)[..n]).Some?
    ensures
      var q := Resolved(doc, path)[..n];
      var v, w := GetAt(doc, q).value, GetAt(SetAt(doc, path, value).value, q);
      w.Some? && (v.Obj? ==> w.value.Obj?) && (v.Arr? ==> w.value.Arr?) && (v.Null? || v.Obj? || v.Arr?)
    decreases path
  {
    hide Canonical, Value, AllDigits, Print, SetAt, Resolved, IndexOf;
    if path == [] {
      NothingResolved(doc);
    } else {
      StepOfSet(doc, path, value);
      var rp := Resolved(doc, path);
      if n > 0 {
        assert rp[..n][0] == rp[0] && rp[..n][1..] == rp[1..][..n - 1];
        match Opened(doc, path[0])
        case Obj(fields) =>
          var child := if path[0] in fields then fields[path[0]] else Null;
          assert rp[1..] == Resolved(child, path[1..]);
          SetKeepsKinds(child, path[1..], value, n - 1);
        case Arr(items) =>
          var i := IndexOf(path[0], |items|).value;
          IndexSpelled(path[0], |items|);
          assert rp[1..] == Resolved(Padded(items, i + 1)[i], path[1..]);
          SetKeepsKinds(Padded(items, i + 1)[i], path[1..], value, n - 1);
      }
    }
  }

  /** The node at a path; what is missing counts as null. */
  function NodeAt(doc: Json, q: seq<string>): Json {
    GetAt(doc, q).GetOr(Null)
  }

  /** A scalar takes no token, an array none but an index or "-", and null none that looks like an index and is none. */
  predicate Blocked(node: Json, token: string) {
    match node
    case Obj(_) => false
    case Arr(_) => token != "-" && !Canonical(token, 10)
    case Null => AllDigits(token, 10) && !Canonical(token, 10)
    case _ => true
  }

  lemma BlockedMeans(doc: Json, token: string)
    ensures
      var node := Opened(doc, token);
      Blocked(doc, token) <==> !(node.Obj? || (node.Arr? && IndexOf(token, |node.items|).Some?))
  {
    hide Value;
    assert Canonical(token, 10) ==> AllDigits(token, 10);
  }

  lemma {:induction false} ResolvedLength(doc: Json, path: seq<string>)
    ensures |Resolved(doc, path)| == |path|
    decreases path
  {
    hide Canonical, Value, AllDigits, Print, IndexOf;
    if path != [] {
      match Opened(doc, path[0])
      case Obj(fields) => ResolvedLength(if path[0] in fields then fields[path[0]] else Null, path[1..]);
      case Arr(items) =>
        ResolvedLength(Null, path[1..]);
        var i := IndexOf(path[0], |items|);
        if i.Some? {
          ResolvedLength(Padded(items, i.value + 1)[i.value], path[1..]);
        }
      case _ =>
    }
  }

  ghost predicate Passable(doc: Json, path: seq<string>) {
    |Resolved(doc, path)| == |path| &&
    forall k | 0 <= k < |path| :: !Blocked(NodeAt(doc, Resolved(doc, path)[..k]), path[k])
  }

  /** The child that an assignment goes on with, and the token that names it. */
  function ChildOf(doc: Json, token: string): (string, Json) {
    match Opened(doc, token)
    case Obj(fields) => (token, if token in fields then fields[token] else Null)
    case Arr(items) =>
      var i := IndexOf(token, |items|);
      if token == "-" then (Print(|items|, 10), Null)
      else if i.Some? then (token, Padded(items, i.value + 1)[i.value])
      else (token, Null)
    case _ => (token, Null)
  }

  lemma NodeBelow(doc: Json, token: string, q: seq<string>)
    requires !Blocked(doc, token)
    ensures NodeAt(doc, [ChildOf(doc, token).0] + q) == NodeAt(ChildOf(doc, token).1, q)
  {
    hide Canonical, Value, AllDigits, Print;
    var (t, child) := ChildOf(doc, token);
    assert ([t] + q)[0] == t && ([t] + q)[1..] == q;
    BlockedMeans(doc, token);
    match Opened(doc, token)
    case Obj(fields) =>
    case Arr(items) =>
      IndexSpelled(token, |items|);
      PaddedItems(items, IndexOf(token, |items|).value + 1);
    case _ =>
  }

  lemma StepOfSuccess(doc: Json, path: seq<string>, value: Json)
    requires path != []
    ensures SetAt(doc, path, value).Some? <==>
      !Blocked(doc, path[0]) && SetAt(ChildOf(doc, path[0]).1, path[1..], value).Some?
    ensures !Blocked(doc, path[0]) ==>
      Resolved(doc, path) == [ChildOf(doc, path[0]).0] + Resolved(ChildOf(doc, path[0]).1, path[1..])
  {
    hide Canonical, Value, AllDigits, Print, Blocked;
    BlockedMeans(doc, path[0]);
    match Opened(doc, path[0])
    case Obj(fields) =>
    case Arr(items) =>
      if IndexOf(path[0], |items|).Some? {
        PaddedItems(items, IndexOf(path[0], |items|).value + 1);
      }
    case _ =>
  }

  /** An assignment succeeds exactly when no node on the way blocks the next token. */
  lemma {:induction false} SetSucceedsExactly(doc: Json, path: seq<string>, value: Json)
    ensures SetAt(doc, path, value).Some? <==> Passable(doc, path)
    decreases path
  {
    hide SetAt, Resolved, Blocked, ChildOf, NodeAt;
    ResolvedLength(doc, path);
    if path == [] {
      NothingSet(doc, value);
    } else {
      var (t, child) := ChildOf(doc, path[0]);
      var rest, rp := path[1..], Resolved(doc, path);
      StepOfSuccess(doc, path, value);
      assert rp[..0] == [] && NodeAt(doc, []) == doc by { NodeHere(doc); }
      if !Blocked(doc, path[0]) {
        SetSucceedsExactly(child, rest, value);
        ResolvedLength(child, rest);
        forall k | 0 <= k < |rest|
          ensures NodeAt(doc, rp[..k + 1]) == NodeAt(child, Resolved(child, rest)[..k]) && path[k + 1] == rest[k]
        {
          assert rp[..k + 1] == [t] + Resolved(child, rest)[..k];
          NodeBelow(doc, path[0], Resolved(child, rest)[..k]);
        }
        PassableStep(doc, path, child);
      }
    }
  }

  lemma PassableStep(doc: Json, path: seq<string>, child: Json)
    requires path != [] && |Resolved(doc, path)| == |path| && |Resolved(child, path[1..])| == |path| - 1
    requires !Blocked(NodeAt(doc, Resolved(doc, path)[..0]), path[0])
    requires forall k | 0 <= k < |path| - 1 ::
      NodeAt(doc, Resolved(doc, path)[..k + 1]) == NodeAt(child, Resolved(child, path[1..])[..k])
    ensures Passable(doc, path) <==> Passable(child, path[1..])
  {
    hide Resolved, Blocked, NodeAt;
    var rest := path[1..];
    if Passable(child, rest) {
      forall k | 0 <= k < |path| ensures !Blocked(NodeAt(doc, Resolved(doc, path)[..k]), path[k]) {
        if k > 0 {
          assert !Blocked(NodeAt(child, Resolved(child, rest)[..k - 1]), rest[k - 1]);
          assert NodeAt(doc, Resolved(doc, path)[..(k - 1) + 1]) == NodeAt(child, Resolved(child, rest)[..k - 1]);
        }
      }
    }
    if Passable(doc, path) {
      forall k | 0 <= k < |rest| ensures !Blocked(NodeAt(child, Resolved(child, rest)[..k]), rest[k]) {
        assert !Blocked(NodeAt(doc, Resolved(doc, path)[..k + 1]), path[k + 1]);
      }
    }
  }

  lemma NodeHere(doc: Json)
    ensures NodeAt(doc, []) == doc
  {
  }

  lemma NothingSet(doc: Json, value: Json)
    ensures SetAt(doc, [], value) == Some(value)
  {
  }

  // ---------- merging ----------

  predicate ObjectAt(doc: Json, q: seq<string>) {
    var v := GetAt(doc, q);
    v.Some? && v.value.Obj?
  }

  /** The overlay says nothing about a path when one of the objects on the way lacks the next key. */
  predicate Silent(overlay: Json, q: seq<string>)
    decreases q
  {
    q != [] && overlay.Obj? && (q[0] in overlay.fields ==> Silent(overlay.fields[q[0]], q[1..]))
  }

  /** What the overlay says nothing about reads as before, as long as the way there is one of objects. */
  lemma {:induction false} MergeFrame(base: Json, overlay: Json, q: seq<string>, n: nat)
    requires Silent(overlay, q) && n < |q| && forall k | 0 <= k <= n :: ObjectAt(base, q[..k])
    requires GetAt(overlay, q[..n + 1]).None?
    ensures GetAt(Merged(base, overlay), q) == GetAt(base, q)
    decreases q
  {
    hide Merged, Canonical, Value;
    MergedEntries(base, overlay);
    assert q[..0] == [] && ObjectAt(base, q[..0]);
    if q[0] in overlay.fields {
      assert n > 0 by {
        assert q[..1] == [q[0]] && [q[0]][1..] == [];
      }
      var rest := q[1..];
      assert q[..1][1..] == [] && ObjectAt(base, q[..1]);
      forall k | 0 <= k <= n - 1 ensures ObjectAt(base.fields[q[0]], rest[..k]) {
        assert q[..k + 1][1..] == rest[..k] && ObjectAt(base, q[..k + 1]);
      }
      assert q[..n + 1][1..] == rest[..n];
      MergeFrame(base.fields[q[0]], overlay.fields[q[0]], rest, n - 1);
    }
  }
}
