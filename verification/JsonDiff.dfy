/**
 The structural difference of two JSON objects (main/http_server/cjson_utils.c), which the
 web socket sends instead of the whole state.
 */
module JsonDiff {
  import opened Options

  // ---------- JSON ----------

  datatype Scalar = Null | Bool(b: bool) | Number(n: real) | Text(t: string)

  datatype Json = Leaf(scalar: Scalar) | Array(items: seq<Json>) | Object(members: Members)

  datatype Member = Member(key: string, value: Json)

  /** An object is a list of members, as cJSON links them. */
  type Members = seq<Member>

  /** When two numbers count as equal. */
  type Near = (real, real) -> bool

  ghost predicate Reflexive(near: Near) {
    forall x :: near(x, x)
  }

  /** cJSON_GetObjectItemCaseSensitive: the first member with a key. */
  function Find(members: Members, key: string): (r: Option<Json>)
    ensures r.Some? ==> exists i :: 0 <= i < |members| && members[i].key == key && members[i].value == r.value
    ensures r.None? ==> forall i :: 0 <= i < |members| ==> members[i].key != key
  {
    if members == [] then None
    else if members[0].key == key then Some(members[0].value)
    else Find(members[1..], key)
  }

  predicate UniqueKeys(members: Members) {
    forall i, j :: 0 <= i < j < |members| ==> members[i].key != members[j].key
  }

  /** No object anywhere inside has a key twice. */
  predicate WellFormed(j: Json)
    decreases j
  {
    match j
    case Leaf(_) => true
    case Array(items) => forall i :: 0 <= i < |items| ==> WellFormed(items[i])
    case Object(members) => WellFormedMembers(members)
  }

  predicate WellFormedMembers(members: Members)
    decreases members
  {
    UniqueKeys(members) && forall i :: 0 <= i < |members| ==> WellFormed(members[i].value)
  }

  lemma {:induction false} FindUnique(members: Members, i: nat)
    requires UniqueKeys(members) && i < |members|
    ensures Find(members, members[i].key) == Some(members[i].value)
    decreases i
  {
    if i > 0 {
      FindUnique(members[1..], i - 1);
    }
  }

  // ---------- comparing ----------

  predicate SameScalar(near: Near, a: Scalar, b: Scalar) {
    if a.Number? && b.Number? then near(a.n, b.n) else a == b
  }

  /** cJSON_Compare, case sensitive: objects are compared regardless of order. */
  predicate Same(near: Near, a: Json, b: Json)
    decreases a
  {
    match (a, b)
    case (Leaf(x), Leaf(y)) => SameScalar(near, x, y)
    case (Array(xs), Array(ys)) => |xs| == |ys| && forall i :: 0 <= i < |xs| ==> Same(near, xs[i], ys[i])
    case (Object(xs), Object(ys)) =>
      && (forall i :: 0 <= i < |xs| ==> Find(ys, xs[i].key).Some? && Same(near, xs[i].value, Find(ys, xs[i].key).value))
      && (forall i :: 0 <= i < |ys| ==> Find(xs, ys[i].key).Some?)
    case _ => false
  }

  lemma {:induction false} SameSelf(near: Near, j: Json)
    requires Reflexive(near) && WellFormed(j)
    ensures Same(near, j, j)
    decreases j
  {
    match j
    case Leaf(_) =>
    case Array(items) =>
      forall i | 0 <= i < |items|
        ensures Same(near, items[i], items[i])
      {
        SameSelf(near, items[i]);
      }
    case Object(members) =>
      forall i | 0 <= i < |members|
        ensures Find(members, members[i].key) == Some(members[i].value) && Same(near, members[i].value, members[i].value)
      {
        FindUnique(members, i);
        SameSelf(near, members[i].value);
      }
  }

  // ---------- values under a path ----------

  /** A step from a value to one inside it. */
  datatype Access = Key(key: string) | Index(i: nat)

  /** What lies under a path of keys and indexes. */
  function At(j: Json, path: seq<Access>): Option<Json>
    decreases path
  {
    if path == [] then Some(j)
    else
      match (j, path[0])
      case (Object(members), Key(key)) =>
        (match Find(members, key)
         case None => None
         case Some(v) => At(v, path[1..]))
      case (Array(items), Index(i)) => if i < |items| then At(items[i], path[1..]) else None
      case _ => None
  }

  /** Two values have the same shape: near or equal scalars, arrays of one length, or objects. */
  predicate Alike(near: Near, a: Json, b: Json) {
    match (a, b)
    case (Leaf(Number(x)), Leaf(Number(y))) => near(x, y)
    case (Leaf(x), Leaf(y)) => x == y
    case (Array(xs), Array(ys)) => |xs| == |ys|
    case (Object(_), Object(_)) => true
    case _ => false
  }

  /** Nothing under a path on either side, or two values of the same shape. */
  predicate AlikeAt(near: Near, a: Json, b: Json, path: seq<Access>) {
    var x, y := At(a, path), At(b, path);
    if x.Some? && y.Some? then Alike(near, x.value, y.value) else x == y
  }

  lemma {:induction false} SameAt(near: Near, a: Json, b: Json, path: seq<Access>)
    requires Same(near, a, b) && WellFormed(a) && WellFormed(b)
    ensures AlikeAt(near, a, b, path)
    decreases path
  {
    if path != [] {
      match (a, b, path[0])
      case (Object(xs), Object(ys), Key(key)) =>
        SameMember(near, xs, ys, key);
        if Find(xs, key).Some? {
          SameAt(near, Find(xs, key).value, Find(ys, key).value, path[1..]);
        }
      case (Array(xs), Array(ys), Index(i)) =>
        if i < |xs| {
          SameAt(near, xs[i], ys[i], path[1..]);
        }
      case _ =>
    }
  }

  lemma SameMember(near: Near, xs: Members, ys: Members, key: string)
    requires Same(near, Object(xs), Object(ys)) && WellFormedMembers(xs) && WellFormedMembers(ys)
    ensures Find(xs, key).Some? <==> Find(ys, key).Some?
    ensures Find(xs, key).Some? ==>
      && Same(near, Find(xs, key).value, Find(ys, key).value)
      && WellFormed(Find(xs, key).value) && WellFormed(Find(ys, key).value)
  {
    if Find(ys, key).Some? {
      var i :| 0 <= i < |ys| && ys[i].key == key && ys[i].value == Find(ys, key).value;
      assert Find(xs, ys[i].key).Some?;
    }
    if Find(xs, key).Some? {
      var i :| 0 <= i < |xs| && xs[i].key == key && xs[i].value == Find(xs, key).value;
      assert Same(near, xs[i].value, Find(ys, xs[i].key).value);
    }
  }

  lemma {:induction false} AlikeIsSame(near: Near, a: Json, b: Json)
    requires WellFormed(a) && WellFormed(b) && forall path :: AlikeAt(near, a, b, path)
    ensures Same(near, a, b)
    decreases a
  {
    assert AlikeAt(near, a, b, []);
    match (a, b)
    case (Array(xs), Array(ys)) =>
      forall i | 0 <= i < |xs|
        ensures Same(near, xs[i], ys[i])
      {
        Below(near, a, b, Index(i), xs[i], ys[i]);
        AlikeIsSame(near, xs[i], ys[i]);
      }
    case (Object(xs), Object(ys)) =>
      forall i | 0 <= i < |xs|
        ensures Find(ys, xs[i].key).Some? && Same(near, xs[i].value, Find(ys, xs[i].key).value)
      {
        FindUnique(xs, i);
        BothHave(near, xs, ys, xs[i].key);
        Below(near, a, b, Key(xs[i].key), xs[i].value, Find(ys, xs[i].key).value);
        AlikeIsSame(near, xs[i].value, Find(ys, xs[i].key).value);
      }
      forall i | 0 <= i < |ys|
        ensures Find(xs, ys[i].key).Some?
      {
        FindUnique(ys, i);
        BothHave(near, xs, ys, ys[i].key);
      }
    case _ =>
  }

  /** What holds under all paths holds under all paths behind a step. */
  lemma Below(near: Near, a: Json, b: Json, step: Access, x: Json, y: Json)
    requires At(a, [step]) == Some(x) && At(b, [step]) == Some(y)
    requires forall path :: AlikeAt(near, a, b, path)
    ensures forall path :: AlikeAt(near, x, y, path)
  {
    forall path
      ensures AlikeAt(near, x, y, path)
    {
      assert ([step] + path)[1..] == path && [step][1..] == [];
      assert At(a, [step] + path) == At(x, path) && At(b, [step] + path) == At(y, path);
      assert AlikeAt(near, a, b, [step] + path);
    }
  }

  lemma BothHave(near: Near, xs: Members, ys: Members, key: string)
    requires forall path :: AlikeAt(near, Object(xs), Object(ys), path)
    ensures Find(xs, key).Some? <==> Find(ys, key).Some?
  {
    FindAt(xs, key);
    FindAt(ys, key);
    hide At;
    assert AlikeAt(near, Object(xs), Object(ys), [Key(key)]);
  }

  lemma FindAt(members: Members, key: string)
    ensures At(Object(members), [Key(key)]) == Find(members, key)
  {
    assert [Key(key)][1..] == [];
  }

  /** Two values compare as the same exactly if they are alike under every path. */
  lemma SameExact(near: Near, a: Json, b: Json)
    requires WellFormed(a) && WellFormed(b)
    ensures Same(near, a, b) <==> forall path :: AlikeAt(near, a, b, path)
  {
    if Same(near, a, b) {
      forall path
        ensures AlikeAt(near, a, b, path)
      {
        SameAt(near, a, b, path);
      }
    } else if forall path :: AlikeAt(near, a, b, path) {
      AlikeIsSame(near, a, b);
    }
  }

  // ---------- covering ----------

  /** A value already shows everything another one says: the same, or an object with all its members. */
  predicate CoversValue(near: Near, v: Json, w: Json)
    decreases w
  {
    if w.Object? then v.Object? && Covers(near, v.members, w.members) else Same(near, v, w)
  }

  /** Every member of a new state is in an old one, at every depth. */
  predicate Covers(near: Near, o: Members, n: Members)
    decreases n
  {
    forall i :: 0 <= i < |n| ==> Find(o, n[i].key).Some? && CoversValue(near, Find(o, n[i].key).value, n[i].value)
  }

  lemma {:induction false} SameCovers(near: Near, v: Json, w: Json)
    requires Same(near, v, w) && WellFormed(v) && WellFormed(w)
    ensures CoversValue(near, v, w)
    decreases w
  {
    if w.Object? {
      var o, n := v.members, w.members;
      forall i | 0 <= i < |n|
        ensures Find(o, n[i].key).Some? && CoversValue(near, Find(o, n[i].key).value, n[i].value)
      {
        var k :| 0 <= k < |o| && o[k].key == n[i].key && o[k].value == Find(o, n[i].key).value;
        FindUnique(n, i);
        SameCovers(near, o[k].value, n[i].value);
      }
    }
  }

  lemma CoversSelf(near: Near, j: Json)
    requires Reflexive(near) && WellFormed(j)
    ensures CoversValue(near, j, j)
  {
    SameSelf(near, j);
    SameCovers(near, j, j);
  }

  /** A state shows what another one has under a path, if it has anything there. */
  predicate ShowsAt(near: Near, v: Json, w: Json, path: seq<Access>) {
    At(w, path).Some? ==> At(v, path).Some? && Alike(near, At(v, path).value, At(w, path).value)
  }

  /** What covers a value shows everything in it, under every path. */
  lemma {:induction false} CoversAt(near: Near, v: Json, w: Json, path: seq<Access>)
    requires CoversValue(near, v, w) && WellFormed(v) && WellFormed(w)
    ensures ShowsAt(near, v, w, path)
    decreases path
  {
    if !w.Object? {
      SameAt(near, v, w, path);
    } else if path != [] && path[0].Key? && Find(w.members, path[0].key).Some? {
      var key := path[0].key;
      var i :| 0 <= i < |w.members| && w.members[i].key == key && w.members[i].value == Find(w.members, key).value;
      var k :| 0 <= k < |v.members| && v.members[k].key == key && v.members[k].value == Find(v.members, key).value;
      FindUnique(w.members, i);
      CoversAt(near, v.members[k].value, w.members[i].value, path[1..]);
    }
  }

  // ---------- the difference ----------

  /** What is reported for a new value, given the old one of the same key if there is one. */
  function ValueDiff(near: Near, v: Option<Json>, w: Json): Option<Json>
    decreases w, 0
  {
    if v.None? then Some(w)
    else if Same(near, v.value, w) then None
    else if w.Object? && v.value.Object? then
      var sub := Diff(near, v.value.members, w.members);
      if sub == [] then None else Some(Object(sub))
    else Some(w)
  }

  /** The members cJSON_GetDiff collects, in the order of the new object. */
  function Diff(near: Near, o: Members, n: Members): Members
    decreases n, 1
  {
    if n == [] then []
    else
      var front, m := n[..|n| - 1], n[|n| - 1];
      Diff(near, o, front) + Reported(near, o, m)
  }

  function Reported(near: Near, o: Members, m: Member): Members
    decreases m, 1
  {
    match ValueDiff(near, Find(o, m.key), m.value)
    case None => []
    case Some(w) => [Member(m.key, w)]
  }

  /** cJSON_GetDiff. None for the old state is a first call, None as the result is nothing to report. */
  method GetDiff(near: Near, o: Option<Members>, n: Option<Members>) returns (diff: Option<Members>)
    ensures n.None? ==> diff == None
    ensures n.Some? && o.None? ==> diff == n
    ensures n.Some? && o.Some? ==>
      diff == if Diff(near, o.value, n.value) == [] then None else Some(Diff(near, o.value, n.value))
    decreases if n.Some? then n.value else []
  {
    if n.None? {
      return None;
    }
    if o.None? {
      return n;
    }
    var collected: Members := [];
    var i := 0;
    while i < |n.value|
      invariant 0 <= i <= |n.value| && collected == Diff(near, o.value, n.value[..i])
    {
      var m := n.value[i];
      assert n.value[..i + 1][..i] == n.value[..i] && n.value[..i + 1][i] == m;
      var v := Find(o.value, m.key);
      ghost var before := collected;
      if v.None? || !Same(near, v.value, m.value) {
        if m.value.Object? && v.Some? && v.value.Object? {
          var sub := GetDiff(near, Some(v.value.members), Some(m.value.members));
          if sub.Some? {
            collected := collected + [Member(m.key, Object(sub.value))];
          }
        } else {
          collected := collected + [Member(m.key, m.value)];
        }
      }
      assert collected == before + Reported(near, o.value, m);
      i := i + 1;
    }
    assert n.value[..i] == n.value;
    diff := if collected == [] then None else Some(collected);
  }

  // ---------- applying a difference ----------

  /** Sets a member, in place if the key is there. */
  function Put(o: Members, key: string, value: Json): Members {
    if o == [] then [Member(key, value)]
    else if o[0].key == key then [Member(key, value)] + o[1..]
    else [o[0]] + Put(o[1..], key, value)
  }

  /** A reported object is merged into an object of the old state; anything else replaces. */
  function MergeValue(v: Option<Json>, d: Json): Json
    decreases d, 0
  {
    if v.Some? && v.value.Object? && d.Object? then Object(Merge(v.value.members, d.members)) else d
  }

  /** A difference merged into a state at every depth. */
  function Merge(o: Members, d: Members): Members
    decreases d, 1
  {
    if d == [] then o
    else
      var front, m := d[..|d| - 1], d[|d| - 1];
      var merged := Merge(o, front);
      Put(merged, m.key, MergeValue(Find(merged, m.key), m.value))
  }

  lemma {:induction false} FindPut(o: Members, key: string, value: Json, other: string)
    ensures Find(Put(o, key, value), other) == if other == key then Some(value) else Find(o, other)
    decreases o
  {
    if o != [] {
      FindPut(o[1..], key, value, other);
      assert ([Member(key, value)] + o[1..])[1..] == o[1..];
      assert ([o[0]] + Put(o[1..], key, value))[1..] == Put(o[1..], key, value);
    }
  }

  lemma {:induction false} FindSnoc(members: Members, m: Member, key: string)
    ensures Find(members + [m], key) ==
      if Find(members, key).Some? then Find(members, key) else if m.key == key then Some(m.value) else None
    decreases members
  {
    if members != [] {
      assert (members + [m])[1..] == members[1..] + [m];
      FindSnoc(members[1..], m, key);
    }
  }

  /** What a merged state holds under a key. */
  lemma {:induction false} FindMerge(o: Members, d: Members, key: string)
    requires UniqueKeys(d)
    ensures Find(Merge(o, d), key) ==
      if Find(d, key).Some? then Some(MergeValue(Find(o, key), Find(d, key).value)) else Find(o, key)
    decreases |d|
  {
    if d != [] {
      hide MergeValue;
      var front, m := d[..|d| - 1], d[|d| - 1];
      var merged := Merge(o, front);
      assert d == front + [m];
      FindMerge(o, front, key);
      FindMerge(o, front, m.key);
      FindSnoc(front, m, key);
      FindSnoc(front, m, m.key);
      FindPut(merged, m.key, MergeValue(Find(merged, m.key), m.value), key);
    }
  }

  // ---------- what a difference reports ----------

  /** What a difference holds under a key. */
  lemma {:induction false} FindDiff(near: Near, o: Members, n: Members, key: string)
    requires UniqueKeys(n)
    ensures Find(Diff(near, o, n), key) ==
      if Find(n, key).Some? then ValueDiff(near, Find(o, key), Find(n, key).value) else None
    decreases |n|
  {
    if n != [] {
      hide ValueDiff;
      var front, m := n[..|n| - 1], n[|n| - 1];
      assert n == front + [m];
      FindDiff(near, o, front, key);
      FindSnoc(front, m, key);
      var v := ValueDiff(near, Find(o, m.key), m.value);
      if v.Some? {
        FindSnoc(Diff(near, o, front), Member(m.key, v.value), key);
      } else {
        assert Diff(near, o, front) + [] == Diff(near, o, front);
      }
    }
  }

  lemma {:induction false} DiffUnique(near: Near, o: Members, n: Members)
    requires UniqueKeys(n)
    ensures UniqueKeys(Diff(near, o, n))
    ensures forall i :: 0 <= i < |Diff(near, o, n)| ==> exists k :: 0 <= k < |n| && n[k].key == Diff(near, o, n)[i].key
    decreases |n|
  {
    if n != [] {
      hide ValueDiff;
      DiffUnique(near, o, n[..|n| - 1]);
      var front := n[..|n| - 1];
      forall i | 0 <= i < |Diff(near, o, front)|
        ensures exists k :: 0 <= k < |n| && n[k].key == Diff(near, o, front)[i].key
        ensures Diff(near, o, front)[i].key != n[|n| - 1].key
      {
        var k :| 0 <= k < |front| && front[k].key == Diff(near, o, front)[i].key;
        assert n[k].key == front[k].key;
      }
    }
  }

  lemma DiffEmpty(near: Near, o: Members, n: Members)
    requires UniqueKeys(n)
    ensures Diff(near, o, n) == [] <==>
      forall i :: 0 <= i < |n| ==> ValueDiff(near, Find(o, n[i].key), n[i].value).None?
  {
    hide ValueDiff;
    var d := Diff(near, o, n);
    if d == [] {
      forall i | 0 <= i < |n|
        ensures ValueDiff(near, Find(o, n[i].key), n[i].value).None?
      {
        FindDiff(near, o, n, n[i].key);
        FindUnique(n, i);
      }
    } else {
      DiffUnique(near, o, n);
      FindUnique(d, 0);
      var k :| 0 <= k < |n| && n[k].key == d[0].key;
      FindDiff(near, o, n, n[k].key);
      FindUnique(n, k);
    }
  }

  /** Nothing is reported for a value exactly if the old value covers it. */
  lemma {:induction false} NothingForValue(near: Near, v: Option<Json>, w: Json)
    requires WellFormed(w) && (v.Some? ==> WellFormed(v.value))
    ensures ValueDiff(near, v, w).None? <==> v.Some? && CoversValue(near, v.value, w)
    decreases w, 0
  {
    if v.Some? {
      if Same(near, v.value, w) {
        SameCovers(near, v.value, w);
      } else if w.Object? && v.value.Object? {
        NothingReported(near, v.value.members, w.members);
      }
    }
  }

  /** Nothing is reported exactly if the old state already covers the new one; removed keys are not reported. */
  lemma {:induction false} NothingReported(near: Near, o: Members, n: Members)
    requires WellFormedMembers(o) && WellFormedMembers(n)
    ensures Diff(near, o, n) == [] <==> Covers(near, o, n)
    decreases n, 1
  {
    hide ValueDiff, CoversValue;
    DiffEmpty(near, o, n);
    forall i | 0 <= i < |n|
      ensures ValueDiff(near, Find(o, n[i].key), n[i].value).None?
        <==> Find(o, n[i].key).Some? && CoversValue(near, Find(o, n[i].key).value, n[i].value)
    {
      NothingForValue(near, Find(o, n[i].key), n[i].value);
    }
  }

  /** Applying what is reported for a value leads to a value that covers the new one. */
  lemma {:induction false} MergedValueCovers(near: Near, v: Option<Json>, w: Json)
    requires Reflexive(near) && WellFormed(w) && (v.Some? ==> WellFormed(v.value))
    ensures var d := ValueDiff(near, v, w);
      if d.None? then v.Some? && CoversValue(near, v.value, w)
      else CoversValue(near, MergeValue(v, d.value), w)
    decreases w, 0
  {
    NothingForValue(near, v, w);
    var d := ValueDiff(near, v, w);
    if d.Some? {
      if v.Some? && w.Object? && v.value.Object? {
        MergedCovers(near, v.value.members, w.members);
      } else {
        CoversSelf(near, w);
      }
    }
  }

  /**
   Merging the difference into the old state at every depth gives, under every nested key of the
   new state, the value of the new state, and keeps the rest of the old one.
   */
  lemma {:induction false} MergedCovers(near: Near, o: Members, n: Members)
    requires Reflexive(near) && WellFormedMembers(o) && WellFormedMembers(n)
    ensures Covers(near, Merge(o, Diff(near, o, n)), n)
    ensures forall key :: Find(n, key).None? ==> Find(Merge(o, Diff(near, o, n)), key) == Find(o, key)
    decreases n, 1
  {
    hide ValueDiff, CoversValue, MergeValue;
    var d := Diff(near, o, n);
    DiffUnique(near, o, n);
    forall i | 0 <= i < |n|
      ensures Find(Merge(o, d), n[i].key).Some? && CoversValue(near, Find(Merge(o, d), n[i].key).value, n[i].value)
    {
      FindUnique(n, i);
      FindDiff(near, o, n, n[i].key);
      FindMerge(o, d, n[i].key);
      MergedValueCovers(near, Find(o, n[i].key), n[i].value);
    }
    forall key | Find(n, key).None?
      ensures Find(Merge(o, d), key) == Find(o, key)
    {
      FindDiff(near, o, n, key);
      FindMerge(o, d, key);
    }
  }

  lemma {:induction false} PutKeys(o: Members, key: string, value: Json)
    ensures forall m :: m in Put(o, key, value) ==> m.key == key || exists k :: 0 <= k < |o| && o[k].key == m.key
    decreases o
  {
    if o != [] && o[0].key != key {
      var rest := o[1..];
      PutKeys(rest, key, value);
      forall m | m in Put(o, key, value) && m.key != key
        ensures exists k :: 0 <= k < |o| && o[k].key == m.key
      {
        if m in Put(rest, key, value) {
          var k :| 0 <= k < |rest| && rest[k].key == m.key;
          assert o[k + 1] == rest[k];
        }
      }
    }
  }

  lemma {:induction false} PutWellFormed(o: Members, key: string, value: Json)
    requires WellFormedMembers(o) && WellFormed(value)
    ensures WellFormedMembers(Put(o, key, value))
    decreases o
  {
    hide WellFormed;
    if o != [] && o[0].key != key {
      var rest := o[1..];
      PutWellFormed(rest, key, value);
      PutKeys(rest, key, value);
      var put := Put(rest, key, value);
      forall j | 0 <= j < |put|
        ensures put[j].key != o[0].key
      {
        assert put[j] in put;
        if put[j].key != key {
          var k :| 0 <= k < |rest| && rest[k].key == put[j].key;
          assert o[k + 1] == rest[k];
        }
      }
    }
  }

  lemma FindWellFormed(members: Members, key: string)
    requires WellFormedMembers(members) && Find(members, key).Some?
    ensures WellFormed(Find(members, key).value)
  {
    var k :| 0 <= k < |members| && members[k].key == key && members[k].value == Find(members, key).value;
    assert WellFormed(members[k].value);
  }

  lemma {:induction false} MergeWellFormed(o: Members, d: Members)
    requires WellFormedMembers(o) && (forall i :: 0 <= i < |d| ==> WellFormed(d[i].value))
    ensures WellFormedMembers(Merge(o, d))
    decreases d
  {
    if d != [] {
      hide MergeValue;
      var front, m := d[..|d| - 1], d[|d| - 1];
      var merged := Merge(o, front);
      MergeWellFormed(o, front);
      if Find(merged, m.key).Some? {
        FindWellFormed(merged, m.key);
      }
      MergeValueWellFormed(Find(merged, m.key), m.value);
      PutWellFormed(merged, m.key, MergeValue(Find(merged, m.key), m.value));
    }
  }

  lemma {:induction false} MergeValueWellFormed(v: Option<Json>, d: Json)
    requires (v.Some? ==> WellFormed(v.value)) && WellFormed(d)
    ensures WellFormed(MergeValue(v, d))
    decreases d
  {
    hide Merge;
    if v.Some? && v.value.Object? && d.Object? {
      MergeWellFormed(v.value.members, d.members);
    }
  }

  lemma {:induction false} DiffWellFormed(near: Near, o: Members, n: Members)
    requires WellFormedMembers(n)
    ensures WellFormedMembers(Diff(near, o, n))
    decreases n, 1
  {
    DiffUnique(near, o, n);
    if n != [] {
      hide ValueDiff;
      var front, m := n[..|n| - 1], n[|n| - 1];
      DiffWellFormed(near, o, front);
      ValueDiffWellFormed(near, Find(o, m.key), m.value);
      var before, d := Diff(near, o, front), Diff(near, o, n);
      forall i | 0 <= i < |d|
        ensures WellFormed(d[i].value)
      {
        if i < |before| {
          assert d[i] == before[i];
        }
      }
    }
  }

  lemma {:induction false} ValueDiffWellFormed(near: Near, v: Option<Json>, w: Json)
    requires WellFormed(w)
    ensures ValueDiff(near, v, w).Some? ==> WellFormed(ValueDiff(near, v, w).value)
    decreases w, 0
  {
    hide Diff;
    if v.Some? && w.Object? && v.value.Object? {
      DiffWellFormed(near, v.value.members, w.members);
    }
  }

  /**
   Under every path of keys and indexes where the new state has a value, the merged state has one
   of the same shape: an equal scalar, or a near one for numbers, an array of the same length, or
   an object. And if nothing is reported, the old state had all of these.
   */
  lemma MergedShows(near: Near, o: Members, n: Members, path: seq<Access>)
    requires Reflexive(near) && WellFormedMembers(o) && WellFormedMembers(n)
    ensures ShowsAt(near, Object(Merge(o, Diff(near, o, n))), Object(n), path)
    ensures Diff(near, o, n) == [] ==> ShowsAt(near, Object(o), Object(n), path)
  {
    hide Diff, Merge, ShowsAt, Covers;
    var merged := Merge(o, Diff(near, o, n));
    DiffWellFormed(near, o, n);
    MergeWellFormed(o, Diff(near, o, n));
    MergedCovers(near, o, n);
    CoversAt(near, Object(merged), Object(n), path);
    NothingReported(near, o, n);
    if Diff(near, o, n) == [] {
      CoversAt(near, Object(o), Object(n), path);
    }
  }

  /**
   A difference is no larger than needed: under every path of keys, what it holds is in the new
   state, and the old state did not cover it.
   */
  lemma {:induction false} DiffMinimal(near: Near, o: Members, n: Members, path: seq<Access>)
    requires WellFormedMembers(o) && WellFormedMembers(n)
    requires path != [] && (forall i :: 0 <= i < |path| ==> path[i].Key?) && At(Object(Diff(near, o, n)), path).Some?
    ensures At(Object(n), path).Some?
    ensures At(Object(o), path).Some? ==> !CoversValue(near, At(Object(o), path).value, At(Object(n), path).value)
    decreases path, 2
  {
    hide CoversValue, Diff, ValueDiff;
    var key, rest := path[0].key, path[1..];
    var v := Find(o, key);
    FindDiff(near, o, n, key);
    var w := Find(n, key).value;
    FindWellFormed(n, key);
    if v.Some? {
      FindWellFormed(o, key);
    }
    NothingForValue(near, v, w);
    if rest != [] {
      MinimalBelow(near, v, w, rest);
    }
  }

  lemma {:induction false} MinimalBelow(near: Near, v: Option<Json>, w: Json, path: seq<Access>)
    requires (v.Some? ==> WellFormed(v.value)) && WellFormed(w) && ValueDiff(near, v, w).Some?
    requires path != [] && (forall i :: 0 <= i < |path| ==> path[i].Key?) && At(ValueDiff(near, v, w).value, path).Some?
    ensures At(w, path).Some?
    ensures v.Some? && At(v.value, path).Some? ==> !CoversValue(near, At(v.value, path).value, At(w, path).value)
    decreases path, 3
  {
    hide CoversValue, Diff;
    if v.Some? && w.Object? && v.value.Object? {
      DiffMinimal(near, v.value.members, w.members, path);
    }
  }

  // ---------- merging one level ----------

  /** { ...o, ...d }: the web interface replaces whole values. */
  function Spread(o: Members, d: Members): Members
    decreases d
  {
    if d == [] then o else Put(Spread(o, d[..|d| - 1]), d[|d| - 1].key, d[|d| - 1].value)
  }

  lemma {:induction false} FindSpread(o: Members, d: Members, key: string)
    requires UniqueKeys(d)
    ensures Find(Spread(o, d), key) == if Find(d, key).Some? then Find(d, key) else Find(o, key)
    decreases |d|
  {
    if d != [] {
      var front, m := d[..|d| - 1], d[|d| - 1];
      assert d == front + [m];
      FindSpread(o, front, key);
      FindSnoc(front, m, key);
      FindPut(Spread(o, front), m.key, m.value, key);
    }
  }

  /** A value is new, or it differs and, if both are objects, so does every one of its members, at every depth. */
  predicate Changed(near: Near, v: Option<Json>, w: Json)
    decreases w
  {
    v.None? || (!Same(near, v.value, w) &&
      (w.Object? && v.value.Object? ==>
         w.members != [] &&
         forall i :: 0 <= i < |w.members| ==> Changed(near, Find(v.value.members, w.members[i].key), w.members[i].value)))
  }

  /** What is reported for a value says all of it exactly if the value has changed at every depth. */
  lemma {:induction false} ReportedWhole(near: Near, v: Option<Json>, w: Json)
    requires Reflexive(near) && WellFormed(w) && (v.Some? ==> WellFormed(v.value))
    ensures var d := ValueDiff(near, v, w);
      d.Some? && CoversValue(near, d.value, w) <==> Changed(near, v, w)
    decreases w
  {
    CoversSelf(near, w);
    if v.Some? && w.Object? && v.value.Object? && !Same(near, v.value, w) {
      MembersWhole(near, v.value.members, w.members);
    }
  }

  lemma {:induction false} MembersWhole(near: Near, o: Members, n: Members)
    requires Reflexive(near) && WellFormedMembers(o) && WellFormedMembers(n)
    ensures Covers(near, Diff(near, o, n), n)
      <==> forall i :: 0 <= i < |n| ==> Changed(near, Find(o, n[i].key), n[i].value)
    decreases n
  {
    hide ValueDiff, CoversValue, Changed;
    forall i | 0 <= i < |n|
      ensures Find(Diff(near, o, n), n[i].key) == ValueDiff(near, Find(o, n[i].key), n[i].value)
      ensures var d := ValueDiff(near, Find(o, n[i].key), n[i].value);
        d.Some? && CoversValue(near, d.value, n[i].value) <==> Changed(near, Find(o, n[i].key), n[i].value)
    {
      FindUnique(n, i);
      FindDiff(near, o, n, n[i].key);
      ReportedWhole(near, Find(o, n[i].key), n[i].value);
    }
  }

  /**
   Merging the difference one level deep gives a state that covers the new one if and only if
   every member of the new state is covered by the old one or has changed at every depth.
   */
  lemma SpreadCovers(near: Near, o: Members, n: Members)
    requires Reflexive(near) && WellFormedMembers(o) && WellFormedMembers(n)
    ensures Covers(near, Spread(o, Diff(near, o, n)), n) <==>
      forall i :: 0 <= i < |n| ==>
        var v := Find(o, n[i].key);
        (v.Some? && CoversValue(near, v.value, n[i].value)) || Changed(near, v, n[i].value)
  {
    hide ValueDiff, CoversValue, Changed, Spread;
    var d := Diff(near, o, n);
    DiffUnique(near, o, n);
    forall i | 0 <= i < |n|
      ensures var v, r := Find(o, n[i].key), Find(Spread(o, d), n[i].key);
        (r.Some? && CoversValue(near, r.value, n[i].value))
          <==> ((v.Some? && CoversValue(near, v.value, n[i].value)) || Changed(near, v, n[i].value))
    {
      var v := Find(o, n[i].key);
      FindUnique(n, i);
      FindDiff(near, o, n, n[i].key);
      FindSpread(o, d, n[i].key);
      NothingForValue(near, v, n[i].value);
      ReportedWhole(near, v, n[i].value);
    }
  }

  /** An object with two members, and a state that holds it. */
  function Pair(y: bool): Members {
    [Member("x", Leaf(Null)), Member("y", Leaf(Bool(y)))]
  }

  function Holding(y: bool): Members {
    [Member("a", Object(Pair(y)))]
  }

  lemma PairChanges(near: Near)
    requires Reflexive(near)
    ensures !CoversValue(near, Object(Pair(false)), Object(Pair(true)))
    ensures !Changed(near, Some(Object(Pair(false))), Object(Pair(true)))
  {
    var o, n := Pair(false), Pair(true);
    assert Find(o, "y") == Some(Leaf(Bool(false))) && n[1] == Member("y", Leaf(Bool(true)));
    assert Find(o, "x") == Some(Leaf(Null)) && n[0] == Member("x", Leaf(Null));
    assert !Changed(near, Find(o, "x"), n[0].value);
  }

  lemma HoldingFacts(y: bool)
    ensures Find(Holding(y), "a") == Some(Object(Pair(y))) && |Holding(y)| == 1
    ensures Holding(y)[0] == Member("a", Object(Pair(y))) && WellFormedMembers(Holding(y))
  {
    assert WellFormed(Pair(y)[0].value) && WellFormed(Pair(y)[1].value);
    assert WellFormedMembers(Pair(y));
    assert WellFormed(Object(Pair(y)));
  }

  /** One of two members changes: the other one is lost. */
  lemma SpreadLoses(near: Near)
    requires Reflexive(near)
    ensures !Covers(near, Spread(Holding(false), Diff(near, Holding(false), Holding(true))), Holding(true))
  {
    hide *;
    HoldingFacts(false);
    HoldingFacts(true);
    PairChanges(near);
    SpreadCovers(near, Holding(false), Holding(true));
    assert Find(Holding(false), Holding(true)[0].key) == Some(Object(Pair(false)));
  }
}
