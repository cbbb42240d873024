/**
  Identity-keyed sequences: the `findIndex`, `find` and replace-or-append
  operations the store applies to its message and participant arrays. The
  key function picks an entity's uuid, so one definition serves both arrays.
 */
module KeyedSeq {
  import opened Entities

  /** The identities held in `s`. */
  ghost function Keys<T>(s: seq<T>, key: T -> string): set<string>
  {
    set x | x in s :: key(x)
  }

  /** No identity occurs twice in `s`. */
  ghost predicate UniqueKeys<T>(s: seq<T>, key: T -> string)
  {
    forall i, j :: 0 <= i < j < |s| ==> key(s[i]) != key(s[j])
  }

  /** `Array.prototype.findIndex` by identity: the first index holding `id`, or -1. */
  ghost function IndexOf<T>(s: seq<T>, id: string, key: T -> string): (r: int)
    ensures -1 <= r < |s|
    ensures r == -1 <==> forall i :: 0 <= i < |s| ==> key(s[i]) != id
    ensures r != -1 ==> key(s[r]) == id && forall i :: 0 <= i < r ==> key(s[i]) != id
  {
    if |s| == 0 then -1
    else if key(s[0]) == id then 0
    else
      var r := IndexOf(s[1..], id, key);
      if r == -1 then -1 else r + 1
  }

  /** The `findIndex` scan the store runs before each replace-or-append. */
  method FindIndex<T>(s: seq<T>, id: string, key: T -> string) returns (idx: int)
    ensures idx == IndexOf(s, id, key)
  {
    idx := 0;
    while idx < |s| && key(s[idx]) != id
      invariant 0 <= idx <= |s|
      invariant forall i :: 0 <= i < idx ==> key(s[i]) != id
    {
      idx := idx + 1;
    }
    if idx == |s| {
      idx := -1;
    }
  }

  /** `Array.prototype.find` by identity: the first element holding `id`. */
  function Find<T>(s: seq<T>, id: string, key: T -> string): (r: Option<T>)
    ensures r.None? <==> forall i :: 0 <= i < |s| ==> key(s[i]) != id
    ensures r.Some? ==> exists i :: 0 <= i < |s| && s[i] == r.value && key(s[i]) == id
                                    && forall j :: 0 <= j < i ==> key(s[j]) != id
  {
    if |s| == 0 then None
    else if key(s[0]) == id then Some(s[0])
    else
      var r := Find(s[1..], id, key);
      assert r.Some? ==> exists i :: 1 <= i < |s| && s[i] == r.value && key(s[i]) == id
                                     && forall j :: 1 <= j < i ==> key(s[j]) != id by {
        if r.Some? {
          var i :| 0 <= i < |s| - 1 && s[1..][i] == r.value && key(s[1..][i]) == id
                   && forall j :: 0 <= j < i ==> key(s[1..][j]) != id;
          assert s[i + 1] == r.value && key(s[i + 1]) == id;
          assert forall j :: 1 <= j < i + 1 ==> key(s[j]) != id by {
            forall j | 1 <= j < i + 1 ensures key(s[j]) != id { assert s[j] == s[1..][j - 1]; }
          }
        }
      }
      r
  }

  /** One replace-or-append: an element with the same identity is overwritten
      in place, otherwise `x` is pushed at the end. */
  ghost function Upsert<T>(s: seq<T>, x: T, key: T -> string): seq<T>
  {
    var i := IndexOf(s, key(x), key);
    if i == -1 then s + [x] else s[i := x]
  }

  /** The batch loop: every element of `batch`, in order, upserted into `s`. */
  ghost function UpsertAll<T>(s: seq<T>, batch: seq<T>, key: T -> string): seq<T>
  {
    if |batch| == 0 then s
    else Upsert(UpsertAll(s, batch[..|batch| - 1], key), batch[|batch| - 1], key)
  }

  /** The last element of `b` holding identity `id`. */
  ghost function LastWith<T>(b: seq<T>, id: string, key: T -> string): (x: T)
    requires id in Keys(b, key)
    ensures x in b && key(x) == id
    ensures exists i :: 0 <= i < |b| && b[i] == x && forall j :: i < j < |b| ==> key(b[j]) != id
  {
    var n := |b| - 1;
    if key(b[n]) == id then b[n]
    else
      assert id in Keys(b[..n], key) by {
        var x :| x in b && key(x) == id;
        assert b == b[..n] + [b[n]];
      }
      LastWith(b[..n], id, key)
  }

  /** The identities of `b` that `s` does not hold, in order of first occurrence in `b`. */
  ghost function NewKeys<T>(s: seq<T>, b: seq<T>, key: T -> string): (ks: seq<string>)
    ensures forall k :: k in ks <==> k in Keys(b, key) && k !in Keys(s, key)
    ensures forall i, j :: 0 <= i < j < |ks| ==> ks[i] != ks[j]
  {
    if |b| == 0 then []
    else
      var n := |b| - 1;
      var ks := NewKeys(s, b[..n], key);
      KeysSnoc(b[..n], b[n], key);
      assert b[..n] + [b[n]] == b;
      var k := key(b[n]);
      if k in Keys(s, key) || k in ks then ks else ks + [k]
  }

  /** Reference definition of a batch upsert into a store without duplicate
      identities: every held element whose identity occurs in the batch takes
      the batch's last value for it, in place; the batch's other identities
      follow in order of first occurrence, each with its last value. */
  ghost function Merged<T>(s: seq<T>, b: seq<T>, key: T -> string): seq<T>
  {
    Refreshed(s, b, key) + Appended(s, b, key)
  }

  ghost function Refreshed<T>(s: seq<T>, b: seq<T>, key: T -> string): (r: seq<T>)
    ensures |r| == |s| && forall j :: 0 <= j < |s| ==> key(r[j]) == key(s[j])
  {
    seq(|s|, j requires 0 <= j < |s| =>
      if key(s[j]) in Keys(b, key) then LastWith(b, key(s[j]), key) else s[j])
  }

  ghost function Appended<T>(s: seq<T>, b: seq<T>, key: T -> string): (r: seq<T>)
    ensures |r| == |NewKeys(s, b, key)|
    ensures forall p :: 0 <= p < |r| ==> key(r[p]) == NewKeys(s, b, key)[p]
  {
    var ks := NewKeys(s, b, key);
    seq(|ks|, k requires 0 <= k < |ks| => LastWith(b, ks[k], key))
  }

  lemma KeysSnoc<T>(s: seq<T>, x: T, key: T -> string)
    ensures Keys(s + [x], key) == Keys(s, key) + {key(x)}
  {
    assert forall y :: y in s + [x] <==> y in s || y == x;
  }

  lemma KeysUpdate<T>(s: seq<T>, i: int, x: T, key: T -> string)
    requires 0 <= i < |s| && key(s[i]) == key(x)
    ensures Keys(s[i := x], key) == Keys(s, key)
  {
    forall k | k in Keys(s, key) ensures k in Keys(s[i := x], key) {
      var y :| y in s && key(y) == k;
      var j :| 0 <= j < |s| && s[j] == y;
      if j == i { assert s[i := x][i] == x; } else { assert s[i := x][j] == y; }
    }
  }

  /** A single upsert adds exactly the identity of its element. */
  lemma {:induction false} UpsertKeys<T>(s: seq<T>, x: T, key: T -> string)
    ensures Keys(Upsert(s, x, key), key) == Keys(s, key) + {key(x)}
  {
    var i := IndexOf(s, key(x), key);
    if i == -1 {
      KeysSnoc(s, x, key);
    } else {
      KeysUpdate(s, i, x, key);
      assert s[i] in s;
    }
  }

  /** After a batch upsert the held identities are the old ones together with the batch's. */
  lemma {:induction false} UpsertAllKeys<T>(s: seq<T>, b: seq<T>, key: T -> string)
    ensures Keys(UpsertAll(s, b, key), key) == Keys(s, key) + Keys(b, key)
  {
    if |b| == 0 {
      assert Keys(b, key) == {};
    } else {
      var n := |b| - 1;
      UpsertAllKeys(s, b[..n], key);
      UpsertKeys(UpsertAll(s, b[..n], key), b[n], key);
      KeysSnoc(b[..n], b[n], key);
      assert b[..n] + [b[n]] == b;
    }
  }

  /** A single upsert never introduces a duplicate identity. */
  lemma UpsertUnique<T>(s: seq<T>, x: T, key: T -> string)
    requires UniqueKeys(s, key)
    ensures UniqueKeys(Upsert(s, x, key), key)
  {
  }

  /** A batch upsert never introduces a duplicate identity. */
  lemma {:induction false} UpsertAllUnique<T>(s: seq<T>, b: seq<T>, key: T -> string)
    requires UniqueKeys(s, key)
    ensures UniqueKeys(UpsertAll(s, b, key), key)
  {
    if |b| > 0 {
      var n := |b| - 1;
      UpsertAllUnique(s, b[..n], key);
      UpsertUnique(UpsertAll(s, b[..n], key), b[n], key);
    }
  }

  /** The last occurrence of an identity in `b + [x]` is `x` itself or its last one in `b`. */
  lemma LastWithSnoc<T>(b: seq<T>, x: T, id: string, key: T -> string)
    requires id in Keys(b + [x], key)
    ensures id == key(x) || id in Keys(b, key)
    ensures LastWith(b + [x], id, key) == if id == key(x) then x else LastWith(b, id, key)
  {
    KeysSnoc(b, x, key);
    assert (b + [x])[..|b|] == b;
  }

  /** The identities of the merged sequence, position by position. */
  lemma MergedKeyAt<T>(s: seq<T>, b: seq<T>, key: T -> string)
    ensures var m, ks := Merged(s, b, key), NewKeys(s, b, key);
      |m| == |s| + |ks|
      && (forall j :: 0 <= j < |s| ==> key(m[j]) == key(s[j]))
      && (forall p :: 0 <= p < |ks| ==> key(m[|s| + p]) == ks[p])
  {
    var m, ks := Merged(s, b, key), NewKeys(s, b, key);
    var front, back := Refreshed(s, b, key), Appended(s, b, key);
    forall j | 0 <= j < |s| ensures key(m[j]) == key(s[j]) {
      assert m[j] == front[j];
    }
    forall p | 0 <= p < |ks| ensures key(m[|s| + p]) == ks[p] {
      assert m[|s| + p] == back[p];
    }
  }

  /** Reference agreement: on a store without duplicate identities, the batch
      loop computes exactly `Merged`. */
  lemma {:induction false} UpsertAllIsMerged<T>(s: seq<T>, b: seq<T>, key: T -> string)
    requires UniqueKeys(s, key)
    ensures UpsertAll(s, b, key) == Merged(s, b, key)
  {
    if |b| == 0 {
      assert Keys(b, key) == {};
      assert Refreshed(s, b, key) == s;
    } else {
      var n := |b| - 1;
      var b', x := b[..n], b[n];
      assert b' + [x] == b;
      UpsertAllIsMerged(s, b', key);
      MergeStep(s, b', x, key);
    }
  }

  lemma RefreshedSnocAt<T>(s: seq<T>, b: seq<T>, x: T, i: int, key: T -> string)
    requires 0 <= i < |s|
    ensures Refreshed(s, b + [x], key)[i] ==
      if key(s[i]) == key(x) then x else Refreshed(s, b, key)[i]
  {
    KeysSnoc(b, x, key);
    if key(s[i]) in Keys(b + [x], key) {
      LastWithSnoc(b, x, key(s[i]), key);
    }
  }

  lemma AppendedSnocAt<T>(s: seq<T>, b: seq<T>, x: T, p: int, key: T -> string)
    requires 0 <= p < |NewKeys(s, b, key)|
    ensures p < |NewKeys(s, b + [x], key)|
    ensures Appended(s, b + [x], key)[p] ==
      if NewKeys(s, b, key)[p] == key(x) then x else Appended(s, b, key)[p]
  {
    var b' := b + [x];
    assert b'[..|b|] == b;
    var ks := NewKeys(s, b, key);
    assert NewKeys(s, b', key)[..|ks|] == ks;
    KeysSnoc(b, x, key);
    LastWithSnoc(b, x, ks[p], key);
  }

  /** One more batch element: upserting `x` into `Merged(s, b)` gives `Merged(s, b + [x])`. */
  lemma MergeStep<T>(s: seq<T>, b: seq<T>, x: T, key: T -> string)
    requires UniqueKeys(s, key)
    ensures Upsert(Merged(s, b, key), x, key) == Merged(s, b + [x], key)
  {
    var ks := NewKeys(s, b, key);
    MergedKeyAt(s, b, key);
    KeysSnoc(b, x, key);
    assert (b + [x])[..|b|] == b;
    if key(x) in Keys(s, key) {
      MergeStepHeld(s, b, x, key);
    } else if key(x) in ks {
      MergeStepAppended(s, b, x, key);
    } else {
      MergeStepNew(s, b, x, key);
    }
  }

  /** An identity is held exactly when `findIndex` finds it. */
  lemma KeysIndexOf<T>(s: seq<T>, id: string, key: T -> string)
    ensures id in Keys(s, key) <==> IndexOf(s, id, key) != -1
  {
    if id in Keys(s, key) {
      var y :| y in s && key(y) == id;
    } else {
      forall i | 0 <= i < |s| ensures key(s[i]) != id { assert s[i] in s; }
    }
  }

  lemma IndexOfAt<T>(s: seq<T>, id: string, j: int, key: T -> string)
    requires 0 <= j < |s| && key(s[j]) == id
    requires forall i :: 0 <= i < j ==> key(s[i]) != id
    ensures IndexOf(s, id, key) == j
  {
  }

  /** `x`'s identity is held by the store: it is overwritten in the refreshed part. */
  lemma MergeStepHeld<T>(s: seq<T>, b: seq<T>, x: T, key: T -> string)
    requires UniqueKeys(s, key) && key(x) in Keys(s, key)
    ensures Upsert(Merged(s, b, key), x, key) == Merged(s, b + [x], key)
  {
    var m, r := Merged(s, b, key), Merged(s, b + [x], key);
    var k := key(x);
    MergedKeyAt(s, b, key);
    assert (b + [x])[..|b|] == b;
    assert NewKeys(s, b + [x], key) == NewKeys(s, b, key);
    KeysIndexOf(s, k, key);
    var j := IndexOf(s, k, key);
    IndexOfAt(m, k, j, key);
    assert Upsert(m, x, key) == m[j := x];
    forall i | 0 <= i < |m| ensures r[i] == m[j := x][i] {
      if i < |s| {
        RefreshedSnocAt(s, b, x, i, key);
      } else {
        AppendedSnocAt(s, b, x, i - |s|, key);
      }
    }
  }

  /** One more batch element, position by position: every position of the
      merged sequence keeps its element unless it holds `x`'s identity. */
  lemma MergedSnocAt<T>(s: seq<T>, b: seq<T>, x: T, i: int, key: T -> string)
    requires 0 <= i < |Merged(s, b, key)|
    ensures i < |Merged(s, b + [x], key)|
    ensures Merged(s, b + [x], key)[i] ==
      if key(Merged(s, b, key)[i]) == key(x) then x else Merged(s, b, key)[i]
  {
    if i < |s| {
      RefreshedSnocAt(s, b, x, i, key);
      MergedAtFront(s, b, i, key);
      MergedAtFront(s, b + [x], i, key);
    } else {
      AppendedSnocAt(s, b, x, i - |s|, key);
      MergedAtBack(s, b, i - |s|, key);
      MergedAtBack(s, b + [x], i - |s|, key);
    }
  }

  /** The first `|s|` positions of the merge are the refreshed held elements. */
  lemma MergedAtFront<T>(s: seq<T>, b: seq<T>, i: int, key: T -> string)
    requires 0 <= i < |s|
    ensures i < |Merged(s, b, key)| && Merged(s, b, key)[i] == Refreshed(s, b, key)[i]
  {
  }

  /** The positions after `|s|` are the appended new identities. */
  lemma MergedAtBack<T>(s: seq<T>, b: seq<T>, p: int, key: T -> string)
    requires 0 <= p < |NewKeys(s, b, key)|
    ensures |s| + p < |Merged(s, b, key)| && Merged(s, b, key)[|s| + p] == Appended(s, b, key)[p]
  {
  }

  lemma NewKeysSnoc<T>(s: seq<T>, b: seq<T>, x: T, key: T -> string)
    ensures NewKeys(s, b + [x], key) ==
      if key(x) in Keys(s, key) || key(x) in NewKeys(s, b, key) then NewKeys(s, b, key)
      else NewKeys(s, b, key) + [key(x)]
  {
    assert (b + [x])[..|b|] == b;
  }

  /** An identity new to the store sits at exactly one position of the merge. */
  lemma NewKeyOnlyAt<T>(s: seq<T>, b: seq<T>, k: string, p0: int, key: T -> string)
    requires k !in Keys(s, key) && 0 <= p0 < |NewKeys(s, b, key)| && NewKeys(s, b, key)[p0] == k
    ensures forall i :: 0 <= i < |Merged(s, b, key)| ==> (key(Merged(s, b, key)[i]) == k <==> i == |s| + p0)
  {
    var m, ks := Merged(s, b, key), NewKeys(s, b, key);
    MergedKeyAt(s, b, key);
    forall i | 0 <= i < |m| ensures key(m[i]) == k <==> i == |s| + p0 {
      if i < |s| {
        assert s[i] in s;
      } else if i != |s| + p0 {
        assert ks[i - |s|] != ks[p0];
      }
    }
  }

  /** `x`'s identity arrived earlier in the batch: it is overwritten in the appended part. */
  lemma MergeStepAppended<T>(s: seq<T>, b: seq<T>, x: T, key: T -> string)
    requires key(x) !in Keys(s, key) && key(x) in NewKeys(s, b, key)
    ensures Upsert(Merged(s, b, key), x, key) == Merged(s, b + [x], key)
  {
    var m, r := Merged(s, b, key), Merged(s, b + [x], key);
    var ks, k := NewKeys(s, b, key), key(x);
    NewKeysSnoc(s, b, x, key);
    var p0 :| 0 <= p0 < |ks| && ks[p0] == k;
    var q := |s| + p0;
    NewKeyOnlyAt(s, b, k, p0, key);
    IndexOfAt(m, k, q, key);
    assert Upsert(m, x, key) == m[q := x];
    assert |r| == |m|;
    forall i | 0 <= i < |m| ensures r[i] == m[q := x][i] {
      MergedSnocAt(s, b, x, i, key);
    }
  }

  /** The last element of `Merged(s, b + [x])` when `x`'s identity is new. */
  lemma MergedNewLast<T>(s: seq<T>, b: seq<T>, x: T, key: T -> string)
    requires key(x) !in Keys(s, key) && key(x) !in NewKeys(s, b, key)
    ensures NewKeys(s, b + [x], key) == NewKeys(s, b, key) + [key(x)]
    ensures Merged(s, b + [x], key)[|s| + |NewKeys(s, b, key)|] == x
  {
    var ks := NewKeys(s, b, key);
    assert (b + [x])[..|b|] == b;
    KeysSnoc(b, x, key);
    assert NewKeys(s, b + [x], key) == ks + [key(x)];
    LastWithSnoc(b, x, key(x), key);
    assert Merged(s, b + [x], key)[|s| + |ks|] == Appended(s, b + [x], key)[|ks|];
  }

  /** An identity neither held nor brought by the batch is absent from the merge. */
  lemma MergedLacks<T>(s: seq<T>, b: seq<T>, k: string, key: T -> string)
    requires k !in Keys(s, key) && k !in NewKeys(s, b, key)
    ensures forall i :: 0 <= i < |Merged(s, b, key)| ==> key(Merged(s, b, key)[i]) != k
  {
    var m, ks := Merged(s, b, key), NewKeys(s, b, key);
    MergedKeyAt(s, b, key);
    forall i | 0 <= i < |m| ensures key(m[i]) != k {
      if i < |s| { assert s[i] in s; } else { assert ks[i - |s|] in ks; }
    }
  }

  /** `x`'s identity is new: it is pushed at the end. */
  lemma MergeStepNew<T>(s: seq<T>, b: seq<T>, x: T, key: T -> string)
    requires key(x) !in Keys(s, key) && key(x) !in NewKeys(s, b, key)
    ensures Upsert(Merged(s, b, key), x, key) == Merged(s, b + [x], key)
  {
    var m, r := Merged(s, b, key), Merged(s, b + [x], key);
    MergedLacks(s, b, key(x), key);
    MergedNewLast(s, b, x, key);
    assert IndexOf(m, key(x), key) == -1;
    assert Upsert(m, x, key) == m + [x];
    assert |r| == |m| + 1 by {
      assert |r| == |s| + |NewKeys(s, b + [x], key)|;
    }
    forall i | 0 <= i < |m| ensures r[i] == m[i] {
      MergedSnocAt(s, b, x, i, key);
    }
    assert r == m + [x];
  }

  /** Under unique identities, the batch's identities end up holding the
      batch's last value for them, wherever they sit. */
  lemma {:induction false} UpsertAllLastWins<T>(s: seq<T>, b: seq<T>, key: T -> string)
    requires UniqueKeys(s, key)
    ensures forall x :: x in UpsertAll(s, b, key) && key(x) in Keys(b, key) ==> x == LastWith(b, key(x), key)
  {
    UpsertAllIsMerged(s, b, key);
    var m := Merged(s, b, key);
    forall i | 0 <= i < |m| && key(m[i]) in Keys(b, key) ensures m[i] == LastWith(b, key(m[i]), key) {
      if i < |s| {
        MergedAtFront(s, b, i, key);
      } else {
        MergedAtBack(s, b, i - |s|, key);
      }
    }
  }

  /** Under unique identities, the held elements keep their positions (and
      those the batch does not mention keep their values); the batch's new
      identities follow in order of first occurrence. */
  lemma {:induction false} UpsertAllShape<T>(s: seq<T>, b: seq<T>, key: T -> string)
    requires UniqueKeys(s, key)
    ensures var r, ks := UpsertAll(s, b, key), NewKeys(s, b, key);
      |r| == |s| + |ks|
      && (forall j :: 0 <= j < |s| ==> key(r[j]) == key(s[j]))
      && (forall j :: 0 <= j < |s| && key(s[j]) !in Keys(b, key) ==> r[j] == s[j])
      && (forall p :: 0 <= p < |ks| ==> key(r[|s| + p]) == ks[p])
  {
    UpsertAllIsMerged(s, b, key);
    MergedKeyAt(s, b, key);
    var r := Merged(s, b, key);
    forall j | 0 <= j < |s| && key(s[j]) !in Keys(b, key) ensures r[j] == s[j] {
      assert r[j] == Refreshed(s, b, key)[j];
    }
  }

  /** The batch loop after `i + 1` elements is one more upsert after `i`. */
  lemma UpsertAllPrefix<T>(s: seq<T>, b: seq<T>, i: int, key: T -> string)
    requires 0 <= i < |b|
    ensures UpsertAll(s, b[..i + 1], key) == Upsert(UpsertAll(s, b[..i], key), b[i], key)
  {
    assert b[..i + 1][..i] == b[..i];
  }

  /** A sequence is empty or holds its first element (stated apart so that a
      proof can rule out a non-empty sequence of impossible elements without
      an index in a branch its context excludes). */
  lemma EmptyOrHasFirst<X>(s: seq<X>)
    ensures s == [] || s[0] in s
  {
  }

  /** A batch the store already reflects (every identity held, each with the
      batch's last value) changes nothing. */
  lemma MergedOfSettled<T>(s: seq<T>, b: seq<T>, key: T -> string)
    requires Keys(b, key) <= Keys(s, key)
    requires forall x :: x in s && key(x) in Keys(b, key) ==> x == LastWith(b, key(x), key)
    ensures Merged(s, b, key) == s
  {
    var ks := NewKeys(s, b, key);
    EmptyOrHasFirst(ks);
    var r := Refreshed(s, b, key);
    forall j | 0 <= j < |s| ensures r[j] == s[j] {
      assert s[j] in s;
    }
    assert r == s;
  }
}
