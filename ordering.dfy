/**
  The store's `messages.sort((a, b) => a.sentAt - b.sentAt)`. JavaScript's
  `Array.prototype.sort` is stable, so the order is fully determined: ascending
  by `sentAt`, ties kept in their previous relative order. It is given here as
  an insertion sort, which is stable by construction.
 */
module Ordering {
  import opened Entities
  import opened KeyedSeq

  ghost predicate SortedBySentAt(s: seq<Message>)
  {
    forall i, j :: 0 <= i < j < |s| ==> s[i].sentAt <= s[j].sentAt
  }

  /** The messages of `s` sent at instant `t`, in their order in `s`. */
  ghost function SentAtOnly(s: seq<Message>, t: int): seq<Message>
  {
    if |s| == 0 then []
    else SentAtOnly(s[..|s| - 1], t) + (if s[|s| - 1].sentAt == t then [s[|s| - 1]] else [])
  }

  /** Where `m` goes: after the last element of `s` sent no later than it
      (scanning from the end, as insertion sort does). */
  function InsertionPoint(s: seq<Message>, m: Message): (p: nat)
    ensures p <= |s|
    ensures forall i :: p <= i < |s| ==> s[i].sentAt > m.sentAt
    ensures p > 0 ==> s[p - 1].sentAt <= m.sentAt
  {
    if |s| == 0 then 0
    else if s[|s| - 1].sentAt <= m.sentAt then |s|
    else InsertionPoint(s[..|s| - 1], m)
  }

  /** Inserts `m` after every trailing element of `s` sent later than it. */
  function InsertBySentAt(s: seq<Message>, m: Message): (r: seq<Message>)
    ensures |r| == |s| + 1
    ensures multiset(r) == multiset(s) + multiset{m}
  {
    var p := InsertionPoint(s, m);
    assert s == s[..p] + s[p..];
    s[..p] + [m] + s[p..]
  }

  /** A message between a sorted front no later than it and a sorted back
      later than it gives a sorted sequence. */
  lemma SortedAround(front: seq<Message>, m: Message, back: seq<Message>)
    requires SortedBySentAt(front) && SortedBySentAt(back)
    requires forall i :: 0 <= i < |front| ==> front[i].sentAt <= m.sentAt
    requires forall i :: 0 <= i < |back| ==> m.sentAt < back[i].sentAt
    ensures SortedBySentAt(front + [m] + back)
  {
    var r := front + [m] + back;
    var n := |front|;
    forall i, j | 0 <= i < j < |r| ensures r[i].sentAt <= r[j].sentAt {
      if j < n {
        assert r[i] == front[i] && r[j] == front[j];
      } else if j == n {
        assert r[i] == front[i] && r[j] == m;
      } else if i > n {
        assert r[i] == back[i - n - 1] && r[j] == back[j - n - 1];
      } else if i == n {
        assert r[i] == m && r[j] == back[j - n - 1];
      } else {
        assert r[i] == front[i] && r[j] == back[j - n - 1];
      }
    }
  }

  lemma InsertKeepsSorted(s: seq<Message>, m: Message)
    requires SortedBySentAt(s)
    ensures SortedBySentAt(InsertBySentAt(s, m))
  {
    var p := InsertionPoint(s, m);
    assert forall i :: 0 <= i < p ==> s[..p][i].sentAt <= m.sentAt by {
      forall i | 0 <= i < p ensures s[..p][i].sentAt <= m.sentAt {
        assert s[i].sentAt <= s[p - 1].sentAt;
      }
    }
    assert forall i :: 0 <= i < |s| - p ==> m.sentAt < s[p..][i].sentAt by {
      forall i | 0 <= i < |s| - p ensures m.sentAt < s[p..][i].sentAt {
        assert s[p..][i] == s[p + i];
      }
    }
    SortedPrefix(s, p);
    SortedSuffix(s, p);
    SortedAround(s[..p], m, s[p..]);
  }

  lemma SortedSuffix(s: seq<Message>, n: nat)
    requires SortedBySentAt(s) && n <= |s|
    ensures SortedBySentAt(s[n..])
  {
    forall i, j | 0 <= i < j < |s| - n ensures s[n..][i].sentAt <= s[n..][j].sentAt {
      assert s[n..][i] == s[n + i] && s[n..][j] == s[n + j];
    }
  }

  /** Stable sort ascending by `sentAt`. */
  function SortBySentAt(s: seq<Message>): (r: seq<Message>)
    ensures SortedBySentAt(r)
    ensures multiset(r) == multiset(s)
  {
    if |s| == 0 then []
    else
      var n := |s| - 1;
      var r' := SortBySentAt(s[..n]);
      InsertKeepsSorted(r', s[n]);
      assert s == s[..n] + [s[n]];
      InsertBySentAt(r', s[n])
  }

  lemma {:induction false} SentAtOnlyAppend(a: seq<Message>, b: seq<Message>, t: int)
    ensures SentAtOnly(a + b, t) == SentAtOnly(a, t) + SentAtOnly(b, t)
  {
    if |b| > 0 {
      var n := |b| - 1;
      SentAtOnlyAppend(a, b[..n], t);
      assert (a + b)[..|a| + n] == a + b[..n];
    } else {
      assert a + b == a;
    }
  }

  lemma {:induction false} SentAtOnlyLater(s: seq<Message>, t: int)
    requires forall i :: 0 <= i < |s| ==> s[i].sentAt > t
    ensures SentAtOnly(s, t) == []
  {
    if |s| > 0 {
      SentAtOnlyLater(s[..|s| - 1], t);
    }
  }

  lemma SentAtOnlySplice(front: seq<Message>, m: Message, back: seq<Message>, t: int)
    ensures SentAtOnly(front + [m] + back, t) ==
      SentAtOnly(front, t) + (if m.sentAt == t then [m] else []) + SentAtOnly(back, t)
  {
    SentAtOnlyAppend(front + [m], back, t);
    SentAtOnlyAppend(front, [m], t);
    assert [m][..0] == [];
  }

  lemma SentAtOnlyInsertLater(front: seq<Message>, m: Message, back: seq<Message>, t: int)
    requires forall i :: 0 <= i < |back| ==> back[i].sentAt > m.sentAt
    ensures SentAtOnly(front + [m] + back, t) ==
      SentAtOnly(front + back, t) + (if m.sentAt == t then [m] else [])
  {
    SentAtOnlySplice(front, m, back, t);
    SentAtOnlyAppend(front, back, t);
    if m.sentAt == t {
      SentAtOnlyLater(back, t);
    }
  }

  lemma InsertSentAtOnly(s: seq<Message>, m: Message, t: int)
    ensures SentAtOnly(InsertBySentAt(s, m), t) ==
      SentAtOnly(s, t) + (if m.sentAt == t then [m] else [])
  {
    var p := InsertionPoint(s, m);
    assert forall i :: 0 <= i < |s[p..]| ==> s[p..][i].sentAt > m.sentAt;
    SentAtOnlyInsertLater(s[..p], m, s[p..], t);
    assert s[..p] + s[p..] == s;
  }

  /** The sort is stable: messages sent at the same instant keep their order. */
  lemma {:induction false} SortIsStable(s: seq<Message>, t: int)
    ensures SentAtOnly(SortBySentAt(s), t) == SentAtOnly(s, t)
  {
    if |s| > 0 {
      var n := |s| - 1;
      SortIsStable(s[..n], t);
      InsertSentAtOnly(SortBySentAt(s[..n]), s[n], t);
    }
  }

  /** A message no earlier than the last one goes at the end. */
  lemma InsertAtEnd(s: seq<Message>, m: Message)
    requires |s| == 0 || s[|s| - 1].sentAt <= m.sentAt
    ensures InsertBySentAt(s, m) == s + [m]
  {
    assert InsertionPoint(s, m) == |s|;
    assert s[..|s|] == s && s[|s|..] == [];
  }

  lemma SortedPrefix(s: seq<Message>, n: nat)
    requires SortedBySentAt(s) && n <= |s|
    ensures SortedBySentAt(s[..n])
  {
    forall i, j | 0 <= i < j < n ensures s[..n][i].sentAt <= s[..n][j].sentAt {
      assert s[..n][i] == s[i] && s[..n][j] == s[j];
    }
  }

  lemma SortUnfold(s: seq<Message>)
    requires |s| > 0
    ensures SortBySentAt(s) == InsertBySentAt(SortBySentAt(s[..|s| - 1]), s[|s| - 1])
  {
  }

  /** Sorting an already sorted sequence changes nothing. */
  lemma {:induction false} SortOfSorted(s: seq<Message>)
    requires SortedBySentAt(s)
    ensures SortBySentAt(s) == s
  {
    if |s| > 0 {
      var n := |s| - 1;
      SortedPrefix(s, n);
      SortOfSorted(s[..n]);
      SortUnfold(s);
      InsertLastBack(s);
    }
  }

  /** The last element of a sorted sequence, inserted into the rest, goes
      back where it was. */
  lemma InsertLastBack(s: seq<Message>)
    requires SortedBySentAt(s) && |s| > 0
    ensures InsertBySentAt(s[..|s| - 1], s[|s| - 1]) == s
  {
    var n := |s| - 1;
    assert n == 0 || s[..n][n - 1].sentAt <= s[n].sentAt by {
      if n > 0 {
        assert s[..n][n - 1] == s[n - 1];
      }
    }
    InsertAtEnd(s[..n], s[n]);
    assert s[..n] + [s[n]] == s;
  }

  /** A message whose identity `front + back` does not hold, put between them,
      keeps identities unique. */
  lemma UniqueAround(front: seq<Message>, m: Message, back: seq<Message>)
    requires UniqueKeys(front + back, MessageUuid)
    requires forall i :: 0 <= i < |front + back| ==> (front + back)[i].uuid != m.uuid
    ensures UniqueKeys(front + [m] + back, MessageUuid)
  {
    var s, r, n := front + back, front + [m] + back, |front|;
    forall i, j | 0 <= i < j < |r| ensures MessageUuid(r[i]) != MessageUuid(r[j]) {
      if i == n {
        assert r[i] == m && r[j] == s[j - 1];
      } else if j == n {
        assert r[i] == s[i] && r[j] == m;
      } else {
        var si, sj := if i < n then i else i - 1, if j < n then j else j - 1;
        assert r[i] == s[si] && r[j] == s[sj] && si < sj;
      }
    }
  }

  lemma InsertKeepsUniqueKeys(s: seq<Message>, m: Message)
    requires UniqueKeys(s, MessageUuid)
    requires forall i :: 0 <= i < |s| ==> s[i].uuid != m.uuid
    ensures UniqueKeys(InsertBySentAt(s, m), MessageUuid)
  {
    var p := InsertionPoint(s, m);
    assert s[..p] + s[p..] == s;
    UniqueAround(s[..p], m, s[p..]);
  }

  /** Sorting keeps identities unique. */
  lemma {:induction false} SortKeepsUniqueKeys(s: seq<Message>)
    requires UniqueKeys(s, MessageUuid)
    ensures UniqueKeys(SortBySentAt(s), MessageUuid)
  {
    if |s| > 0 {
      var n := |s| - 1;
      var r' := SortBySentAt(s[..n]);
      assert UniqueKeys(s[..n], MessageUuid);
      SortKeepsUniqueKeys(s[..n]);
      forall i | 0 <= i < |r'| ensures r'[i].uuid != s[n].uuid {
        SortedFrom(s[..n], r'[i]);
      }
      InsertKeepsUniqueKeys(r', s[n]);
    }
  }

  lemma SortedFrom(s: seq<Message>, x: Message)
    requires x in SortBySentAt(s)
    ensures exists k :: 0 <= k < |s| && s[k] == x
  {
    assert x in multiset(SortBySentAt(s));
  }
}
