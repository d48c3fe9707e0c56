/**
 * Sequence helpers the mutation helpers are built from: grouping by a key into
 * an insertion-ordered dictionary (the shape of a JavaScript object filled key
 * by key, iterated in first-insertion order) and de-duplication by a key that
 * keeps the first element seen for each key.
 */
module Collections {
  import opened Wrappers

  /** One entry of a grouping: a key and, in input order, the elements filed under it. */
  datatype Group<K, T> = Group(key: K, members: seq<T>)

  /** The keys of a grouping, in insertion order. */
  function Keys<K, T>(gs: seq<Group<K, T>>): seq<K>
  {
    seq(|gs|, i requires 0 <= i < |gs| => gs[i].key)
  }

  /** The key of every element of `s`, in order. */
  function Image<K, T>(s: seq<T>, f: T -> K): seq<K>
  {
    seq(|s|, i requires 0 <= i < |s| => f(s[i]))
  }

  /** The distinct keys of the elements of `s`. */
  ghost function KeySet<K, T>(s: seq<T>, f: T -> K): set<K>
  {
    set x | x in s :: f(x)
  }

  ghost predicate DistinctSeq<K>(ks: seq<K>)
  {
    forall i, j :: 0 <= i < j < |ks| ==> ks[i] != ks[j]
  }

  /** The elements of `s` whose key is `k`, in input order (the reference definition of a group). */
  function Select<K(==), T>(s: seq<T>, f: T -> K, k: K): seq<T>
  {
    if s == [] then []
    else
      var n := |s| - 1;
      Select(s[..n], f, k) + (if f(s[n]) == k then [s[n]] else [])
  }

  /** Dictionary lookup `groups[k]`; `None` stands for `undefined`. */
  function Find<K(==), T>(gs: seq<Group<K, T>>, k: K): Option<seq<T>>
  {
    if gs == [] then None
    else if gs[0].key == k then Some(gs[0].members)
    else Find(gs[1..], k)
  }

  /** The members filed under `k`, or the empty sequence when there are none. */
  function FindOrEmpty<K(==), T>(gs: seq<Group<K, T>>, k: K): seq<T>
  {
    match Find(gs, k)
    case None => []
    case Some(ms) => ms
  }

  /** Files `x` under `k`: appended to the group of `k`, or a new group at the end when `k` is new. */
  function Add<K(==), T>(gs: seq<Group<K, T>>, k: K, x: T): seq<Group<K, T>>
  {
    if gs == [] then [Group(k, [x])]
    else if gs[0].key == k then [Group(k, gs[0].members + [x])] + gs[1..]
    else [gs[0]] + Add(gs[1..], k, x)
  }

  /** Files every element of `s`, in order, under its key `f(x)`. */
  function GroupBy<K(==), T>(s: seq<T>, f: T -> K): seq<Group<K, T>>
  {
    if s == [] then []
    else
      var n := |s| - 1;
      Add(GroupBy(s[..n], f), f(s[n]), s[n])
  }

  /** The number of elements filed in a grouping. */
  function TotalSize<K, T>(gs: seq<Group<K, T>>): nat
  {
    if gs == [] then 0 else |gs[0].members| + TotalSize(gs[1..])
  }

  /** Keeps, in order, each element of `s` whose key has not been seen before it. */
  function DistinctBy<K(==), T>(s: seq<T>, f: T -> K): seq<T>
  {
    if s == [] then []
    else
      var n := |s| - 1;
      var d := DistinctBy(s[..n], f);
      if f(s[n]) in Image(d, f) then d else d + [s[n]]
  }

  /** The number of elements of `s` whose key already occurs earlier in `s`. */
  function Repeats<K(==), T>(s: seq<T>, f: T -> K): nat
  {
    if s == [] then 0
    else
      var n := |s| - 1;
      Repeats(s[..n], f) + (if f(s[n]) in Image(s[..n], f) then 1 else 0)
  }

  /** The position of the first element of `s` whose key is `k`. */
  function FirstIndex<K(==), T>(s: seq<T>, f: T -> K, k: K): (i: nat)
    requires k in Image(s, f)
    ensures i < |s| && f(s[i]) == k
    ensures forall j :: 0 <= j < i ==> f(s[j]) != k
  {
    if f(s[0]) == k then 0
    else
      assert Image(s, f) == [f(s[0])] + Image(s[1..], f);
      1 + FirstIndex(s[1..], f, k)
  }

  // ---------------------------------------------------------------------------
  // Small structural facts

  lemma ImageSnoc<K, T>(s: seq<T>, x: T, f: T -> K)
    ensures Image(s + [x], f) == Image(s, f) + [f(x)]
  {
    assert forall i :: 0 <= i < |s| ==> (s + [x])[i] == s[i];
  }

  lemma ImagePrefix<K, T>(s: seq<T>, f: T -> K)
    requires s != []
    ensures Image(s, f) == Image(s[..|s| - 1], f) + [f(s[|s| - 1])]
  {
    ImageSnoc(s[..|s| - 1], s[|s| - 1], f);
    assert s[..|s| - 1] + [s[|s| - 1]] == s;
  }

  lemma KeysCons<K, T>(g: Group<K, T>, gs: seq<Group<K, T>>)
    ensures Keys([g] + gs) == [g.key] + Keys(gs)
  {
  }

  lemma KeysSnoc<K, T>(gs: seq<Group<K, T>>, g: Group<K, T>)
    ensures Keys(gs + [g]) == Keys(gs) + [g.key]
  {
  }

  /** A sequence without repetitions has as many distinct elements as it has elements. */
  lemma {:induction false} DistinctCard<K>(ks: seq<K>)
    requires DistinctSeq(ks)
    ensures |set k | k in ks| == |ks|
  {
    if ks != [] {
      var n := |ks| - 1;
      DistinctCard(ks[..n]);
      assert ks == ks[..n] + [ks[n]];
      assert (set k | k in ks) == (set k | k in ks[..n]) + {ks[n]};
      assert ks[n] !in ks[..n];
    }
  }

  // ---------------------------------------------------------------------------
  // Facts about Add

  lemma {:induction false} AddKeys<K, T>(gs: seq<Group<K, T>>, k: K, x: T)
    ensures Keys(Add(gs, k, x)) == if k in Keys(gs) then Keys(gs) else Keys(gs) + [k]
  {
    if gs == [] {
      assert Keys(Add(gs, k, x)) == [k];
    } else if gs[0].key == k {
      assert Keys(gs)[0] == k;
      assert Keys(Add(gs, k, x)) == Keys(gs);
    } else {
      AddKeys(gs[1..], k, x);
      KeysCons(gs[0], Add(gs[1..], k, x));
      KeysCons(gs[0], gs[1..]);
      assert gs == [gs[0]] + gs[1..];
    }
  }

  lemma {:induction false} AddTotal<K, T>(gs: seq<Group<K, T>>, k: K, x: T)
    ensures TotalSize(Add(gs, k, x)) == TotalSize(gs) + 1
  {
    if gs == [] {
    } else if gs[0].key == k {
      assert ([Group(k, gs[0].members + [x])] + gs[1..])[1..] == gs[1..];
    } else {
      AddTotal(gs[1..], k, x);
      assert ([gs[0]] + Add(gs[1..], k, x))[1..] == Add(gs[1..], k, x);
    }
  }

  lemma {:induction false} AddFind<K, T>(gs: seq<Group<K, T>>, k: K, x: T, j: K)
    ensures Find(Add(gs, k, x), j) == if j == k then Some(FindOrEmpty(gs, k) + [x]) else Find(gs, j)
  {
    if gs == [] {
      assert [Group(k, [x])][1..] == [];
      assert FindOrEmpty(gs, k) + [x] == [x];
    } else if gs[0].key == k {
      assert ([Group(k, gs[0].members + [x])] + gs[1..])[1..] == gs[1..];
    } else {
      AddFind(gs[1..], k, x, j);
      assert ([gs[0]] + Add(gs[1..], k, x))[1..] == Add(gs[1..], k, x);
    }
  }

  /** Filing under a key no group has appends a new group. */
  lemma {:induction false} AddAbsent<K, T>(gs: seq<Group<K, T>>, k: K, x: T)
    requires k !in Keys(gs)
    ensures Add(gs, k, x) == gs + [Group(k, [x])]
  {
    if gs != [] {
      assert Keys(gs)[0] == gs[0].key;
      assert Keys(gs[1..]) == Keys(gs)[1..];
      AddAbsent(gs[1..], k, x);
    }
  }

  /** With distinct keys, filing under a known key extends that key's group in place. */
  lemma {:induction false} AddPresent<K, T>(gs: seq<Group<K, T>>, k: K, x: T, p: nat)
    requires DistinctSeq(Keys(gs)) && p < |gs| && gs[p].key == k
    ensures Add(gs, k, x) == gs[p := Group(k, gs[p].members + [x])]
  {
    if p == 0 {
      assert ([Group(k, gs[0].members + [x])] + gs[1..]) == gs[0 := Group(k, gs[0].members + [x])];
    } else {
      assert Keys(gs)[0] != Keys(gs)[p];
      assert Keys(gs[1..]) == Keys(gs)[1..];
      AddPresent(gs[1..], k, x, p - 1);
      assert [gs[0]] + gs[1..][p - 1 := Group(k, gs[p].members + [x])] == gs[p := Group(k, gs[p].members + [x])];
    }
  }

  // ---------------------------------------------------------------------------
  // Facts about Select

  lemma {:induction false} SelectNonEmpty<K, T>(s: seq<T>, f: T -> K, k: K)
    ensures Select(s, f, k) != [] <==> k in Image(s, f)
  {
    if s != [] {
      var n := |s| - 1;
      SelectNonEmpty(s[..n], f, k);
      ImagePrefix(s, f);
    }
  }

  // ---------------------------------------------------------------------------
  // Facts about GroupBy

  /** `grouped[k]` is exactly the input's elements with key `k`, in input order, and undefined when there are none. */
  lemma {:induction false} GroupByFind<K, T>(s: seq<T>, f: T -> K, k: K)
    ensures Find(GroupBy(s, f), k) == if Select(s, f, k) == [] then None else Some(Select(s, f, k))
  {
    if s != [] {
      var n := |s| - 1;
      GroupByFind(s[..n], f, k);
      AddFind(GroupBy(s[..n], f), f(s[n]), s[n], k);
      assert FindOrEmpty(GroupBy(s[..n], f), k) == Select(s[..n], f, k);
      assert GroupBy(s, f) == Add(GroupBy(s[..n], f), f(s[n]), s[n]);
      assert Select(s, f, k) == Select(s[..n], f, k) + (if f(s[n]) == k then [s[n]] else []);
      if f(s[n]) == k {
        assert Find(GroupBy(s, f), k) == Some(Select(s, f, k));
      } else {
        assert Find(GroupBy(s, f), k) == Find(GroupBy(s[..n], f), k);
        assert Select(s, f, k) == Select(s[..n], f, k);
        assert Find(GroupBy(s[..n], f), k) == if Select(s[..n], f, k) == [] then None else Some(Select(s[..n], f, k));
      }
    }
  }

  lemma GroupByFindAll<K, T>(s: seq<T>, f: T -> K)
    ensures forall k :: Find(GroupBy(s, f), k) == if Select(s, f, k) == [] then None else Some(Select(s, f, k))
  {
    forall k ensures Find(GroupBy(s, f), k) == if Select(s, f, k) == [] then None else Some(Select(s, f, k)) {
      GroupByFind(s, f, k);
    }
  }

  /** The keys of a grouping are distinct and are exactly the keys occurring in the input. */
  lemma {:induction false} GroupByKeys<K, T>(s: seq<T>, f: T -> K)
    ensures DistinctSeq(Keys(GroupBy(s, f)))
    ensures forall k :: k in Keys(GroupBy(s, f)) <==> k in Image(s, f)
  {
    if s != [] {
      var n := |s| - 1;
      GroupByKeys(s[..n], f);
      AddKeys(GroupBy(s[..n], f), f(s[n]), s[n]);
      ImagePrefix(s, f);
    }
  }

  lemma GroupByKey<K, T>(s: seq<T>, f: T -> K, k: K)
    ensures k in Keys(GroupBy(s, f)) <==> k in Image(s, f)
  {
    GroupByKeys(s, f);
  }

  /** Every element lands in exactly one group. */
  lemma {:induction false} GroupByTotal<K, T>(s: seq<T>, f: T -> K)
    ensures TotalSize(GroupBy(s, f)) == |s|
  {
    if s != [] {
      var n := |s| - 1;
      GroupByTotal(s[..n], f);
      AddTotal(GroupBy(s[..n], f), f(s[n]), s[n]);
    }
  }

  /** The groups are in first-seen order, and each one starts with the first element that has its key. */
  lemma {:induction false} GroupByFirsts<K, T>(s: seq<T>, f: T -> K)
    ensures |DistinctBy(s, f)| == |GroupBy(s, f)|
    ensures Image(DistinctBy(s, f), f) == Keys(GroupBy(s, f))
    ensures forall i :: 0 <= i < |GroupBy(s, f)| ==>
      GroupBy(s, f)[i].members != [] && GroupBy(s, f)[i].members[0] == DistinctBy(s, f)[i]
  {
    if s != [] {
      var n := |s| - 1;
      var gs, d, k := GroupBy(s[..n], f), DistinctBy(s[..n], f), f(s[n]);
      GroupByFirsts(s[..n], f);
      GroupByKeys(s[..n], f);
      if k in Image(d, f) {
        var p :| 0 <= p < |gs| && Keys(gs)[p] == k;
        AddPresent(gs, k, s[n], p);
        assert Keys(Add(gs, k, s[n])) == Keys(gs);
      } else {
        AddAbsent(gs, k, s[n]);
        ImageSnoc(d, s[n], f);
        KeysSnoc(gs, Group(k, [s[n]]));
      }
    }
  }

  /** The number of groups is the number of distinct keys in the input. */
  lemma GroupByCount<K, T>(s: seq<T>, f: T -> K)
    ensures |GroupBy(s, f)| == |KeySet(s, f)|
  {
    GroupByKeys(s, f);
    DistinctCard(Keys(GroupBy(s, f)));
    assert (set k | k in Keys(GroupBy(s, f))) == KeySet(s, f) by {
      forall k | k in Image(s, f) ensures exists x :: x in s && f(x) == k {
        var i :| 0 <= i < |s| && Image(s, f)[i] == k;
        assert s[i] in s;
      }
      forall x | x in s ensures f(x) in Keys(GroupBy(s, f)) {
        var i :| 0 <= i < |s| && s[i] == x;
        assert Image(s, f)[i] == f(x);
        GroupByKey(s, f, f(x));
      }
    }
  }

  // ---------------------------------------------------------------------------
  // Facts about DistinctBy

  /** No two kept elements share a key, and every key of the input is kept. */
  lemma DistinctByKeys<K, T>(s: seq<T>, f: T -> K)
    ensures DistinctSeq(Image(DistinctBy(s, f), f))
    ensures forall k :: k in Image(DistinctBy(s, f), f) <==> k in Image(s, f)
  {
    GroupByFirsts(s, f);
    GroupByKeys(s, f);
  }

  lemma DistinctByKey<K, T>(s: seq<T>, f: T -> K, k: K)
    ensures k in Image(DistinctBy(s, f), f) <==> k in Image(s, f)
  {
    DistinctByKeys(s, f);
  }

  /** The kept elements plus the dropped repeats account for the whole input. */
  lemma {:induction false} DistinctBySize<K, T>(s: seq<T>, f: T -> K)
    ensures |DistinctBy(s, f)| + Repeats(s, f) == |s|
  {
    if s != [] {
      var n := |s| - 1;
      DistinctBySize(s[..n], f);
      DistinctByKey(s[..n], f, f(s[n]));
      var d := DistinctBy(s[..n], f);
      assert DistinctBy(s, f) == if f(s[n]) in Image(d, f) then d else d + [s[n]];
    }
  }

  /** In a grouping with distinct keys, looking up the key of entry `i` yields that entry's members. */
  lemma {:induction false} FindAt<K, T>(gs: seq<Group<K, T>>, i: nat)
    requires DistinctSeq(Keys(gs))
    requires i < |gs|
    ensures Find(gs, gs[i].key) == Some(gs[i].members)
  {
    if i > 0 {
      assert Keys(gs)[0] != Keys(gs)[i];
      assert Keys(gs[1..]) == Keys(gs)[1..];
      FindAt(gs[1..], i - 1);
    }
  }

  /** Each kept element is the first element of the input that has its key. */
  lemma DistinctByFirst<K, T>(s: seq<T>, f: T -> K)
    ensures forall i :: 0 <= i < |DistinctBy(s, f)| ==>
      Select(s, f, f(DistinctBy(s, f)[i])) != [] && Select(s, f, f(DistinctBy(s, f)[i]))[0] == DistinctBy(s, f)[i]
  {
    var d, gs := DistinctBy(s, f), GroupBy(s, f);
    GroupByFirsts(s, f);
    GroupByKeys(s, f);
    forall i | 0 <= i < |d|
      ensures Select(s, f, f(d[i])) != [] && Select(s, f, f(d[i]))[0] == d[i]
    {
      assert Image(d, f)[i] == gs[i].key;
      FindAt(gs, i);
      GroupByFind(s, f, gs[i].key);
    }
  }

  /** A key already present in all but the last element first occurs where it first occurs in that prefix. */
  lemma FirstIndexPrefix<K, T>(s: seq<T>, f: T -> K, k: K)
    requires s != [] && k in Image(s[..|s| - 1], f)
    ensures k in Image(s, f)
    ensures FirstIndex(s, f, k) == FirstIndex(s[..|s| - 1], f, k)
  {
    ImagePrefix(s, f);
    var n := |s| - 1;
    var a := FirstIndex(s[..n], f, k);
    var b := FirstIndex(s, f, k);
    assert s[..n][a] == s[a];
    assert b <= a;
    assert s[..n][b] == s[b];
  }

  /** A key that first appears in the last element first occurs there. */
  lemma FirstIndexLast<K, T>(s: seq<T>, f: T -> K)
    requires s != [] && f(s[|s| - 1]) !in Image(s[..|s| - 1], f)
    ensures f(s[|s| - 1]) in Image(s, f)
    ensures FirstIndex(s, f, f(s[|s| - 1])) == |s| - 1
  {
    ImagePrefix(s, f);
    var n := |s| - 1;
    forall j | 0 <= j < n
      ensures f(s[j]) != f(s[n])
    {
      assert Image(s[..n], f)[j] == f(s[j]);
    }
  }

  /** The kept elements come in the order in which their keys first appear in the input. */
  lemma {:induction false} DistinctByOrder<K, T>(s: seq<T>, f: T -> K)
    ensures forall i :: 0 <= i < |DistinctBy(s, f)| ==> f(DistinctBy(s, f)[i]) in Image(s, f)
    ensures forall i, j :: 0 <= i < j < |DistinctBy(s, f)| ==>
      FirstIndex(s, f, f(DistinctBy(s, f)[i])) < FirstIndex(s, f, f(DistinctBy(s, f)[j]))
  {
    if s != [] {
      var n := |s| - 1;
      var d := DistinctBy(s[..n], f);
      DistinctByOrder(s[..n], f);
      DistinctByKey(s[..n], f, f(s[n]));
      forall i | 0 <= i < |d|
        ensures f(d[i]) in Image(s, f) && FirstIndex(s, f, f(d[i])) == FirstIndex(s[..n], f, f(d[i]))
      {
        FirstIndexPrefix(s, f, f(d[i]));
      }
      if f(s[n]) !in Image(d, f) {
        FirstIndexLast(s, f);
        assert DistinctBy(s, f) == d + [s[n]];
      }
    }
  }
}
