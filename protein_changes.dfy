/**
 * The protein-change frequency table: every record that carries a protein
 * change is counted under it (no de-duplication), and the entries are listed
 * by count, highest first, equal counts keeping first-seen order.
 */
module ProteinChangeCounts {
  import opened Collections
  import opened Mutations

  datatype ProteinChangeCount = ProteinChangeCount(proteinChange: string, count: nat)

  /** The records that carry a protein change, in input order. */
  function WithProteinChange(ms: seq<Mutation>): seq<Mutation>
  {
    if ms == [] then []
    else
      var n := |ms| - 1;
      WithProteinChange(ms[..n]) + (if ms[n].proteinChange != "" then [ms[n]] else [])
  }

  /** The number of records whose protein change is `pc`. */
  function Occurrences(ms: seq<Mutation>, pc: string): nat
  {
    |Select(ms, ProteinChangeOf, pc)|
  }

  /** One entry per group, with the group's size. */
  function CountsOf(gs: seq<Group<string, Mutation>>): seq<ProteinChangeCount>
  {
    seq(|gs|, i requires 0 <= i < |gs| => ProteinChangeCount(gs[i].key, |gs[i].members|))
  }

  /** The unsorted table: one entry per distinct protein change, in first-seen order. */
  function ProteinChangeTally(ms: seq<Mutation>): seq<ProteinChangeCount>
  {
    CountsOf(GroupBy(WithProteinChange(ms), ProteinChangeOf))
  }

  /** The protein changes of a table, in order. */
  function Changes(t: seq<ProteinChangeCount>): seq<string>
  {
    seq(|t|, i requires 0 <= i < |t| => t[i].proteinChange)
  }

  function TotalCount(t: seq<ProteinChangeCount>): nat
  {
    if t == [] then 0 else t[0].count + TotalCount(t[1..])
  }

  /** The entries of `t` whose count is `c`, in order. */
  function WithCount(t: seq<ProteinChangeCount>, c: nat): seq<ProteinChangeCount>
  {
    if t == [] then []
    else (if t[0].count == c then [t[0]] else []) + WithCount(t[1..], c)
  }

  ghost predicate NonIncreasing(t: seq<ProteinChangeCount>)
  {
    forall i, j :: 0 <= i < j < |t| ==> t[i].count >= t[j].count
  }

  /** Places `x` before the first entry whose count is not larger than its own. */
  function InsertByCount(x: ProteinChangeCount, t: seq<ProteinChangeCount>): seq<ProteinChangeCount>
  {
    if t == [] then [x]
    else if t[0].count <= x.count then [x] + t
    else [t[0]] + InsertByCount(x, t[1..])
  }

  /** A stable sort by count, highest first. */
  function SortByCountDescending(t: seq<ProteinChangeCount>): seq<ProteinChangeCount>
  {
    if t == [] then [] else InsertByCount(t[0], SortByCountDescending(t[1..]))
  }

  /**
   * The frequency table: sorted by count, highest first; a rearrangement of
   * the first-seen tally; and stable, so the entries sharing any one count
   * keep their first-seen order.
   */
  function CountMutationsByProteinChange(ms: seq<Mutation>): (r: seq<ProteinChangeCount>)
    ensures NonIncreasing(r)
    ensures multiset(r) == multiset(ProteinChangeTally(ms))
    ensures forall c :: WithCount(r, c) == WithCount(ProteinChangeTally(ms), c)
  {
    SortSpec(ProteinChangeTally(ms));
    SortByCountDescending(ProteinChangeTally(ms))
  }

  // ---------------------------------------------------------------------------
  // The sort

  lemma {:induction false} InsertMultiset(x: ProteinChangeCount, t: seq<ProteinChangeCount>)
    ensures multiset(InsertByCount(x, t)) == multiset(t) + multiset{x}
  {
    if t != [] && t[0].count > x.count {
      var u := InsertByCount(x, t[1..]);
      InsertMultiset(x, t[1..]);
      assert InsertByCount(x, t) == [t[0]] + u;
      assert multiset([t[0]] + u) == multiset{t[0]} + multiset(u);
      assert t == [t[0]] + t[1..];
    }
  }

  lemma {:induction false} InsertSorted(x: ProteinChangeCount, t: seq<ProteinChangeCount>)
    requires NonIncreasing(t)
    ensures NonIncreasing(InsertByCount(x, t))
  {
    if t != [] && t[0].count > x.count {
      var u := InsertByCount(x, t[1..]);
      InsertSorted(x, t[1..]);
      InsertBelow(x, t[1..], t[0].count);
      var r := [t[0]] + u;
      forall i, j | 0 <= i < j < |r| ensures r[i].count >= r[j].count {
        assert r[j] == u[j - 1];
        if i > 0 {
          assert r[i] == u[i - 1];
        }
      }
    }
  }

  /** Inserting below a bound every entry respects keeps every entry below it. */
  lemma {:induction false} InsertBelow(x: ProteinChangeCount, t: seq<ProteinChangeCount>, b: nat)
    requires x.count <= b && forall j :: 0 <= j < |t| ==> t[j].count <= b
    ensures forall j :: 0 <= j < |InsertByCount(x, t)| ==> InsertByCount(x, t)[j].count <= b
  {
    if t != [] && t[0].count > x.count {
      InsertBelow(x, t[1..], b);
      var u := InsertByCount(x, t[1..]);
      assert InsertByCount(x, t) == [t[0]] + u;
    }
  }

  /** Inserting `x` in front of its equals keeps every count's entries in their order, with `x` first among its own. */
  lemma {:induction false} InsertWithCount(x: ProteinChangeCount, t: seq<ProteinChangeCount>, c: nat)
    ensures WithCount(InsertByCount(x, t), c) == (if x.count == c then [x] else []) + WithCount(t, c)
  {
    if t == [] {
      WithCountCons(x, [], c);
    } else if t[0].count <= x.count {
      WithCountCons(x, t, c);
    } else {
      var rest := InsertByCount(x, t[1..]);
      InsertWithCount(x, t[1..], c);
      WithCountCons(t[0], rest, c);
      WithCountCons(t[0], t[1..], c);
      assert [t[0]] + t[1..] == t;
      if x.count == c {
        assert t[0].count != c;
      }
    }
  }

  lemma WithCountCons(a: ProteinChangeCount, u: seq<ProteinChangeCount>, c: nat)
    ensures WithCount([a] + u, c) == (if a.count == c then [a] else []) + WithCount(u, c)
  {
    assert ([a] + u)[1..] == u;
  }

  lemma {:induction false} InsertTotal(x: ProteinChangeCount, t: seq<ProteinChangeCount>)
    ensures TotalCount(InsertByCount(x, t)) == x.count + TotalCount(t)
  {
    if t == [] {
      assert [x][1..] == [];
    } else if t[0].count <= x.count {
      assert ([x] + t)[1..] == t;
    } else {
      InsertTotal(x, t[1..]);
      assert ([t[0]] + InsertByCount(x, t[1..]))[1..] == InsertByCount(x, t[1..]);
    }
  }

  lemma {:induction false} SortSpec(t: seq<ProteinChangeCount>)
    ensures NonIncreasing(SortByCountDescending(t))
    ensures multiset(SortByCountDescending(t)) == multiset(t)
    ensures forall c :: WithCount(SortByCountDescending(t), c) == WithCount(t, c)
    ensures TotalCount(SortByCountDescending(t)) == TotalCount(t)
  {
    if t != [] {
      var u := SortByCountDescending(t[1..]);
      SortSpec(t[1..]);
      InsertSorted(t[0], u);
      InsertMultiset(t[0], u);
      InsertTotal(t[0], u);
      assert t == [t[0]] + t[1..];
      forall c ensures WithCount(SortByCountDescending(t), c) == WithCount(t, c) {
        InsertWithCount(t[0], u, c);
      }
    }
  }

  // ---------------------------------------------------------------------------
  // The tally

  lemma {:induction false} WithProteinChangeSelect(ms: seq<Mutation>, pc: string)
    ensures Select(WithProteinChange(ms), ProteinChangeOf, pc) == if pc == "" then [] else Select(ms, ProteinChangeOf, pc)
  {
    if ms != [] {
      var n := |ms| - 1;
      var w := WithProteinChange(ms[..n]);
      WithProteinChangeSelect(ms[..n], pc);
      if ms[n].proteinChange != "" {
        assert (w + [ms[n]])[..|w|] == w;
      } else {
        assert w + [] == w;
      }
    }
  }

  lemma {:induction false} WithProteinChangeElements(ms: seq<Mutation>)
    ensures forall m :: m in WithProteinChange(ms) ==> m in ms && m.proteinChange != ""
  {
    if ms != [] {
      var n := |ms| - 1;
      WithProteinChangeElements(ms[..n]);
      assert forall m :: m in ms[..n] ==> m in ms;
    }
  }

  lemma {:induction false} CountsOfTotal(gs: seq<Group<string, Mutation>>)
    ensures TotalCount(CountsOf(gs)) == TotalSize(gs)
  {
    if gs != [] {
      CountsOfTotal(gs[1..]);
      assert CountsOf(gs)[1..] == CountsOf(gs[1..]);
    }
  }

  /**
   * The tally has one entry per distinct protein change, in order of first
   * appearance; each entry counts every record with that change; and the
   * counts add up to the number of records that carry a change.
   */
  lemma TallyExact(ms: seq<Mutation>)
    ensures forall i :: 0 <= i < |ProteinChangeTally(ms)| ==>
      var e := ProteinChangeTally(ms)[i];
      e.proteinChange != "" && e.count == Occurrences(ms, e.proteinChange) && e.count > 0
    ensures forall pc :: pc != "" && Occurrences(ms, pc) > 0 ==> pc in Changes(ProteinChangeTally(ms))
    ensures DistinctSeq(Changes(ProteinChangeTally(ms)))
    ensures Changes(ProteinChangeTally(ms)) == Image(DistinctBy(WithProteinChange(ms), ProteinChangeOf), ProteinChangeOf)
    ensures TotalCount(ProteinChangeTally(ms)) == |WithProteinChange(ms)|
  {
    var w := WithProteinChange(ms);
    var gs := GroupBy(w, ProteinChangeOf);
    var t := ProteinChangeTally(ms);
    GroupByKeys(w, ProteinChangeOf);
    GroupByFirsts(w, ProteinChangeOf);
    GroupByTotal(w, ProteinChangeOf);
    CountsOfTotal(gs);
    WithProteinChangeElements(ms);
    assert Changes(t) == Keys(gs);
    forall i | 0 <= i < |t|
      ensures t[i].proteinChange != "" && t[i].count == Occurrences(ms, t[i].proteinChange) && t[i].count > 0
    {
      var k := gs[i].key;
      FindAt(gs, i);
      GroupByFind(w, ProteinChangeOf, k);
      WithProteinChangeSelect(ms, k);
      assert Keys(gs)[i] == k;
      GroupByKey(w, ProteinChangeOf, k);
      var j :| 0 <= j < |w| && Image(w, ProteinChangeOf)[j] == k;
      assert w[j] in w;
    }
    forall pc | pc != "" && Occurrences(ms, pc) > 0 ensures pc in Changes(t) {
      WithProteinChangeSelect(ms, pc);
      SelectNonEmpty(w, ProteinChangeOf, pc);
      GroupByKey(w, ProteinChangeOf, pc);
    }
  }

  /** The tally lists the protein changes in the order in which they first appear among the records that carry one. */
  lemma TallyOrder(ms: seq<Mutation>)
    ensures forall i :: 0 <= i < |ProteinChangeTally(ms)| ==>
      ProteinChangeTally(ms)[i].proteinChange in Image(WithProteinChange(ms), ProteinChangeOf)
    ensures forall i, j :: 0 <= i < j < |ProteinChangeTally(ms)| ==>
      FirstIndex(WithProteinChange(ms), ProteinChangeOf, ProteinChangeTally(ms)[i].proteinChange)
      < FirstIndex(WithProteinChange(ms), ProteinChangeOf, ProteinChangeTally(ms)[j].proteinChange)
  {
    var w := WithProteinChange(ms);
    var t := ProteinChangeTally(ms);
    var d := DistinctBy(w, ProteinChangeOf);
    TallyExact(ms);
    DistinctByOrder(w, ProteinChangeOf);
    assert forall i :: 0 <= i < |t| ==> t[i].proteinChange == Changes(t)[i] == Image(d, ProteinChangeOf)[i];
  }

  // ---------------------------------------------------------------------------
  // From the tally to the sorted table

  lemma {:induction false} DistinctMultiplicity<X>(t: seq<X>, x: X)
    requires DistinctSeq(t)
    ensures multiset(t)[x] <= 1
  {
    if t != [] {
      var n := |t| - 1;
      DistinctMultiplicity(t[..n], x);
      assert t == t[..n] + [t[n]];
      assert t[n] !in t[..n];
    }
  }

  lemma RepeatedMultiplicity<X>(s: seq<X>, i: nat, j: nat)
    requires i < j < |s| && s[i] == s[j]
    ensures multiset(s)[s[i]] >= 2
  {
    assert s == s[..j] + [s[j]] + s[j + 1..];
    assert s[i] in s[..j];
  }

  /** A rearrangement of a sequence without repetitions has none either. */
  lemma PermutationDistinct<X>(s: seq<X>, t: seq<X>)
    requires multiset(s) == multiset(t) && DistinctSeq(t)
    ensures DistinctSeq(s)
  {
    forall i, j | 0 <= i < j < |s| ensures s[i] != s[j] {
      if s[i] == s[j] {
        RepeatedMultiplicity(s, i, j);
        DistinctMultiplicity(t, s[i]);
      }
    }
  }

  /** Every entry of the table counts all the records with its protein change. */
  lemma ProteinChangeTableCounts(ms: seq<Mutation>)
    ensures forall i :: 0 <= i < |CountMutationsByProteinChange(ms)| ==>
      var e := CountMutationsByProteinChange(ms)[i];
      e.proteinChange != "" && e.count == Occurrences(ms, e.proteinChange) && e.count > 0
  {
    var t := ProteinChangeTally(ms);
    var r := CountMutationsByProteinChange(ms);
    TallyExact(ms);
    forall i | 0 <= i < |r|
      ensures r[i].proteinChange != "" && r[i].count == Occurrences(ms, r[i].proteinChange) && r[i].count > 0
    {
      assert r[i] in multiset(t);
      var a :| 0 <= a < |t| && t[a] == r[i];
    }
  }

  /** Every protein change that occurs in the input has an entry. */
  lemma ProteinChangeTableComplete(ms: seq<Mutation>)
    ensures forall pc :: pc != "" && Occurrences(ms, pc) > 0 ==> pc in Changes(CountMutationsByProteinChange(ms))
  {
    var t := ProteinChangeTally(ms);
    var r := CountMutationsByProteinChange(ms);
    TallyExact(ms);
    SortSpec(t);
    PermutationChanges(r, t);
  }

  /** No protein change has two entries. */
  lemma ProteinChangeTableDistinct(ms: seq<Mutation>)
    ensures DistinctSeq(Changes(CountMutationsByProteinChange(ms)))
  {
    var t := ProteinChangeTally(ms);
    var r := CountMutationsByProteinChange(ms);
    TallyExact(ms);
    SortSpec(t);
    PermutationDistinctChanges(r, t);
  }

  /** A rearrangement of a table lists the same protein changes. */
  lemma PermutationChanges(r: seq<ProteinChangeCount>, t: seq<ProteinChangeCount>)
    requires multiset(r) == multiset(t)
    ensures forall pc :: pc in Changes(t) ==> pc in Changes(r)
  {
    forall pc | pc in Changes(t) ensures pc in Changes(r) {
      var a :| 0 <= a < |t| && Changes(t)[a] == pc;
      assert t[a] in multiset(r);
      var i :| 0 <= i < |r| && r[i] == t[a];
      assert Changes(r)[i] == pc;
    }
  }

  /** A rearrangement of a table without repeated protein changes has none either. */
  lemma PermutationDistinctChanges(r: seq<ProteinChangeCount>, t: seq<ProteinChangeCount>)
    requires multiset(r) == multiset(t) && DistinctSeq(Changes(t))
    ensures DistinctSeq(Changes(r))
  {
    assert DistinctSeq(t) by {
      forall a, b | 0 <= a < b < |t| ensures t[a] != t[b] {
        assert Changes(t)[a] != Changes(t)[b];
      }
    }
    PermutationDistinct(r, t);
    forall i, j | 0 <= i < j < |r| ensures Changes(r)[i] != Changes(r)[j] {
      assert r[i] in multiset(t) && r[j] in multiset(t);
      var a :| 0 <= a < |t| && t[a] == r[i];
      var b :| 0 <= b < |t| && t[b] == r[j];
      assert Changes(t)[a] != Changes(t)[b] by {
        assert a != b;
      }
    }
  }

  /** The counts add up to the records that carry a protein change, and the table is empty exactly when none does. */
  lemma ProteinChangeTableTotal(ms: seq<Mutation>)
    ensures TotalCount(CountMutationsByProteinChange(ms)) == |WithProteinChange(ms)|
    ensures CountMutationsByProteinChange(ms) == [] <==> WithProteinChange(ms) == []
  {
    var t := ProteinChangeTally(ms);
    var r := CountMutationsByProteinChange(ms);
    TallyExact(ms);
    SortSpec(t);
    GroupByTotal(WithProteinChange(ms), ProteinChangeOf);
    assert |r| == |t| by {
      assert |multiset(r)| == |multiset(t)|;
    }
  }

  /** There are as many entries as distinct protein changes among the records. */
  lemma ProteinChangeTableSize(ms: seq<Mutation>)
    ensures |CountMutationsByProteinChange(ms)| == |set m | m in ms && m.proteinChange != "" :: m.proteinChange|
  {
    var t := ProteinChangeTally(ms);
    var r := CountMutationsByProteinChange(ms);
    assert |r| == |t| by {
      SortSpec(t);
      assert |multiset(r)| == |multiset(t)|;
    }
    GroupByCount(WithProteinChange(ms), ProteinChangeOf);
    ChangesOfRecords(ms);
  }

  /** The keys of the filtered records are the non-empty protein changes of the input. */
  lemma ChangesOfRecords(ms: seq<Mutation>)
    ensures KeySet(WithProteinChange(ms), ProteinChangeOf) == set m | m in ms && m.proteinChange != "" :: m.proteinChange
  {
    WithProteinChangeElements(ms);
    forall m | m in ms && m.proteinChange != "" ensures m.proteinChange in KeySet(WithProteinChange(ms), ProteinChangeOf) {
      var i :| 0 <= i < |ms| && ms[i] == m;
      RecordChangeKept(ms, i);
    }
  }

  /** The protein change of any record that has one is a key of the filtered records. */
  lemma RecordChangeKept(ms: seq<Mutation>, i: int)
    requires 0 <= i < |ms| && ms[i].proteinChange != ""
    ensures ms[i].proteinChange in KeySet(WithProteinChange(ms), ProteinChangeOf)
  {
    var w := WithProteinChange(ms);
    var pc := ms[i].proteinChange;
    assert ProteinChangeOf(ms[i]) == pc;
    assert Image(ms, ProteinChangeOf)[i] == ProteinChangeOf(ms[i]);
    SelectNonEmpty(ms, ProteinChangeOf, pc);
    WithProteinChangeSelect(ms, pc);
    SelectNonEmpty(w, ProteinChangeOf, pc);
    var j :| 0 <= j < |w| && Image(w, ProteinChangeOf)[j] == pc;
    assert w[j] in w;
  }
}
