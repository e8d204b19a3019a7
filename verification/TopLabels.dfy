/** The labels with the highest scores, selected with a bounded priority queue. The queue is shared between
    calls, and each call leaves it empty for the next. */
module TopLabels {

  const RESULTS_TO_SHOW: nat := 3

  datatype Entry = Entry(name: string, score: nat)

  datatype Outcome<T> = Returns(value: T) | Throws

  /** The score that a signed byte stands for. */
  function Score(b: int): nat
    requires -128 <= b < 128
  {
    if b < 0 then b + 256 else b
  }

  function Entries(labels: seq<string>, scores: seq<int>, n: nat): (r: multiset<Entry>)
    requires n <= |labels| && n <= |scores| && forall i :: 0 <= i < |scores| ==> -128 <= scores[i] < 128
    ensures |r| == n
  {
    if n == 0 then multiset{} else Entries(labels, scores, n - 1) + multiset{Entry(labels[n - 1], Score(scores[n - 1]))}
  }

  /** Label i has the name of the entry, and its signed byte stands for the entry's score. */
  ghost predicate IsLabel(labels: seq<string>, scores: seq<int>, i: nat, e: Entry) {
    i < |labels| && i < |scores| && labels[i] == e.name && e.score < 256 && (e.score - scores[i]) % 256 == 0
  }

  ghost function Occurrences(labels: seq<string>, scores: seq<int>, n: nat, e: Entry): set<nat> {
    set i: nat | i < n && IsLabel(labels, scores, i, e)
  }

  lemma IsLabelIff(labels: seq<string>, scores: seq<int>, i: nat, e: Entry)
    requires i < |labels| && i < |scores| && -128 <= scores[i] < 128
    ensures IsLabel(labels, scores, i, e) <==> e == Entry(labels[i], Score(scores[i]))
  {
  }

  lemma OccurrencesNext(labels: seq<string>, scores: seq<int>, n: nat, e: Entry)
    ensures |Occurrences(labels, scores, n + 1, e)| ==
      |Occurrences(labels, scores, n, e)| + if IsLabel(labels, scores, n, e) then 1 else 0
  {
    var before, after := Occurrences(labels, scores, n, e), Occurrences(labels, scores, n + 1, e);
    if IsLabel(labels, scores, n, e) {
      assert after == before + {n};
    } else {
      assert after == before;
    }
  }

  /** Each entry is there as often as a label has that name and score. */
  lemma {:induction false} EntriesCount(labels: seq<string>, scores: seq<int>, n: nat, e: Entry)
    requires n <= |labels| && n <= |scores| && forall i :: 0 <= i < |scores| ==> -128 <= scores[i] < 128
    ensures Entries(labels, scores, n)[e] == |Occurrences(labels, scores, n, e)|
  {
    if n == 0 {
      assert Occurrences(labels, scores, 0, e) == {};
    } else {
      EntriesCount(labels, scores, n - 1, e);
      OccurrencesNext(labels, scores, n - 1, e);
      IsLabelIff(labels, scores, n - 1, e);
    }
  }

  /** The kept entries are as many as there are, up to k, and no entry that is not kept scores higher. */
  ghost predicate IsTop(all: multiset<Entry>, kept: multiset<Entry>, k: nat) {
    && kept <= all && |kept| == (if |all| < k then |all| else k)
    && forall x, y :: NoHigher(all, kept, x, y)
  }

  ghost predicate NoHigher(all: multiset<Entry>, kept: multiset<Entry>, x: Entry, y: Entry) {
    x in kept && y in all - kept ==> y.score <= x.score
  }

  predicate Sorted(s: seq<Entry>) {
    forall i, j :: 0 <= i < j < |s| ==> s[i].score <= s[j].score
  }

  lemma SameSize(a: multiset<Entry>, b: multiset<Entry>)
    requires a <= b && |a| == |b|
    ensures a == b
  {
    assert b == a + (b - a);
  }

  /** Adding an entry and dropping a lowest one, if there are then too many, keeps the top entries. */
  lemma TopNext(all: multiset<Entry>, kept: multiset<Entry>, e: Entry, low: Entry, k: nat)
    requires IsTop(all, kept, k)
    requires low in kept + multiset{e} && forall x :: x in kept + multiset{e} ==> low.score <= x.score
    ensures |kept| < k ==> IsTop(all + multiset{e}, kept + multiset{e}, k)
    ensures |kept| == k ==> IsTop(all + multiset{e}, kept + multiset{e} - multiset{low}, k)
  {
    var more := all + multiset{e};
    if |kept| < k {
      SameSize(kept, all);
      assert more - (kept + multiset{e}) == multiset{};
    } else {
      var kept' := kept + multiset{e} - multiset{low};
      assert more - kept' == (all - kept) + multiset{low};
      forall x: Entry, y: Entry
        ensures NoHigher(more, kept', x, y)
      {
        assert NoHigher(all, kept, x, y) && NoHigher(all, kept, low, y);
        if low == e {
          assert kept' == kept;
        }
      }
    }
  }

  /** The standard priority queue: which of several lowest entries it gives out is left open. */
  class PriorityQueue {
    var entries: seq<Entry>

    ghost function Contents(): multiset<Entry>
      reads this
    {
      multiset(entries)
    }

    constructor ()
      ensures Contents() == multiset{}
    {
      entries := [];
    }

    method Add(e: Entry)
      modifies this
      ensures Contents() == old(Contents()) + multiset{e}
    {
      entries := entries + [e];
    }

    method Size() returns (n: nat)
      ensures n == |Contents()|
    {
      n := |entries|;
    }

    method Poll() returns (e: Entry)
      requires |Contents()| > 0
      modifies this
      ensures e in old(Contents()) && Contents() == old(Contents()) - multiset{e}
      ensures forall x :: x in old(Contents()) ==> e.score <= x.score
    {
      var i := FindLeast();
      e := entries[i];
      Without(entries, i);
      entries := entries[..i] + entries[i + 1..];
    }

    method FindLeast() returns (least: nat)
      requires |entries| > 0
      ensures least < |entries| && forall x :: x in entries ==> entries[least].score <= x.score
    {
      least := 0;
      for i := 1 to |entries|
        invariant least < |entries| && forall j :: 0 <= j < i ==> entries[least].score <= entries[j].score
      {
        if entries[i].score < entries[least].score {
          least := i;
        }
      }
    }
  }

  lemma Without(s: seq<Entry>, i: nat)
    requires i < |s|
    ensures multiset(s[..i] + s[i + 1..]) == multiset(s) - multiset{s[i]}
  {
    assert s == s[..i] + [s[i]] + s[i + 1..];
  }

  lemma NothingAdded(before: multiset<Entry>, labels: seq<string>, scores: seq<int>)
    requires |before| <= RESULTS_TO_SHOW && forall i :: 0 <= i < |scores| ==> -128 <= scores[i] < 128
    ensures IsTop(before + Entries(labels, scores, 0), before, RESULTS_TO_SHOW)
  {
    assert before + Entries(labels, scores, 0) == before;
  }

  class CustomImageClassifier {
    const labelList: seq<string>
    const sortedLabels: PriorityQueue

    ghost predicate Valid()
      reads this, sortedLabels
    {
      |sortedLabels.Contents()| <= RESULTS_TO_SHOW
    }

    constructor (labels: seq<string>)
      ensures Valid() && labelList == labels && fresh(sortedLabels) && sortedLabels.Contents() == multiset{}
    {
      labelList := labels;
      sortedLabels := new PriorityQueue();
    }

    /** The queue holds the top ones of its earlier contents and the first i entries. */
    ghost predicate Selected(before: multiset<Entry>, scores: seq<int>, i: nat)
      reads this, sortedLabels
    {
      Valid() && (forall k :: 0 <= k < |scores| ==> -128 <= scores[k] < 128) && forall n: nat ::
        n == i && n <= |labelList| && n <= |scores| ==>
        IsTop(before + Entries(labelList, scores, n), sortedLabels.Contents(), RESULTS_TO_SHOW)
    }

    /** Adds the entries to the queue and keeps the top ones; throws if there are fewer scores than labels. */
    method AddLabels(scores: seq<int>) returns (ok: bool)
      requires Valid() && forall i :: 0 <= i < |scores| ==> -128 <= scores[i] < 128
      modifies sortedLabels
      ensures Valid() && (ok <==> |labelList| <= |scores|)
      ensures var n := if ok then |labelList| else |scores|;
              IsTop(old(sortedLabels.Contents()) +
                Entries(labelList, scores, n), sortedLabels.Contents(), RESULTS_TO_SHOW)
    {
      ghost var before := sortedLabels.Contents();
      NothingAdded(before, labelList, scores);
      for i := 0 to |labelList|
        invariant i <= |scores| && Selected(before, scores, i)
      {
        if i >= |scores| {
          return false;
        }
        AddNext(scores, i, before);
      }
      ok := true;
    }

    method AddNext(scores: seq<int>, i: nat, ghost before: multiset<Entry>)
      requires i < |labelList| && i < |scores| && Selected(before, scores, i)
      modifies sortedLabels
      ensures Selected(before, scores, i + 1)
    {
      EntriesNext(before, labelList, scores, i);
      AddLabel(Entry(labelList[i], Score(scores[i])), before + Entries(labelList, scores, i),
               before + Entries(labelList, scores, i + 1));
    }

    /** One turn of the loop. */
    method AddLabel(e: Entry, ghost all: multiset<Entry>, ghost more: multiset<Entry>)
      requires Valid() && IsTop(all, sortedLabels.Contents(), RESULTS_TO_SHOW) && more == all + multiset{e}
      modifies sortedLabels
      ensures Valid() && IsTop(more, sortedLabels.Contents(), RESULTS_TO_SHOW)
    {
      ghost var kept := sortedLabels.Contents();
      sortedLabels.Add(e);
      var size := sortedLabels.Size();
      if size > RESULTS_TO_SHOW {
        var low := sortedLabels.Poll();
        TopNext(all, kept, e, low, RESULTS_TO_SHOW);
      } else {
        ghost var low := Lowest(kept + multiset{e});
        TopNext(all, kept, e, low, RESULTS_TO_SHOW);
      }
    }

    /** Empties the queue, lowest score first. */
    method TakeLabels() returns (result: seq<Entry>)
      modifies sortedLabels
      ensures sortedLabels.Contents() == multiset{} && multiset(result) == old(sortedLabels.Contents())
      ensures Sorted(result)
    {
      ghost var all := sortedLabels.Contents();
      result := [];
      var size := sortedLabels.Size();
      for i := 0 to size
        invariant |sortedLabels.Contents()| == size - i && |result| == i
        invariant multiset(result) + sortedLabels.Contents() == all
        invariant Ascending(result, sortedLabels.Contents())
      {
        ghost var before := sortedLabels.Contents();
        var entry := sortedLabels.Poll();
        AscendingNext(result, before, entry);
        MoveOne(result, before, entry);
        result := result + [entry];
      }
    }

    /** The entries with the highest scores, of the given ones and of those that an earlier call has left behind. */
    method PrintTopKLabels(scores: seq<int>) returns (r: Outcome<seq<Entry>>)
      requires Valid() && forall i :: 0 <= i < |scores| ==> -128 <= scores[i] < 128
      modifies sortedLabels
      ensures Valid() && (r.Returns? <==> |labelList| <= |scores|)
      ensures r.Returns? ==> sortedLabels.Contents() == multiset{}
      ensures r.Returns? ==> Sorted(r.value)
      ensures r.Returns? ==> |r.value| == if |old(sortedLabels.Contents())| + |labelList| < 3
        then |old(sortedLabels.Contents())| + |labelList| else 3
      ensures r.Returns? ==> IsTop(old(sortedLabels.Contents()) + Entries(labelList, scores, |labelList|),
                                   multiset(r.value), RESULTS_TO_SHOW)
      ensures r.Throws? ==> IsTop(old(sortedLabels.Contents()) + Entries(labelList, scores, |scores|),
                                  sortedLabels.Contents(), RESULTS_TO_SHOW)
    {
      var ok := AddLabels(scores);
      if !ok {
        return Throws;
      }
      var result := TakeLabels();
      r := Returns(result);
    }
  }

  lemma EntriesNext(before: multiset<Entry>, labels: seq<string>, scores: seq<int>, i: nat)
    requires i < |labels| && i < |scores| && forall k :: 0 <= k < |scores| ==> -128 <= scores[k] < 128
    ensures before + Entries(labels, scores, i + 1) ==
      before + Entries(labels, scores, i) + multiset{Entry(labels[i], Score(scores[i]))}
  {
  }

  /** A lowest entry. */
  ghost function Lowest(m: multiset<Entry>): (e: Entry)
    requires |m| > 0
    ensures e in m && forall x :: x in m ==> e.score <= x.score
    decreases |m|
  {
    var e :| e in m;
    var rest := m - multiset{e};
    assert m == rest + multiset{e};
    if |rest| == 0 then e
    else
      var low := Lowest(rest);
      if low.score < e.score then low else e
  }

  /** The result is in ascending order, and what is still in the queue scores no lower. */
  ghost predicate Ascending(result: seq<Entry>, rest: multiset<Entry>) {
    && Sorted(result)
    && (forall i, x :: 0 <= i < |result| && x in rest ==> result[i].score <= x.score)
  }

  lemma AscendingNext(result: seq<Entry>, rest: multiset<Entry>, e: Entry)
    requires Ascending(result, rest) && e in rest && forall x :: x in rest ==> e.score <= x.score
    ensures Ascending(result + [e], rest - multiset{e})
  {
  }

  lemma MoveOne(result: seq<Entry>, rest: multiset<Entry>, e: Entry)
    requires e in rest
    ensures |rest - multiset{e}| == |rest| - 1
    ensures multiset(result + [e]) + (rest - multiset{e}) == multiset(result) + rest
  {
    assert rest == (rest - multiset{e}) + multiset{e};
  }

  // ----- top entries

  lemma SizeMonotone(a: multiset<Entry>, b: multiset<Entry>)
    requires a <= b
    ensures |a| <= |b|
  {
    assert b == a + (b - a);
  }

  lemma CountSplit(s: seq<Entry>, i: nat, y: Entry)
    requires i <= |s|
    ensures multiset(s)[y] == multiset(s[..i])[y] + multiset(s[i..])[y]
  {
    assert s == s[..i] + s[i..];
  }

  /** A multiset that is larger has more of something. */
  lemma MoreOfSome(a: multiset<Entry>, b: multiset<Entry>) returns (y: Entry)
    requires |a| > |b|
    ensures a[y] > b[y]
  {
    if a <= b {
      SizeMonotone(a, b);
      assert false;
    }
    y :| a[y] > b[y];
  }

  /** If the other selection scores higher at place i, it has more of some entry that scores higher than top[i]. */
  lemma MoreAbove(top: seq<Entry>, other: seq<Entry>, i: nat) returns (y: Entry)
    requires |top| == |other| && Sorted(top) && Sorted(other) && i < |top| && other[i].score > top[i].score
    ensures y.score > top[i].score && multiset(other)[y] > multiset(top)[y]
  {
    y := MoreOfSome(multiset(other[i..]), multiset(top[i + 1..]));
    assert y in other[i..];
    assert y !in top[..i + 1];
    CountSplit(other, i, y);
    CountSplit(top, i + 1, y);
  }

  /** What a top selection leaves out scores no higher than what it keeps. */
  lemma LeftOutIsLower(all: multiset<Entry>, top: multiset<Entry>, k: nat, x: Entry, y: Entry)
    requires IsTop(all, top, k) && x in top && all[y] > top[y]
    ensures y.score <= x.score
  {
    assert NoHigher(all, top, x, y);
  }

  /** Of all selections of the same size, sorted by score, a top selection has the highest score at every place. */
  lemma TopIsHighest(all: multiset<Entry>, top: seq<Entry>, other: seq<Entry>, k: nat, i: nat)
    requires IsTop(all, multiset(top), k) && multiset(other) <= all && |top| == |other|
    requires Sorted(top) && Sorted(other) && i < |top|
    ensures other[i].score <= top[i].score
  {
    if other[i].score > top[i].score {
      var y := MoreAbove(top, other, i);
      LeftOutIsLower(all, multiset(top), k, top[i], y);
    }
  }

  /** The scores of the result are determined, with their multiplicities, by the entries: whatever the queue does with
      equal scores, any two results in ascending order have the same score at every place. */
  lemma TopScores(all: multiset<Entry>, a: seq<Entry>, b: seq<Entry>, k: nat)
    requires IsTop(all, multiset(a), k) && IsTop(all, multiset(b), k) && Sorted(a) && Sorted(b)
    ensures |a| == |b| && forall i :: 0 <= i < |a| ==> a[i].score == b[i].score
  {
    assert |a| == |multiset(a)| && |b| == |multiset(b)|;
    forall i | 0 <= i < |a|
      ensures a[i].score == b[i].score
    {
      TopIsHighest(all, a, b, k, i);
      TopIsHighest(all, b, a, k, i);
    }
  }
}
