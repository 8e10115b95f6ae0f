/**
  The per-paper top-two commit shared by the keyword script
  (`assign_reviewers_v2.py`) and the pairwise script
  (`assign_reviewers_pairwise.py`): the scored reviewers of one paper are
  sorted by score, highest first, the first two are taken, and each is
  appended the paper id in the reviewer-to-papers dictionary while its load
  counter rises by one. The output step inverts that dictionary into paper
  to reviewer names.
 */
module PerPaper {
  import opened Common
  import opened Text
  import opened Sorting

  /** Reviewers taken per paper (`top_2`). */
  const Wanted: nat := 2

  /** `sorted(scores.items(), key=lambda x: x[1], reverse=True)`. */
  function Ranked(scored: seq<(string, real)>): seq<(string, real)>
  {
    SortBy(scored, Descending(Values(scored)))
  }

  /** `sorted_scores[:2]`. */
  function TopTwo(scored: seq<(string, real)>): seq<(string, real)>
  {
    Take(Ranked(scored), Wanted)
  }

  /** The ranking is a permutation of the scored entries in non-increasing score order. */
  lemma RankedSorted(scored: seq<(string, real)>)
    ensures multiset(Ranked(scored)) == multiset(scored)
    ensures forall a, b :: 0 <= a < b < |Ranked(scored)| ==> Ranked(scored)[b].1 <= Ranked(scored)[a].1
  {
    var keys := Descending(Values(scored));
    var order := StableOrder(keys);
    SortByPermutation(scored, keys);
    StableOrderSorted(keys);
    forall a, b | 0 <= a < b < |Ranked(scored)|
      ensures Ranked(scored)[b].1 <= Ranked(scored)[a].1
    {
      assert !KeyLess(keys[order[b]], keys[order[a]]);
    }
  }

  /** The top two: two entries whenever there are at least two, each taken from the scored entries. */
  lemma TopTwoFacts(scored: seq<(string, real)>)
    ensures |TopTwo(scored)| == if |scored| < Wanted then |scored| else Wanted
    ensures forall k :: 0 <= k < |TopTwo(scored)| ==> TopTwo(scored)[k] in scored
  {
    var ranked := Ranked(scored);
    var top := TopTwo(scored);
    RankedSorted(scored);
    forall k | 0 <= k < |top|
      ensures top[k] in scored
    {
      assert top[k] == ranked[k] && ranked[k] in multiset(scored);
    }
  }

  /** The two picked entries have different keys when the scored dictionary's keys are distinct. */
  lemma TopTwoDistinct(scored: seq<(string, real)>)
    requires DistinctKeys(scored)
    ensures DistinctKeys(TopTwo(scored))
  {
    var top := TopTwo(scored);
    var keys := Descending(Values(scored));
    var order := StableOrder(keys);
    StableOrderSorted(keys);
    SortedDistinct(keys, order);
    forall a, b | 0 <= a < b < |top|
      ensures top[a].0 != top[b].0
    {
      assert top[a] == scored[order[a]] && top[b] == scored[order[b]];
    }
  }

  /** No entry left out of the top two scores above a picked one. */
  lemma TopTwoBest(scored: seq<(string, real)>)
    ensures forall x, k :: x in scored && x !in TopTwo(scored) && 0 <= k < |TopTwo(scored)| ==> x.1 <= TopTwo(scored)[k].1
  {
    var ranked := Ranked(scored);
    var top := TopTwo(scored);
    RankedSorted(scored);
    forall x, k | x in scored && x !in top && 0 <= k < |top|
      ensures x.1 <= top[k].1
    {
      assert x in multiset(ranked);
      forall j | 0 <= j < |top|
        ensures ranked[j] != x
      {
        assert ranked[j] == top[j] && top[j] in top;
      }
      var j :| 0 <= j < |ranked| && ranked[j] == x;
      assert top[k] == ranked[k];
    }
  }

  // ---------------------------------------------------------------------------
  // Committing the picks
  // ---------------------------------------------------------------------------

  /** The papers a reviewer holds: `assignments[rid]` on a `defaultdict(list)`. */
  function PapersOf(assign: seq<(string, seq<string>)>, rid: string): seq<string>
  {
    match Lookup(assign, rid)
    case Some(ps) => ps
    case None => []
  }

  /** Reading a reviewer's papers after `assignments[k].append(x)`. */
  lemma PapersOfAppend(assign: seq<(string, seq<string>)>, k: string, x: string, rid: string)
    requires DistinctKeys(assign)
    ensures PapersOf(AppendTo(assign, k, x), rid) == if rid == k then PapersOf(assign, rid) + [x] else PapersOf(assign, rid)
  {
    var r := AppendTo(assign, k, x);
    if k in Keys(assign) {
      assert Keys(r) == Keys(assign);
      if rid in Keys(assign) {
        var j := IndexOfKey(assign, rid);
        LookupAt(assign, j);
        LookupAt(r, j);
      }
    } else {
      if rid == k {
        LookupAt(r, |assign|);
      } else if rid in Keys(assign) {
        var j := IndexOfKey(assign, rid);
        LookupAt(assign, j);
        LookupAt(r, j);
      } else {
        assert Keys(r) == Keys(assign) + [k];
      }
    }
  }

  /** `for rid in picks: assignments[rid].append(pid); current_load[rid] += 1`. */
  function Commit(assign: seq<(string, seq<string>)>, load: map<string, int>, pid: string, picks: seq<string>)
    : (r: (seq<(string, seq<string>)>, map<string, int>))
    requires DistinctKeys(assign)
    ensures DistinctKeys(r.0)
  {
    if picks == [] then (assign, load)
    else
      var prev := Commit(assign, load, pid, picks[..|picks| - 1]);
      (AppendTo(prev.0, picks[|picks| - 1], pid), Bump(prev.1, picks[|picks| - 1]))
  }

  /** The picks before the last are distinct and do not include the last. */
  lemma DistinctSnoc(picks: seq<string>)
    requires picks != [] && Distinct(picks)
    ensures Distinct(picks[..|picks| - 1]) && picks[|picks| - 1] !in picks[..|picks| - 1]
    ensures forall r :: r in picks <==> r in picks[..|picks| - 1] || r == picks[|picks| - 1]
  {
    var init := picks[..|picks| - 1];
    assert picks == init + [picks[|picks| - 1]];
    forall j | 0 <= j < |init|
      ensures init[j] != picks[|picks| - 1]
    {
      assert init[j] == picks[j];
    }
  }

  /** Committing distinct picks appends the paper once to each pick's list; other lists do not change. */
  lemma {:induction false} CommitPapers(assign: seq<(string, seq<string>)>, load: map<string, int>, pid: string, picks: seq<string>, rid: string)
    requires DistinctKeys(assign) && Distinct(picks)
    ensures PapersOf(Commit(assign, load, pid, picks).0, rid) == PapersOf(assign, rid) + (if rid in picks then [pid] else [])
    decreases |picks|
  {
    if picks != [] {
      var init := picks[..|picks| - 1];
      var last := picks[|picks| - 1];
      var prev := Commit(assign, load, pid, init);
      DistinctSnoc(picks);
      CommitPapers(assign, load, pid, init, rid);
      PapersOfAppend(prev.0, last, pid, rid);
    }
  }

  /** Committing distinct picks raises each pick's load by one; other loads do not change. */
  lemma {:induction false} CommitLoad(assign: seq<(string, seq<string>)>, load: map<string, int>, pid: string, picks: seq<string>, rid: string)
    requires DistinctKeys(assign) && Distinct(picks)
    ensures Get(Commit(assign, load, pid, picks).1, rid) == Get(load, rid) + (if rid in picks then 1 else 0)
    decreases |picks|
  {
    if picks != [] {
      DistinctSnoc(picks);
      CommitLoad(assign, load, pid, picks[..|picks| - 1], rid);
    }
  }

  /** The commit loop of one paper. */
  method CommitPicks(assign0: seq<(string, seq<string>)>, load0: map<string, int>, pid: string, picks: seq<string>)
    returns (assign: seq<(string, seq<string>)>, load: map<string, int>)
    requires DistinctKeys(assign0)
    ensures (assign, load) == Commit(assign0, load0, pid, picks)
  {
    assign, load := assign0, load0;
    var i := 0;
    while i < |picks|
      invariant i <= |picks|
      invariant DistinctKeys(assign)
      invariant (assign, load) == Commit(assign0, load0, pid, picks[..i])
    {
      assert picks[..i + 1][..i] == picks[..i];
      assign := AppendTo(assign, picks[i], pid);
      load := Bump(load, picks[i]);
      i := i + 1;
    }
    assert picks[..i] == picks;
  }

  /** The reviewer ids of a list of (reviewer, score) pairs. */
  function IdsOf(scored: seq<(string, real)>): (ids: seq<string>)
    ensures |ids| == |scored| && forall k :: 0 <= k < |scored| ==> ids[k] == scored[k].0
  {
    seq(|scored|, k requires 0 <= k < |scored| => scored[k].0)
  }

  // ---------------------------------------------------------------------------
  // Inverting the assignment dictionary for the output
  // ---------------------------------------------------------------------------

  /** `paper_assignments[pid].append(name)` for each paper of one reviewer, in order. */
  function AddNames(pa: map<string, seq<string>>, pids: seq<string>, name: string): map<string, seq<string>>
  {
    if pids == [] then pa
    else
      var prev := AddNames(pa, pids[..|pids| - 1], name);
      var pid := pids[|pids| - 1];
      prev[pid := (if pid in prev then prev[pid] else []) + [name]]
  }

  /**
    `paper_assignments`: for each reviewer of the dictionary, in order, that
    `reviewers.get(rid)` finds, its name is appended to each of its papers.
   */
  function Invert(assign: seq<(string, seq<string>)>, names: map<string, string>): map<string, seq<string>>
  {
    if assign == [] then map[]
    else
      var prev := Invert(assign[..|assign| - 1], names);
      var e := assign[|assign| - 1];
      if e.0 in names then AddNames(prev, e.1, names[e.0]) else prev
  }

  /** The inversion loop: for each reviewer of the dictionary and each of its papers, append the name. */
  method InvertAssignments(assign: seq<(string, seq<string>)>, names: map<string, string>) returns (pa: map<string, seq<string>>)
    ensures pa == Invert(assign, names)
  {
    pa := map[];
    var i := 0;
    while i < |assign|
      invariant i <= |assign|
      invariant pa == Invert(assign[..i], names)
    {
      assert assign[..i + 1][..i] == assign[..i];
      var (rid, pids) := assign[i];
      var before := pa;
      var j := 0;
      while j < |pids|
        invariant j <= |pids|
        invariant pa == if rid in names then AddNames(before, pids[..j], names[rid]) else before
      {
        assert pids[..j + 1][..j] == pids[..j];
        var pid := pids[j];
        if rid in names {
          pa := pa[pid := (if pid in pa then pa[pid] else []) + [names[rid]]];
        }
        j := j + 1;
      }
      assert pids[..j] == pids;
      i := i + 1;
    }
    assert assign[..i] == assign;
  }

  /** `paper_assignments.get(pid, [])`. */
  function NamesFor(pa: map<string, seq<string>>, pid: string): seq<string>
  {
    if pid in pa then pa[pid] else []
  }

  /** Appending one reviewer's papers adds its name to exactly those papers' lists. */
  lemma {:induction false} AddNamesMembers(pa: map<string, seq<string>>, pids: seq<string>, name: string, pid: string)
    ensures forall n :: n in NamesFor(AddNames(pa, pids, name), pid) <==> n in NamesFor(pa, pid) || (n == name && pid in pids)
    decreases |pids|
  {
    if pids != [] {
      var init := pids[..|pids| - 1];
      AddNamesMembers(pa, init, name, pid);
      assert pids == init + [pids[|pids| - 1]];
    }
  }

  /**
    A name is listed for a paper exactly when some reviewer of the
    dictionary that has that name holds the paper.
   */
  lemma {:induction false} InvertMembers(assign: seq<(string, seq<string>)>, names: map<string, string>, pid: string, n: string)
    ensures n in NamesFor(Invert(assign, names), pid) <==>
              exists i :: 0 <= i < |assign| && assign[i].0 in names && names[assign[i].0] == n && pid in assign[i].1
    decreases |assign|
  {
    if assign != [] {
      var init := assign[..|assign| - 1];
      var e := assign[|assign| - 1];
      InvertMembers(init, names, pid, n);
      if e.0 in names {
        AddNamesMembers(Invert(init, names), e.1, names[e.0], pid);
      }
      if exists i :: 0 <= i < |assign| && assign[i].0 in names && names[assign[i].0] == n && pid in assign[i].1 {
        var i :| 0 <= i < |assign| && assign[i].0 in names && names[assign[i].0] == n && pid in assign[i].1;
        if i < |init| {
          assert init[i] == assign[i];
        }
      }
      if exists i :: 0 <= i < |init| && init[i].0 in names && names[init[i].0] == n && pid in init[i].1 {
        var i :| 0 <= i < |init| && init[i].0 in names && names[init[i].0] == n && pid in init[i].1;
        assert assign[i] == init[i];
      }
    }
  }
}
