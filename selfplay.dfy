/**
 * Index bookkeeping of the PPO self-play trainer: merging the learner's
 * and the opponent's actions back into one vector, scattering per-env
 * values into the rollout buffers, and the bounded pool of past agents
 * that opponents are drawn from. Tensors are read as integer sequences
 * (a flag is truthy when it is nonzero) or as 2-D arrays.
 */
module SelfPlay {

  /** The Python exceptions the helpers can raise. */
  datatype PyError = IndexError | ValueError

  datatype Result<T> = Ok(value: T) | Err(error: PyError)

  // -----------------------------------------------------------------------
  // Masks

  /** The number of entries of ids whose truthiness is `keep`. */
  function Count(ids: seq<int>, keep: bool): (n: nat)
    ensures n <= |ids|
  {
    if ids == [] then 0
    else (if (ids[0] != 0) == keep then 1 else 0) + Count(ids[1..], keep)
  }

  lemma {:induction false} CountConcat(s: seq<int>, t: seq<int>, keep: bool)
    ensures Count(s + t, keep) == Count(s, keep) + Count(t, keep)
  {
    if s == [] {
      assert s + t == t;
    } else {
      assert (s + t)[1..] == s[1..] + t;
      CountConcat(s[1..], t, keep);
    }
  }

  /** Counting one more flag of a prefix. */
  lemma CountPrefix(ids: seq<int>, k: nat, keep: bool)
    requires k < |ids|
    ensures Count(ids[..k + 1], keep) == Count(ids[..k], keep) + (if (ids[k] != 0) == keep then 1 else 0)
  {
    assert ids[..k + 1] == ids[..k] + [ids[k]];
    CountConcat(ids[..k], [ids[k]], keep);
  }

  /** One more flag of a prefix, for both truthiness values, and the prefix
      never counts more than the whole. */
  lemma CountPrefixStep(ids: seq<int>, k: nat)
    requires k < |ids|
    ensures Count(ids[..k + 1], true) == Count(ids[..k], true) + (if ids[k] != 0 then 1 else 0)
    ensures Count(ids[..k + 1], false) == Count(ids[..k], false) + (if ids[k] != 0 then 0 else 1)
    ensures Count(ids[..k + 1], true) <= Count(ids, true)
    ensures Count(ids[..k + 1], false) <= Count(ids, false)
  {
    CountPrefix(ids, k, true);
    CountPrefix(ids, k, false);
    assert ids == ids[..k + 1] + ids[k + 1..];
    CountConcat(ids[..k + 1], ids[k + 1..], true);
    CountConcat(ids[..k + 1], ids[k + 1..], false);
  }

  /** The entries of xs at the positions whose flag has truthiness `keep`,
      in order: what a boolean mask selects from a tensor. */
  function Select(ids: seq<int>, xs: seq<int>, keep: bool): (r: seq<int>)
    requires |xs| == |ids|
    ensures |r| == Count(ids, keep)
  {
    if ids == [] then []
    else (if (ids[0] != 0) == keep then [xs[0]] else []) + Select(ids[1..], xs[1..], keep)
  }

  // -----------------------------------------------------------------------
  // merge_actions

  /** The interleaving of a and b that the flags in ids prescribe: a truthy
      flag takes the next entry of a, a falsy one the next entry of b. */
  function Interleave(ids: seq<int>, a: seq<int>, b: seq<int>): (r: seq<int>)
    requires Count(ids, true) <= |a| && Count(ids, false) <= |b|
    ensures |r| == |ids|
  {
    if ids == [] then []
    else if ids[0] != 0 then [a[0]] + Interleave(ids[1..], a[1..], b)
    else [b[0]] + Interleave(ids[1..], a, b[1..])
  }

  /** Counting a nonempty prefix: its first flag, then the rest. */
  lemma PrefixTail(ids: seq<int>, p: nat, keep: bool)
    requires 0 < p <= |ids|
    ensures Count(ids[..p], keep) == (if (ids[0] != 0) == keep then 1 else 0) + Count(ids[1..][..p - 1], keep)
  {
    assert ids[..p][1..] == ids[1..][..p - 1];
  }

  /** Position p of the interleaving holds a[k] when it is the (k+1)-th
      truthy position, and b[k] when it is the (k+1)-th falsy one. */
  lemma {:induction false} InterleaveAt(ids: seq<int>, a: seq<int>, b: seq<int>, p: nat)
    requires Count(ids, true) <= |a| && Count(ids, false) <= |b|
    requires p < |ids|
    ensures ids[p] != 0 ==> Count(ids[..p], true) < |a|
    ensures ids[p] != 0 ==> Interleave(ids, a, b)[p] == a[Count(ids[..p], true)]
    ensures ids[p] == 0 ==> Count(ids[..p], false) < |b|
    ensures ids[p] == 0 ==> Interleave(ids, a, b)[p] == b[Count(ids[..p], false)]
  {
    CountPrefixStep(ids, p);
    if p == 0 {
      assert ids[..0] == [];
    } else {
      PrefixTail(ids, p, true);
      PrefixTail(ids, p, false);
      var r := Interleave(ids, a, b);
      if ids[0] != 0 {
        InterleaveAt(ids[1..], a[1..], b, p - 1);
        assert r[p] == Interleave(ids[1..], a[1..], b)[p - 1];
      } else {
        InterleaveAt(ids[1..], a, b[1..], p - 1);
        assert r[p] == Interleave(ids[1..], a, b[1..])[p - 1];
      }
    }
  }

  /** Extending the flags by one extends the interleaving by one entry. */
  lemma {:induction false} InterleaveSnoc(ids: seq<int>, x: int, a: seq<int>, b: seq<int>)
    requires Count(ids + [x], true) <= |a| && Count(ids + [x], false) <= |b|
    ensures Count(ids, true) <= |a| && Count(ids, false) <= |b|
    ensures x != 0 ==> Count(ids, true) < |a|
    ensures x == 0 ==> Count(ids, false) < |b|
    ensures Interleave(ids + [x], a, b)
         == Interleave(ids, a, b) + [if x != 0 then a[Count(ids, true)] else b[Count(ids, false)]]
  {
    CountConcat(ids, [x], true);
    CountConcat(ids, [x], false);
    if ids != [] {
      assert (ids + [x])[1..] == ids[1..] + [x];
      if ids[0] != 0 {
        InterleaveSnoc(ids[1..], x, a[1..], b);
      } else {
        InterleaveSnoc(ids[1..], x, a, b[1..]);
      }
    }
  }

  /** Splitting the merged vector by the same flags gives back both inputs. */
  lemma {:induction false} SelectInterleave(ids: seq<int>, a: seq<int>, b: seq<int>)
    requires Count(ids, true) == |a| && Count(ids, false) == |b|
    ensures Select(ids, Interleave(ids, a, b), true) == a
    ensures Select(ids, Interleave(ids, a, b), false) == b
  {
    if ids != [] {
      var r := Interleave(ids, a, b);
      if ids[0] != 0 {
        SelectInterleave(ids[1..], a[1..], b);
        assert r[1..] == Interleave(ids[1..], a[1..], b);
        assert a == [a[0]] + a[1..];
      } else {
        SelectInterleave(ids[1..], a, b[1..]);
        assert r[1..] == Interleave(ids[1..], a, b[1..]);
        assert b == [b[0]] + b[1..];
      }
    }
  }

  /** Merging the two halves a mask splits xs into rebuilds xs. */
  lemma {:induction false} InterleaveSelect(ids: seq<int>, xs: seq<int>)
    requires |xs| == |ids|
    ensures Interleave(ids, Select(ids, xs, true), Select(ids, xs, false)) == xs
  {
    if ids != [] {
      InterleaveSelect(ids[1..], xs[1..]);
      var a, b := Select(ids, xs, true), Select(ids, xs, false);
      if ids[0] != 0 {
        assert a[1..] == Select(ids[1..], xs[1..], true);
        assert b == Select(ids[1..], xs[1..], false);
      } else {
        assert a == Select(ids[1..], xs[1..], true);
        assert b[1..] == Select(ids[1..], xs[1..], false);
      }
      assert xs == [xs[0]] + xs[1..];
    }
  }

  function Zeros(n: nat): (r: seq<int>)
    ensures |r| == n && forall i :: 0 <= i < n ==> r[i] == 0
  {
    seq(n, _ => 0)
  }

  lemma PrefixSnoc(ids: seq<int>, k: nat)
    requires k < |ids|
    ensures ids[..k + 1] == ids[..k] + [ids[k]]
  {
  }

  /** The state of merge_actions after k flags: i learner and j opponent
      actions used, and the vector holding their interleaving followed by
      the zeros not yet written. */
  ghost predicate MergedUpTo(ids: seq<int>, a: seq<int>, b: seq<int>, k: nat, i: nat, j: nat, res: seq<int>)
  {
    && k <= |ids| && i + j == k
    && i == Count(ids[..k], true) && j == Count(ids[..k], false)
    && i <= |a| && j <= |b| && |res| == |a| + |b|
    && res == Interleave(ids[..k], a, b) + Zeros(|res| - k)
  }

  /** A flag whose input is exhausted shows that there are more flags of
      its kind than entries of that input. */
  lemma MergeExhausted(ids: seq<int>, a: seq<int>, b: seq<int>, k: nat, i: nat, j: nat, res: seq<int>)
    requires MergedUpTo(ids, a, b, k, i, j, res) && k < |ids|
    ensures ids[k] != 0 && i == |a| ==> Count(ids, true) > |a|
    ensures ids[k] == 0 && j == |b| ==> Count(ids, false) > |b|
  {
    CountPrefixStep(ids, k);
  }

  /** Writing the next learner action at position k extends the merged
      state by one flag. */
  lemma MergeLearner(ids: seq<int>, a: seq<int>, b: seq<int>, k: nat, i: nat, j: nat, res: seq<int>)
    requires MergedUpTo(ids, a, b, k, i, j, res) && k < |ids|
    requires ids[k] != 0 && i < |a|
    ensures MergedUpTo(ids, a, b, k + 1, i + 1, j, res[k := a[i]])
  {
    PrefixSnoc(ids, k);
    CountPrefixStep(ids, k);
    InterleaveSnoc(ids[..k], ids[k], a, b);
    FillNextZero(Interleave(ids[..k], a, b), a[i], |res| - k - 1);
  }

  /** Writing the next opponent action at position k extends the merged
      state by one flag. */
  lemma MergeOpponent(ids: seq<int>, a: seq<int>, b: seq<int>, k: nat, i: nat, j: nat, res: seq<int>)
    requires MergedUpTo(ids, a, b, k, i, j, res) && k < |ids|
    requires ids[k] == 0 && j < |b|
    ensures MergedUpTo(ids, a, b, k + 1, i, j + 1, res[k := b[j]])
  {
    PrefixSnoc(ids, k);
    CountPrefixStep(ids, k);
    InterleaveSnoc(ids[..k], ids[k], a, b);
    FillNextZero(Interleave(ids[..k], a, b), b[j], |res| - k - 1);
  }

  /** Writing v over the first of the zeros that follow xs. */
  lemma FillNextZero(xs: seq<int>, v: int, n: nat)
    ensures (xs + Zeros(n + 1))[|xs| := v] == xs + [v] + Zeros(n)
  {
    var l, r := (xs + Zeros(n + 1))[|xs| := v], xs + [v] + Zeros(n);
    assert |l| == |r|;
    forall q | 0 <= q < |l| ensures l[q] == r[q] {
    }
  }

  /** merge_actions: walks the flags, putting the next learner action at a
      truthy position and the next opponent action at a falsy one, into a
      zero-filled vector as long as both inputs together. Running out of
      either input raises IndexError. */
  method MergeActions(trainIds: seq<int>, actions: seq<int>, oppActions: seq<int>) returns (r: Result<seq<int>>)
    ensures r.Err? <==> Count(trainIds, true) > |actions| || Count(trainIds, false) > |oppActions|
    ensures r.Err? ==> r.error == IndexError
    ensures r.Ok? ==> |trainIds| <= |actions| + |oppActions|
    ensures r.Ok? ==> r.value == Interleave(trainIds, actions, oppActions) + Zeros(|actions| + |oppActions| - |trainIds|)
  {
    var results := new int[|actions| + |oppActions|](_ => 0);
    var i, j, k := 0, 0, 0;
    assert trainIds[..0] == [];
    while k < |trainIds|
      invariant MergedUpTo(trainIds, actions, oppActions, k, i, j, results[..])
    {
      MergeExhausted(trainIds, actions, oppActions, k, i, j, results[..]);
      ghost var before := results[..];
      if trainIds[k] != 0 {
        if i >= |actions| {
          return Err(IndexError);
        }
        MergeLearner(trainIds, actions, oppActions, k, i, j, before);
        results[i + j] := actions[i];
        i := i + 1;
      } else {
        if j >= |oppActions| {
          return Err(IndexError);
        }
        MergeOpponent(trainIds, actions, oppActions, k, i, j, before);
        results[i + j] := oppActions[j];
        j := j + 1;
      }
      assert results[..] == before[k := results[k]];
      k := k + 1;
    }
    assert trainIds[..k] == trainIds;
    return Ok(results[..]);
  }

  // -----------------------------------------------------------------------
  // insert_at_indices

  /** Whether g is a valid index for an axis of length n, counting negative
      indices from the end as Python does. */
  predicate InRange(g: int, n: nat)
  {
    -(n as int) <= g < n
  }

  function Resolve(g: int, n: nat): (r: nat)
    requires InRange(g, n)
    ensures r < n && (g >= 0 ==> r == g) && (g < 0 ==> r == n + g)
  {
    if g < 0 then n + g else g
  }

  /** Whether column i, the j-th flagged one, can be written: its step is
      there and is a valid row, the column exists, and values[j] exists. */
  predicate CanWrite(rows: nat, cols: nat, globalStep: seq<int>, nValues: nat, i: nat, j: nat)
  {
    i < |globalStep| && InRange(globalStep[i], rows) && i < cols && j < nValues
  }

  /** The first flagged column at or after i that cannot be written, or
      |indices| when there is none: where the loop stops. */
  function StopFrom(rows: nat, cols: nat, globalStep: seq<int>, indices: seq<int>, nValues: nat, i: nat): (s: nat)
    requires i <= |indices|
    ensures i <= s <= |indices|
    ensures forall c :: i <= c < s && indices[c] != 0 ==> CanWrite(rows, cols, globalStep, nValues, c, Count(indices[..c], true))
    ensures s < |indices| ==> indices[s] != 0 && !CanWrite(rows, cols, globalStep, nValues, s, Count(indices[..s], true))
    decreases |indices| - i
  {
    if i == |indices| then i
    else if indices[i] != 0 && !CanWrite(rows, cols, globalStep, nValues, i, Count(indices[..i], true)) then i
    else StopFrom(rows, cols, globalStep, indices, nValues, i + 1)
  }

  /** Whether cell (r, c) receives a value when columns below `stop` have
      been processed. */
  predicate WrittenAt(rows: nat, cols: nat, globalStep: seq<int>, indices: seq<int>, nValues: nat, stop: nat, r: nat, c: nat)
  {
    && c < stop && c < |indices| && indices[c] != 0
    && CanWrite(rows, cols, globalStep, nValues, c, Count(indices[..c], true))
    && Resolve(globalStep[c], rows) == r
  }

  /** The outcome of a helper that raises or runs to completion. */
  datatype Outcome = Completed | Raised(error: PyError)

  /** insert_at_indices: for the j-th flagged column i, writes values[j]
      into buffer[globalStep[i], i]; with no values it does nothing. An
      IndexError stops it at the first column that cannot be written,
      leaving the writes of the earlier columns in place. */
  method InsertAtIndices<T>(buffer: array2<T>, globalStep: seq<int>, indices: seq<int>, values: seq<T>)
    returns (outcome: Outcome)
    modifies buffer
    ensures var stop := if |values| == 0 then 0
                        else StopFrom(buffer.Length0, buffer.Length1, globalStep, indices, |values|, 0);
      && (outcome == Completed <==> |values| == 0 || stop == |indices|)
      && (outcome.Raised? ==> outcome.error == IndexError)
      && forall r, c :: 0 <= r < buffer.Length0 && 0 <= c < buffer.Length1 ==>
           buffer[r, c] == if WrittenAt(buffer.Length0, buffer.Length1, globalStep, indices, |values|, stop, r, c)
                           then values[Count(indices[..c], true)]
                           else old(buffer[r, c])
  {
    outcome := Completed;
    if |values| > 0 {
      var rows, cols := buffer.Length0, buffer.Length1;
      ghost var stop := StopFrom(rows, cols, globalStep, indices, |values|, 0);
      var j := 0;
      var i := 0;
      while i < |indices|
        invariant 0 <= i <= |indices| && i <= stop
        invariant j == Count(indices[..i], true)
        invariant forall r, c :: 0 <= r < rows && 0 <= c < cols ==>
          buffer[r, c] == if WrittenAt(rows, cols, globalStep, indices, |values|, i, r, c)
                          then values[Count(indices[..c], true)]
                          else old(buffer[r, c])
      {
        CountPrefix(indices, i, true);
        if indices[i] != 0 {
          if !CanWrite(rows, cols, globalStep, |values|, i, j) {
            return Raised(IndexError);
          }
          buffer[Resolve(globalStep[i], rows), i] := values[j];
          j := j + 1;
        }
        i := i + 1;
      }
    }
  }

  // -----------------------------------------------------------------------
  // The opponent pool

  /** Appending x to a deque of at most maxlen entries: when it is full the
      oldest entry is dropped; a deque of maxlen 0 stays empty. */
  function BoundedAppend<T>(s: seq<T>, x: T, maxlen: nat): (r: seq<T>)
    requires |s| <= maxlen
    ensures |r| == if |s| < maxlen then |s| + 1 else maxlen
    ensures r == (s + [x])[|s| + 1 - |r|..]
  {
    if maxlen == 0 then s
    else if |s| < maxlen then s + [x]
    else s[1..] + [x]
  }

  function Min(a: nat, b: nat): nat { if a < b then a else b }

  /** Appending the entries of xs one after another. */
  function AppendAll<T>(s: seq<T>, xs: seq<T>, maxlen: nat): (r: seq<T>)
    requires |s| <= maxlen
    ensures |r| <= maxlen
    decreases |xs|
  {
    if xs == [] then s else AppendAll(BoundedAppend(s, xs[0], maxlen), xs[1..], maxlen)
  }

  /** The pool is a sliding window: after any run of appends it holds the
      newest maxlen entries of everything appended, oldest first. */
  lemma {:induction false} AppendAllKeepsNewest<T>(s: seq<T>, xs: seq<T>, maxlen: nat)
    requires |s| <= maxlen
    ensures var all := s + xs;
      AppendAll(s, xs, maxlen) == all[|all| - Min(|all|, maxlen)..]
    decreases |xs|
  {
    if xs != [] {
      var s1 := BoundedAppend(s, xs[0], maxlen);
      var all, all1 := s + xs, s1 + xs[1..];
      var d, m := |s| + 1 - |s1|, Min(|s + xs|, maxlen);
      assert AppendAll(s, xs, maxlen) == AppendAll(s1, xs[1..], maxlen);
      AppendAllKeepsNewest(s1, xs[1..], maxlen);
      AppendThenRest(s, xs, maxlen);
      assert all1 == all[d..] && |all1| == |all| - d;
      assert Min(|all1|, maxlen) == m;
      SuffixOfSuffix(all, d, m);
    } else {
      assert s + xs == s;
    }
  }

  /** After the first append, what is still to come follows a suffix of
      everything. */
  lemma AppendThenRest<T>(s: seq<T>, xs: seq<T>, maxlen: nat)
    requires |s| <= maxlen && xs != []
    ensures var s1 := BoundedAppend(s, xs[0], maxlen);
      s1 + xs[1..] == (s + xs)[|s| + 1 - |s1|..]
  {
    var s1 := BoundedAppend(s, xs[0], maxlen);
    assert s + [xs[0]] + xs[1..] == s + xs;
    assert s1 == (s + [xs[0]])[|s| + 1 - |s1|..];
  }

  lemma SuffixOfSuffix<T>(t: seq<T>, d: nat, n: nat)
    requires d + n <= |t|
    ensures t[d..][|t| - d - n..] == t[|t| - n..]
  {
  }

  function Zip<A, B>(s: seq<A>, t: seq<B>): (r: seq<(A, B)>)
    requires |s| == |t|
    ensures |r| == |s| && forall i :: 0 <= i < |r| ==> r[i] == (s[i], t[i])
  {
    seq(|s|, i requires 0 <= i < |s| => (s[i], t[i]))
  }

  /** Two deques of the same bound appended in lockstep stay paired entry
      by entry: the i-th checkpoint is still the one saved at the i-th step. */
  lemma BoundedAppendPairs<A, B>(s: seq<A>, t: seq<B>, x: A, y: B, maxlen: nat)
    requires |s| == |t| <= maxlen
    ensures |BoundedAppend(s, x, maxlen)| == |BoundedAppend(t, y, maxlen)|
    ensures Zip(BoundedAppend(s, x, maxlen), BoundedAppend(t, y, maxlen))
         == BoundedAppend(Zip(s, t), (x, y), maxlen)
  {
    var z := Zip(s, t);
    if maxlen == 0 {
    } else if |s| < maxlen {
      ZipSnoc(s, t, x, y);
    } else {
      ZipSnoc(s[1..], t[1..], x, y);
      assert z[1..] == Zip(s[1..], t[1..]);
    }
  }

  lemma ZipSnoc<A, B>(s: seq<A>, t: seq<B>, x: A, y: B)
    requires |s| == |t|
    ensures Zip(s + [x], t + [y]) == Zip(s, t) + [(x, y)]
  {
  }

  /** The self-play assistant's in-memory pool: past agents and the steps
      at which they were saved, in two parallel deques bounded by window. */
  class SelfPlayAssistant<A> {
    const checkpointFreq: int
    const window: nat
    const replaceFreq: int
    const selfPlayProb: real
    var checkpoints: seq<A>
    var saveSteps: seq<int>

    ghost predicate Valid()
      reads this
    {
      |checkpoints| == |saveSteps| <= window
    }

    constructor (checkpointFreq: int := 5000, window: nat := 10, replaceFreq: int := 1000, selfPlayProb: real := 0.7)
      ensures Valid() && checkpoints == [] && saveSteps == []
      ensures this.checkpointFreq == checkpointFreq && this.window == window
      ensures this.replaceFreq == replaceFreq && this.selfPlayProb == selfPlayProb
    {
      this.checkpointFreq := checkpointFreq;
      this.window := window;
      this.replaceFreq := replaceFreq;
      this.selfPlayProb := selfPlayProb;
      checkpoints := [];
      saveSteps := [];
    }

    /** update_pool, in-memory branch: appends the agent and its step to
        the two deques. */
    method UpdatePool(agent: A, steps: int)
      requires Valid()
      modifies this
      ensures Valid()
      ensures checkpoints == BoundedAppend(old(checkpoints), agent, window)
      ensures saveSteps == BoundedAppend(old(saveSteps), steps, window)
      ensures Zip(checkpoints, saveSteps) == BoundedAppend(Zip(old(checkpoints), old(saveSteps)), (agent, steps), window)
    {
      BoundedAppendPairs(checkpoints, saveSteps, agent, steps, window);
      checkpoints := BoundedAppend(checkpoints, agent, window);
      saveSteps := BoundedAppend(saveSteps, steps, window);
    }

    /** sample_opponent: `draw` is the first random() draw; `pick` is what
        randint(0, len - 1) returns when it is called. With probability
        selfPlayProb the newest checkpoint is chosen, otherwise the picked
        one. An empty pool raises: IndexError on the newest branch,
        ValueError from randint on the other. */
    method SampleOpponent(draw: real, pick: int) returns (r: Result<(nat, A)>)
      requires Valid()
      requires |checkpoints| > 0 && draw >= selfPlayProb ==> 0 <= pick < |checkpoints|
      ensures r.Err? <==> |checkpoints| == 0
      ensures r.Err? ==> r.error == if draw < selfPlayProb then IndexError else ValueError
      ensures r.Ok? ==> r.value.0 < |checkpoints| && r.value.0 < |saveSteps|
      ensures r.Ok? ==> r.value.0 == if draw < selfPlayProb then |checkpoints| - 1 else pick
      ensures r.Ok? ==> r.value.1 == checkpoints[r.value.0]
    {
      var id: int;
      if draw < selfPlayProb {
        id := |checkpoints| - 1;
      } else {
        if |checkpoints| == 0 {
          return Err(ValueError);
        }
        id := pick;
      }
      if id < 0 {
        return Err(IndexError);
      }
      return Ok((id, checkpoints[id]));
    }
  }

  /** The trainer's start-up: a fresh assistant, the agent's copy pooled at
      step 0 (add_checkpoint pools a new network loaded with the agent's
      weights, so later training of the agent does not reach it), and the
      first opponent sampled. With a positive window that opponent is the
      pooled copy, whatever the draw. */
  method StartSelfPlay<A>(agentCopy: A, window: nat, selfPlayProb: real, draw: real, pick: int)
    returns (opponent: Result<(nat, A)>)
    requires draw >= selfPlayProb ==> pick == 0
    ensures window > 0 ==> opponent == Ok((0, agentCopy))
    ensures window == 0 ==> opponent.Err?
  {
    var assistant := new SelfPlayAssistant<A>(window := window, selfPlayProb := selfPlayProb);
    assistant.UpdatePool(agentCopy, 0);
    assert window > 0 ==> assistant.checkpoints == [agentCopy];
    assert window == 0 ==> assistant.checkpoints == [];
    opponent := assistant.SampleOpponent(draw, pick);
    assert window == 0 ==> opponent.Err?;
    assert window > 0 ==> opponent.Ok? && opponent.value.0 == 0;
  }
}
