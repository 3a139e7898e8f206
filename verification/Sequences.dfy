/** Facts about sequences that the encodings and the scatter loops share. */
module Sequences {

  /** How many of the first `k` positions are taken: the row that belongs at position `k`. */
  function Rank(flags: seq<bool>, k: nat): (n: nat)
    requires k <= |flags|
    ensures n <= k
  {
    if k == 0 then 0 else Rank(flags, k - 1) + if flags[k - 1] then 1 else 0
  }

  function CountTrue(flags: seq<bool>): (n: nat)
    ensures n <= |flags|
  {
    Rank(flags, |flags|)
  }

  /** Where `flags` is true the next of `chosen`, elsewhere the next of `others`. */
  function Merge<T>(flags: seq<bool>, chosen: seq<T>, others: seq<T>): (r: seq<T>)
    requires |chosen| == CountTrue(flags) && |others| == |flags| - CountTrue(flags)
    ensures |r| == |flags|
  {
    seq(|flags|, k requires 0 <= k < |flags| =>
      RankBounds(flags, k);
      if flags[k] then chosen[Rank(flags, k)] else others[k - Rank(flags, k)])
  }

  function Repeat<T>(v: T, n: nat): (r: seq<T>)
    ensures |r| == n && forall i :: 0 <= i < n ==> r[i] == v
  {
    seq(n, _ => v)
  }

  lemma SliceOfSlice<T>(s: seq<T>, from: nat, to: nat, i: nat, j: nat)
    requires from <= to <= |s| && i <= j <= to - from
    ensures s[from..to][i..j] == s[from + i..from + j]
  {
    var part, direct := s[from..to][i..j], s[from + i..from + j];
    forall k | 0 <= k < j - i ensures part[k] == direct[k] {
      assert s[from..to][i + k] == s[from + i + k];
    }
  }

  // ----- ranks

  lemma {:induction false} RankMono(flags: seq<bool>, j: nat, k: nat)
    requires j <= k <= |flags|
    ensures Rank(flags, j) <= Rank(flags, k) <= Rank(flags, j) + (k - j)
    decreases k - j
  {
    if j < k { RankMono(flags, j, k - 1); }
  }

  lemma RankBounds(flags: seq<bool>, k: nat)
    requires k < |flags|
    ensures flags[k] ==> Rank(flags, k) < CountTrue(flags)
    ensures !flags[k] ==> k - Rank(flags, k) < |flags| - CountTrue(flags)
  {
    RankMono(flags, k + 1, |flags|);
  }

  lemma RankNext(flags: seq<bool>, k: nat)
    requires k < |flags|
    ensures Rank(flags, k + 1) == Rank(flags, k) + if flags[k] then 1 else 0
  {
  }

  lemma RankAll(flags: seq<bool>)
    ensures Rank(flags, |flags|) == CountTrue(flags) && Rank(flags, 0) == 0
  {
  }

  /** Ranks inside a slice are ranks from its start on. */
  lemma {:induction false} RankInSlice(flags: seq<bool>, i: nat, j: nat, k: nat)
    requires i <= j <= |flags| && k <= j - i
    ensures Rank(flags[i..j], k) == Rank(flags, i + k) - Rank(flags, i)
    decreases k
  {
    if k > 0 { RankInSlice(flags, i, j, k - 1); }
  }

  lemma RankOfSlice(flags: seq<bool>, i: nat, j: nat)
    requires i <= j <= |flags|
    ensures CountTrue(flags[i..j]) == Rank(flags, j) - Rank(flags, i)
  {
    hide Rank;
    RankInSlice(flags, i, j, j - i);
  }

  /** Only the positions before `k` matter. */
  lemma RankOfPrefix(flags: seq<bool>, k: nat)
    requires k <= |flags|
    ensures CountTrue(flags[..k]) == Rank(flags, k)
  {
    hide Rank, CountTrue;
    RankAll(flags);
    assert flags[..k] == flags[0..k];
    RankOfSlice(flags, 0, k);
  }

  lemma RankConcat(xs: seq<bool>, ys: seq<bool>, k: nat)
    requires k <= |xs| + |ys|
    ensures Rank(xs + ys, k) == if k <= |xs| then Rank(xs, k) else CountTrue(xs) + Rank(ys, k - |xs|)
    ensures CountTrue(xs + ys) == CountTrue(xs) + CountTrue(ys)
  {
    hide Rank, CountTrue;
    var all := xs + ys;
    assert all[0..|xs|] == xs && all[|xs|..|all|] == ys;
    RankAll(all);
    RankAll(xs);
    RankAll(ys);
    RankInSlice(all, 0, |xs|, |xs|);
    RankInSlice(all, |xs|, |all|, |ys|);
    if k <= |xs| { RankInSlice(all, 0, |xs|, k); } else { RankInSlice(all, |xs|, |all|, k - |xs|); }
  }

  lemma CountFirst(flags: seq<bool>)
    requires flags != []
    ensures CountTrue(flags) == (if flags[0] then 1 else 0) + CountTrue(flags[1..])
  {
    hide Rank, CountTrue;
    assert flags[1..] == flags[1..|flags|];
    RankAll(flags);
    RankOfSlice(flags, 1, |flags|);
    RankNext(flags, 0);
  }

  /** When as many positions are taken as there are, all of them are, and each row is already in place. */
  lemma {:induction false} FullPrefix(flags: seq<bool>, k: nat)
    requires k <= |flags| && Rank(flags, k) == k
    ensures forall j :: 0 <= j < k ==> flags[j] && Rank(flags, j) == j
  {
    forall j | 0 <= j < k ensures flags[j] && Rank(flags, j) == j {
      RankNext(flags, j);
      RankMono(flags, j + 1, k);
    }
  }

  lemma MergeAt<T>(flags: seq<bool>, chosen: seq<T>, others: seq<T>, k: nat)
    requires |chosen| == CountTrue(flags) && |others| == |flags| - CountTrue(flags) && k < |flags|
    ensures Rank(flags, k) <= k
    ensures flags[k] ==> Rank(flags, k) < |chosen| && Merge(flags, chosen, others)[k] == chosen[Rank(flags, k)]
    ensures !flags[k] ==> k - Rank(flags, k) < |others| && Merge(flags, chosen, others)[k] == others[k - Rank(flags, k)]
  {
    RankBounds(flags, k);
  }

  lemma RankBound(flags: seq<bool>, k: nat)
    requires k < |flags| && flags[k]
    ensures Rank(flags, k) < CountTrue(flags)
  {
    RankBounds(flags, k);
  }

  /** Where no flag is set the rank stays. */
  lemma {:induction false} RankFlat(flags: seq<bool>, j: nat, k: nat)
    requires j <= k <= |flags| && forall i :: j <= i < k ==> !flags[i]
    ensures Rank(flags, k) == Rank(flags, j)
    decreases k
  {
    if j < k { RankFlat(flags, j, k - 1); }
  }

  lemma {:induction false} RankRepeat(n: nat, k: nat)
    requires k <= n
    ensures Rank(Repeat(true, n), k) == k
  {
    if k > 0 { RankRepeat(n, k - 1); }
  }

  lemma SliceRanks(flags: seq<bool>, i: nat, j: nat)
    requires i <= j <= |flags|
    ensures Rank(flags, i) <= Rank(flags, j) <= CountTrue(flags)
    ensures i - Rank(flags, i) <= j - Rank(flags, j) <= |flags| - CountTrue(flags)
    ensures CountTrue(flags[i..j]) == Rank(flags, j) - Rank(flags, i)
  {
    hide Rank;
    RankMono(flags, i, j);
    RankMono(flags, j, |flags|);
    RankOfSlice(flags, i, j);
  }

  /** A slice of a merge is the merge of the slices. */
  lemma MergeSlice<T>(flags: seq<bool>, chosen: seq<T>, others: seq<T>, i: nat, j: nat)
    requires |chosen| == CountTrue(flags) && |others| == |flags| - CountTrue(flags) && i <= j <= |flags|
    ensures Rank(flags, i) <= Rank(flags, j) <= |chosen| && i - Rank(flags, i) <= j - Rank(flags, j) <= |others|
    ensures CountTrue(flags[i..j]) == Rank(flags, j) - Rank(flags, i)
    ensures Merge(flags, chosen, others)[i..j] ==
      Merge(flags[i..j], chosen[Rank(flags, i)..Rank(flags, j)], others[i - Rank(flags, i)..j - Rank(flags, j)])
  {
    hide Rank, Merge;
    SliceRanks(flags, i, j);
    var part, c := flags[i..j], chosen[Rank(flags, i)..Rank(flags, j)];
    var o := others[i - Rank(flags, i)..j - Rank(flags, j)];
    var whole, merged := Merge(flags, chosen, others), Merge(part, c, o);
    forall k | 0 <= k < |part| ensures merged[k] == whole[i + k] {
      RankInSlice(flags, i, j, k);
      MergeAt(flags, chosen, others, i + k);
      MergeAt(part, c, o, k);
    }
  }

  // ----- runs

  function Sum(lengths: seq<nat>): nat
  {
    if lengths == [] then 0 else lengths[0] + Sum(lengths[1..])
  }

  /** Runs written out. */
  function Expand<T>(lengths: seq<nat>, values: seq<T>): (r: seq<T>)
    requires |lengths| == |values|
    ensures |r| == Sum(lengths)
  {
    if lengths == [] then [] else Repeat(values[0], lengths[0]) + Expand(lengths[1..], values[1..])
  }

  lemma {:induction false} SumConcat(a: seq<nat>, b: seq<nat>)
    ensures Sum(a + b) == Sum(a) + Sum(b)
  {
    if a == [] {
      assert a + b == b;
    } else {
      assert (a + b)[1..] == a[1..] + b;
      SumConcat(a[1..], b);
    }
  }

  lemma SumNext(lengths: seq<nat>, k: nat)
    requires k < |lengths|
    ensures Sum(lengths[..k + 1]) == Sum(lengths[..k]) + lengths[k]
    ensures Sum(lengths[..k + 1]) <= Sum(lengths)
  {
    assert lengths[..k + 1] == lengths[..k] + [lengths[k]];
    SumConcat(lengths[..k], [lengths[k]]);
    assert Sum([lengths[k]][1..]) == 0;
    assert lengths == lengths[..k + 1] + lengths[k + 1..];
    SumConcat(lengths[..k + 1], lengths[k + 1..]);
  }

  lemma SumOfSlice(lengths: seq<nat>, i: nat, j: nat)
    requires i <= j <= |lengths|
    ensures Sum(lengths[..j]) == Sum(lengths[..i]) + Sum(lengths[i..j]) <= Sum(lengths)
  {
    assert lengths[..j] == lengths[..i] + lengths[i..j];
    SumConcat(lengths[..i], lengths[i..j]);
    SumMono(lengths, j, |lengths|);
    SumAll(lengths);
  }

  lemma SumAll(lengths: seq<nat>)
    ensures Sum(lengths[..|lengths|]) == Sum(lengths) && Sum(lengths[..0]) == 0
  {
    assert lengths[..|lengths|] == lengths;
  }

  lemma {:induction false} SumMono(lengths: seq<nat>, j: nat, k: nat)
    requires j <= k <= |lengths|
    ensures Sum(lengths[..j]) <= Sum(lengths[..k])
    decreases k - j
  {
    if j < k {
      SumMono(lengths, j, k - 1);
      SumNext(lengths, k - 1);
    }
  }

  /** Row `i` of run number `k` holds that run's value. */
  lemma {:induction false} ExpandAt<T>(lengths: seq<nat>, values: seq<T>, k: nat, i: nat)
    requires |lengths| == |values| && k < |lengths|
    requires Sum(lengths[..k]) <= i < Sum(lengths[..k + 1])
    ensures i < |Expand(lengths, values)| && Expand(lengths, values)[i] == values[k]
  {
    SumNext(lengths, k);
    if k > 0 {
      assert lengths[..k][1..] == lengths[1..][..k - 1];
      assert lengths[..k + 1][1..] == lengths[1..][..k];
      ExpandAt(lengths[1..], values[1..], k - 1, i - lengths[0]);
    } else {
      assert lengths[..1] == [lengths[0]] && lengths[..0] == [];
      assert Sum([lengths[0]][1..]) == 0;
    }
  }

}
