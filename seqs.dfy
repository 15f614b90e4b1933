/** Sequence operations of JavaScript stated once and reused by every source file of the model:
    `Array.prototype.find`, the leftmost scan of a regular expression match, flattening,
    `flatMap` and `Object.fromEntries`. */
module Seqs {
  import opened Wrappers

  /** Index of the first element of `s` that satisfies `p`, as `s.find(p)` selects it. */
  function FindFirst<T>(s: seq<T>, p: T -> bool): (r: Option<nat>)
    ensures r.Some? ==> r.value < |s| && p(s[r.value])
    ensures r.Some? ==> forall j :: 0 <= j < r.value ==> !p(s[j])
    ensures r.None? <==> forall j :: 0 <= j < |s| ==> !p(s[j])
  {
    if s == [] then None
    else if p(s[0]) then Some(0)
    else
      match FindFirst(s[1..], p)
      case None => None
      case Some(k) => Some(k + 1)
  }

  /** The elements `f(0)`, ..., `f(n - 1)`, as a loop that appends one per step builds them. */
  function Tabulate<T>(f: nat --> T, n: nat): (r: seq<T>)
    requires forall i :: 0 <= i < n ==> f.requires(i)
    ensures |r| == n && forall i :: 0 <= i < n ==> r[i] == f(i)
  {
    if n == 0 then [] else Tabulate(f, n - 1) + [f(n - 1)]
  }

  /** Membership in a non-empty sequence: in its front or its last element. */
  lemma InFrontOrLast<T>(s: seq<T>, x: T)
    requires s != []
    ensures x in s <==> x in s[..|s| - 1] || x == s[|s| - 1]
  {
    assert s == s[..|s| - 1] + [s[|s| - 1]];
  }

  /** Concatenation of a sequence of sequences, in order. */
  function Flatten<T>(ss: seq<seq<T>>): (r: seq<T>)
    ensures ss == [] ==> r == []
  {
    if ss == [] then [] else Flatten(ss[..|ss| - 1]) + ss[|ss| - 1]
  }

  lemma {:induction false} FlattenAppend<T>(ss: seq<seq<T>>, tt: seq<seq<T>>)
    ensures Flatten(ss + tt) == Flatten(ss) + Flatten(tt)
    decreases |tt|
  {
    if tt == [] {
      assert ss + tt == ss;
    } else {
      var n := |tt| - 1;
      assert (ss + tt)[..|ss + tt| - 1] == ss + tt[..n];
      FlattenAppend(ss, tt[..n]);
    }
  }

  /** `xs.flatMap(f)`: the sequences `f` gives for the elements, concatenated in order. */
  function FlatMap<T, U>(xs: seq<T>, f: T -> seq<U>): (r: seq<U>)
    ensures xs == [] ==> r == []
  {
    if xs == [] then [] else FlatMap(xs[..|xs| - 1], f) + f(xs[|xs| - 1])
  }

  lemma {:induction false} FlatMapAppend<T, U>(xs: seq<T>, ys: seq<T>, f: T -> seq<U>)
    ensures FlatMap(xs + ys, f) == FlatMap(xs, f) + FlatMap(ys, f)
    decreases |ys|
  {
    if ys == [] {
      assert xs + ys == xs;
    } else {
      var n := |ys| - 1;
      assert (xs + ys)[..|xs + ys| - 1] == xs + ys[..n];
      FlatMapAppend(xs, ys[..n], f);
    }
  }

  /** `Object.fromEntries(entries)`: the entries are added in order, so of two entries with the
      same key the later one wins. */
  function FromEntries<K, V>(entries: seq<(K, V)>): (m: map<K, V>)
    ensures m.Keys == set i | 0 <= i < |entries| :: entries[i].0
  {
    if entries == [] then map[]
    else
      var n := |entries| - 1;
      var init := entries[..n];
      var m := FromEntries(init)[entries[n].0 := entries[n].1];
      assert forall i :: 0 <= i < n ==> init[i] == entries[i];
      m
  }

  /** The value under a key is the one of the LAST entry with that key. */
  lemma {:induction false} FromEntriesLast<K, V>(entries: seq<(K, V)>, j: nat)
    requires j < |entries| && forall j' :: j < j' < |entries| ==> entries[j'].0 != entries[j].0
    ensures FromEntries(entries)[entries[j].0] == entries[j].1
  {
    var n := |entries| - 1;
    if j < n {
      var init := entries[..n];
      assert init[j] == entries[j];
      FromEntriesLast(init, j);
    }
  }

  /** Applying `f` to every value of the entries is applying it to every value of the object. */
  lemma {:induction false} FromEntriesMapValues<K, V, W>(entries: seq<(K, V)>, mapped: seq<(K, W)>, f: V -> W)
    requires |mapped| == |entries|
    requires forall i :: 0 <= i < |entries| ==> mapped[i] == (entries[i].0, f(entries[i].1))
    ensures FromEntries(mapped).Keys == FromEntries(entries).Keys
    ensures forall k :: k in FromEntries(mapped) ==> FromEntries(mapped)[k] == f(FromEntries(entries)[k])
  {
    if entries != [] {
      var n := |entries| - 1;
      FromEntriesMapValues(entries[..n], mapped[..n], f);
    }
  }
}
