/** Small shared vocabulary: an optional value and JavaScript's `Array.prototype.find`
    returning the position of the first element that satisfies a predicate. */
module Base {

  datatype Option<T> = None | Some(value: T) {
    function GetOr(default: T): T {
      match this
      case Some(v) => v
      case None => default
    }
  }

  /** Position of the first element of `s` satisfying `p`, or None when there is none. */
  function FindFirst<T>(s: seq<T>, p: T -> bool): (r: Option<nat>)
    ensures r.Some? ==> r.value < |s| && p(s[r.value])
    ensures r.Some? ==> forall j :: 0 <= j < r.value ==> !p(s[j])
    ensures r.None? <==> forall j :: 0 <= j < |s| ==> !p(s[j])
  {
    if s == [] then None
    else if p(s[0]) then Some(0)
    else match FindFirst(s[1..], p)
      case None => None
      case Some(k) => Some(k + 1)
  }

  /** The loop `for (x of xs) { const m = f(x); if (m) out.push(m) }`: the present results, in order. */
  function FilterMap<A, B>(xs: seq<A>, f: A -> Option<B>): seq<B> {
    if xs == [] then []
    else
      var prev := FilterMap(xs[..|xs| - 1], f);
      match f(xs[|xs| - 1])
      case None => prev
      case Some(b) => prev + [b]
  }

  lemma FilterMapStep<A, B>(xs: seq<A>, f: A -> Option<B>, i: nat)
    requires i < |xs|
    ensures FilterMap(xs[..i + 1], f) == FilterMap(xs[..i], f) + match f(xs[i]) case None => [] case Some(b) => [b]
  {
    assert xs[..i + 1][..i] == xs[..i];
  }

  lemma {:induction false} FilterMapPrefix<A, B>(xs: seq<A>, f: A -> Option<B>, m: nat)
    requires m <= |xs|
    ensures FilterMap(xs[..m], f) <= FilterMap(xs, f)
  {
    if m < |xs| {
      FilterMapPrefix(xs[..|xs| - 1], f, m);
      assert xs[..|xs| - 1][..m] == xs[..m];
    } else {
      assert xs[..m] == xs;
    }
  }

  /** The result of element j sits at the position counting the present results before it. */
  lemma FilterMapAt<A, B>(xs: seq<A>, f: A -> Option<B>, j: nat)
    requires j < |xs| && f(xs[j]).Some?
    ensures |FilterMap(xs[..j], f)| < |FilterMap(xs, f)|
    ensures FilterMap(xs, f)[|FilterMap(xs[..j], f)|] == f(xs[j]).value
  {
    FilterMapPrefix(xs, f, j + 1);
    FilterMapStep(xs, f, j);
  }

  /** Every result comes from an element: result k is the k-th present one. */
  lemma {:induction false} FilterMapSource<A, B>(xs: seq<A>, f: A -> Option<B>, k: nat)
    requires k < |FilterMap(xs, f)|
    ensures exists j :: 0 <= j < |xs| && f(xs[j]) == Some(FilterMap(xs, f)[k]) && |FilterMap(xs[..j], f)| == k
  {
    var n := |xs| - 1;
    var prefix := xs[..n];
    if k < |FilterMap(prefix, f)| {
      FilterMapSource(prefix, f, k);
      var j :| 0 <= j < |prefix| && f(prefix[j]) == Some(FilterMap(prefix, f)[k]) && |FilterMap(prefix[..j], f)| == k;
      assert prefix[..j] == xs[..j] && prefix[j] == xs[j];
    } else {
      assert xs[..n] == prefix;
    }
  }

  lemma {:induction false} FilterMapEmpty<A, B>(xs: seq<A>, f: A -> Option<B>)
    ensures FilterMap(xs, f) == [] <==> forall j :: 0 <= j < |xs| ==> f(xs[j]).None?
  {
    if xs != [] {
      var prefix := xs[..|xs| - 1];
      FilterMapEmpty(prefix, f);
      assert forall j :: 0 <= j < |prefix| ==> prefix[j] == xs[j];
    }
  }

  /** The map a loop `for (x of xs) { const kv = f(x); if (kv) m.set(kv[0], kv[1]) }` fills:
      a later write to a key overwrites an earlier one. */
  function Writes<A, K, V>(xs: seq<A>, f: A -> Option<(K, V)>): map<K, V> {
    if xs == [] then map[]
    else
      var m := Writes(xs[..|xs| - 1], f);
      match f(xs[|xs| - 1])
      case None => m
      case Some((k, v)) => m[k := v]
  }

  predicate WritesKey<A, K(==), V>(f: A -> Option<(K, V)>, x: A, key: K) {
    f(x).Some? && f(x).value.0 == key
  }

  /** `value` is what the last element writing `key` writes. */
  ghost predicate LastWrite<A, K, V>(xs: seq<A>, f: A -> Option<(K, V)>, key: K, value: V) {
    exists j :: 0 <= j < |xs| && f(xs[j]) == Some((key, value))
      && forall j' :: j < j' < |xs| ==> !WritesKey(f, xs[j'], key)
  }

  /** Writes of an element that does not write `key` leave `key` as it was. */
  lemma WritesOther<A, K, V>(xs: seq<A>, f: A -> Option<(K, V)>, key: K)
    requires xs != [] && !WritesKey(f, xs[|xs| - 1], key)
    ensures var m := Writes(xs[..|xs| - 1], f);
      (key in Writes(xs, f) <==> key in m) && (key in m ==> Writes(xs, f)[key] == m[key])
  {
  }

  /** A key is present exactly when some element writes it. */
  lemma {:induction false} WritesDomain<A, K, V>(xs: seq<A>, f: A -> Option<(K, V)>, key: K)
    ensures key in Writes(xs, f) <==> exists j :: 0 <= j < |xs| && WritesKey(f, xs[j], key)
  {
    if xs != [] {
      var n := |xs| - 1;
      var prefix := xs[..n];
      WritesDomain(prefix, f, key);
      assert forall j :: 0 <= j < n ==> prefix[j] == xs[j];
      if !WritesKey(f, xs[n], key) {
        WritesOther(xs, f, key);
      }
    }
  }

  /** A present key holds the last write to it. */
  lemma {:induction false} WritesLastWins<A, K, V>(xs: seq<A>, f: A -> Option<(K, V)>, key: K)
    requires key in Writes(xs, f)
    ensures LastWrite(xs, f, key, Writes(xs, f)[key])
  {
    var n := |xs| - 1;
    var prefix := xs[..n];
    if WritesKey(f, xs[n], key) {
      assert f(xs[n]) == Some((key, Writes(xs, f)[key]));
    } else {
      var m := Writes(prefix, f);
      WritesOther(xs, f, key);
      WritesLastWins(prefix, f, key);
      var j :| 0 <= j < n && f(prefix[j]) == Some((key, m[key]))
        && forall j' :: j < j' < n ==> !WritesKey(f, prefix[j'], key);
      assert f(xs[j]) == Some((key, m[key]));
      assert forall j' :: j < j' < n ==> xs[j'] == prefix[j'];
    }
  }

  /** The last write is the value in the map. */
  lemma LastWriteIsValue<A, K, V>(xs: seq<A>, f: A -> Option<(K, V)>, key: K, value: V)
    requires LastWrite(xs, f, key, value)
    ensures key in Writes(xs, f) && Writes(xs, f)[key] == value
  {
    WritesDomain(xs, f, key);
    WritesLastWins(xs, f, key);
    var j :| 0 <= j < |xs| && f(xs[j]) == Some((key, value))
      && forall j' :: j < j' < |xs| ==> !WritesKey(f, xs[j'], key);
    var i :| 0 <= i < |xs| && f(xs[i]) == Some((key, Writes(xs, f)[key]))
      && forall j' :: i < j' < |xs| ==> !WritesKey(f, xs[j'], key);
    assert WritesKey(f, xs[i], key) && WritesKey(f, xs[j], key);
    assert !(i < j) && !(j < i);
  }

  /** A promise chain over `xs`: each step starts from the state the previous one left, and
      every step's result is recorded in order. */
  function Chain<S, C, O>(st: S, xs: seq<C>, step: (S, C) -> (S, O)): (r: (S, seq<O>))
    ensures |r.1| == |xs|
  {
    if xs == [] then (st, [])
    else
      var prev := Chain(st, xs[..|xs| - 1], step);
      var next := step(prev.0, xs[|xs| - 1]);
      (next.0, prev.1 + [next.1])
  }

  lemma ChainStep<S, C, O>(st: S, xs: seq<C>, step: (S, C) -> (S, O), i: nat)
    requires i < |xs|
    ensures var prev := Chain(st, xs[..i], step);
      var next := step(prev.0, xs[i]);
      Chain(st, xs[..i + 1], step) == (next.0, prev.1 + [next.1])
  {
    assert xs[..i + 1][..i] == xs[..i];
  }

  /** Step k runs on exactly the state the steps before it left, and its result is in position k. */
  lemma {:induction false} ChainAt<S, C, O>(st: S, xs: seq<C>, step: (S, C) -> (S, O), k: nat)
    requires k < |xs|
    ensures Chain(st, xs, step).1[k] == step(Chain(st, xs[..k], step).0, xs[k]).1
  {
    var n := |xs| - 1;
    if k < n {
      ChainAt(st, xs[..n], step, k);
      assert xs[..n][..k] == xs[..k];
    } else {
      assert xs[..k] == xs[..n];
    }
  }

  /** Chaining `a` and then `b` is chaining `a + b`. */
  lemma {:induction false} ChainSplit<S, C, O>(st: S, a: seq<C>, b: seq<C>, step: (S, C) -> (S, O))
    ensures var first := Chain(st, a, step);
      var second := Chain(first.0, b, step);
      Chain(st, a + b, step) == (second.0, first.1 + second.1)
    decreases |b|
  {
    if b == [] {
      assert a + b == a;
      assert Chain(st, a, step).1 + [] == Chain(st, a, step).1;
    } else {
      var b' := b[..|b| - 1];
      ChainSplit(st, a, b', step);
      assert (a + b)[..|a + b| - 1] == a + b';
      assert (a + b)[|a + b| - 1] == b[|b| - 1];
      var first := Chain(st, a, step);
      var prev := Chain(first.0, b', step);
      var next := step(prev.0, b[|b| - 1]);
      assert Chain(first.0, b, step) == (next.0, prev.1 + [next.1]);
      assert Chain(st, a + b, step) == (next.0, (first.1 + prev.1) + [next.1]);
      assert (first.1 + prev.1) + [next.1] == first.1 + (prev.1 + [next.1]);
    }
  }
}
