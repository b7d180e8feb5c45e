/** Option and Result values, and the exceptions the parsers and tasks raise.
    A Python exception that aborts an operation becomes a `Failure` carrying
    the exception's class. */
module Wrappers {

  datatype Option<+T> = None | Some(value: T)

  /** The Python exception classes the modelled code can raise. */
  datatype Error =
    | ValueError(msg: string)
    | KeyError(key: string)
    | AssertionError(msg: string)
    | TypeError(msg: string)
    | AttributeError(msg: string)
    | IndexError(msg: string)
    | RuntimeError(msg: string)
    | UnboundLocalError(name: string)

  datatype Result<+T> = Success(value: T) | Failure(error: Error) {

    predicate IsFailure() {
      Failure?
    }

    function PropagateFailure<U>(): Result<U>
      requires Failure?
    {
      Failure(error)
    }

    function Extract(): T
      requires Success?
    {
      value
    }
  }

  /** Looks up a key the way `d[k]` does: a missing key raises KeyError. */
  function Lookup<V>(m: map<string, V>, k: string): (r: Result<V>)
    ensures r.Success? <==> k in m
    ensures r.Success? ==> r.value == m[k]
    ensures r.Failure? ==> r.error == KeyError(k)
  {
    if k in m then Success(m[k]) else Failure(KeyError(k))
  }

  /** The elements whose result under `f` is a present value, in order. */
  function Chosen<X, T>(f: X -> Result<Option<T>>, xs: seq<X>): (ys: seq<X>)
    ensures |ys| <= |xs|
    ensures forall j :: 0 <= j < |ys| ==> ys[j] in xs && f(ys[j]).Success? && f(ys[j]).value.Some?
  {
    if |xs| == 0 then []
    else (if f(xs[0]).Success? && f(xs[0]).value.Some? then [xs[0]] else []) + Chosen(f, xs[1..])
  }

  /** A generator loop over `xs` that yields `f`'s present values: the
      first failure aborts, an absent value yields nothing. */
  function CollectSome<X, T>(f: X -> Result<Option<T>>, xs: seq<X>): (r: Result<seq<T>>)
    ensures r.Success? <==> forall i :: 0 <= i < |xs| ==> f(xs[i]).Success?
    ensures r.Success? ==> |r.value| == |Chosen(f, xs)|
    ensures r.Success? ==> forall j :: 0 <= j < |r.value| ==> f(Chosen(f, xs)[j]) == Success(Some(r.value[j]))
  {
    if |xs| == 0 then Success([])
    else
      var first :- f(xs[0]);
      assert forall i :: 1 <= i < |xs| ==> xs[i] == xs[1..][i - 1];
      var rest :- CollectSome(f, xs[1..]);
      var head := if first.Some? then [first.value] else [];
      var chosenHead := if first.Some? then [xs[0]] else [];
      assert Chosen(f, xs) == chosenHead + Chosen(f, xs[1..]);
      Success(head + rest)
  }

  /** A loop that applies `f` to every element in order; the first failure
      aborts. */
  function MapAll<X, T>(f: X -> Result<T>, xs: seq<X>): (r: Result<seq<T>>)
    ensures r.Success? <==> forall i :: 0 <= i < |xs| ==> f(xs[i]).Success?
    ensures r.Success? ==> |r.value| == |xs|
    ensures r.Success? ==> forall i :: 0 <= i < |xs| ==> f(xs[i]) == Success(r.value[i])
  {
    if |xs| == 0 then Success([])
    else
      var first :- f(xs[0]);
      assert forall i :: 1 <= i < |xs| ==> xs[i] == xs[1..][i - 1];
      var rest :- MapAll(f, xs[1..]);
      Success([first] + rest)
  }

  /** The blocks of `xss` joined in order. */
  function Concat<T>(xss: seq<seq<T>>): seq<T> {
    if |xss| == 0 then [] else xss[0] + Concat(xss[1..])
  }

  /** Joining blocks of one common length `n` gives `|xss| * n` elements. */
  lemma {:induction false} ConcatLength<T>(xss: seq<seq<T>>, n: nat)
    requires forall i :: 0 <= i < |xss| ==> |xss[i]| == n
    ensures |Concat(xss)| == |xss| * n
    decreases |xss|
  {
    if |xss| > 0 {
      assert forall i :: 1 <= i < |xss| ==> xss[1..][i - 1] == xss[i];
      ConcatLength(xss[1..], n);
      assert |xss| * n == n + (|xss| - 1) * n;
    }
  }

  /** In blocks of one common length `n`, element `i` of block `b` sits at
      position `b * n + i` of the joined sequence. */
  lemma {:induction false} ConcatAt<T>(xss: seq<seq<T>>, n: nat, b: nat, i: nat)
    requires forall k :: 0 <= k < |xss| ==> |xss[k]| == n
    requires b < |xss| && i < n
    ensures b * n + i < |Concat(xss)|
    ensures Concat(xss)[b * n + i] == xss[b][i]
    decreases b
  {
    ConcatLength(xss, n);
    if b > 0 {
      assert forall k :: 1 <= k < |xss| ==> xss[1..][k - 1] == xss[k];
      ConcatAt(xss[1..], n, b - 1, i);
      assert b * n + i == n + ((b - 1) * n + i);
    }
  }

  /** The blocks `f` gives for each of `xs`, joined in order, failing with
      the first failure; every block has `n` elements. */
  function ConcatMap<X, T>(f: X -> Result<seq<T>>, xs: seq<X>, n: nat): (r: Result<seq<T>>)
    requires forall i :: 0 <= i < |xs| && f(xs[i]).Success? ==> |f(xs[i]).value| == n
    ensures r.Success? <==> forall i :: 0 <= i < |xs| ==> f(xs[i]).Success?
    ensures r.Success? ==> |r.value| == |xs| * n
  {
    var blocks :- MapAll(f, xs);
    ConcatLength(blocks, n);
    Success(Concat(blocks))
  }

  /** Element `i` of block `b` of a successful `ConcatMap`, at position
      `k = b * n + i`. */
  lemma ConcatMapAt<X, T>(f: X -> Result<seq<T>>, xs: seq<X>, n: nat, b: nat, i: nat, k: nat)
    requires forall j :: 0 <= j < |xs| && f(xs[j]).Success? ==> |f(xs[j]).value| == n
    requires ConcatMap(f, xs, n).Success? && b < |xs| && i < n && k == b * n + i
    ensures f(xs[b]).Success?
    ensures k < |ConcatMap(f, xs, n).value|
    ensures ConcatMap(f, xs, n).value[k] == f(xs[b]).value[i]
  {
    var blocks := MapAll(f, xs).value;
    assert ConcatMap(f, xs, n) == Success(Concat(blocks));
    ConcatAt(blocks, n, b, i);
  }

  /** The first present value of `f` over `xs`, scanning in order. */
  function FirstSome<X, T>(f: X -> Option<T>, xs: seq<X>): (r: Option<T>)
    ensures r.Some? <==> exists i :: 0 <= i < |xs| && f(xs[i]).Some?
    ensures r.Some? ==> exists i ::
      && 0 <= i < |xs| && f(xs[i]) == r
      && forall j :: 0 <= j < i ==> f(xs[j]).None?
  {
    if |xs| == 0 then None
    else if f(xs[0]).Some? then f(xs[0])
    else
      var r := FirstSome(f, xs[1..]);
      assert forall i :: 1 <= i < |xs| ==> xs[i] == xs[1..][i - 1];
      if r.Some? then
        ghost var i :| 0 <= i < |xs[1..]| && f(xs[1..][i]) == r && forall j :: 0 <= j < i ==> f(xs[1..][j]).None?;
        assert f(xs[i + 1]) == r;
        r
      else r
  }
}
