/** The optional value used throughout the model for Python's `None` and for
    dictionary lookups that may miss. */
module Wrappers {

  datatype Option<+T> = None | Some(value: T) {

    /** The value, or `default` when there is none (Python's `d.get(k, default)`). */
    function GetOr(default: T): T {
      match this
      case Some(v) => v
      case None => default
    }
  }

  // ---------------------------------------------------------------------
  // Sequences of outcomes

  /** The values present in a sequence of outcomes, in order. */
  function Present<T>(os: seq<Option<T>>): (r: seq<T>)
    ensures |r| <= |os|
    decreases |os|
  {
    if os == [] then []
    else Present(os[..|os| - 1]) + (if os[|os| - 1].Some? then [os[|os| - 1].value] else [])
  }

  /** The positions of the present values. */
  function PresentAt<T>(os: seq<Option<T>>): seq<nat>
    decreases |os|
  {
    if os == [] then []
    else PresentAt(os[..|os| - 1]) + (if os[|os| - 1].Some? then [|os| - 1] else [])
  }

  /** `Present` keeps exactly the present values, each once and in order. */
  lemma {:induction false} PresentComesFrom<T>(os: seq<Option<T>>)
    ensures var src, r := PresentAt(os), Present(os);
      && |src| == |r|
      && (forall j :: 0 <= j < |src| ==> src[j] < |os| && os[src[j]] == Some(r[j]))
      && (forall i, j :: 0 <= i < j < |src| ==> src[i] < src[j])
      && (forall i :: 0 <= i < |os| && os[i].Some? ==> i in src)
    decreases |os|
  {
    if os != [] {
      var n := |os| - 1;
      var init := os[..n];
      PresentComesFrom(init);
      var src0, r0 := PresentAt(init), Present(init);
      var src, r := PresentAt(os), Present(os);
      forall j | 0 <= j < |src|
        ensures src[j] < |os| && os[src[j]] == Some(r[j])
      {
        if j < |src0| {
          assert src[j] == src0[j] && r[j] == r0[j];
        }
      }
      forall i | 0 <= i < |os| && os[i].Some?
        ensures i in src
      {
        if i < n {
          assert os[i] == init[i];
          assert i in src0;
        } else {
          assert src[|src0|] == n;
        }
      }
    }
  }

  lemma PresentSnoc<T>(os: seq<Option<T>>, i: nat)
    requires i < |os|
    ensures Present(os[..i + 1]) == Present(os[..i]) + (if os[i].Some? then [os[i].value] else [])
  {
    assert os[..i + 1][..i] == os[..i];
  }

  /** The first present value, if any. */
  function FirstPresent<T>(os: seq<Option<T>>): Option<T> {
    var r := Present(os);
    if r == [] then None else Some(r[0])
  }

  /** The first present value is the value at the first position that has one. */
  lemma FirstPresentIsFirst<T>(os: seq<Option<T>>)
    ensures FirstPresent(os).None? <==> forall i :: 0 <= i < |os| ==> os[i].None?
    ensures FirstPresent(os).Some? ==>
      exists k :: 0 <= k < |os| && os[k] == FirstPresent(os) && forall i :: 0 <= i < k ==> os[i].None?
  {
    PresentComesFrom(os);
    var src := PresentAt(os);
    if src != [] {
      var k := src[0];
      forall i | 0 <= i < k ensures os[i].None? {
        assert os[i].Some? ==> i in src;
      }
    }
  }

  /** Scanning one more outcome keeps the first value found so far. */
  lemma FirstPresentSnoc<T>(os: seq<Option<T>>, i: nat)
    requires i < |os|
    ensures FirstPresent(os[..i + 1]) == if FirstPresent(os[..i]).Some? then FirstPresent(os[..i]) else os[i]
  {
    PresentSnoc(os, i);
  }

  // ---------------------------------------------------------------------
  // Lists as sets (`set(xs)`)

  /** The values occurring in `xs`. */
  function Elems<T(==)>(xs: seq<T>): set<T> {
    set x | x in xs
  }

  /** No value occurs twice in `xs`. */
  predicate Distinct<T(==)>(xs: seq<T>) {
    forall i, j :: 0 <= i < j < |xs| ==> xs[i] != xs[j]
  }

  /** A list has at most as many distinct values as entries, and exactly as
      many when no value repeats: `len(set(xs)) == len(xs)` means no duplicates. */
  lemma {:induction false} DistinctCount<T>(xs: seq<T>)
    ensures |Elems(xs)| <= |xs|
    ensures |Elems(xs)| == |xs| <==> Distinct(xs)
    decreases |xs|
  {
    if xs != [] {
      var init := xs[..|xs| - 1];
      var last := xs[|xs| - 1];
      DistinctCount(init);
      assert xs == init + [last];
      assert Elems(xs) == Elems(init) + {last};
      if last in init {
        var k :| 0 <= k < |init| && init[k] == last;
        assert xs[k] == xs[|xs| - 1];
        assert Elems(xs) == Elems(init);
      } else {
        assert Distinct(xs) <==> Distinct(init) by {
          if Distinct(init) {
            forall i, j | 0 <= i < j < |xs| ensures xs[i] != xs[j] {
              if j == |xs| - 1 {
                assert xs[i] == init[i];
              } else {
                assert xs[i] == init[i] && xs[j] == init[j];
              }
            }
          }
          if Distinct(xs) {
            forall i, j | 0 <= i < j < |init| ensures init[i] != init[j] {
              assert xs[i] == init[i] && xs[j] == init[j];
            }
          }
        }
      }
    }
  }
}
