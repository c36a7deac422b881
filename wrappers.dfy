/** A value that may be absent: JavaScript's `undefined`/`null` beside a present value. */
module Wrappers {

  datatype Option<+T> = None | Some(value: T) {

    /** The present value, or `default` when absent: a default parameter, which an absent value
        takes. */
    function GetOr(default: T): T {
      match this
      case Some(v) => v
      case None => default
    }

    /** The value as a one-element sequence, or the empty sequence. */
    function ToSeq(): (r: seq<T>)
      ensures |r| <= 1 && (r == [] <==> None?)
    {
      match this
      case Some(v) => [v]
      case None => []
    }
  }

  /** The present values of `opts`, in order. */
  function Present<T>(opts: seq<Option<T>>): (r: seq<T>)
    ensures |r| <= |opts|
  {
    if opts == [] then []
    else opts[0].ToSeq() + Present(opts[1..])
  }

  /** The positions, from `k` on, at which `opts` holds a value. */
  function PresentFrom<T>(opts: seq<Option<T>>, k: nat): seq<nat>
    decreases |opts| - k
  {
    if k >= |opts| then []
    else (if opts[k].Some? then [k] else []) + PresentFrom(opts, k + 1)
  }

  /** The present values of `opts[k..]` are the values at the positions `PresentFrom(opts, k)`,
      one each and in order, and those positions are all the positions from `k` on that hold a
      value. */
  lemma {:induction false} PresentFollowsPositions<T>(opts: seq<Option<T>>, k: nat)
    requires k <= |opts|
    ensures var vals := Present(opts[k..]); var ix := PresentFrom(opts, k);
      && |vals| == |ix| <= |opts| - k
      && (forall i :: 0 <= i < |ix| ==> k <= ix[i] < |opts| && opts[ix[i]] == Some(vals[i]))
      && (forall i, j :: 0 <= i < j < |ix| ==> ix[i] < ix[j])
      && (forall j :: k <= j < |opts| && opts[j].Some? ==> j in ix)
    decreases |opts| - k
  {
    if k < |opts| {
      PresentFollowsPositions(opts, k + 1);
      assert opts[k..][1..] == opts[k + 1..];
      var tail := Present(opts[k + 1..]);
      var later := PresentFrom(opts, k + 1);
      assert Present(opts[k..]) == opts[k].ToSeq() + tail;
      if opts[k].Some? {
        assert PresentFrom(opts, k) == [k] + later;
      } else {
        assert PresentFrom(opts, k) == later;
      }
    }
  }

  /** Every present value comes from some position of `opts`. */
  lemma {:induction false} PresentValuesOccur<T>(opts: seq<Option<T>>)
    ensures forall v :: v in Present(opts) ==> Some(v) in opts
  {
    if opts != [] {
      PresentValuesOccur(opts[1..]);
      assert forall o :: o in opts[1..] ==> o in opts;
    }
  }
}
