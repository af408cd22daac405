/** The failure-or-value wrapper used where the program raises an exception. */
module Options {

  /** `None` stands for a Python exception (an index out of range, a missing match). */
  datatype Option<+T> = None | Some(value: T)

  /**
   * A list comprehension `[f(x) for x in xs]` whose element expression may raise:
   * the results in order, or `None` as soon as one element raises.
   */
  function AllSome<A, B>(f: A -> Option<B>, xs: seq<A>): (r: Option<seq<B>>)
    ensures r.Some? <==> forall k :: 0 <= k < |xs| ==> f(xs[k]).Some?
    ensures r.Some? ==> |r.value| == |xs| && forall k :: 0 <= k < |xs| ==> f(xs[k]) == Some(r.value[k])
  {
    if |xs| == 0 then Some([])
    else
      var rest := AllSome(f, xs[1..]);
      assert forall k :: 1 <= k < |xs| ==> xs[k] == xs[1..][k - 1];
      if f(xs[0]).None? then None
      else if rest.None? then
        var k :| 0 <= k < |xs[1..]| && f(xs[1..][k]).None?;
        assert f(xs[k + 1]).None?;
        None
      else Some([f(xs[0]).value] + rest.value)
  }
}
