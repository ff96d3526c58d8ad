/**
 * TryWithResources: runs a body, then closes every resource the body registered, in the order
 * they were added. A failure of the body is what the caller sees; a close failure is reported only
 * when the body succeeded, and of several close failures the last one is kept.
 */
module Cleanup {
  import opened Outcomes

  /** A java.io.Closeable whose close either always succeeds or always fails with `failure`. */
  class Closeable {
    const failure: Option<Error>
    var closed: bool

    constructor (failure: Option<Error>)
      ensures this.failure == failure && !closed
    {
      this.failure := failure;
      closed := false;
    }

    /** close(): the resource is closed afterwards, whether or not close reported a failure. */
    method Close() returns (r: Option<Error>)
      modifies this
      ensures closed && r == failure
    {
      closed := true;
      r := failure;
    }
  }

  /** The failure of the last resource in `rs` whose close fails, if any does. */
  function LastCloseFailure(rs: seq<Closeable>): Option<Error> {
    if rs == [] then None
    else if rs[|rs| - 1].failure.Some? then rs[|rs| - 1].failure
    else LastCloseFailure(rs[..|rs| - 1])
  }

  /**
   * The kept close failure is absent exactly when every close succeeds; otherwise it is the
   * failure of some resource after which every close succeeds.
   */
  lemma {:induction false} LastCloseFailureSpec(rs: seq<Closeable>)
    ensures LastCloseFailure(rs).None? <==> forall i :: 0 <= i < |rs| ==> rs[i].failure.None?
    ensures LastCloseFailure(rs).Some? ==>
      exists i :: 0 <= i < |rs| && rs[i].failure == LastCloseFailure(rs) &&
        forall j :: i < j < |rs| ==> rs[j].failure.None?
  {
    if rs != [] && rs[|rs| - 1].failure.None? {
      var init := rs[..|rs| - 1];
      LastCloseFailureSpec(init);
      assert forall i :: 0 <= i < |init| ==> init[i] == rs[i];
      if LastCloseFailure(rs).Some? {
        var i :| 0 <= i < |init| && init[i].failure == LastCloseFailure(init) &&
          forall j :: i < j < |init| ==> init[j].failure.None?;
        assert rs[i].failure == LastCloseFailure(rs);
      }
    }
  }

  /** Closing one more resource keeps its failure when it fails, and the earlier one when it does not. */
  lemma LastCloseFailureSnoc(rs: seq<Closeable>, c: Closeable)
    ensures LastCloseFailure(rs + [c]) == if c.failure.Some? then c.failure else LastCloseFailure(rs)
  {
    assert (rs + [c])[..|rs|] == rs;
  }

  /** The outcome of runWithResources from the body's outcome and the kept close failure. */
  function Merge<T>(run: Result<T>, closing: Option<Error>): (r: Result<T>)
    ensures r.Failure? <==> run.Failure? || closing.Some?
    ensures run.Failure? ==> r == run
    ensures run.Success? && closing.Some? ==> r.error == closing.value
    ensures r.Success? ==> r == run
  {
    if closing.Some? && run.Success? then Failure(closing.value) else run
  }

  class TryWithResources {
    /** Resources to close when the body finishes, in the order they were added. */
    var resources: seq<Closeable>

    constructor ()
      ensures resources == []
    {
      resources := [];
    }

    /** addResource(resource) */
    method AddResource(resource: Closeable)
      modifies this
      ensures resources == old(resources) + [resource]
    {
      resources := resources + [resource];
    }

    /**
     * runWithResources(), given the outcome of the body: every registered resource gets closed,
     * and the result is the body's failure if it failed, else the last close failure if any, else
     * the body's value.
     */
    method RunWithResources<T>(run: Result<T>) returns (r: Result<T>)
      modifies set c | c in resources
      ensures r == Merge(run, LastCloseFailure(resources))
      ensures forall c :: c in resources ==> c.closed
    {
      var closeException: Option<Error> := None;
      var i := 0;
      while i < |resources|
        invariant i <= |resources|
        invariant closeException == LastCloseFailure(resources[..i])
        invariant forall j :: 0 <= j < i ==> resources[j].closed
      {
        var failure := resources[i].Close();
        if failure.Some? {
          closeException := failure;
        }
        LastCloseFailureSnoc(resources[..i], resources[i]);
        assert resources[..i + 1] == resources[..i] + [resources[i]];
        i := i + 1;
      }
      assert resources[..i] == resources;
      if closeException.Some? && run.Success? {
        return Failure(closeException.value);
      }
      return run;
    }
  }
}
