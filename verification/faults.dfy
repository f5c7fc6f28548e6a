/** The ways the JavaScript pipeline stops with an exception instead of producing text. */
module Faults {
  import opened Wrappers

  datatype Fault =
    /** `imgOnlineMap[pkgName]` is undefined and an image target is looked up in it (TypeError). */
    | NoImageTable(pkg: string)
    /** `readFile` rejects: the computed storage path does not exist. */
    | PageNotFound(path: string)
    /** `handleLinks` returned `undefined` for an empty page and a heading pass called `.replace` on it (TypeError). */
    | UndefinedPageText
    /** `paddingSuffix` of the root-level assembler reads a `pkgName` that is not in scope (ReferenceError). */
    | UnboundPkgName
    /** `mergeDocs` finds no configuration path for the package (RangeError). */
    | ConfigNotSupported(pkg: string)

  /**
   * `Promise.all(xs.map(f))` for a pure `f`: every value in order, or the
   * fault of the first element (in list order) that fails.
   */
  function AllOf<T, U>(xs: seq<T>, f: T -> Result<U, Fault>): (r: Result<seq<U>, Fault>)
    ensures r.Success? ==> |r.value| == |xs| && forall i :: 0 <= i < |xs| ==> f(xs[i]) == Success(r.value[i])
    ensures r.Failure? <==> exists i :: 0 <= i < |xs| && f(xs[i]).Failure?
    ensures r.Failure? ==> exists i :: 0 <= i < |xs| && f(xs[i]) == Failure(r.error)
                                      && forall j :: 0 <= j < i ==> f(xs[j]).Success?
  {
    if xs == [] then Success([])
    else
      var head := f(xs[0]);
      var tail := AllOf(xs[1..], f);
      assert forall i :: 1 <= i < |xs| ==> xs[i] == xs[1..][i - 1];
      if head.Failure? then Failure(head.error)
      else if tail.Failure? then
        var k :| 0 <= k < |xs[1..]| && f(xs[1..][k]) == Failure(tail.error)
                 && forall j :: 0 <= j < k ==> f(xs[1..][j]).Success?;
        assert f(xs[k + 1]) == Failure(tail.error);
        Failure(tail.error)
      else Success([head.value] + tail.value)
  }
}
