// The `project` extension's builder: list the canisters, treat an empty
// project as nothing to do, then hand every canister's path to the
// injected build function, failing at the end if any build failed.
module ProjectBuild {
  import opened Wrappers
  import opened Ints
  import opened ProjectList

  datatype BuildError =
    | ListFailed(inner: ListError)
    | BuildFailed
    | Unexpected(message: string)

  /** `From<BuildError> for u8`: a listing failure keeps the lister's code. */
  function BuildExitCode(e: BuildError): (code: uint8)
    ensures e.ListFailed? ==> code == ListExitCode(e.inner)
    ensures code == 4 <==> e.BuildFailed?
    ensures e.Unexpected? ==> code == 2
  {
    match e
    case ListFailed(inner) => ListExitCode(inner)
    case BuildFailed => 4
    case Unexpected(_) => 2
  }

  /** Some canister's build returned an error. */
  predicate AnyFailed(canisters: seq<CanisterInfo>, buildCanister: string -> Result<string, string>) {
    exists i :: 0 <= i < |canisters| && buildCanister(canisters[i].path).Err?
  }

  function Paths(canisters: seq<CanisterInfo>): (ps: seq<string>)
    ensures |ps| == |canisters| && forall i :: 0 <= i < |ps| ==> ps[i] == canisters[i].path
  {
    seq(|canisters|, i requires 0 <= i < |canisters| => canisters[i].path)
  }

  /**
   * `Builder::build`, given the lister's outcome: `NoCanistersFound` is
   * success with nothing built; another listing error is `ListFailed`;
   * otherwise every canister's path is built, in order and even after a
   * failure (`attempted`), and the result is `BuildFailed` exactly when
   * some build failed.
   */
  method Build(listed: Result<seq<CanisterInfo>, ListError>, buildCanister: string -> Result<string, string>)
    returns (r: Result<(), BuildError>, ghost attempted: seq<string>)
    ensures listed == Err(NoCanistersFound) ==> r == Ok(()) && attempted == []
    ensures listed.Err? && listed.error != NoCanistersFound ==> r == Err(ListFailed(listed.error)) && attempted == []
    ensures listed.Ok? ==> attempted == Paths(listed.value)
    ensures listed.Ok? ==> (r == Err(BuildFailed) <==> AnyFailed(listed.value, buildCanister))
    ensures listed.Ok? ==> (r == Ok(()) <==> !AnyFailed(listed.value, buildCanister))
  {
    attempted := [];
    if listed.Err? {
      if listed.error == NoCanistersFound {
        return Ok(()), attempted;
      }
      return Err(ListFailed(listed.error)), attempted;
    }
    var canisters := listed.value;
    var buildFailed := false;
    for i := 0 to |canisters|
      invariant attempted == Paths(canisters[..i])
      invariant buildFailed <==> AnyFailed(canisters[..i], buildCanister)
    {
      var outcome := buildCanister(canisters[i].path);
      if outcome.Err? {
        buildFailed := true;
      }
      attempted := attempted + [canisters[i].path];
      assert canisters[..i + 1][..i] == canisters[..i];
      assert canisters[..i + 1][i] == canisters[i];
      assert AnyFailed(canisters[..i + 1], buildCanister) <==>
        AnyFailed(canisters[..i], buildCanister) || outcome.Err?;
    }
    assert canisters[..|canisters|] == canisters;
    if buildFailed {
      return Err(BuildFailed), attempted;
    }
    return Ok(()), attempted;
  }

  /** A build never reports the "no canisters" code 3: that listing outcome is a success. */
  lemma NoCanistersNeverReported(e: ListError)
    requires e != NoCanistersFound
    ensures BuildExitCode(ListFailed(e)) in {1, 2}
  {
  }
}
