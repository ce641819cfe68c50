// The `project` extension's canister lister. It reads `icp.toml`, takes
// its workspace members, and reads each member's `canister.toml`, stopping
// at the first manifest that cannot be read, decoded or parsed. The file
// reader is injected by the host; UTF-8 decoding and TOML parsing are
// library calls, so all three are parameters here.
module ProjectList {
  import opened Wrappers
  import opened Strings
  import opened Ints

  type Bytes = seq<uint8>

  datatype ProjectManifest = ProjectManifest(members: seq<string>)
  datatype CanisterManifest = CanisterManifest(name: string, canisterType: string)
  datatype CanisterInfo = CanisterInfo(name: string, canisterType: string, path: string)

  datatype ListError =
    | ManifestProcessing(message: string)
    | NoCanistersFound
    | Unexpected(message: string)

  /** The injected reader and the two library steps, each failing with a message. */
  datatype Collaborators = Collaborators(
    readFile: string -> Result<Bytes, string>,
    decodeUtf8: Bytes -> Result<string, string>,
    parseProject: string -> Result<ProjectManifest, string>,
    parseCanister: string -> Result<CanisterManifest, string>)

  const PROJECT_FILE: string := "icp.toml"
  const CANISTER_FILE: string := "canister.toml"
  const NO_CANISTERS_MESSAGE: string := "No canisters found in the project based on icp.toml members"

  /** `From<ListError> for u8`: the exit code of each error, all distinct. */
  function ListExitCode(e: ListError): (code: uint8)
    ensures code == 1 <==> e.ManifestProcessing?
    ensures code == 2 <==> e.Unexpected?
    ensures code == 3 <==> e.NoCanistersFound?
  {
    match e
    case ManifestProcessing(_) => 1
    case Unexpected(_) => 2
    case NoCanistersFound => 3
  }

  /** `From<ListError> for String`: each error's report keeps its message. */
  function ListMessage(e: ListError): (s: string)
    ensures e.ManifestProcessing? ==> EndsWith(s, e.message) && StartsWith(s, "Error processing manifest file: ")
    ensures e.Unexpected? ==> EndsWith(s, e.message) && StartsWith(s, "An unexpected error occurred: ")
    ensures e.NoCanistersFound? ==> s == NO_CANISTERS_MESSAGE
  {
    match e
    case ManifestProcessing(msg) =>
      StartsWithConcat("Error processing manifest file: ", msg);
      EndsWithConcat("Error processing manifest file: ", msg);
      "Error processing manifest file: " + msg
    case NoCanistersFound => NO_CANISTERS_MESSAGE
    case Unexpected(msg) =>
      StartsWithConcat("An unexpected error occurred: ", msg);
      EndsWithConcat("An unexpected error occurred: ", msg);
      "An unexpected error occurred: " + msg
  }

  /** `Path::new(member).join("canister.toml")`, on a Unix path. */
  function CanisterTomlPath(member: string): (p: string)
    ensures EndsWith(p, CANISTER_FILE)
    ensures member != [] ==> StartsWith(p, member)
  {
    var sep := if member == [] || EndsWith(member, "/") then "" else "/";
    StartsWithConcat(member, sep + CANISTER_FILE);
    EndsWithConcat(member + sep, CANISTER_FILE);
    assert member + sep + CANISTER_FILE == member + (sep + CANISTER_FILE);
    member + sep + CANISTER_FILE
  }

  /** Read, decode and parse one manifest, tagging a failure with its stage and the path. */
  function ReadManifest<T>(c: Collaborators, path: string, parse: string -> Result<T, string>): (r: Result<T, ListError>)
    ensures r.Err? ==> r.error.ManifestProcessing?
  {
    match c.readFile(path)
    case Err(e) => Err(ManifestProcessing("Failed to read " + path + ": " + e))
    case Ok(bytes) =>
      match c.decodeUtf8(bytes)
      case Err(e) => Err(ManifestProcessing("Failed to decode " + path + ": " + e))
      case Ok(text) =>
        match parse(text)
        case Err(e) => Err(ManifestProcessing("Failed to parse " + path + ": " + e))
        case Ok(m) => Ok(m)
  }

  /** `read_and_parse_canister_toml` */
  function ReadAndParseCanisterToml(c: Collaborators, path: string): (r: Result<CanisterManifest, ListError>)
    ensures r.Err? ==> r.error.ManifestProcessing?
  {
    ReadManifest(c, path, c.parseCanister)
  }

  /**
   * A manifest is read exactly when the file is read, decoded and parsed,
   * and it is then the parsed value; each failing stage is reported with
   * the path.
   */
  lemma ReadManifestStages<T>(c: Collaborators, path: string, parse: string -> Result<T, string>)
    ensures var r := ReadManifest(c, path, parse);
      (c.readFile(path).Err? ==> r == Err(ManifestProcessing("Failed to read " + path + ": " + c.readFile(path).error)))
      && (r.Ok? <==>
        c.readFile(path).Ok? && c.decodeUtf8(c.readFile(path).value).Ok?
        && parse(c.decodeUtf8(c.readFile(path).value).value).Ok?)
      && (r.Ok? ==> r.value == parse(c.decodeUtf8(c.readFile(path).value).value).value)
  {
  }

  /** The record for a member whose manifest was read. */
  function Info(member: string, m: CanisterManifest): CanisterInfo {
    CanisterInfo(m.name, m.canisterType, member)
  }

  /** One member's manifest, read from `member/canister.toml`. */
  function ReadMember(c: Collaborators, member: string): Result<CanisterManifest, ListError> {
    ReadAndParseCanisterToml(c, CanisterTomlPath(member))
  }

  /**
   * The loop over the first members: the records so far, one per member,
   * or the first member's error, which is always a manifest error.
   */
  function ListMembers(c: Collaborators, members: seq<string>): (r: Result<seq<CanisterInfo>, ListError>)
    ensures r.Err? ==> r.error.ManifestProcessing?
    ensures r.Ok? ==> |r.value| == |members|
    ensures r.Ok? ==> forall i :: 0 <= i < |members| ==> ReadMember(c, members[i]).Ok? && r.value[i] == Info(members[i], ReadMember(c, members[i]).value)
  {
    if |members| == 0 then Ok([])
    else
      var member := members[|members| - 1];
      var init := members[..|members| - 1];
      match ListMembers(c, init)
      case Err(e) => Err(e)
      case Ok(infos) =>
        match ReadMember(c, member)
        case Err(e) => Err(e)
        case Ok(m) =>
          assert forall i :: 0 <= i < |init| ==> members[i] == init[i];
          Ok(infos + [Info(member, m)])
  }

  /** `list` as a whole: the project manifest, then the members, then the emptiness check. */
  function ListOutcome(c: Collaborators): Result<seq<CanisterInfo>, ListError> {
    match ReadManifest(c, PROJECT_FILE, c.parseProject)
    case Err(e) => Err(e)
    case Ok(project) =>
      match ListMembers(c, project.members)
      case Err(e) => Err(e)
      case Ok(infos) => if infos == [] then Err(NoCanistersFound) else Ok(infos)
  }

  /** `Lister::list` */
  method List(c: Collaborators) returns (r: Result<seq<CanisterInfo>, ListError>)
    ensures r == ListOutcome(c)
  {
    var project := ReadManifest(c, PROJECT_FILE, c.parseProject);
    if project.Err? {
      return Err(project.error);
    }
    var members := project.value.members;
    var infos: seq<CanisterInfo> := [];
    for i := 0 to |members|
      invariant ListMembers(c, members[..i]) == Ok(infos)
    {
      var member := members[i];
      var manifest := ReadMember(c, member);
      ListMembersStep(c, members, i);
      if manifest.Err? {
        ListMembersStops(c, members, i + 1);
        return Err(manifest.error);
      }
      infos := infos + [Info(member, manifest.value)];
    }
    assert members[..|members|] == members;
    if |infos| == 0 {
      return Err(NoCanistersFound);
    }
    return Ok(infos);
  }

  /** One more member: its error, or one more record. */
  lemma ListMembersStep(c: Collaborators, members: seq<string>, i: nat)
    requires i < |members| && ListMembers(c, members[..i]).Ok?
    ensures ReadMember(c, members[i]).Err? ==> ListMembers(c, members[..i + 1]) == Err(ReadMember(c, members[i]).error)
    ensures ReadMember(c, members[i]).Ok? ==>
      ListMembers(c, members[..i + 1]) == Ok(ListMembers(c, members[..i]).value + [Info(members[i], ReadMember(c, members[i]).value)])
  {
    assert members[..i + 1][..i] == members[..i];
  }

  /** Once a prefix of the members fails, every longer prefix fails with the same error. */
  lemma {:induction false} ListMembersStops(c: Collaborators, members: seq<string>, i: nat)
    requires i <= |members| && ListMembers(c, members[..i]).Err?
    ensures ListMembers(c, members) == ListMembers(c, members[..i])
    decreases |members| - i
  {
    if i < |members| {
      assert members[..i + 1][..i] == members[..i];
      ListMembersStops(c, members, i + 1);
    } else {
      assert members[..i] == members;
    }
  }

  /** Member `i` fails and every member before it is read. */
  predicate FirstFailure(c: Collaborators, members: seq<string>, i: int, e: ListError) {
    0 <= i < |members| && ReadMember(c, members[i]) == Err(e)
    && forall j :: 0 <= j < i ==> ReadMember(c, members[j]).Ok?
  }

  /** A failed pass reports the error of the first member whose manifest fails, all before it having been read. */
  lemma {:induction false} FirstFailureReported(c: Collaborators, members: seq<string>)
    requires ListMembers(c, members).Err?
    ensures exists i :: FirstFailure(c, members, i, ListMembers(c, members).error)
    decreases |members|
  {
    var n := |members|;
    var init := members[..n - 1];
    var e := ListMembers(c, members).error;
    if ListMembers(c, init).Err? {
      FirstFailureReported(c, init);
      var i :| FirstFailure(c, init, i, e);
      assert forall j :: 0 <= j <= i ==> members[j] == init[j];
      assert FirstFailure(c, members, i, e);
    } else {
      assert forall j :: 0 <= j < n - 1 ==> members[j] == init[j];
      assert FirstFailure(c, members, n - 1, e);
    }
  }

  /**
   * `list` reports `NoCanistersFound` exactly when the project manifest
   * reads but lists no member; otherwise a success lists every member.
   */
  lemma ListOutcomeCases(c: Collaborators)
    ensures ListOutcome(c) == Err(NoCanistersFound) <==>
      ReadManifest(c, PROJECT_FILE, c.parseProject).Ok?
      && ReadManifest(c, PROJECT_FILE, c.parseProject).value.members == []
    ensures ListOutcome(c).Ok? ==>
      var members := ReadManifest(c, PROJECT_FILE, c.parseProject).value.members;
      |ListOutcome(c).value| == |members| > 0
      && forall i :: 0 <= i < |members| ==> ListOutcome(c).value[i].path == members[i]
  {
  }
}
