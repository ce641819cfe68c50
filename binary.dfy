// Validation and listing of the packaged CLI binaries. Each binary
// `icp-<target>-<variant>[.exe]` sits in one directory next to a
// `<name>.sha256` file whose first whitespace-separated token is the
// expected SHA-256 digest. The directory is given as a listing plus the
// text of each file; the digest function is a parameter.
module DistributionBinary {
  import opened Wrappers
  import opened Strings
  import opened DistributionErrors

  const ICP_PREFIX: string := "icp-"
  const SHA256_SUFFIX: string := ".sha256"
  const EXE_SUFFIX: string := ".exe"
  const ERROR_READING_CHECKSUM: string := "ERROR_READING_CHECKSUM"

  datatype BinaryInfo = BinaryInfo(name: string, target: string, variant: string, checksum: string)

  /** One entry of the directory listing. */
  datatype DirEntry = DirEntry(name: string, isDir: bool)

  /** A processor holds the one directory it reads the binaries from. */
  datatype BinaryProcessor = BinaryProcessor(binariesDir: string)

  /**
   * A processor exists only for a directory that exists; otherwise the
   * error names the directory. Whether it exists is a parameter.
   */
  function NewProcessor(binariesDir: string, dirExists: bool): (r: Result<BinaryProcessor, DistributionError>)
    ensures r.Ok? <==> dirExists
    ensures r.Ok? ==> r.value.binariesDir == binariesDir
    ensures r.Err? ==> r.error == BinaryNotFound(binariesDir)
  {
    if !dirExists then Err(BinaryNotFound(binariesDir))
    else Ok(BinaryProcessor(binariesDir))
  }

  /** File name in the binaries directory to the file's content. */
  type Files = map<string, string>

  /** Hex digest of a file's content (`Sha256` formatted with `{:x}`). */
  type Digest = string -> string

  function ChecksumFileName(binary: string): string {
    binary + SHA256_SUFFIX
  }

  /**
   * `t` stands at index `i` of `text` as a whole token: only whitespace
   * precedes it, and it ends at the end of the text or at whitespace.
   */
  predicate TokenAt(text: string, i: nat, t: string) {
    i + |t| <= |text| && text[i..i + |t|] == t
    && (forall j :: 0 <= j < i ==> IsSpace(text[j]))
    && (i + |t| == |text| || IsSpace(text[i + |t|]))
  }

  /** `t` is the first whitespace-separated token of `text`: non-empty, free of whitespace, and a whole token. */
  ghost predicate IsFirstToken(text: string, t: string) {
    |t| > 0 && (forall j :: 0 <= j < |t| ==> !IsSpace(t[j]))
    && exists i: nat :: TokenAt(text, i, t)
  }

  predicate Blank(text: string) {
    forall j :: 0 <= j < |text| ==> IsSpace(text[j])
  }

  /** The first word found by `split_whitespace` is the first token. */
  lemma {:induction false} FirstWord(s: string)
    requires Words(s) != []
    ensures IsFirstToken(s, Words(s)[0])
    decreases |s|
  {
    WordsAreWords(s);
    var t := Words(s)[0];
    if IsSpace(s[0]) {
      assert Words(s) == Words(s[1..]);
      FirstWord(s[1..]);
      var i: nat :| TokenAt(s[1..], i, t);
      LeadingSpace(s, i, t);
    } else {
      var w := SpanLen(s, NotSpace);
      assert t == s[..w];
      assert TokenAt(s, 0, t);
    }
  }

  /** A whole token stays one after one more leading space. */
  lemma LeadingSpace(s: string, i: nat, t: string)
    requires |s| > 0 && IsSpace(s[0]) && TokenAt(s[1..], i, t)
    ensures TokenAt(s, i + 1, t)
  {
    assert s[i + 1..i + 1 + |t|] == s[1..][i..i + |t|];
    forall j | 0 <= j < i + 1 ensures IsSpace(s[j]) {
      if j > 0 { assert s[j] == s[1..][j - 1]; }
    }
    if i + 1 + |t| < |s| {
      assert s[i + 1 + |t|] == s[1..][i + |t|];
    }
  }

  /**
   * `read_checksum_file`: `MissingFile` without a `.sha256` file,
   * `InvalidFormat` when that file is blank, and otherwise its first token.
   */
  function ReadChecksumFile(files: Files, binary: string): (r: Result<string, DistributionError>)
    ensures ChecksumFileName(binary) !in files <==> r == Err(MissingFile(ChecksumFileName(binary)))
    ensures ChecksumFileName(binary) in files ==>
      (r.Err? <==> Blank(files[ChecksumFileName(binary)]))
    ensures ChecksumFileName(binary) in files && r.Err? ==> r.error == InvalidFormat(ChecksumFileName(binary))
    ensures r.Ok? ==> IsFirstToken(files[ChecksumFileName(binary)], r.value)
  {
    var name := ChecksumFileName(binary);
    if name !in files then Err(MissingFile(name))
    else
      var words := Words(files[name]);
      NoWordsIffBlank(files[name]);
      if words == [] then Err(InvalidFormat(name))
      else
        FirstWord(files[name]);
        Ok(words[0])
  }

  /** The pieces of a file name between dashes. */
  function Parts(filename: string): seq<string> {
    Split(filename, '-')
  }

  /** The simplified name check: `icp-` prefix and at least three dash-separated parts. */
  predicate WellFormedName(filename: string) {
    StartsWith(filename, ICP_PREFIX) && |Parts(filename)| >= 3
  }

  /**
   * `validate_binary`: the binary must exist, then have a well-formed name,
   * then a readable checksum equal to the digest of its content; each check
   * reports its own error.
   */
  function ValidateBinary(files: Files, sha256: Digest, filename: string): (r: Result<(), DistributionError>)
    ensures filename !in files ==> r == Err(BinaryNotFound(filename))
    ensures filename in files && !WellFormedName(filename) ==> r == Err(InvalidFormat(filename))
    ensures filename in files && WellFormedName(filename) && ReadChecksumFile(files, filename).Err? ==>
      r == Err(ReadChecksumFile(files, filename).error)
    ensures r.Ok? <==>
      (filename in files && WellFormedName(filename) && ReadChecksumFile(files, filename).Ok?
      && sha256(files[filename]) == ReadChecksumFile(files, filename).value)
    ensures r.Err? && r.error.ChecksumMismatch? ==> r.error.filename == filename
  {
    if filename !in files then Err(BinaryNotFound(filename))
    else if !StartsWith(filename, ICP_PREFIX) || |Parts(filename)| < 3 then Err(InvalidFormat(filename))
    else
      match ReadChecksumFile(files, filename)
      case Err(e) => Err(e)
      case Ok(expected) =>
        if sha256(files[filename]) != expected then Err(ChecksumMismatch(filename)) else Ok(())
  }

  /** `parts[1..len-1].join("-")`: everything between the `icp` part and the last part. */
  function Target(parts: seq<string>): string
    requires |parts| >= 2
  {
    Join(parts[1..|parts| - 1], "-")
  }

  /** The last part, less a trailing `.exe` when the whole name ends with one. */
  function Variant(filename: string, parts: seq<string>): (v: string)
    requires |parts| >= 1
    ensures EndsWith(filename, EXE_SUFFIX) && EndsWith(parts[|parts| - 1], EXE_SUFFIX) ==>
      parts[|parts| - 1] == v + EXE_SUFFIX
    ensures !EndsWith(filename, EXE_SUFFIX) ==> v == parts[|parts| - 1]
  {
    var last := parts[|parts| - 1];
    if EndsWith(filename, EXE_SUFFIX) && EndsWith(last, EXE_SUFFIX) then
      assert last == last[..|last| - |EXE_SUFFIX|] + EXE_SUFFIX;
      last[..|last| - |EXE_SUFFIX|]
    else last
  }

  /** What `parse_binaries` records for a binary that passed validation. */
  function Info(files: Files, filename: string): BinaryInfo
    requires |Parts(filename)| >= 2
  {
    var parts := Parts(filename);
    var checksum := match ReadChecksumFile(files, filename)
      case Ok(c) => c
      case Err(_) => ERROR_READING_CHECKSUM;
    BinaryInfo(filename, Target(parts), Variant(filename, parts), checksum)
  }

  /** The checks `parse_binaries` makes before recording an entry. */
  predicate Listed(files: Files, sha256: Digest, e: DirEntry) {
    !e.isDir && !EndsWith(e.name, SHA256_SUFFIX) && StartsWith(e.name, ICP_PREFIX)
    && |Parts(e.name)| >= 3 && ValidateBinary(files, sha256, e.name).Ok?
  }

  /** The binaries `parse_binaries` records for the first entries of the listing, in listing order. */
  function ParsedBinaries(files: Files, sha256: Digest, entries: seq<DirEntry>): seq<BinaryInfo> {
    if |entries| == 0 then []
    else
      var e := entries[|entries| - 1];
      ParsedBinaries(files, sha256, entries[..|entries| - 1])
      + (if Listed(files, sha256, e) then [Info(files, e.name)] else [])
  }

  /**
   * `parse_binaries`: walk the listing, skipping directories, `.sha256`
   * files, names without the `icp-` prefix, names of fewer than three parts
   * and binaries that fail validation, and record the rest.
   */
  method ParseBinaries(files: Files, sha256: Digest, entries: seq<DirEntry>) returns (binaries: seq<BinaryInfo>)
    ensures binaries == ParsedBinaries(files, sha256, entries)
  {
    binaries := [];
    for i := 0 to |entries|
      invariant binaries == ParsedBinaries(files, sha256, entries[..i])
    {
      assert entries[..i + 1][..i] == entries[..i];
      var e := entries[i];
      if e.isDir || EndsWith(e.name, SHA256_SUFFIX) {
        continue;
      }
      if !StartsWith(e.name, ICP_PREFIX) {
        continue;
      }
      var parts := Split(e.name, '-');
      if |parts| >= 3 {
        var valid := ValidateBinary(files, sha256, e.name);
        if valid.Ok? {
          var checksum := match ReadChecksumFile(files, e.name)
            case Ok(c) => c
            case Err(_) => ERROR_READING_CHECKSUM;
          binaries := binaries + [BinaryInfo(e.name, Target(parts), Variant(e.name, parts), checksum)];
        }
      }
    }
    assert entries[..|entries|] == entries;
  }

  /**
   * The listing filter is exactly validation on the files that are not
   * directories or `.sha256` files: validation already demands the prefix
   * and the three parts.
   */
  lemma ListedIffValid(files: Files, sha256: Digest, e: DirEntry)
    ensures Listed(files, sha256, e) <==>
      (!e.isDir && !EndsWith(e.name, SHA256_SUFFIX) && ValidateBinary(files, sha256, e.name).Ok?)
  {
  }

  /**
   * Every recorded binary comes from a listed, validated file, and its
   * recorded checksum is the digest of its content.
   */
  lemma {:induction false} ParsedSound(files: Files, sha256: Digest, entries: seq<DirEntry>)
    ensures forall b :: b in ParsedBinaries(files, sha256, entries) ==>
      (exists e :: e in entries && Listed(files, sha256, e) && b == Info(files, e.name))
      && b.name in files && sha256(files[b.name]) == b.checksum
      && !EndsWith(b.name, SHA256_SUFFIX)
    decreases |entries|
  {
    if |entries| > 0 {
      var init := entries[..|entries| - 1];
      ParsedSound(files, sha256, init);
      forall b | b in ParsedBinaries(files, sha256, entries)
        ensures (exists e :: e in entries && Listed(files, sha256, e) && b == Info(files, e.name))
          && b.name in files && sha256(files[b.name]) == b.checksum
          && !EndsWith(b.name, SHA256_SUFFIX)
      {
        if b !in ParsedBinaries(files, sha256, init) {
          var e := entries[|entries| - 1];
          assert b == Info(files, e.name);
        } else {
          var e :| e in init && Listed(files, sha256, e) && b == Info(files, e.name);
          assert e in entries;
        }
      }
    }
  }

  /** Every validated binary of the listing is recorded, under its own name. */
  lemma {:induction false} ParsedComplete(files: Files, sha256: Digest, entries: seq<DirEntry>, e: DirEntry)
    requires e in entries && !e.isDir && !EndsWith(e.name, SHA256_SUFFIX)
    requires ValidateBinary(files, sha256, e.name).Ok?
    ensures Info(files, e.name) in ParsedBinaries(files, sha256, entries)
    decreases |entries|
  {
    var last := entries[|entries| - 1];
    var init := entries[..|entries| - 1];
    if e != last {
      assert entries == init + [last];
      ParsedComplete(files, sha256, init, e);
    }
  }

  /** A name starting `icp-` has at least two parts, the first of them `icp`. */
  lemma IcpFirstPart(filename: string)
    requires StartsWith(filename, ICP_PREFIX)
    ensures |Parts(filename)| >= 2 && Parts(filename)[0] == "icp"
  {
    assert filename[3] == '-' && filename[..3] == "icp";
    assert IndexOf(filename, '-') == Some(3);
  }

  /**
   * A well-formed name is `icp-`, the target, a dash and the last part,
   * and that part is the variant, plus `.exe` for a Windows binary.
   */
  lemma NameReassembled(filename: string)
    requires WellFormedName(filename)
    ensures var parts := Parts(filename);
      filename == ICP_PREFIX + Target(parts) + "-" + parts[|parts| - 1]
  {
    var parts := Parts(filename);
    var whole := ICP_PREFIX + Target(parts) + "-" + parts[|parts| - 1];
    assert Join(parts, "-") == filename by {
      JoinSplit(filename, '-');
    }
    assert Join(parts, "-") == whole by {
      IcpFirstPart(filename);
      PartsReassembled(parts);
    }
  }

  /** Parts `icp`, the target's parts and a last part join back to `icp-`, the target, a dash and the last part. */
  lemma PartsReassembled(parts: seq<string>)
    requires |parts| >= 3 && parts[0] == "icp"
    ensures Join(parts, "-") == ICP_PREFIX + Target(parts) + "-" + parts[|parts| - 1]
  {
    var rest := parts[1..];
    var target := Target(parts);
    var last := parts[|parts| - 1];
    assert Join(parts, "-") == ICP_PREFIX + Join(rest, "-") by {
      assert [parts[0]] + rest == parts;
      JoinCons(parts[0], rest, "-");
      assert parts[0] + "-" == ICP_PREFIX;
    }
    assert Join(rest, "-") == target + "-" + last by {
      JoinLastOff(parts);
    }
    Regroup(ICP_PREFIX, target, "-", last);
  }

  /** All parts but the first join to the middle parts, a dash and the last part. */
  lemma JoinLastOff(parts: seq<string>)
    requires |parts| >= 3
    ensures Join(parts[1..], "-") == Join(parts[1..|parts| - 1], "-") + "-" + parts[|parts| - 1]
  {
    MiddleSnoc(parts);
    JoinSnoc(parts[1..|parts| - 1], parts[|parts| - 1], "-");
  }

  /** The middle elements, then the last one, are all elements but the first. */
  lemma MiddleSnoc<T>(s: seq<T>)
    requires |s| >= 2
    ensures s[1..|s| - 1] + [s[|s| - 1]] == s[1..]
  {
    var a := s[1..|s| - 1] + [s[|s| - 1]];
    forall k | 0 <= k < |a| ensures a[k] == s[1..][k] {
      if k < |s| - 2 {
        assert a[k] == s[1..|s| - 1][k];
      }
    }
  }

  /** Regrouping a concatenation of four pieces. */
  lemma Regroup(a: string, b: string, c: string, d: string)
    ensures a + (b + c + d) == a + b + c + d
  {
  }

  /** A name is whatever precedes its last part, then that part; what precedes is empty or ends with a dash. */
  lemma LastPartSuffix(filename: string)
    ensures var parts := Parts(filename);
      var last := parts[|parts| - 1];
      |last| <= |filename| && filename[|filename| - |last|..] == last
      && (|last| < |filename| ==> filename[|filename| - |last| - 1] == '-')
  {
    var parts := Parts(filename);
    var n := |parts|;
    var last := parts[n - 1];
    JoinSplit(filename, '-');
    if n > 1 {
      assert parts == parts[..n - 1] + [last];
      JoinSnoc(parts[..n - 1], last, "-");
      var front := Join(parts[..n - 1], "-");
      assert filename == front + "-" + last;
      assert filename[|filename| - |last| - 1] == '-';
    }
  }

  /** The `.exe` of a Windows binary lands in its last part, so the variant is that part less `.exe`. */
  lemma ExeVariant(filename: string)
    requires EndsWith(filename, EXE_SUFFIX)
    ensures var parts := Parts(filename);
      parts[|parts| - 1] == Variant(filename, parts) + EXE_SUFFIX
  {
    var parts := Parts(filename);
    var last := parts[|parts| - 1];
    LastPartSuffix(filename);
    var m := |filename|;
    assert last[|last| - |EXE_SUFFIX|..] == filename[m - |EXE_SUFFIX|..];
  }

  /** A file holding just one token (no whitespace at all) reads as that token. */
  lemma SingleTokenFile(files: Files, binary: string)
    requires ChecksumFileName(binary) in files
    requires var t := files[ChecksumFileName(binary)]; |t| > 0 && forall j :: 0 <= j < |t| ==> !IsSpace(t[j])
    ensures ReadChecksumFile(files, binary) == Ok(files[ChecksumFileName(binary)])
  {
    var t := files[ChecksumFileName(binary)];
    SpanLenConcat(t, [], NotSpace);
    assert t + [] == t;
    assert t[|t|..] == [];
  }

  /**
   * The validation tests, for any digest function: a well-formed binary
   * whose `.sha256` file holds its digest passes, one whose file holds
   * another token fails with `ChecksumMismatch`, and a name without the
   * `icp-` prefix fails with `InvalidFormat`.
   */
  lemma ValidationOutcomes(files: Files, sha256: Digest, name: string)
    requires name in files && ChecksumFileName(name) in files
    requires var t := files[ChecksumFileName(name)]; |t| > 0 && forall j :: 0 <= j < |t| ==> !IsSpace(t[j])
    ensures WellFormedName(name) && files[ChecksumFileName(name)] == sha256(files[name]) ==>
      ValidateBinary(files, sha256, name) == Ok(())
    ensures WellFormedName(name) && files[ChecksumFileName(name)] != sha256(files[name]) ==>
      ValidateBinary(files, sha256, name) == Err(ChecksumMismatch(name))
    ensures !StartsWith(name, ICP_PREFIX) ==> ValidateBinary(files, sha256, name) == Err(InvalidFormat(name))
  {
    SingleTokenFile(files, name);
  }

  /** The test's "invalid-name" lacks the prefix, so an existing file of that name is refused as malformed. */
  lemma InvalidNameExample(files: Files, sha256: Digest)
    requires "invalid-name" in files
    ensures ValidateBinary(files, sha256, "invalid-name") == Err(InvalidFormat("invalid-name"))
  {
    assert "invalid-name"[1] != ICP_PREFIX[1];
  }
}
