// The WIT package ordering script: find each directory's main `.wit`
// file, read its `package`, `import` and `include` directives, build a
// package-id -> dependency-ids graph (collecting every scan error before
// aborting), reject undefined dependencies, and emit the directories in
// dependency-first order or report a cycle.
//
// The directory listing and the files' lines are inputs; the regular
// expressions are encoded as explicit scans over ASCII character classes.
module WitOrder {
  import opened Wrappers
  import opened Strings
  import opened Graphs

  // ---------------------------------------------------------------------
  // Character classes of the three directive patterns

  /** `[a-zA-Z0-9:-]`, the characters of a package id. */
  predicate IsIdChar(c: char) {
    ('a' <= c <= 'z') || ('A' <= c <= 'Z') || ('0' <= c <= '9') || c == ':' || c == '-'
  }

  /** `[\w.-]`, the characters of a version (ASCII word characters). */
  predicate IsVersionChar(c: char) {
    ('a' <= c <= 'z') || ('A' <= c <= 'Z') || ('0' <= c <= '9') || c == '_' || c == '.' || c == '-'
  }

  predicate AllSpace(s: string) {
    forall k :: 0 <= k < |s| ==> IsSpace(s[k])
  }

  predicate AllId(s: string) {
    forall k :: 0 <= k < |s| ==> IsIdChar(s[k])
  }

  /** The optional `(?:@[\w.-]+)` group: empty, or `@` and at least one version character. */
  predicate VersionSuffix(v: string) {
    v == "" || (|v| >= 2 && v[0] == '@' && forall k :: 1 <= k < |v| ==> IsVersionChar(v[k]))
  }

  /** `.*?;` on text after the `/`: a `;` occurs before any line feed. */
  predicate SemicolonAhead(t: string) {
    if |t| == 0 then false
    else if t[0] == ';' then true
    else if t[0] == '\n' then false
    else SemicolonAhead(t[1..])
  }

  /** `s` cut after its version suffix (nothing is cut when there is none). */
  function VersionCut(s: string): (c: (string, string))
    ensures c.0 + c.1 == s && VersionSuffix(c.0)
    ensures c.0 == "" || s[0] == '@'
  {
    if |s| > 0 && s[0] == '@' then
      var (v, after) := SpanCut(s[1..], IsVersionChar);
      if v == "" then ("", s)
      else
        AtVersion(s, v, after);
        ([s[0]] + v, after)
    else ("", s)
  }

  /** `@` followed by a non-empty run of version characters is a version suffix. */
  lemma AtVersion(s: string, v: string, after: string)
    requires |s| > 0 && s[0] == '@' && v + after == s[1..]
    requires v != "" && forall k :: 0 <= k < |v| ==> IsVersionChar(v[k])
    ensures ([s[0]] + v) + after == s && VersionSuffix([s[0]] + v)
  {
    assert s == [s[0]] + s[1..];
    var w := [s[0]] + v;
    assert forall k :: 1 <= k < |w| ==> w[k] == v[k - 1];
  }

  lemma VersionCutConcat(v: string, after: string)
    requires VersionSuffix(v)
    requires after == [] || !IsVersionChar(after[0])
    requires v == "" ==> (after == [] || after[0] != '@')
    ensures VersionCut(v + after) == (v, after)
  {
    if v != "" {
      var s := v + after;
      assert s[1..] == v[1..] + after;
      SpanCutConcat(v[1..], after, IsVersionChar);
      assert [s[0]] + v[1..] == v;
    } else {
      assert v + after == after;
    }
  }

  /** A character no id or version character run can absorb, and not the `@` of a version. */
  predicate Stop(c: char) {
    !IsIdChar(c) && !IsVersionChar(c) && c != '@'
  }

  /** The part both patterns share: `^\s*KEYWORD\s+(ID)(?:@VER)?`, and what follows it. */
  datatype Head = Head(lead: string, gap: string, id: string, version: string, after: string)
  {
    predicate WellFormed() {
      AllSpace(lead) && gap != "" && AllSpace(gap) && id != "" && AllId(id) && VersionSuffix(version)
    }
  }

  function HeadText(kw: string, h: Head): string {
    h.lead + (kw + (h.gap + (h.id + (h.version + h.after))))
  }

  /** The shared prefix of the patterns for keyword `kw`, matched greedily as the regular expressions do. */
  function MatchHead(kw: string, line: string): (r: Option<Head>)
    ensures r.Some? ==> r.value.WellFormed() && HeadText(kw, r.value) == line
  {
    var c1 := SpanCut(line, IsSpace);
    if !StartsWith(c1.1, kw) then None
    else
      StartsWithSplit(c1.1, kw);
      var c3 := SpanCut(c1.1[|kw|..], IsSpace);
      if c3.0 == "" then None
      else
        var c4 := SpanCut(c3.1, IsIdChar);
        if c4.0 == "" then None
        else
          var c5 := VersionCut(c4.1);
          Some(Head(c1.0, c3.0, c4.0, c5.0, c5.1))
  }

  /** A well-formed head followed by a stop character is matched and cut back into the same pieces. */
  lemma MatchHeadComplete(kw: string, h: Head)
    requires h.WellFormed() && |kw| > 0 && !IsSpace(kw[0])
    requires |h.after| > 0 && Stop(h.after[0])
    ensures MatchHead(kw, HeadText(kw, h)) == Some(h)
  {
    var s4 := h.version + h.after;
    var s3 := h.id + s4;
    var s2 := h.gap + s3;
    var s1 := kw + s2;
    FirstOfConcat(kw, s2);
    SpanCutConcat(h.lead, s1, IsSpace);
    StartsWithConcat(kw, s2);
    DropPrefix(kw, s2);
    FirstOfConcat(h.id, s4);
    SpanCutConcat(h.gap, s3, IsSpace);
    FirstOfConcat(h.version, h.after);
    SpanCutConcat(h.id, s4, IsIdChar);
    VersionCutConcat(h.version, h.after);
  }

  // ---------------------------------------------------------------------
  // `^\s*package\s+(ID)(?:@VER)?\s*;`

  /** A line that matches the package pattern, cut into the pieces the pattern matches. */
  datatype PackageDecl = PackageDecl(lead: string, gap: string, id: string, version: string, trail: string, rest: string)
  {
    function Text(): string {
      lead + ("package" + (gap + (id + (version + (trail + (";" + rest))))))
    }

    predicate WellFormed() {
      AllSpace(lead) && gap != "" && AllSpace(gap) && id != "" && AllId(id)
      && VersionSuffix(version) && AllSpace(trail)
    }
  }

  /** The package pattern, as `re.match` runs it on one line. */
  function MatchPackage(line: string): (r: Option<PackageDecl>)
    ensures r.Some? ==> r.value.WellFormed() && r.value.Text() == line
  {
    match MatchHead("package", line)
    case None => None
    case Some(h) => PackageTail(h)
  }

  /** The `\s*;` that ends the package pattern, after the shared head. */
  function PackageTail(h: Head): (r: Option<PackageDecl>)
    requires h.WellFormed()
    ensures r.Some? ==> r.value.WellFormed() && r.value.Text() == HeadText("package", h)
  {
    var c6 := SpanCut(h.after, IsSpace);
    if c6.1 == [] || c6.1[0] != ';' then None
    else
      HeadSplit(c6.1);
      Some(PackageDecl(h.lead, h.gap, h.id, h.version, c6.0, c6.1[1..]))
  }

  /** Every well-formed package line is matched, and cut back into the same pieces. */
  lemma MatchPackageComplete(p: PackageDecl)
    requires p.WellFormed()
    ensures MatchPackage(p.Text()) == Some(p)
  {
    var s6 := ";" + p.rest;
    var h := Head(p.lead, p.gap, p.id, p.version, p.trail + s6);
    FirstOfConcat(p.trail, s6);
    assert HeadText("package", h) == p.Text();
    MatchHeadComplete("package", h);
    PackageTailComplete(h, p);
  }

  lemma PackageTailComplete(h: Head, p: PackageDecl)
    requires h.WellFormed() && p.WellFormed()
    requires h == Head(p.lead, p.gap, p.id, p.version, p.trail + (";" + p.rest))
    ensures PackageTail(h) == Some(p)
  {
    var s6 := ";" + p.rest;
    SpanCutConcat(p.trail, s6, IsSpace);
    DropPrefix(";", p.rest);
    assert SpanCut(h.after, IsSpace) == (p.trail, s6);
  }

  // ---------------------------------------------------------------------
  // `^\s*import\s+(ID)(?:@VER)?/.*?;` and the same with `include`

  datatype UseDecl = UseDecl(keyword: string, lead: string, gap: string, id: string, version: string, tail: string)
  {
    function Text(): string {
      lead + (keyword + (gap + (id + (version + ("/" + tail)))))
    }

    predicate WellFormed() {
      AllSpace(lead) && gap != "" && AllSpace(gap) && id != "" && AllId(id)
      && VersionSuffix(version) && SemicolonAhead(tail)
    }
  }

  /** The import or include pattern for keyword `kw`. */
  function MatchUse(kw: string, line: string): (r: Option<UseDecl>)
    ensures r.Some? ==> r.value.WellFormed() && r.value.keyword == kw && r.value.Text() == line
  {
    match MatchHead(kw, line)
    case None => None
    case Some(h) =>
      if h.after == [] || h.after[0] != '/' || !SemicolonAhead(h.after[1..]) then None
      else
        HeadSplit(h.after);
        Some(UseDecl(kw, h.lead, h.gap, h.id, h.version, h.after[1..]))
  }

  /** Every well-formed import or include line is matched, and cut back into the same pieces. */
  lemma MatchUseComplete(u: UseDecl)
    requires u.WellFormed() && u.keyword in {"import", "include"}
    ensures MatchUse(u.keyword, u.Text()) == Some(u)
  {
    var h := Head(u.lead, u.gap, u.id, u.version, "/" + u.tail);
    assert HeadText(u.keyword, h) == u.Text();
    MatchHeadComplete(u.keyword, h);
    DropPrefix("/", u.tail);
  }

  // ---------------------------------------------------------------------
  // One line: the package pattern is tried first, then import, then include

  datatype Directive = PackageLine(id: string) | DependencyLine(id: string) | OtherLine

  function ClassifyLine(line: string): Directive {
    match MatchPackage(line)
    case Some(p) => PackageLine(p.id)
    case None =>
      match MatchUse("import", line)
      case Some(u) => DependencyLine(u.id)
      case None =>
        match MatchUse("include", line)
        case Some(u) => DependencyLine(u.id)
        case None => OtherLine
  }

  /** A well-formed package line declares its id, whatever else it holds. */
  lemma PackageLineDeclares(p: PackageDecl)
    requires p.WellFormed()
    ensures ClassifyLine(p.Text()) == PackageLine(p.id)
  {
    MatchPackageComplete(p);
  }

  /** After blanks, a line that starts with keyword `kw` cannot start with a keyword that differs from it at `i`. */
  lemma OtherKeywordFails(kw: string, other: string, i: nat, lead: string, rest: string)
    requires AllSpace(lead) && |kw| > 0 && !IsSpace(kw[0])
    requires i < |kw| && i < |other| && kw[i] != other[i]
    ensures MatchHead(other, lead + (kw + rest)) == None
  {
    SpanCutConcat(lead, kw + rest, IsSpace);
    assert (kw + rest)[i] == kw[i];
  }

  /** A well-formed import or include line adds its base id, the part before `@` and `/`. */
  lemma UseLineReferences(u: UseDecl)
    requires u.WellFormed() && u.keyword in {"import", "include"}
    ensures ClassifyLine(u.Text()) == DependencyLine(u.id)
  {
    var rest := u.gap + (u.id + (u.version + ("/" + u.tail)));
    assert u.Text() == u.lead + (u.keyword + rest);
    // The line continues with `i` where the package pattern needs `p`.
    OtherKeywordFails(u.keyword, "package", 0, u.lead, rest);
    if u.keyword == "include" {
      // and with `c` where the import pattern needs `p`.
      OtherKeywordFails(u.keyword, "import", 2, u.lead, rest);
    }
    MatchUseComplete(u);
    ClassifyUse(u.Text(), u);
  }

  lemma ClassifyUse(line: string, u: UseDecl)
    requires MatchHead("package", line) == None
    requires MatchUse(u.keyword, line) == Some(u) && u.keyword in {"import", "include"}
    requires u.keyword == "include" ==> MatchHead("import", line) == None
    ensures ClassifyLine(line) == DependencyLine(u.id)
  {
  }

  // ---------------------------------------------------------------------
  // The lines of one file

  /** Each line's directive, in line order. */
  function Classify(lines: seq<string>): (r: seq<Directive>)
    ensures |r| == |lines|
  {
    seq(|lines|, i requires 0 <= i < |lines| => ClassifyLine(lines[i]))
  }

  /** The id of the last package line. */
  function LastPackage(kinds: seq<Directive>): Option<string> {
    if |kinds| == 0 then None
    else match kinds[|kinds| - 1]
      case PackageLine(id) => Some(id)
      case _ => LastPackage(kinds[..|kinds| - 1])
  }

  /** The ids of all import and include lines, collected line by line. */
  function ReferencedIds(kinds: seq<Directive>): set<string> {
    if |kinds| == 0 then {}
    else
      var last := kinds[|kinds| - 1];
      ReferencedIds(kinds[..|kinds| - 1]) + (if last.DependencyLine? then {last.id} else {})
  }

  /** An id is referenced exactly when some import or include line names it. */
  lemma {:induction false} ReferencedIdsAreDependencyLines(kinds: seq<Directive>, x: string)
    ensures x in ReferencedIds(kinds) <==> exists i :: 0 <= i < |kinds| && kinds[i] == DependencyLine(x)
    decreases |kinds|
  {
    if |kinds| > 0 {
      var n := |kinds| - 1;
      var init := kinds[..n];
      ReferencedIdsAreDependencyLines(init, x);
      assert forall i :: 0 <= i < n ==> kinds[i] == init[i];
      if kinds[n] == DependencyLine(x) {
        assert x in ReferencedIds(kinds);
      }
    }
  }

  /** A later package line overwrites an earlier one; no package line gives None. */
  lemma {:induction false} LastPackageWins(kinds: seq<Directive>)
    ensures LastPackage(kinds).None? <==> forall i :: 0 <= i < |kinds| ==> !kinds[i].PackageLine?
    ensures LastPackage(kinds).Some? ==>
      exists i :: 0 <= i < |kinds| && kinds[i] == PackageLine(LastPackage(kinds).value)
        && forall j :: i < j < |kinds| ==> !kinds[j].PackageLine?
    decreases |kinds|
  {
    if |kinds| > 0 {
      var n := |kinds| - 1;
      var init := kinds[..n];
      LastPackageWins(init);
      if kinds[n].PackageLine? {
        assert LastPackage(kinds) == Some(kinds[n].id);
        assert kinds[n] == PackageLine(LastPackage(kinds).value);
      } else {
        assert LastPackage(kinds) == LastPackage(init);
        assert forall i :: 0 <= i < n ==> kinds[i] == init[i];
        if LastPackage(init).Some? {
          var i :| 0 <= i < n && init[i] == PackageLine(LastPackage(init).value)
            && forall j :: i < j < n ==> !init[j].PackageLine?;
          assert kinds[i] == PackageLine(LastPackage(kinds).value);
        }
      }
    }
  }

  /**
   * The per-line loop of the scan: each package line sets the id (a later
   * one overwrites), each import or include line adds to the dependency set.
   */
  method ExtractDirectives(lines: seq<string>) returns (package: Option<string>, deps: set<string>)
    ensures package == LastPackage(Classify(lines))
    ensures deps == ReferencedIds(Classify(lines))
  {
    var kinds := Classify(lines);
    package := None;
    deps := {};
    var k := 0;
    while k < |lines|
      invariant 0 <= k <= |lines|
      invariant package == LastPackage(kinds[..k])
      invariant deps == ReferencedIds(kinds[..k])
    {
      var kind := kinds[k];
      DirectivesStep(kinds, k);
      if kind.PackageLine? {
        package := Some(kind.id);
      } else if kind.DependencyLine? {
        deps := deps + {kind.id};
      }
      k := k + 1;
    }
    assert kinds[..k] == kinds;
  }

  /** One more line: a package line replaces the package, an import or include line adds its id. */
  lemma DirectivesStep(kinds: seq<Directive>, k: nat)
    requires k < |kinds|
    ensures LastPackage(kinds[..k + 1]) == if kinds[k].PackageLine? then Some(kinds[k].id) else LastPackage(kinds[..k])
    ensures ReferencedIds(kinds[..k + 1]) ==
      ReferencedIds(kinds[..k]) + (if kinds[k].DependencyLine? then {kinds[k].id} else {})
  {
    assert kinds[..k + 1][..k] == kinds[..k];
  }

  // ---------------------------------------------------------------------
  // Directories

  /** One directory entry; `lines` is the text split into lines, or None when reading fails. */
  datatype DirEntry = DirEntry(name: string, isFile: bool, lines: Option<seq<string>>)

  /** A target path: its display path, last path component, whether it is a directory, its listing. */
  datatype TargetDir = TargetDir(path: string, name: string, isDir: bool, entries: seq<DirEntry>)

  /** The glob `*.wit` over a listing, in listing order. */
  function WitEntries(entries: seq<DirEntry>): (r: seq<DirEntry>)
    ensures forall e :: e in r <==> e in entries && EndsWith(e.name, ".wit")
  {
    if |entries| == 0 then []
    else (if EndsWith(entries[0].name, ".wit") then [entries[0]] else []) + WitEntries(entries[1..])
  }

  predicate IsExpected(d: TargetDir, e: DirEntry) {
    e.name == d.name + ".wit" && e.isFile
  }

  function FirstExpected(d: TargetDir, entries: seq<DirEntry>): (r: Option<DirEntry>)
    ensures r.None? <==> forall e :: e in entries ==> !IsExpected(d, e)
    ensures r.Some? ==> r.value in entries && IsExpected(d, r.value)
  {
    if |entries| == 0 then None
    else if IsExpected(d, entries[0]) then Some(entries[0])
    else FirstExpected(d, entries[1..])
  }

  /**
   * The locator: `<dir>/<dirname>.wit` if it is a file; otherwise the only
   * `*.wit` entry if there is exactly one; otherwise nothing.
   */
  function FindMainWitFile(d: TargetDir): (r: Option<DirEntry>)
    ensures (exists e :: e in d.entries && IsExpected(d, e)) ==> r.Some? && IsExpected(d, r.value) && r.value in d.entries
    ensures (forall e :: e in d.entries ==> !IsExpected(d, e)) ==>
      (r.Some? <==> |WitEntries(d.entries)| == 1) && (r.Some? ==> r == Some(WitEntries(d.entries)[0]))
    ensures r.Some? ==> r.value in d.entries && EndsWith(r.value.name, ".wit")
  {
    match FirstExpected(d, d.entries)
    case Some(e) =>
      EndsWithConcat(d.name, ".wit");
      Some(e)
    case None =>
      var wits := WitEntries(d.entries);
      if |wits| == 1 then
        assert wits[0] in wits;
        Some(wits[0])
      else None
  }

  /** Reading a directory, or a file that fails to read, raises. */
  function ReadLines(e: DirEntry): Option<seq<string>> {
    if e.isFile then e.lines else None
  }

  datatype ScanError =
    | NoMainWitFile(dir: string)
    | ReadFailed(dir: string)
    | NoPackage(dir: string)
    | DuplicatePackage(id: string, dir: string, firstDir: string)

  /** What scanning one target path yields, before duplicate ids are checked. */
  datatype DirScan = Skipped | Failed(error: ScanError) | Declared(id: string, deps: set<string>)

  function ScanDir(d: TargetDir): DirScan {
    if !d.isDir then Skipped
    else match FindMainWitFile(d)
      case None => Failed(NoMainWitFile(d.path))
      case Some(e) =>
        match ReadLines(e)
        case None => Failed(ReadFailed(d.path))
        case Some(lines) =>
          var kinds := Classify(lines);
          match LastPackage(kinds)
          case None => Failed(NoPackage(d.path))
          case Some(id) => Declared(id, ReferencedIds(kinds))
  }

  /** A target path and what scanning it yields. */
  datatype Scanned = Scanned(path: string, result: DirScan)

  function ScanResults(dirs: seq<TargetDir>): (r: seq<Scanned>)
    ensures |r| == |dirs|
  {
    seq(|dirs|, i requires 0 <= i < |dirs| => Scanned(dirs[i].path, ScanDir(dirs[i])))
  }

  datatype Decl = Decl(dir: string, deps: set<string>)

  /** The registrations and the reported errors after scanning some paths in order. */
  datatype Registry = Registry(decls: map<string, Decl>, errors: seq<ScanError>)

  /** One step of the scan: a first declaration registers, a repeated one is an error. */
  function Register(reg: Registry, s: Scanned): Registry {
    match s.result
    case Skipped => reg
    case Failed(e) => reg.(errors := reg.errors + [e])
    case Declared(id, deps) =>
      if id in reg.decls then reg.(errors := reg.errors + [DuplicatePackage(id, s.path, reg.decls[id].dir)])
      else reg.(decls := reg.decls[id := Decl(s.path, deps)])
  }

  function Collect(scans: seq<Scanned>): Registry {
    if |scans| == 0 then Registry(map[], [])
    else Register(Collect(scans[..|scans| - 1]), scans[|scans| - 1])
  }

  function Scan(dirs: seq<TargetDir>): Registry {
    Collect(ScanResults(dirs))
  }

  predicate DeclaresAt(scans: seq<Scanned>, i: int, id: string) {
    0 <= i < |scans| && scans[i].result.Declared? && scans[i].result.id == id
  }

  /**
   * An id is registered iff some path declares it, and it is registered to
   * the FIRST such path, with that path's dependencies.
   */
  lemma {:induction false} CollectKeepsFirst(scans: seq<Scanned>, id: string)
    ensures id in Collect(scans).decls <==> exists i :: DeclaresAt(scans, i, id)
    ensures id in Collect(scans).decls ==>
      exists i :: DeclaresAt(scans, i, id) && (forall j :: 0 <= j < i ==> !DeclaresAt(scans, j, id))
        && Collect(scans).decls[id] == Decl(scans[i].path, scans[i].result.deps)
    decreases |scans|
  {
    if |scans| > 0 {
      var n := |scans| - 1;
      var init := scans[..n];
      CollectKeepsFirst(init, id);
      RegisterKeeps(Collect(init), scans[n], id);
      if id in Collect(init).decls {
        var i :| DeclaresAt(init, i, id) && (forall j :: 0 <= j < i ==> !DeclaresAt(init, j, id))
          && Collect(init).decls[id] == Decl(init[i].path, init[i].result.deps);
        assert init[i] == scans[i];
        forall j | 0 <= j < i ensures !DeclaresAt(scans, j, id) {
          assert init[j] == scans[j];
        }
        assert DeclaresAt(scans, i, id);
      } else {
        forall j | 0 <= j < n ensures !DeclaresAt(scans, j, id) {
          assert init[j] == scans[j];
          assert !DeclaresAt(init, j, id);
        }
        if DeclaresAt(scans, n, id) {
          assert Collect(scans).decls[id] == Decl(scans[n].path, scans[n].result.deps);
        }
      }
    }
  }

  /** Registering one scan keeps every registered id and adds only the id it declares, when new. */
  lemma RegisterKeeps(reg: Registry, s: Scanned, id: string)
    ensures id in reg.decls ==> id in Register(reg, s).decls && Register(reg, s).decls[id] == reg.decls[id]
    ensures id !in reg.decls ==>
      (id in Register(reg, s).decls <==> s.result.Declared? && s.result.id == id)
    ensures id !in reg.decls && s.result.Declared? && s.result.id == id ==>
      Register(reg, s).decls[id] == Decl(s.path, s.result.deps)
  {
  }

  /** Two paths that declare the same id. */
  predicate DuplicateIds(scans: seq<Scanned>) {
    exists i, j :: 0 <= i < j < |scans| && scans[i].result.Declared? && DeclaresAt(scans, j, scans[i].result.id)
  }

  /**
   * No error is reported iff every path (other than skipped non-directories)
   * has a main file with a package line, and no id is declared twice.
   */
  lemma {:induction false} CollectErrorFree(scans: seq<Scanned>)
    ensures Collect(scans).errors == [] <==>
      (forall i :: 0 <= i < |scans| ==> !scans[i].result.Failed?) && !DuplicateIds(scans)
    decreases |scans|
  {
    if |scans| > 0 {
      var n := |scans| - 1;
      var init := scans[..n];
      CollectErrorFree(init);
      assert forall i :: 0 <= i < n ==> init[i] == scans[i];
      var reg := Collect(init);
      assert |Collect(scans).errors| >= |reg.errors|;
      match scans[n].result
      case Skipped =>
        if DuplicateIds(scans) {
          var i, j :| 0 <= i < j < |scans| && scans[i].result.Declared? && DeclaresAt(scans, j, scans[i].result.id);
          assert DeclaresAt(init, j, init[i].result.id);
        }
        if DuplicateIds(init) {
          var i, j :| 0 <= i < j < |init| && init[i].result.Declared? && DeclaresAt(init, j, init[i].result.id);
          assert DeclaresAt(scans, j, scans[i].result.id);
        }
      case Failed(e) =>
      case Declared(id, deps) =>
        CollectKeepsFirst(init, id);
        if id in reg.decls {
          var i :| DeclaresAt(init, i, id);
          assert DeclaresAt(scans, n, scans[i].result.id);
          assert DuplicateIds(scans);
        } else {
          if DuplicateIds(scans) {
            var i, j :| 0 <= i < j < |scans| && scans[i].result.Declared? && DeclaresAt(scans, j, scans[i].result.id);
            if j == n {
              assert DeclaresAt(init, i, id);
            } else {
              assert DeclaresAt(init, j, init[i].result.id);
            }
          }
          if DuplicateIds(init) {
            var i, j :| 0 <= i < j < |init| && init[i].result.Declared? && DeclaresAt(init, j, init[i].result.id);
            assert DeclaresAt(scans, j, scans[i].result.id);
          }
        }
    }
  }

  /**
   * The scan over all target paths: builds the graph and the id-to-directory
   * map and collects every error, in the order the directories are visited.
   */
  method BuildDependencyGraph(dirs: seq<TargetDir>) returns (graph: Graph, packageToDir: map<string, string>, errors: seq<ScanError>)
    ensures graph.Keys == packageToDir.Keys == Scan(dirs).decls.Keys
    ensures forall id :: id in graph ==> Decl(packageToDir[id], graph[id]) == Scan(dirs).decls[id]
    ensures errors == Scan(dirs).errors
  {
    ghost var scans := ScanResults(dirs);
    graph, packageToDir, errors := map[], map[], [];
    var k := 0;
    while k < |dirs|
      invariant 0 <= k <= |dirs|
      invariant graph.Keys == packageToDir.Keys == Collect(scans[..k]).decls.Keys
      invariant forall id :: id in graph ==> Decl(packageToDir[id], graph[id]) == Collect(scans[..k]).decls[id]
      invariant errors == Collect(scans[..k]).errors
    {
      var d := dirs[k];
      var s := ScanDirectory(d);
      CollectStep(scans, k);
      assert scans[k] == Scanned(d.path, s);
      match s {
        case Skipped =>
        case Failed(e) =>
          errors := errors + [e];
        case Declared(id, deps) =>
          if id in packageToDir {
            errors := errors + [DuplicatePackage(id, d.path, packageToDir[id])];
          } else {
            packageToDir := packageToDir[id := d.path];
            graph := graph[id := deps];
          }
      }
      k := k + 1;
    }
    assert scans[..k] == scans;
  }

  /**
   * One target path of the scan: a non-directory is skipped with a warning;
   * otherwise its main `.wit` file is located, read and its directives
   * extracted, each failure being that path's error.
   */
  method ScanDirectory(d: TargetDir) returns (s: DirScan)
    ensures s == ScanDir(d)
  {
    if !d.isDir {
      return Skipped;
    }
    var main := FindMainWitFile(d);
    if main.None? {
      return Failed(NoMainWitFile(d.path));
    }
    var contents := ReadLines(main.value);
    if contents.None? {
      return Failed(ReadFailed(d.path));
    }
    var package, deps := ExtractDirectives(contents.value);
    if package.None? {
      return Failed(NoPackage(d.path));
    }
    return Declared(package.value, deps);
  }

  /** Scanning one more path registers its result. */
  lemma CollectStep(scans: seq<Scanned>, k: nat)
    requires k < |scans|
    ensures Collect(scans[..k + 1]) == Register(Collect(scans[..k]), scans[k])
  {
    assert scans[..k + 1][..k] == scans[..k];
  }

  // ---------------------------------------------------------------------
  // Ordering

  function DeclGraph(reg: Registry): Graph {
    map id | id in reg.decls :: reg.decls[id].deps
  }

  /** Ids that some package depends on but no package declares. */
  function Missing(g: Graph): set<string> {
    (set id, d | id in g && d in g[id] :: d) - g.Keys
  }

  lemma NoMissingMeansClosed(g: Graph)
    ensures Missing(g) == {} <==> Closed(g)
  {
    if Missing(g) == {} {
      forall id | id in g ensures g[id] <= g.Keys {
        forall d | d in g[id] ensures d in g.Keys {
          assert d in (set id, d | id in g && d in g[id] :: d);
          assert d !in Missing(g);
        }
      }
    }
  }

  /** A partial schedule: `order` holds, dependencies first, exactly the nodes not in `rest`. */
  predicate Scheduled(g: Graph, order: seq<string>, rest: set<string>) {
    rest <= g.Keys
    && (forall n :: n in g ==> (n in order <==> n !in rest))
    && Elems(order) <= g.Keys
    && Distinct(order)
    && DependenciesFirst(g, order)
  }

  /** A remaining node whose dependencies are all scheduled can be scheduled next. */
  lemma ScheduleReady(g: Graph, order: seq<string>, rest: set<string>, n: string)
    requires Closed(g) && Scheduled(g, order, rest)
    requires n in rest && g[n] * rest == {}
    ensures Scheduled(g, order + [n], rest - {n})
  {
    forall d | d in g[n] ensures d in Elems(order) {
      assert d in g && d !in g[n] * rest;
    }
    var next := order + [n];
    assert next[..|order|] == order;
    forall i | 0 <= i < |next| ensures next[i] in g && g[next[i]] <= Elems(next[..i]) {
      if i < |order| {
        assert next[..i] == order[..i];
      }
    }
    assert n !in order;
  }

  /**
   * The role `graphlib.TopologicalSorter(graph).static_order()` plays: every
   * node once, dependencies first, or a cycle error. The tie-break among
   * ready nodes is left open.
   */
  method TopologicalSort(g: Graph) returns (r: Option<seq<string>>)
    requires Closed(g)
    ensures r.Some? ==> IsTopoOrder(g, r.value)
    ensures r.None? ==> HasCycle(g)
  {
    var order: seq<string> := [];
    var rest := g.Keys;
    while rest != {}
      invariant Scheduled(g, order, rest)
      decreases |rest|
    {
      if n :| n in rest && g[n] * rest == {} {
        ScheduleReady(g, order, rest, n);
        order := order + [n];
        rest := rest - {n};
      } else {
        assert Stuck(g, rest);
        StuckHasCycle(g, rest);
        return None;
      }
    }
    return Some(order);
  }

  /** A directory-listing order exists exactly when the graph is acyclic. */
  lemma SortSucceedsIffAcyclic(g: Graph, order: seq<string>)
    requires IsTopoOrder(g, order)
    ensures !HasCycle(g)
  {
    forall c | true ensures !IsCycle(g, c) {
      TopoOrderExcludesCycle(g, order, c);
    }
  }

  datatype Outcome =
    | Ordered(dirs: seq<string>)
    | ScanAborted(errors: seq<ScanError>)
    | MissingDependencies(ids: seq<string>)
    | CycleDetected

  /**
   * The whole script: scan, abort on scan errors, abort on undefined
   * dependencies (listed sorted), then emit the directories in dependency
   * order or abort on a cycle with nothing emitted.
   */
  method OrderPackages(dirs: seq<TargetDir>) returns (outcome: Outcome)
    ensures outcome.ScanAborted? <==> Scan(dirs).errors != []
    ensures outcome.ScanAborted? ==> outcome.errors == Scan(dirs).errors
    ensures outcome.MissingDependencies? <==>
      Scan(dirs).errors == [] && Missing(DeclGraph(Scan(dirs))) != {}
    ensures outcome.MissingDependencies? ==>
      StrictlySorted(outcome.ids) && (forall x :: x in outcome.ids <==> x in Missing(DeclGraph(Scan(dirs))))
    ensures outcome.CycleDetected? <==>
      Scan(dirs).errors == [] && Missing(DeclGraph(Scan(dirs))) == {} && HasCycle(DeclGraph(Scan(dirs)))
    ensures outcome.Ordered? ==>
      exists order :: IsTopoOrder(DeclGraph(Scan(dirs)), order)
        && |outcome.dirs| == |order|
        && forall i :: 0 <= i < |order| ==> outcome.dirs[i] == Scan(dirs).decls[order[i]].dir
  {
    var graph, packageToDir, errors := BuildDependencyGraph(dirs);
    assert graph == DeclGraph(Scan(dirs));
    if errors != [] {
      return ScanAborted(errors);
    }
    var missing := Missing(graph);
    if missing != {} {
      var sorted := SortedElements(missing);
      return MissingDependencies(sorted);
    }
    NoMissingMeansClosed(graph);
    var sortedIds := TopologicalSort(graph);
    if sortedIds.None? {
      return CycleDetected;
    }
    var order := sortedIds.value;
    SortSucceedsIffAcyclic(graph, order);
    var out := seq(|order|, i requires 0 <= i < |order| => packageToDir[order[i]]);
    return Ordered(out);
  }
}
