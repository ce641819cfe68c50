// The binary listing of the install-script generator: a `checksums.txt`
// of "<sum> <file>" lines is read into a map, and every other directory
// entry whose name has at least four dash-separated parts becomes a
// binary record carrying its checksum (or "" when the map has none).
module GenerateScripts {
  import opened Wrappers
  import opened Strings
  import opened DistributionBinary

  const CHECKSUMS_FILE: string := "checksums.txt"

  /** `checksums.txt` could not be read. */
  datatype ScriptError = ChecksumsUnreadable

  /** A line that names a checksum: at least two tokens. */
  predicate IsEntryLine(line: string) {
    |Words(line)| >= 2
  }

  /** Line `i` is an entry line for file `k`. */
  predicate KeyLine(lines: seq<string>, i: int, k: string) {
    0 <= i < |lines| && IsEntryLine(lines[i]) && Words(lines[i])[1] == k
  }

  /** Line `i` is the last entry line for file `k`, and it gives `sum`. */
  predicate LastKeyLine(lines: seq<string>, i: int, k: string, sum: string) {
    KeyLine(lines, i, k) && Words(lines[i])[0] == sum
    && forall j :: i < j < |lines| ==> !KeyLine(lines, j, k)
  }

  /** What the map of `lines` holds: the files named by entry lines, each with the sum of its last line. */
  ghost predicate EntriesOf(lines: seq<string>, m: map<string, string>) {
    (forall k :: k in m <==> exists i :: KeyLine(lines, i, k))
    && forall k :: k in m ==> exists i :: LastKeyLine(lines, i, k, m[k])
  }

  /**
   * The `filter_map`/`collect` over the lines: each line with two or more
   * tokens maps its second token to its first, a later line overriding an
   * earlier one for the same file.
   */
  function ChecksumEntries(lines: seq<string>): (m: map<string, string>)
    ensures EntriesOf(lines, m)
  {
    if |lines| == 0 then map[]
    else
      var init := lines[..|lines| - 1];
      var line := lines[|lines| - 1];
      var m := ChecksumEntries(init);
      EntriesStep(init, line, m);
      assert init + [line] == lines;
      Added(m, line)
  }

  /** The map after one more line. */
  function Added(m: map<string, string>, line: string): map<string, string> {
    if IsEntryLine(line) then m[Words(line)[1] := Words(line)[0]] else m
  }

  /** One more line keeps the map's meaning. */
  lemma EntriesStep(init: seq<string>, line: string, m: map<string, string>)
    requires EntriesOf(init, m)
    ensures EntriesOf(init + [line], Added(m, line))
  {
    KeysStep(init, line, m);
    SumsStep(init, line, m);
  }

  lemma KeyLineExtend(init: seq<string>, line: string, i: int, k: string)
    requires 0 <= i < |init|
    ensures KeyLine(init + [line], i, k) <==> KeyLine(init, i, k)
  {
    assert (init + [line])[i] == init[i];
  }

  lemma KeysStep(init: seq<string>, line: string, m: map<string, string>)
    requires forall k :: k in m <==> exists i :: KeyLine(init, i, k)
    ensures forall k :: k in Added(m, line) <==> exists i :: KeyLine(init + [line], i, k)
  {
    var lines := init + [line];
    var n := |init|;
    forall k ensures k in Added(m, line) <==> exists i :: KeyLine(lines, i, k) {
      if k in m {
        var i :| KeyLine(init, i, k);
        KeyLineExtend(init, line, i, k);
      } else if k in Added(m, line) {
        assert KeyLine(lines, n, k);
      } else {
        forall i | 0 <= i < |lines| ensures !KeyLine(lines, i, k) {
          if i < n {
            KeyLineExtend(init, line, i, k);
          }
        }
      }
    }
  }

  lemma SumsStep(init: seq<string>, line: string, m: map<string, string>)
    requires forall k :: k in m ==> exists i :: LastKeyLine(init, i, k, m[k])
    ensures forall k :: k in Added(m, line) ==> exists i :: LastKeyLine(init + [line], i, k, Added(m, line)[k])
  {
    var lines := init + [line];
    var n := |init|;
    var m' := Added(m, line);
    forall k | k in m' ensures exists i :: LastKeyLine(lines, i, k, m'[k]) {
      if IsEntryLine(line) && k == Words(line)[1] {
        assert LastKeyLine(lines, n, k, m'[k]);
      } else {
        var i :| LastKeyLine(init, i, k, m[k]);
        forall j | i < j < |lines| ensures !KeyLine(lines, j, k) {
          if j < n {
            KeyLineExtend(init, line, j, k);
          }
        }
        KeyLineExtend(init, line, i, k);
        assert LastKeyLine(lines, i, k, m'[k]);
      }
    }
  }

  /**
   * The map read from the text of `checksums.txt`. The pieces between line
   * feeds are taken as the lines: a carriage return or an empty last piece
   * has no token, so tokenising gives what `lines()` would.
   */
  function ChecksumsMap(text: string): map<string, string> {
    ChecksumEntries(Split(text, '\n'))
  }

  /** The checksum recorded for `name`, or "" (`unwrap_or_default`). */
  function ChecksumFor(m: map<string, string>, name: string): string {
    if name in m then m[name] else ""
  }

  /** The record made for an emitted entry: target between the first and last parts, variant the last part as is. */
  function Record(m: map<string, string>, name: string): BinaryInfo
    requires |Parts(name)| >= 2
  {
    var parts := Parts(name);
    BinaryInfo(name, Target(parts), parts[|parts| - 1], ChecksumFor(m, name))
  }

  /** The entries that are emitted: any name but `checksums.txt` with four or more parts. */
  predicate Emitted(name: string) {
    name != CHECKSUMS_FILE && |Parts(name)| >= 4
  }

  /** The records made for the first entries of the listing, in listing order. */
  function Records(m: map<string, string>, entries: seq<string>): seq<BinaryInfo> {
    if |entries| == 0 then []
    else
      var name := entries[|entries| - 1];
      Records(m, entries[..|entries| - 1]) + (if Emitted(name) then [Record(m, name)] else [])
  }

  /**
   * `parse_binary_info`: fails when `checksums.txt` cannot be read, and
   * otherwise returns one record per emitted entry.
   */
  method ParseBinaryInfo(checksums: Option<string>, entries: seq<string>) returns (r: Result<seq<BinaryInfo>, ScriptError>)
    ensures checksums.None? <==> r == Err(ChecksumsUnreadable)
    ensures r.Ok? ==> r.value == Records(ChecksumsMap(checksums.value), entries)
  {
    if checksums.None? {
      return Err(ChecksumsUnreadable);
    }
    var m := ChecksumsMap(checksums.value);
    var binaries := [];
    for i := 0 to |entries|
      invariant binaries == Records(m, entries[..i])
    {
      assert entries[..i + 1][..i] == entries[..i];
      var filename := entries[i];
      if filename == CHECKSUMS_FILE {
        continue;
      }
      var parts := Split(filename, '-');
      if |parts| >= 4 {
        binaries := binaries + [BinaryInfo(filename, Target(parts), parts[|parts| - 1], ChecksumFor(m, filename))];
      }
    }
    assert entries[..|entries|] == entries;
    return Ok(binaries);
  }

  /**
   * Every record is for an emitted entry of the listing: never
   * `checksums.txt`, always four or more parts, with the mapped checksum.
   */
  lemma {:induction false} RecordsSound(m: map<string, string>, entries: seq<string>)
    ensures forall b :: b in Records(m, entries) ==>
      b.name in entries && Emitted(b.name) && b == Record(m, b.name)
      && b.name != CHECKSUMS_FILE && b.checksum == ChecksumFor(m, b.name)
    decreases |entries|
  {
    if |entries| > 0 {
      var init := entries[..|entries| - 1];
      RecordsSound(m, init);
      forall b | b in Records(m, entries)
        ensures b.name in entries && Emitted(b.name) && b == Record(m, b.name)
      {
        if b in Records(m, init) {
          assert b.name in init;
        }
      }
    }
  }

  /** Every emitted entry gets its record; there is no `icp-` prefix check. */
  lemma {:induction false} RecordsComplete(m: map<string, string>, entries: seq<string>, name: string)
    requires name in entries && Emitted(name)
    ensures Record(m, name) in Records(m, entries)
    decreases |entries|
  {
    var init := entries[..|entries| - 1];
    if name != entries[|entries| - 1] {
      assert entries == init + [entries[|entries| - 1]];
      RecordsComplete(m, init, name);
    }
  }

  /** A file the checksums do not mention is listed with an empty checksum. */
  lemma MissingChecksumIsEmpty(m: map<string, string>, entries: seq<string>, name: string)
    requires name in entries && Emitted(name) && name !in m
    ensures BinaryInfo(name, Target(Parts(name)), Parts(name)[|Parts(name)| - 1], "") in Records(m, entries)
  {
    RecordsComplete(m, entries, name);
  }

  /** A single "<sum> <file>" line maps the file to the sum. */
  lemma {:induction false} OneLine(sum: string, file: string)
    requires |sum| > 0 && |file| > 0
    requires forall j :: 0 <= j < |sum| ==> !IsSpace(sum[j])
    requires forall j :: 0 <= j < |file| ==> !IsSpace(file[j])
    ensures ChecksumEntries([sum + " " + file]) == map[file := sum]
  {
    var line := sum + " " + file;
    SpanLenConcat(sum, " " + file, NotSpace);
    assert line[..|sum|] == sum;
    assert line[|sum|..] == " " + file;
    assert Words(line) == [sum] + Words(" " + file);
    assert (" " + file)[1..] == file;
    SpanLenConcat(file, [], NotSpace);
    assert file + [] == file;
    assert Words(file) == [file] + Words(file[|file|..]);
    assert Words(line) == [sum, file];
    assert [line][..0] == [];
  }
}
