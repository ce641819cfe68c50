// String helpers shared by the modules: prefix and suffix tests, substring
// search, splitting and joining at a separator character, trimming,
// ASCII case folding, whitespace tokenising and code-point ordering.
module Strings {
  import opened Wrappers

  /** `s.starts_with(p)` / `str.startswith` */
  predicate StartsWith(s: string, p: string) {
    |p| <= |s| && s[..|p|] == p
  }

  /** `s.ends_with(x)` / `str.endswith` */
  predicate EndsWith(s: string, x: string) {
    |x| <= |s| && s[|s| - |x|..] == x
  }

  /** `sub` occurs in `s` starting at index `i`. */
  predicate OccursAt(s: string, i: int, sub: string) {
    0 <= i && i + |sub| <= |s| && s[i..i + |sub|] == sub
  }

  /** `s.contains(sub)` for a string pattern. */
  predicate Contains(s: string, sub: string) {
    exists i :: 0 <= i <= |s| && OccursAt(s, i, sub)
  }

  lemma EndsWithConcat(a: string, x: string)
    ensures EndsWith(a + x, x)
  {
    assert (a + x)[|a + x| - |x|..] == x;
  }

  /** A string that starts with `p` is `p` followed by the rest. */
  lemma StartsWithSplit(s: string, p: string)
    requires StartsWith(s, p)
    ensures s == p + s[|p|..]
  {
  }

  /** A non-empty string is its first character followed by the rest. */
  lemma HeadSplit(s: string)
    requires |s| > 0
    ensures s == [s[0]] + s[1..]
  {
  }

  /** The first character of a concatenation whose second part is not empty. */
  lemma FirstOfConcat(a: string, b: string)
    requires |b| > 0
    ensures (a + b)[0] == if |a| > 0 then a[0] else b[0]
  {
  }

  /** Dropping a prefix gives back what followed it. */
  lemma DropPrefix(p: string, b: string)
    ensures (p + b)[|p|..] == b
  {
  }

  lemma StartsWithConcat(p: string, b: string)
    ensures StartsWith(p + b, p)
  {
    assert (p + b)[..|p|] == p;
  }

  // ---------------------------------------------------------------------
  // Searching for one character

  /** Index of the first occurrence of `c` (`str::find(char)`). */
  function IndexOf(s: string, c: char): (r: Option<nat>)
    ensures r.None? <==> c !in s
    ensures r.Some? ==> r.value < |s| && s[r.value] == c && c !in s[..r.value]
  {
    if |s| == 0 then None
    else if s[0] == c then Some(0)
    else match IndexOf(s[1..], c)
      case None => None
      case Some(i) =>
        assert s[..i + 1] == [s[0]] + s[1..][..i];
        Some(i + 1)
  }

  /** Index of the last occurrence of `c` (`str::rfind(char)`). */
  function LastIndexOf(s: string, c: char): (r: Option<nat>)
    ensures r.None? <==> c !in s
    ensures r.Some? ==> r.value < |s| && s[r.value] == c && c !in s[r.value + 1..]
  {
    if |s| == 0 then None
    else if s[|s| - 1] == c then Some(|s| - 1)
    else
      var init := s[..|s| - 1];
      match LastIndexOf(init, c)
      case None =>
        assert s == init + [s[|s| - 1]];
        None
      case Some(i) =>
        assert s[i + 1..] == init[i + 1..] + [s[|s| - 1]];
        Some(i)
  }

  // ---------------------------------------------------------------------
  // Splitting and joining at a separator character

  /**
   * Rust's `s.split(c)`: the pieces between occurrences of `c`; there is
   * always one more piece than there are separators, so "" gives [""].
   */
  function Split(s: string, c: char): (r: seq<string>)
    ensures |r| >= 1
    ensures forall k :: 0 <= k < |r| ==> c !in r[k]
    decreases |s|
  {
    match IndexOf(s, c)
    case None => [s]
    case Some(i) => [s[..i]] + Split(s[i + 1..], c)
  }

  /** `parts.join(sep)` */
  function Join(parts: seq<string>, sep: string): string {
    if |parts| == 0 then ""
    else if |parts| == 1 then parts[0]
    else parts[0] + sep + Join(parts[1..], sep)
  }

  lemma JoinCons(a: string, parts: seq<string>, sep: string)
    requires |parts| >= 1
    ensures Join([a] + parts, sep) == a + sep + Join(parts, sep)
  {
    assert ([a] + parts)[1..] == parts;
  }

  /** Joining one more part appends the separator and the part. */
  lemma {:induction false} JoinSnoc(parts: seq<string>, a: string, sep: string)
    requires |parts| >= 1
    ensures Join(parts + [a], sep) == Join(parts, sep) + sep + a
    decreases |parts|
  {
    if |parts| == 1 {
      assert (parts + [a])[1..] == [a];
    } else {
      assert (parts + [a])[1..] == parts[1..] + [a];
      JoinSnoc(parts[1..], a, sep);
    }
  }

  /** Joining the pieces of a split with the separator restores the text. */
  lemma {:induction false} JoinSplit(s: string, c: char)
    ensures Join(Split(s, c), [c]) == s
    decreases |s|
  {
    var idx := IndexOf(s, c);
    if idx.Some? {
      var i := idx.value;
      var rest := s[i + 1..];
      var pieces := Split(rest, c);
      calc {
        Join(Split(s, c), [c]);
      == { assert Split(s, c) == [s[..i]] + pieces; }
        Join([s[..i]] + pieces, [c]);
      == { JoinCons(s[..i], pieces, [c]); }
        s[..i] + [c] + Join(pieces, [c]);
      == { JoinSplit(rest, c); }
        s[..i] + [c] + rest;
      == { assert s[i] == c; }
        s;
      }
    }
  }

  /** Splitting the joined pieces gives the pieces back, when no piece holds the separator. */
  lemma {:induction false} SplitJoin(parts: seq<string>, c: char)
    requires |parts| >= 1
    requires forall k :: 0 <= k < |parts| ==> c !in parts[k]
    ensures Split(Join(parts, [c]), c) == parts
    decreases |parts|
  {
    if |parts| == 1 {
      assert IndexOf(parts[0], c) == None;
    } else {
      var tail := Join(parts[1..], [c]);
      var s := parts[0] + [c] + tail;
      assert Join(parts, [c]) == s;
      var i := |parts[0]|;
      assert s[i] == c;
      assert s[..i] == parts[0];
      assert IndexOf(s, c) == Some(i);
      assert s[i + 1..] == tail;
      SplitJoin(parts[1..], c);
    }
  }

  // ---------------------------------------------------------------------
  // Trimming one character

  /** `s.trim_end_matches(c)`: drop every trailing `c`. */
  function TrimEnd(s: string, c: char): (r: string)
    ensures |r| <= |s| && r == s[..|r|]
    ensures r == [] || r[|r| - 1] != c
    ensures forall k :: |r| <= k < |s| ==> s[k] == c
  {
    if |s| > 0 && s[|s| - 1] == c then TrimEnd(s[..|s| - 1], c) else s
  }

  /** `s.trim_start_matches(c)`: drop every leading `c`. */
  function TrimStart(s: string, c: char): (r: string)
    ensures |r| <= |s| && r == s[|s| - |r|..]
    ensures r == [] || r[0] != c
    ensures forall k :: 0 <= k < |s| - |r| ==> s[k] == c
  {
    if |s| > 0 && s[0] == c then TrimStart(s[1..], c) else s
  }

  /**
   * `s.trim_matches(c)`: drop `c` at both ends. The result is the piece of
   * `s` with nothing but `c`s before and after it that neither starts nor
   * ends with `c`, which fixes it.
   */
  function Trim(s: string, c: char): (r: string)
    ensures r == [] || (r[0] != c && r[|r| - 1] != c)
    ensures exists i :: TrimmedAt(s, c, i, r)
  {
    TrimPiece(s, c);
    TrimStart(TrimEnd(s, c), c)
  }

  /** `r` occurs in `s` at `i`, with only `c`s before and after it. */
  predicate TrimmedAt(s: string, c: char, i: int, r: string) {
    OccursAt(s, i, r)
    && (forall k :: 0 <= k < i ==> s[k] == c)
    && (forall k :: i + |r| <= k < |s| ==> s[k] == c)
  }

  /** What is left after trimming both ends sits in `s` between leading and trailing `c`s. */
  lemma TrimPiece(s: string, c: char)
    ensures var e := TrimEnd(s, c);
      var t := TrimStart(e, c);
      (t == [] || t[|t| - 1] != c) && TrimmedAt(s, c, |e| - |t|, t)
  {
    var e := TrimEnd(s, c);
    var t := TrimStart(e, c);
    var i := |e| - |t|;
    assert t == e[i..];
    assert t == [] || t[|t| - 1] == e[|e| - 1];
    assert e == s[..|e|];
    assert s[i..|e|] == e[i..];
    forall k | 0 <= k < i ensures s[k] == c {
      assert s[k] == e[k];
    }
  }

  /** Only one piece of `s` fits the contract of `Trim`: any piece that does is the trimmed string. */
  lemma TrimCharacterized(s: string, c: char, i: int, r: string)
    requires TrimmedAt(s, c, i, r) && (r == [] || (r[0] != c && r[|r| - 1] != c))
    ensures Trim(s, c) == r
  {
    var q := Trim(s, c);
    var j :| TrimmedAt(s, c, j, q);
    if r != [] {
      assert s[i] == r[0] && s[i + |r| - 1] == r[|r| - 1];
    }
    if q != [] {
      assert s[j] == q[0] && s[j + |q| - 1] == q[|q| - 1];
    }
  }

  // ---------------------------------------------------------------------
  // ASCII case folding

  function ToLowerChar(c: char): char {
    if 'A' <= c <= 'Z' then (c as int + 32) as char else c
  }

  /** `to_lowercase`, on the ASCII letters. */
  function ToLower(s: string): (r: string)
    ensures |r| == |s|
    ensures forall k :: 0 <= k < |s| ==> r[k] == ToLowerChar(s[k])
  {
    seq(|s|, k requires 0 <= k < |s| => ToLowerChar(s[k]))
  }

  /** Lower-casing twice is lower-casing once. */
  lemma ToLowerIdempotent(s: string)
    ensures ToLower(ToLower(s)) == ToLower(s)
  {
    var t := ToLower(s);
    forall k | 0 <= k < |s| ensures ToLower(t)[k] == t[k] {
      assert ToLowerChar(ToLowerChar(s[k])) == ToLowerChar(s[k]);
    }
  }

  // ---------------------------------------------------------------------
  // Whitespace

  /** ASCII whitespace: space, tab, line feed, vertical tab, form feed, carriage return. */
  predicate IsSpace(c: char) {
    c == ' ' || c == '\t' || c == '\n' || c == '\r' || c == '\U{0B}' || c == '\U{0C}'
  }

  predicate NotSpace(c: char) {
    !IsSpace(c)
  }

  /** Length of the longest prefix of `s` whose characters all satisfy `p`. */
  function SpanLen(s: string, p: char -> bool): (n: nat)
    ensures n <= |s|
    ensures forall k :: 0 <= k < n ==> p(s[k])
    ensures n < |s| ==> !p(s[n])
  {
    if |s| == 0 || !p(s[0]) then 0 else 1 + SpanLen(s[1..], p)
  }

  /** `s` cut after its longest prefix satisfying `p`. */
  function SpanCut(s: string, p: char -> bool): (c: (string, string))
    ensures c.0 + c.1 == s
    ensures forall k :: 0 <= k < |c.0| ==> p(c.0[k])
    ensures c.1 == [] || !p(c.1[0])
  {
    var n := SpanLen(s, p);
    assert s == s[..n] + s[n..];
    (s[..n], s[n..])
  }

  /** The span of `x + y` is exactly `x` when `x` satisfies `p` and `y` does not start with it. */
  lemma {:induction false} SpanLenConcat(x: string, y: string, p: char -> bool)
    requires forall k :: 0 <= k < |x| ==> p(x[k])
    requires y == [] || !p(y[0])
    ensures SpanLen(x + y, p) == |x|
    decreases |x|
  {
    if |x| > 0 {
      assert (x + y)[1..] == x[1..] + y;
      SpanLenConcat(x[1..], y, p);
    } else {
      assert x + y == y;
    }
  }

  lemma SpanCutConcat(x: string, y: string, p: char -> bool)
    requires forall k :: 0 <= k < |x| ==> p(x[k])
    requires y == [] || !p(y[0])
    ensures SpanCut(x + y, p) == (x, y)
  {
    SpanLenConcat(x, y, p);
    assert (x + y)[..|x|] == x;
    assert (x + y)[|x|..] == y;
  }

  /** `split_whitespace`: the maximal runs of non-whitespace characters. */
  function Words(s: string): seq<string>
    decreases |s|
  {
    if |s| == 0 then []
    else if IsSpace(s[0]) then Words(s[1..])
    else
      var w := SpanLen(s, NotSpace);
      [s[..w]] + Words(s[w..])
  }

  /** Every word is non-empty and free of whitespace. */
  lemma {:induction false} WordsAreWords(s: string)
    ensures forall k :: 0 <= k < |Words(s)| ==> |Words(s)[k]| > 0
    ensures forall k, j :: 0 <= k < |Words(s)| && 0 <= j < |Words(s)[k]| ==> !IsSpace(Words(s)[k][j])
    decreases |s|
  {
    if |s| > 0 {
      if IsSpace(s[0]) {
        WordsAreWords(s[1..]);
      } else {
        var w := SpanLen(s, NotSpace);
        WordsAreWords(s[w..]);
        var r := Words(s);
        forall k | 0 <= k < |r| ensures |r[k]| > 0 && forall j :: 0 <= j < |r[k]| ==> !IsSpace(r[k][j]) {
          if k > 0 { assert r[k] == Words(s[w..])[k - 1]; }
        }
      }
    }
  }

  /** `s` with every whitespace character removed. */
  function Squeeze(s: string): string {
    if |s| == 0 then "" else (if IsSpace(s[0]) then "" else [s[0]]) + Squeeze(s[1..])
  }

  function Concat(ws: seq<string>): string {
    if |ws| == 0 then "" else ws[0] + Concat(ws[1..])
  }

  lemma {:induction false} SqueezeConcat(a: string, b: string)
    ensures Squeeze(a + b) == Squeeze(a) + Squeeze(b)
    decreases |a|
  {
    if |a| == 0 {
      assert a + b == b;
    } else {
      assert (a + b)[1..] == a[1..] + b;
      SqueezeConcat(a[1..], b);
    }
  }

  lemma {:induction false} SqueezeWord(a: string)
    requires forall k :: 0 <= k < |a| ==> !IsSpace(a[k])
    ensures Squeeze(a) == a
    decreases |a|
  {
    if |a| > 0 { SqueezeWord(a[1..]); }
  }

  /** The words hold every non-whitespace character of `s`, in order, and nothing else. */
  lemma {:induction false} WordsCover(s: string)
    ensures Concat(Words(s)) == Squeeze(s)
    decreases |s|
  {
    if |s| > 0 {
      if IsSpace(s[0]) {
        WordsCover(s[1..]);
      } else {
        var w := SpanLen(s, NotSpace);
        assert s == s[..w] + s[w..];
        SqueezeConcat(s[..w], s[w..]);
        SqueezeWord(s[..w]);
        WordsCover(s[w..]);
      }
    }
  }

  /** There are no words exactly when the text is all whitespace. */
  lemma {:induction false} NoWordsIffBlank(s: string)
    ensures Words(s) == [] <==> forall k :: 0 <= k < |s| ==> IsSpace(s[k])
    decreases |s|
  {
    if |s| > 0 && IsSpace(s[0]) {
      NoWordsIffBlank(s[1..]);
      assert forall k :: 1 <= k < |s| ==> s[k] == s[1..][k - 1];
    }
  }

  // ---------------------------------------------------------------------
  // Code-point ordering, shortest-prefix first (Python's `str` comparison)

  predicate LexLe(a: string, b: string)
    decreases |a|
  {
    if |a| == 0 then true
    else if |b| == 0 then false
    else if a[0] != b[0] then a[0] < b[0]
    else LexLe(a[1..], b[1..])
  }

  predicate LexLt(a: string, b: string) {
    LexLe(a, b) && a != b
  }

  lemma {:induction false} LexLeReflexive(a: string)
    ensures LexLe(a, a)
    decreases |a|
  {
    if |a| > 0 { LexLeReflexive(a[1..]); }
  }

  lemma {:induction false} LexLeTotal(a: string, b: string)
    ensures LexLe(a, b) || LexLe(b, a)
    decreases |a|
  {
    if |a| > 0 && |b| > 0 && a[0] == b[0] { LexLeTotal(a[1..], b[1..]); }
  }

  lemma {:induction false} LexLeAntisymmetric(a: string, b: string)
    requires LexLe(a, b) && LexLe(b, a)
    ensures a == b
    decreases |a|
  {
    if |a| > 0 && |b| > 0 {
      LexLeAntisymmetric(a[1..], b[1..]);
      assert a == [a[0]] + a[1..];
      assert b == [b[0]] + b[1..];
    }
  }

  lemma {:induction false} LexLeTransitive(a: string, b: string, c: string)
    requires LexLe(a, b) && LexLe(b, c)
    ensures LexLe(a, c)
    decreases |a|
  {
    if |a| > 0 && |b| > 0 && |c| > 0 && a[0] == b[0] && b[0] == c[0] {
      LexLeTransitive(a[1..], b[1..], c[1..]);
    }
  }

  predicate StrictlySorted(s: seq<string>) {
    forall i, j :: 0 <= i < j < |s| ==> LexLt(s[i], s[j])
  }

  predicate IsLeast(m: string, s: set<string>) {
    m in s && forall y :: y in s ==> LexLe(m, y)
  }

  /** A non-empty finite set of strings has a least element. */
  lemma {:induction false} LeastExists(s: set<string>)
    requires s != {}
    ensures exists m :: IsLeast(m, s)
    decreases |s|
  {
    var x :| x in s;
    var rest := s - {x};
    LexLeReflexive(x);
    if rest == {} {
      forall y | y in s ensures y == x {
        assert y !in rest;
      }
      assert IsLeast(x, s);
    } else {
      LeastExists(rest);
      var m :| IsLeast(m, rest);
      LexLeTotal(x, m);
      if LexLe(x, m) {
        forall y | y in rest ensures LexLe(x, y) {
          LexLeTransitive(x, m, y);
        }
        assert IsLeast(x, s);
      } else {
        assert IsLeast(m, s);
      }
    }
  }

  /** Python's `sorted(list(s))` for a set of strings: every element once, ascending. */
  method SortedElements(s: set<string>) returns (r: seq<string>)
    ensures StrictlySorted(r)
    ensures |r| == |s|
    ensures forall x :: x in r <==> x in s
  {
    r := [];
    var rest := s;
    while rest != {}
      invariant rest <= s
      invariant forall x :: x in s <==> x in r || x in rest
      invariant forall x :: x in r ==> x !in rest
      invariant |r| + |rest| == |s|
      invariant StrictlySorted(r)
      invariant forall i, y :: 0 <= i < |r| && y in rest ==> LexLt(r[i], y)
      decreases |rest|
    {
      LeastExists(rest);
      var m :| IsLeast(m, rest);
      forall y | y in rest - {m} ensures LexLt(m, y) {
        assert LexLe(m, y);
      }
      r := r + [m];
      rest := rest - {m};
    }
  }
}
