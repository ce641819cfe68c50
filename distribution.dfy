// Parsing of the distribution channel the CLI was packaged for. The match
// is on the lower-cased input, and an unknown value is reported with the
// input exactly as it was given.
module Distributions {
  import opened Wrappers
  import opened Strings
  import opened DistributionErrors

  datatype Distribution = Standard | Homebrew | NuGet | Apt

  /** The lower-case spellings accepted for `d`. */
  function Spellings(d: Distribution): (names: set<string>)
    ensures names != {}
  {
    match d
    case Standard => {"standard"}
    case Homebrew => {"homebrew", "brew"}
    case NuGet => {"nuget"}
    case Apt => {"apt", "aptitude"}
  }

  /** The first spelling of `d`, the one its tests use. */
  function Name(d: Distribution): (name: string)
    ensures name in Spellings(d)
  {
    match d
    case Standard => "standard"
    case Homebrew => "homebrew"
    case NuGet => "nuget"
    case Apt => "apt"
  }

  /**
   * `from_str`: `d` exactly when the lower-cased input is one of the
   * spellings of `d`; otherwise `InvalidDistribution` with the input as given.
   */
  function FromStr(s: string): (r: Result<Distribution, DistributionError>)
    ensures forall d :: r == Ok(d) <==> ToLower(s) in Spellings(d)
    ensures r.Err? <==> forall d :: ToLower(s) !in Spellings(d)
    ensures r.Err? ==> r.error == InvalidDistribution(s)
  {
    var t := ToLower(s);
    if t == "standard" then Ok(Standard)
    else if t == "homebrew" || t == "brew" then Ok(Homebrew)
    else if t == "nuget" then Ok(NuGet)
    else if t == "apt" || t == "aptitude" then Ok(Apt)
    else Err(InvalidDistribution(s))
  }

  /** `try_from`: the same outcome as `from_str` on every input. */
  function TryFrom(s: string): (r: Result<Distribution, DistributionError>)
    ensures r.Ok? <==> FromStr(s).Ok?
    ensures r.Ok? ==> r.value == FromStr(s).value
    ensures r.Err? ==> r.error == InvalidDistribution(s)
  {
    FromStr(s)
  }

  /** No spelling is shared by two distributions, so parsing is unambiguous. */
  lemma SpellingsDisjoint(d: Distribution, e: Distribution, name: string)
    requires name in Spellings(d) && name in Spellings(e)
    ensures d == e
  {
  }

  /** Every canonical name parses back to its distribution. */
  lemma {:induction false} NameRoundTrip(d: Distribution)
    ensures FromStr(Name(d)) == Ok(d)
  {
    LowerCaseKept(Name(d));
  }

  /** A string with no upper-case ASCII letter is its own lower case. */
  lemma LowerCaseKept(s: string)
    requires forall k :: 0 <= k < |s| ==> !('A' <= s[k] <= 'Z')
    ensures ToLower(s) == s
  {
  }

  /**
   * Parsing ignores case: on success the lower-cased input parses to the
   * same distribution, and on failure it fails too (reporting itself).
   */
  lemma {:induction false} CaseInsensitive(s: string)
    ensures FromStr(s).Ok? <==> FromStr(ToLower(s)).Ok?
    ensures FromStr(s).Ok? ==> FromStr(s) == FromStr(ToLower(s))
    ensures FromStr(ToLower(s)).Err? ==> FromStr(ToLower(s)).error == InvalidDistribution(ToLower(s))
  {
    ToLowerIdempotent(s);
  }

  /** The tests' upper- and mixed-case inputs. */
  lemma MixedCaseExamples()
    ensures FromStr("HOMEBREW") == Ok(Homebrew)
    ensures FromStr("Standard") == Ok(Standard)
  {
    assert ToLower("HOMEBREW") == "homebrew";
    assert ToLower("Standard") == "standard";
  }

  /** The tests' rejected input keeps its spelling in the error. */
  lemma InvalidExample()
    ensures FromStr("invalid") == Err(InvalidDistribution("invalid"))
  {
    var t := ToLower("invalid");
    assert t == "invalid";
    assert t[0] !in {'s', 'h', 'b', 'n', 'a'};
  }
}
