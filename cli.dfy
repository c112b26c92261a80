/** cmd/root.go: the values the command line accepts. Sizes such as "500k"
    become byte counts, the positional arguments become a pattern and the
    repository specs, and each option type validates the text it is given
    before it changes the option's value. */
module Cli {
  import opened Results
  import opened GoStrings
  import opened Types
  import opened Client
  import Finder

  /** The most concurrent API requests `--jobs` allows. */
  const MaxJobs := 100

  const KiB: int := 1024
  const MiB: int := 1024 * KiB
  const GiB: int := 1024 * MiB
  const TiB: int := 1024 * GiB
  const PiB: int := 1024 * TiB

  // ------------------------------------------------------------ byte sizes

  datatype SizeError =
    | EmptySize
    | InvalidNumber(number: string, numError: NumError)
    | NegativeSize
    | UnknownSizeUnit(unit: string)
    | SizeTooLarge

  /** Where the number of a size ends: just after its last digit, or at 0
      when it has none. */
  function NumberEnd(t: string): (j: nat)
    ensures j <= |t|
    ensures forall k :: j <= k < |t| ==> !IsDigit(t[k])
    ensures j == 0 || IsDigit(t[j - 1])
  {
    if t == [] then 0
    else if IsDigit(t[|t| - 1]) then |t|
    else NumberEnd(t[..|t| - 1])
  }

  /** The multiplier a unit's leading letter stands for. */
  function PrefixMultiplier(c: char): Option<int>
  {
    match c
    case 'k' => Some(KiB)
    case 'm' => Some(MiB)
    case 'g' => Some(GiB)
    case 't' => Some(TiB)
    case 'p' => Some(PiB)
    case _ => None
  }

  /** The (lower-case) unit suffixes and their binary multipliers: "" and
      "b" count bytes, and each of k, m, g, t and p may stand alone or be
      followed by "b" or "ib". Every multiplier is a power of 1024 from 1 to
      1024^5. */
  function SizeMultiplier(unit: string): (r: Option<int>)
    ensures r.Some? ==> r.value in {1, KiB, MiB, GiB, TiB, PiB}
  {
    if unit == "" || unit == "b" then Some(1)
    else if unit[1..] == "" || unit[1..] == "b" || unit[1..] == "ib" then PrefixMultiplier(unit[0])
    else None
  }

  /** The unit table written out: the seventeen accepted spellings, each with
      its multiplier, and no other unit accepted. */
  lemma SizeUnitTable(unit: string)
    ensures SizeMultiplier(unit) == Some(1) <==> unit in {"", "b"}
    ensures SizeMultiplier(unit) == Some(KiB) <==> unit in {"k", "kb", "kib"}
    ensures SizeMultiplier(unit) == Some(MiB) <==> unit in {"m", "mb", "mib"}
    ensures SizeMultiplier(unit) == Some(GiB) <==> unit in {"g", "gb", "gib"}
    ensures SizeMultiplier(unit) == Some(TiB) <==> unit in {"t", "tb", "tib"}
    ensures SizeMultiplier(unit) == Some(PiB) <==> unit in {"p", "pb", "pib"}
    ensures SizeMultiplier(unit).None? <==>
      unit !in {"", "b", "k", "kb", "kib", "m", "mb", "mib", "g", "gb", "gib", "t", "tb", "tib", "p", "pb", "pib"}
  {
    if unit == "" || unit == "b" {
    } else if unit[1..] == "" {
      assert unit == [unit[0]];
    } else if unit[1..] == "b" {
      assert unit == [unit[0], 'b'];
    } else if unit[1..] == "ib" {
      assert unit == [unit[0], 'i', 'b'];
    }
  }

  /** The result `parseByteSize` computes. */
  function ByteSizeOf(s: string): Result<int, SizeError>
  {
    SizeOfTrimmed(TrimSpace(s))
  }

  /** The result for an input already stripped of surrounding white space:
      the number is everything up to the last digit, the unit the rest,
      trimmed and lower-cased. */
  function SizeOfTrimmed(t: string): Result<int, SizeError>
  {
    if t == [] then Err(EmptySize)
    else
      var j := NumberEnd(t);
      match ParseInt(t[..j])
      case Err(e) => Err(InvalidNumber(t[..j], e))
      case Ok(num) =>
        if num < 0 then Err(NegativeSize)
        else
          var unit := ToLower(TrimSpace(t[j..]));
          match SizeMultiplier(unit)
          case None => Err(UnknownSizeUnit(unit))
          case Some(m) => if num > MaxInt64 / m then Err(SizeTooLarge) else Ok(num * m)
  }

  /** `parseByteSize`: trim, scan back from the end to the last digit, then
      parse the number and the unit. */
  method ParseByteSize(s: string) returns (r: Result<int, SizeError>)
    ensures r == ByteSizeOf(s)
  {
    var t := TrimSpace(s);
    if t == [] {
      return Err(EmptySize);
    }
    var i := |t| - 1;
    while i >= 0 && !IsDigit(t[i])
      invariant -1 <= i < |t|
      invariant NumberEnd(t) <= i + 1
      decreases i + 1
    {
      i := i - 1;
    }
    assert i + 1 == NumberEnd(t);
    r := ScaleSize(t, i + 1);
  }

  /** The rest of `parseByteSize` once the number `t[..j]` is found. */
  method ScaleSize(t: string, j: nat) returns (r: Result<int, SizeError>)
    requires t != [] && j == NumberEnd(t)
    ensures r == SizeOfTrimmed(t)
  {
    var numStr := t[..j];
    var parsed := ParseInt(numStr);
    if parsed.Err? {
      return Err(InvalidNumber(numStr, parsed.error));
    }
    var num := parsed.value;
    if num < 0 {
      return Err(NegativeSize);
    }
    var unit := ToLower(TrimSpace(t[j..]));
    var multiplier := SizeMultiplier(unit);
    if multiplier.None? {
      return Err(UnknownSizeUnit(unit));
    }
    if num > MaxInt64 / multiplier.value {
      return Err(SizeTooLarge);
    }
    r := Ok(num * multiplier.value);
  }

  /** A parsed size is a byte count within int64: never negative, never
      wrapped. */
  lemma ByteSizeRange(s: string)
    ensures ByteSizeOf(s).Ok? ==> 0 <= ByteSizeOf(s).value <= MaxInt64
  {
    var t := TrimSpace(s);
    if ByteSizeOf(s).Ok? {
      var j := NumberEnd(t);
      var num := ParseInt(t[..j]).value;
      var m := SizeMultiplier(ToLower(TrimSpace(t[j..]))).value;
      ProductGuard(num, m);
    }
  }

  /** The number of a size ends where its trailing non-digits begin. */
  lemma {:induction false} NumberEndOf(d: string, rest: string)
    requires d == [] || IsDigit(d[|d| - 1])
    requires forall k :: 0 <= k < |rest| ==> !IsDigit(rest[k])
    ensures NumberEnd(d + rest) == |d|
  {
    if rest == [] {
      assert d + rest == d;
    } else {
      var s := d + rest;
      assert s[..|s| - 1] == d + rest[..|rest| - 1];
      assert s[|s| - 1] == rest[|rest| - 1];
      NumberEndOf(d, rest[..|rest| - 1]);
    }
  }

  /** A plain count of bytes parses to itself. */
  lemma PlainSizeRoundTrip(n: nat)
    requires n <= MaxInt64
    ensures ByteSizeOf(Itoa(n)) == Ok(n)
  {
    var digits := Itoa(n);
    DigitIsNotSpace(digits[0]);
    DigitIsNotSpace(digits[|digits| - 1]);
    TrimSpaceUnchanged(digits);
    NumberEndOf(digits, []);
    assert digits + [] == digits;
    assert digits[..|digits|] == digits && digits[|digits|..] == [];
    assert ParseInt(digits) == Ok(n);
    assert TrimSpace([]) == [] && ToLower([]) == [];
    SizeAt(digits, |digits|, n, []);
  }

  /** A unit written after a count: no digits and no white space in it. */
  predicate UnitWord(u: string)
  {
    forall k :: 0 <= k < |u| ==> !IsDigit(u[k]) && !IsSpace(u[k])
  }

  /** Writing a count, optional white space and a unit in any letter case
      and parsing it gives the count times the unit's multiplier, or
      `SizeTooLarge` when that leaves int64. */
  lemma SizeRoundTrip(n: nat, w: string, u: string)
    requires n <= MaxInt64 && AllSpace(w)
    requires u != [] && UnitWord(u) && SizeMultiplier(ToLower(u)).Some?
    ensures ByteSizeOf(Itoa(n) + w + u) ==
      var m := SizeMultiplier(ToLower(u)).value;
      if n * m <= MaxInt64 then Ok(n * m) else Err(SizeTooLarge)
  {
    var digits := Itoa(n);
    WrittenSizeTrimmed(digits, w, u);
    assert ParseInt(digits) == Ok(n);
    WrittenSize(digits, n, w, u);
    ProductGuard(n, SizeMultiplier(ToLower(u)).value);
  }

  lemma WrittenSizeTrimmed(digits: string, w: string, u: string)
    requires digits != [] && AllDigits(digits)
    requires u != [] && UnitWord(u)
    ensures TrimSpace(digits + w + u) == digits + w + u
  {
    var s := digits + w + u;
    assert s[0] == digits[0] && s[|s| - 1] == u[|u| - 1];
    DigitIsNotSpace(digits[0]);
    TrimSpaceUnchanged(s);
  }

  /** The round trip for any decimal spelling `digits` of the count. */
  lemma WrittenSize(digits: string, n: nat, w: string, u: string)
    requires digits != [] && AllDigits(digits) && ParseInt(digits) == Ok(n)
    requires AllSpace(w) && u != [] && UnitWord(u) && SizeMultiplier(ToLower(u)).Some?
    ensures SizeOfTrimmed(digits + w + u) ==
      var m := SizeMultiplier(ToLower(u)).value;
      if n > MaxInt64 / m then Err(SizeTooLarge) else Ok(n * m)
  {
    var s := digits + w + u;
    WrittenSizePieces(digits, w, u);
    SizeAt(s, |digits|, n, u);
  }

  lemma WrittenSizePieces(digits: string, w: string, u: string)
    requires digits != [] && AllDigits(digits)
    requires AllSpace(w) && u != [] && UnitWord(u)
    ensures NumberEnd(digits + w + u) == |digits|
    ensures (digits + w + u)[..|digits|] == digits
    ensures TrimSpace((digits + w + u)[|digits|..]) == u
  {
    var s := digits + w + u;
    var rest := w + u;
    assert s == digits + rest;
    forall k | 0 <= k < |rest|
      ensures !IsDigit(rest[k])
    {
      if k < |w| {
        assert rest[k] == w[k];
      } else {
        assert rest[k] == u[k - |w|];
      }
    }
    NumberEndOf(digits, rest);
    assert s[|digits|..] == w + u + "";
    TrimSpaceSurrounded(w, u, "");
    TrimSpaceUnchanged(u);
  }

  /** The result once the pieces of a well-formed size are known. */
  lemma SizeAt(t: string, j: nat, num: nat, u: string)
    requires 0 < j <= |t| && NumberEnd(t) == j
    requires ParseInt(t[..j]) == Ok(num) && TrimSpace(t[j..]) == u
    requires SizeMultiplier(ToLower(u)).Some?
    ensures SizeOfTrimmed(t) ==
      var m := SizeMultiplier(ToLower(u)).value;
      if num > MaxInt64 / m then Err(SizeTooLarge) else Ok(num * m)
  {
  }

  /** A count with a fractional part is refused: the number then runs up to
      the last digit after the point, which `strconv.ParseInt` rejects, as
      a syntax error unless the whole part alone is already past 2^64 - 1. */
  lemma FractionRefused(a: string, b: string, u: string)
    requires a != [] && AllDigits(a) && b != [] && AllDigits(b) && UnitWord(u)
    ensures ByteSizeOf(a + "." + b + u) ==
      Err(InvalidNumber(a + "." + b,
        if DecimalValue(a) > MaxUint64 then OutOfRange(a + "." + b) else InvalidSyntax(a + "." + b)))
  {
    var s := a + "." + b + u;
    var num := a + "." + b;
    assert s == num + u;
    assert s[0] == a[0];
    DigitIsNotSpace(a[0]);
    if u == [] {
      assert s[|s| - 1] == b[|b| - 1];
      DigitIsNotSpace(b[|b| - 1]);
    } else {
      assert s[|s| - 1] == u[|u| - 1];
    }
    TrimSpaceUnchanged(s);
    assert num[|num| - 1] == b[|b| - 1];
    NumberEndOf(num, u);
    assert s[..|num|] == num;
    assert num == a + ("." + b);
    if DecimalValue(a) > MaxUint64 {
      ParseIntRangeFirst(a, "." + b);
    } else {
      ParseIntSyntaxAt(a, "." + b);
    }
  }

  /** A minus sign before the count makes the size negative, which is
      refused. */
  lemma NegativeSizeRefused(n: nat, u: string)
    requires 0 < n <= MaxInt64 && UnitWord(u)
    ensures ByteSizeOf("-" + Itoa(n) + u) == Err(NegativeSize)
  {
    var digits := Itoa(n);
    var num := "-" + digits;
    var s := num + u;
    assert s[0] == '-';
    if u == [] {
      assert s[|s| - 1] == digits[|digits| - 1];
      DigitIsNotSpace(digits[|digits| - 1]);
    } else {
      assert s[|s| - 1] == u[|u| - 1];
    }
    TrimSpaceUnchanged(s);
    assert num[|num| - 1] == digits[|digits| - 1];
    NumberEndOf(num, u);
    assert s[..|num|] == num;
    assert num[1..] == digits;
    assert LeadingDigits(digits) == |digits|;
    assert digits[..|digits|] == digits;
    assert ParseInt(num) == Ok(-(n as int));
  }

  // ------------------------------------------------------------ arguments

  /** The pattern and the repository specs of one invocation. */
  datatype Invocation = Invocation(pattern: string, repoSpecs: seq<string>)

  datatype ArgsError = NoRepository

  /** `parseArgs`: a single argument is a spec searched with the pattern "*";
      otherwise the first argument is the pattern ("*" when empty) and the
      rest are specs. */
  function ParseArgs(args: seq<string>): (r: Result<Invocation, ArgsError>)
    ensures r.Err? <==> args == []
    ensures r.Ok? ==> r.value.pattern != "" && r.value.repoSpecs != []
    ensures r.Ok? ==> |args| - 1 <= |r.value.repoSpecs| <= |args|
    ensures r.Ok? ==> r.value.repoSpecs == args[|args| - |r.value.repoSpecs|..]
    ensures r.Ok? && r.value.pattern != "*" ==> args[0] == r.value.pattern && |args| >= 2
    ensures |args| == 1 ==> r == Ok(Invocation("*", args))
    ensures |args| >= 2 ==> r.Ok? && r.value.repoSpecs == args[1..]
    ensures |args| >= 2 && args[0] == "" ==> r.Ok? && r.value.pattern == "*"
    ensures |args| >= 2 && args[0] != "" ==> r.Ok? && r.value.pattern == args[0]
  {
    if args == [] then Err(NoRepository)
    else if |args| == 1 then Ok(Invocation("*", args))
    else Ok(Invocation(if args[0] == "" then "*" else args[0], args[1..]))
  }

  /** Writing a pattern before the specs gives both back; a lone spec is
      searched with "*". */
  lemma ArgsRoundTrip(pattern: string, specs: seq<string>)
    requires pattern != "" && specs != []
    ensures ParseArgs([pattern] + specs) == Ok(Invocation(pattern, specs))
    ensures ParseArgs([specs[0]]) == Ok(Invocation("*", [specs[0]]))
  {
    assert ([pattern] + specs)[1..] == specs;
  }

  /** An empty pattern before the specs means "*"; the specs are kept. */
  lemma EmptyPatternIsStar(specs: seq<string>)
    requires specs != []
    ensures ParseArgs([""] + specs) == Ok(Invocation("*", specs))
  {
    assert ([""] + specs)[1..] == specs;
  }

  // ------------------------------------------------------------ option types

  datatype FlagError =
    | NotAMode(mode: string)
    | NotAFileType(name: string)
    | InvalidRepoType(part: string)
    | BadJobs(jobsError: NumError)
    | JobsOutOfRange(jobs: int)
    | BadSize(sizeError: SizeError)
    | SizeNotPositive(size: int)
    | MinAboveMax(minSize: int, maxSize: int)

  /** When colour and hyperlinks are used. */
  datatype OutputMode = Auto | Always | Never

  function ModeName(m: OutputMode): string
  {
    match m
    case Auto => "auto"
    case Always => "always"
    case Never => "never"
  }

  /** The mode a `--color`/`--hyperlink` value names, if any: exactly the
      three names are accepted. */
  function ModeNamed(v: string): (r: Option<OutputMode>)
    ensures r.Some? ==> ModeName(r.value) == v
    ensures r.None? ==> v !in {"auto", "always", "never"}
  {
    match v
    case "auto" => Some(Auto)
    case "always" => Some(Always)
    case "never" => Some(Never)
    case _ => None
  }

  lemma ModeNamesRoundTrip(m: OutputMode)
    ensures ModeNamed(ModeName(m)) == Some(m)
  {
  }

  /** `outputMode`: a `--color` or `--hyperlink` option. */
  class OutputModeFlag {
    var mode: OutputMode

    /** Both options start at "auto". */
    constructor ()
      ensures mode == Auto
    {
      mode := Auto;
    }

    /** `String`: the mode's own name, which `Set` accepts back. */
    function String(): (s: string)
      reads this
      ensures ModeNamed(s) == Some(mode)
    {
      ModeNamesRoundTrip(mode);
      ModeName(mode)
    }

    /** `Set`: one of the three names, or an error that leaves the mode. */
    method Set(v: string) returns (err: Option<FlagError>)
      modifies this
      ensures ModeNamed(v).Some? ==> err.None? && mode == ModeNamed(v).value
      ensures ModeNamed(v).None? ==> err == Some(NotAMode(v)) && mode == old(mode)
    {
      match v {
        case "auto" => mode := Auto;
        case "always" => mode := Always;
        case "never" => mode := Never;
        case _ => return Some(NotAMode(v));
      }
      return None;
    }
  }

  /** The name of each file type, as the `FileType` string constants spell it. */
  function FileTypeName(t: FileType): string
  {
    match t
    case File => "file"
    case Directory => "directory"
    case Symlink => "symlink"
    case Executable => "executable"
    case Submodule => "submodule"
  }

  /** The file type a `--type` value names: a one-letter or a long name. */
  function FileTypeNamed(v: string): Option<FileType>
  {
    match v
    case "f" => Some(File)
    case "file" => Some(File)
    case "d" => Some(Directory)
    case "dir" => Some(Directory)
    case "directory" => Some(Directory)
    case "l" => Some(Symlink)
    case "symlink" => Some(Symlink)
    case "x" => Some(Executable)
    case "executable" => Some(Executable)
    case "s" => Some(Submodule)
    case "submodule" => Some(Submodule)
    case _ => None
  }

  /** Every file type can be asked for by its own name. */
  lemma FileTypeNamesRoundTrip(t: FileType)
    ensures FileTypeNamed(FileTypeName(t)) == Some(t)
  {
  }

  /** `fileTypesFlag`: the repeatable `--type` option. */
  class FileTypesFlag {
    var types: seq<FileType>

    constructor ()
      ensures types == []
    {
      types := [];
    }

    /** `Set`: appends the named type, or fails and leaves the list. */
    method Set(v: string) returns (err: Option<FlagError>)
      modifies this
      ensures FileTypeNamed(v).Some? ==> err.None? && types == old(types) + [FileTypeNamed(v).value]
      ensures FileTypeNamed(v).None? ==> err == Some(NotAFileType(v)) && types == old(types)
    {
      match v {
        case "f" => types := types + [File];
        case "file" => types := types + [File];
        case "d" => types := types + [Directory];
        case "dir" => types := types + [Directory];
        case "directory" => types := types + [Directory];
        case "l" => types := types + [Symlink];
        case "symlink" => types := types + [Symlink];
        case "x" => types := types + [Executable];
        case "executable" => types := types + [Executable];
        case "s" => types := types + [Submodule];
        case "submodule" => types := types + [Submodule];
        case _ => return Some(NotAFileType(v));
      }
      return None;
    }
  }

  predicate DotPrefixed(e: string)
  {
    e != [] && e[0] == '.'
  }

  /** An extension as stored: with a leading dot, added when missing. */
  function WithDot(v: string): (e: string)
    ensures DotPrefixed(e)
    ensures DotPrefixed(v) ==> e == v
    ensures !DotPrefixed(v) ==> e[1..] == v
  {
    if DotPrefixed(v) then v else "." + v
  }

  /** Adding the dot is idempotent, and "go" and ".go" ask for the same
      extension. */
  lemma WithDotIdempotent(v: string)
    ensures WithDot(WithDot(v)) == WithDot(v)
    ensures !DotPrefixed(v) ==> WithDot(v) == WithDot("." + v)
  {
  }

  /** `extensionsFlag`: the repeatable `--extension` option. */
  class ExtensionsFlag {
    var extensions: seq<string>

    /** Every stored extension starts with a dot. */
    predicate Valid()
      reads this
    {
      forall k :: 0 <= k < |extensions| ==> DotPrefixed(extensions[k])
    }

    constructor ()
      ensures extensions == [] && Valid()
    {
      extensions := [];
    }

    /** `Set`: appends the value with its dot; it never fails. */
    method Set(v: string)
      requires Valid()
      modifies this
      ensures Valid()
      ensures extensions == old(extensions) + [WithDot(v)]
    {
      var e := v;
      if !DotPrefixed(e) {
        e := "." + e;
      }
      extensions := extensions + [e];
    }
  }

  /** The classification a `--repo-types` entry names. */
  function RepoTypeNamed(part: string): Option<RepoType>
  {
    match part
    case "sources" => Some(Sources)
    case "forks" => Some(Forks)
    case "archives" => Some(Archives)
    case "mirrors" => Some(Mirrors)
    case _ => None
  }

  /** `types` with one more classification selected. */
  function Select(types: RepoTypes, t: RepoType): RepoTypes
  {
    match t
    case Sources => types.(sources := true)
    case Forks => types.(forks := true)
    case Archives => types.(archives := true)
    case Mirrors => types.(mirrors := true)
  }

  /** The comma-separated entries of a `--repo-types` value, each trimmed. */
  function TrimAll(parts: seq<string>): (r: seq<string>)
    ensures |r| == |parts|
    ensures forall k :: 0 <= k < |parts| ==> r[k] == TrimSpace(parts[k])
  {
    if parts == [] then [] else [TrimSpace(parts[0])] + TrimAll(parts[1..])
  }

  /** The selection and the outcome `repoTypesFlag.Set` leaves after going
      through the trimmed entries `parts`: blanks are skipped, "all" selects
      everything and stops, a known name is selected, and an unknown name
      stops with an error, keeping what earlier entries selected. */
  function ApplyRepoTypes(types: RepoTypes, parts: seq<string>): (RepoTypes, Option<FlagError>)
    decreases |parts|
  {
    if parts == [] then (types, None)
    else
      var part := parts[0];
      if part == "" then ApplyRepoTypes(types, parts[1..])
      else if part == "all" then (AllRepoTypes, None)
      else match RepoTypeNamed(part)
        case None => (types, Some(InvalidRepoType(part)))
        case Some(t) => ApplyRepoTypes(Select(types, t), parts[1..])
  }

  /** An entry `Set` goes past: blank or a known name. */
  predicate Passes(part: string)
  {
    part == "" || (part != "all" && RepoTypeNamed(part).Some?)
  }

  /** The classifications named among `parts`. */
  function NamedIn(parts: seq<string>): set<RepoType>
  {
    if parts == [] then {}
    else
      (match RepoTypeNamed(parts[0])
       case Some(t) => {t}
       case None => {}) + NamedIn(parts[1..])
  }

  /** `types` with every classification in `ts` selected as well. */
  function SelectAll(types: RepoTypes, ts: set<RepoType>): RepoTypes
  {
    RepoTypes(types.sources || Sources in ts, types.forks || Forks in ts,
              types.archives || Archives in ts, types.mirrors || Mirrors in ts)
  }

  /** Every classification `types` selects, `r` selects too. */
  predicate Covers(r: RepoTypes, types: RepoTypes)
  {
    (types.sources ==> r.sources) && (types.forks ==> r.forks) &&
    (types.archives ==> r.archives) && (types.mirrors ==> r.mirrors)
  }

  /** `Set` only ever adds classifications, whatever it meets. */
  lemma {:induction false} ApplyOnlyAdds(types: RepoTypes, parts: seq<string>)
    ensures Covers(ApplyRepoTypes(types, parts).0, types)
    decreases |parts|
  {
    if parts != [] {
      var part := parts[0];
      var rest := parts[1..];
      if part == "" {
        assert ApplyRepoTypes(types, parts) == ApplyRepoTypes(types, rest);
        ApplyOnlyAdds(types, rest);
      } else if part == "all" {
        assert ApplyRepoTypes(types, parts) == (AllRepoTypes, None);
      } else if RepoTypeNamed(part).None? {
        assert ApplyRepoTypes(types, parts) == (types, Some(InvalidRepoType(part)));
      } else {
        var t := RepoTypeNamed(part).value;
        assert ApplyRepoTypes(types, parts) == ApplyRepoTypes(Select(types, t), rest);
        ApplyOnlyAdds(Select(types, t), rest);
        assert Covers(Select(types, t), types);
      }
    }
  }

  /** Known names and blanks add exactly the named classifications and
      succeed. */
  lemma {:induction false} ApplyNamed(types: RepoTypes, parts: seq<string>)
    requires forall k :: 0 <= k < |parts| ==> Passes(parts[k])
    ensures ApplyRepoTypes(types, parts) == (SelectAll(types, NamedIn(parts)), None)
    decreases |parts|
  {
    if parts == [] {
      assert types == SelectAll(types, {});
    } else {
      var part := parts[0];
      var rest := parts[1..];
      assert Passes(part);
      assert forall k :: 0 <= k < |rest| ==> rest[k] == parts[k + 1];
      if part == "" {
        assert RepoTypeNamed(part).None?;
        assert ApplyRepoTypes(types, parts) == ApplyRepoTypes(types, rest);
        assert NamedIn(parts) == NamedIn(rest);
        ApplyNamed(types, rest);
      } else {
        var t := RepoTypeNamed(part).value;
        assert ApplyRepoTypes(types, parts) == ApplyRepoTypes(Select(types, t), rest);
        assert NamedIn(parts) == {t} + NamedIn(rest);
        ApplyNamed(Select(types, t), rest);
        SelectThenAll(types, t, NamedIn(rest));
      }
    }
  }

  lemma SelectThenAll(types: RepoTypes, t: RepoType, ts: set<RepoType>)
    ensures SelectAll(Select(types, t), ts) == SelectAll(types, {t} + ts)
  {
  }

  /** "all" after entries that pass selects every classification, whatever
      follows it. */
  lemma {:induction false} ApplyAllWins(types: RepoTypes, pre: seq<string>, all: string, post: seq<string>)
    requires forall k :: 0 <= k < |pre| ==> Passes(pre[k])
    requires all == "all"
    ensures ApplyRepoTypes(types, pre + [all] + post) == (AllRepoTypes, None)
    decreases |pre|
  {
    var parts := pre + [all] + post;
    if pre == [] {
      assert parts[0] == all;
    } else {
      assert parts[0] == pre[0];
      assert parts[1..] == pre[1..] + [all] + post;
      assert Passes(pre[0]);
      var part := pre[0];
      if part == "" {
        ApplyAllWins(types, pre[1..], all, post);
      } else {
        ApplyAllWins(Select(types, RepoTypeNamed(part).value), pre[1..], all, post);
      }
    }
  }

  /** The first entry that is neither blank, "all" nor a known name is the
      one reported. */
  lemma {:induction false} ApplyFailsAt(types: RepoTypes, pre: seq<string>, bad: string, post: seq<string>)
    requires forall k :: 0 <= k < |pre| ==> Passes(pre[k])
    requires !Passes(bad) && bad != "all"
    ensures ApplyRepoTypes(types, pre + [bad] + post).1 == Some(InvalidRepoType(bad))
    decreases |pre|
  {
    var parts := pre + [bad] + post;
    if pre == [] {
      assert parts[0] == bad;
    } else {
      assert parts[0] == pre[0];
      assert parts[1..] == pre[1..] + [bad] + post;
      assert Passes(pre[0]);
      var part := pre[0];
      if part == "" {
        ApplyFailsAt(types, pre[1..], bad, post);
      } else {
        ApplyFailsAt(Select(types, RepoTypeNamed(part).value), pre[1..], bad, post);
      }
    }
  }

  /** `repoTypesFlag`: the `--repo-types` option. */
  class RepoTypesFlag {
    var types: RepoTypes

    /** The default selects source repositories only. */
    constructor ()
      ensures types == RepoTypes(true, false, false, false)
    {
      types := RepoTypes(true, false, false, false);
    }

    /** `Set`: applies each comma-separated entry in turn. */
    method Set(v: string) returns (err: Option<FlagError>)
      modifies this
      ensures (types, err) == ApplyRepoTypes(old(types), TrimAll(Split(v, ',')))
    {
      var parts := Split(v, ',');
      ghost var trimmed := TrimAll(parts);
      var i := 0;
      while i < |parts|
        invariant 0 <= i <= |parts|
        invariant ApplyRepoTypes(types, trimmed[i..]) == ApplyRepoTypes(old(types), trimmed)
      {
        assert trimmed[i..][1..] == trimmed[i + 1..];
        var part := TrimSpace(parts[i]);
        assert part == trimmed[i..][0];
        if part == "" {
          i := i + 1;
          continue;
        }
        if part == "all" {
          types := AllRepoTypes;
          return None;
        }
        var named := RepoTypeNamed(part);
        if named.None? {
          return Some(InvalidRepoType(part));
        }
        types := Select(types, named.value);
        i := i + 1;
      }
      return None;
    }
  }

  /** `jobsCount`: the `--jobs` option. */
  class JobsCount {
    var jobs: int

    predicate Valid()
      reads this
    {
      1 <= jobs <= MaxJobs
    }

    /** Ten concurrent requests by default. */
    constructor ()
      ensures jobs == 10 && Valid()
    {
      jobs := 10;
    }

    /** `String`: the count in decimal, which `Set` accepts back. */
    function String(): (s: string)
      reads this
      requires Valid()
      ensures ParseInt(s) == Ok(jobs)
    {
      Itoa(jobs)
    }

    /** `Set`: an integer from 1 to `MaxJobs`; anything else is an error
        that leaves the count. */
    method Set(s: string) returns (err: Option<FlagError>)
      requires Valid()
      modifies this
      ensures Valid()
      ensures ParseInt(s).Err? ==> err == Some(BadJobs(ParseInt(s).error)) && jobs == old(jobs)
      ensures ParseInt(s).Ok? && 1 <= ParseInt(s).value <= MaxJobs ==> err.None? && jobs == ParseInt(s).value
      ensures ParseInt(s).Ok? && !(1 <= ParseInt(s).value <= MaxJobs) ==>
        err == Some(JobsOutOfRange(ParseInt(s).value)) && jobs == old(jobs)
    {
      var parsed := ParseInt(s);
      if parsed.Err? {
        return Some(BadJobs(parsed.error));
      }
      var v := parsed.value;
      if v < 1 || v > MaxJobs {
        return Some(JobsOutOfRange(v));
      }
      jobs := v;
      return None;
    }
  }

  /** `byteSize`: the `--min-size` and `--max-size` options; zero means
      unset. */
  class ByteSizeFlag {
    var size: int

    predicate Valid()
      reads this
    {
      0 <= size <= MaxInt64
    }

    constructor ()
      ensures size == 0 && Valid()
    {
      size := 0;
    }

    /** `String`: empty while unset, else the count in decimal, which `Set`
        accepts back. */
    function String(): (s: string)
      reads this
      requires Valid()
      ensures size == 0 ==> s == ""
      ensures size > 0 ==> ByteSizeOf(s) == Ok(size)
    {
      if size == 0 then ""
      else
        PlainSizeRoundTrip(size);
        Itoa(size)
    }

    /** `Set`: a size that parses to a positive count; anything else is an
        error that leaves the value. */
    method Set(s: string) returns (err: Option<FlagError>)
      requires Valid()
      modifies this
      ensures Valid()
      ensures ByteSizeOf(s).Err? ==> err == Some(BadSize(ByteSizeOf(s).error)) && size == old(size)
      ensures ByteSizeOf(s).Ok? && ByteSizeOf(s).value > 0 ==> err.None? && size == ByteSizeOf(s).value
      ensures ByteSizeOf(s).Ok? && ByteSizeOf(s).value <= 0 ==>
        err == Some(SizeNotPositive(ByteSizeOf(s).value)) && size == old(size)
    {
      var parsed := ParseByteSize(s);
      if parsed.Err? {
        return Some(BadSize(parsed.error));
      }
      if parsed.value <= 0 {
        return Some(SizeNotPositive(parsed.value));
      }
      ByteSizeRange(s);
      size := parsed.value;
      return None;
    }
  }

  // ------------------------------------------------------------ size range

  /** The check `run` makes before searching: a minimum above the maximum,
      with both set, is refused. The sizes it lets through leave some entry
      size that the size filter keeps; those it refuses leave none. */
  function CheckSizeRange(minSize: int, maxSize: int): (r: Option<FlagError>)
    ensures r.None? ==>
      Finder.SizeSelected(minSize, maxSize)(TreeEntry("", "", "", if minSize > 0 then minSize else 0, ""))
    ensures r.Some? ==> forall e: TreeEntry :: !Finder.SizeSelected(minSize, maxSize)(e)
  {
    if minSize > 0 && maxSize > 0 && minSize > maxSize then Some(MinAboveMax(minSize, maxSize)) else None
  }
}
