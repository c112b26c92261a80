/** The search core of internal/finder/finder.go: the five entry filters, the
    per-repository pipeline that chains them, repository-spec parsing,
    first-seen deduplication and the failure policy of `Find`. Glob matching
    (`doublestar.Match`) is abstract: see `Matcher`. */
module Finder {
  import opened Results
  import opened Seqs
  import opened GoStrings
  import opened Types
  import opened Client

  /** `doublestar.Match(pattern, name)`: whether the name matches, or an error
      for a malformed pattern. */
  type Matcher = (string, string) -> Result<bool, string>

  /** The search parameters the filters and `Find` read. */
  datatype Options = Options(
    pattern: string,
    repoSpecs: seq<string>,
    repoTypes: RepoTypes,
    fileTypes: seq<FileType>,
    ignoreCase: bool,
    fullPath: bool,
    extensions: seq<string>,
    excludes: seq<string>,
    minSize: int,
    maxSize: int,
    jobs: int)

  datatype FilterError =
    | PatternFailed(pattern: string, path: string, cause: string)
    | ExcludeFailed(pattern: string, path: string, cause: string)

  // ------------------------------------------------------------- type filter

  function TypeSelected(types: seq<FileType>): TreeEntry -> bool
  {
    (e: TreeEntry) => ParseFileType(e.mode) in types
  }

  /** `filterByType`: no requested types means no filtering; otherwise the
      entries whose classified mode is requested, in order. */
  method FilterByType(entries: seq<TreeEntry>, types: seq<FileType>) returns (r: seq<TreeEntry>)
    ensures r == if |types| == 0 then entries else Filter(TypeSelected(types), entries)
    ensures forall e :: e in r <==> e in entries && (|types| == 0 || ParseFileType(e.mode) in types)
    ensures IsSubsequence(r, entries)
  {
    if |types| == 0 {
      SubsequenceReflexive(entries);
      return entries;
    }
    var filtered := [];
    var i := 0;
    while i < |entries|
      invariant 0 <= i <= |entries|
      invariant filtered == Filter(TypeSelected(types), entries[..i])
    {
      var entry := entries[i];
      FilterSnoc(TypeSelected(types), entries[..i], entry);
      assert entries[..i + 1] == entries[..i] + [entry];
      if ParseFileType(entry.mode) in types {
        filtered := filtered + [entry];
      }
      i := i + 1;
    }
    assert entries[..i] == entries;
    r := filtered;
    FilterFacts(TypeSelected(types), entries);
  }

  /** Membership and order facts of a plain filter, for the filter methods. */
  lemma FilterFacts(p: TreeEntry -> bool, entries: seq<TreeEntry>)
    ensures forall e :: e in Filter(p, entries) <==> e in entries && p(e)
    ensures IsSubsequence(Filter(p, entries), entries)
  {
    forall e ensures e in Filter(p, entries) <==> e in entries && p(e) {
      FilterMembership(p, entries, e);
    }
    FilterIsSubsequence(p, entries);
  }

  // -------------------------------------------------------- extension filter

  function LowerAll(ss: seq<string>): (r: seq<string>)
    ensures |r| == |ss| && forall i :: 0 <= i < |ss| ==> r[i] == ToLower(ss[i])
  {
    if ss == [] then [] else [ToLower(ss[0])] + LowerAll(ss[1..])
  }

  /** The extension an entry is judged by: that of its (lower-cased) path. */
  function EntryExt(e: TreeEntry, ignoreCase: bool): string
  {
    Ext(if ignoreCase then ToLower(e.path) else e.path)
  }

  function ExtSelected(extensions: seq<string>, ignoreCase: bool): TreeEntry -> bool
  {
    (e: TreeEntry) => EntryExt(e, ignoreCase) != "" && EntryExt(e, ignoreCase) in (if ignoreCase then LowerAll(extensions) else extensions)
  }

  /** `filterByExtension`: no extensions means no filtering; otherwise the
      entries with a non-empty listed extension, in order (path and list both
      lower-cased when case is ignored). */
  method FilterByExtension(entries: seq<TreeEntry>, extensions: seq<string>, ignoreCase: bool) returns (r: seq<TreeEntry>)
    ensures r == if |extensions| == 0 then entries else Filter(ExtSelected(extensions, ignoreCase), entries)
    ensures IsSubsequence(r, entries)
    ensures |extensions| > 0 ==> forall e :: e in r <==> e in entries && ExtSelected(extensions, ignoreCase)(e)
  {
    if |extensions| == 0 {
      SubsequenceReflexive(entries);
      return entries;
    }
    var exts := extensions;
    if ignoreCase {
      exts := LowerAll(extensions);
    }
    var filtered := [];
    var i := 0;
    while i < |entries|
      invariant 0 <= i <= |entries|
      invariant filtered == Filter(ExtSelected(extensions, ignoreCase), entries[..i])
    {
      var entry := entries[i];
      FilterSnoc(ExtSelected(extensions, ignoreCase), entries[..i], entry);
      assert entries[..i + 1] == entries[..i] + [entry];
      var matchPath := entry.path;
      if ignoreCase {
        matchPath := ToLower(matchPath);
      }
      var ext := Ext(matchPath);
      var keep := ext != "" && ext in exts;
      assert keep == ExtSelected(extensions, ignoreCase)(entry);

      if keep {
        filtered := filtered + [entry];
      }
      i := i + 1;
    }
    assert entries[..i] == entries;
    r := filtered;
    FilterFacts(ExtSelected(extensions, ignoreCase), entries);
  }

  /** A path whose final element has no '.' never passes a non-empty
      extension list. */
  lemma NoExtensionNeverSelected(e: TreeEntry, extensions: seq<string>, ignoreCase: bool)
    requires '.' !in FinalElement(if ignoreCase then ToLower(e.path) else e.path)
    ensures !ExtSelected(extensions, ignoreCase)(e)
  {
    ExtMeaning(if ignoreCase then ToLower(e.path) else e.path);
  }

  // ------------------------------------------------------------- size filter

  function SizeSelected(minSize: int, maxSize: int): TreeEntry -> bool
  {
    (e: TreeEntry) => !(minSize > 0 && e.size < minSize) && !(maxSize > 0 && e.size > maxSize)
  }

  /** `filterBySize`: zero bounds mean no filtering; a positive bound is
      inclusive. */
  method FilterBySize(entries: seq<TreeEntry>, minSize: int, maxSize: int) returns (r: seq<TreeEntry>)
    ensures r == if minSize == 0 && maxSize == 0 then entries else Filter(SizeSelected(minSize, maxSize), entries)
    ensures forall e :: e in r <==> e in entries && (minSize <= 0 || e.size >= minSize) && (maxSize <= 0 || e.size <= maxSize)
    ensures IsSubsequence(r, entries)
  {
    if minSize == 0 && maxSize == 0 {
      SubsequenceReflexive(entries);
      return entries;
    }
    var filtered := [];
    var i := 0;
    while i < |entries|
      invariant 0 <= i <= |entries|
      invariant filtered == Filter(SizeSelected(minSize, maxSize), entries[..i])
    {
      var entry := entries[i];
      FilterSnoc(SizeSelected(minSize, maxSize), entries[..i], entry);
      assert entries[..i + 1] == entries[..i] + [entry];
      if minSize > 0 && entry.size < minSize {
      } else if maxSize > 0 && entry.size > maxSize {
      } else {
        filtered := filtered + [entry];
      }
      i := i + 1;
    }
    assert entries[..i] == entries;
    r := filtered;
    FilterFacts(SizeSelected(minSize, maxSize), entries);
  }

  /** Equal positive bounds keep exactly the entries of that size; bounds that
      cross keep nothing. */
  lemma SizeBounds(entries: seq<TreeEntry>, minSize: int, maxSize: int)
    ensures minSize > 0 && minSize == maxSize ==>
      forall e :: e in Filter(SizeSelected(minSize, maxSize), entries) <==> e in entries && e.size == minSize
    ensures minSize > maxSize > 0 ==> Filter(SizeSelected(minSize, maxSize), entries) == []
  {
    FilterFacts(SizeSelected(minSize, maxSize), entries);
    if minSize > maxSize > 0 {
      FilterNone(SizeSelected(minSize, maxSize), entries);
    }
  }

  // ---------------------------------------------------------- pattern filter

  /** The string a pattern is matched against: the base name unless the full
      path is asked for, lower-cased when case is ignored. */
  function MatchName(e: TreeEntry, fullPath: bool, ignoreCase: bool): string
  {
    var p := if fullPath then e.path else Base(e.path);
    if ignoreCase then ToLower(p) else p
  }

  /** The verdict of the pattern on one entry. */
  function PatternVerdict(pattern: string, fullPath: bool, ignoreCase: bool, m: Matcher): TreeEntry -> Result<bool, FilterError>
  {
    (e: TreeEntry) =>
      var pat := if ignoreCase then ToLower(pattern) else pattern;
      match m(pat, MatchName(e, fullPath, ignoreCase))
      case Err(c) => Err(PatternFailed(pat, e.path, c))
      case Ok(b) => Ok(b)
  }

  /** `filterByPattern`: the matching entries in order, or the error of the
      first entry the matcher fails on. */
  method FilterByPattern(entries: seq<TreeEntry>, pattern: string, fullPath: bool, ignoreCase: bool, m: Matcher)
    returns (r: Result<seq<TreeEntry>, FilterError>)
    ensures r == TryFilter(PatternVerdict(pattern, fullPath, ignoreCase, m), entries)
    ensures r.Ok? <==> forall i :: 0 <= i < |entries| ==> m(if ignoreCase then ToLower(pattern) else pattern, MatchName(entries[i], fullPath, ignoreCase)).Ok?
    ensures r.Ok? ==> IsSubsequence(r.value, entries)
    ensures r.Ok? ==> forall e :: e in r.value <==>
      e in entries && m(if ignoreCase then ToLower(pattern) else pattern, MatchName(e, fullPath, ignoreCase)) == Ok(true)
  {
    ghost var v := PatternVerdict(pattern, fullPath, ignoreCase, m);
    var pat := pattern;
    if ignoreCase {
      pat := ToLower(pat);
    }
    var filtered := [];
    var i := 0;
    PrependOkNil(TryFilter(v, entries));
    while i < |entries|
      invariant 0 <= i <= |entries|
      invariant TryFilter(v, entries) == PrependOk(filtered, TryFilter(v, entries[i..]))
    {
      var entry := entries[i];
      var matchPath := entry.path;
      if !fullPath {
        matchPath := Base(matchPath);
      }
      if ignoreCase {
        matchPath := ToLower(matchPath);
      }
      var matched := m(pat, matchPath);
      assert entries[i..][1..] == entries[i + 1..];
      if matched.Err? {
        return Err(PatternFailed(pat, entry.path, matched.error));
      }
      PrependOkTwice(filtered, if matched.value then [entry] else [], TryFilter(v, entries[i + 1..]));
      if matched.value {
        filtered := filtered + [entry];
      } else {
        assert filtered + [] == filtered;
      }
      i := i + 1;
    }
    assert TryFilter(v, entries[i..]) == Ok([]);
    assert filtered + [] == filtered;
    r := Ok(filtered);
    FallibleFilterFacts(v, entries);
  }

  /** Membership and order facts of a fallible filter, for the filter methods. */
  lemma FallibleFilterFacts(v: TreeEntry -> Result<bool, FilterError>, entries: seq<TreeEntry>)
    ensures TryFilter(v, entries).Ok? <==> forall i :: 0 <= i < |entries| ==> v(entries[i]).Ok?
    ensures TryFilter(v, entries).Ok? ==> IsSubsequence(TryFilter(v, entries).value, entries)
    ensures TryFilter(v, entries).Ok? ==> forall e :: e in TryFilter(v, entries).value <==> e in entries && v(e) == Ok(true)
  {
    TryFilterOk(v, entries);
    if TryFilter(v, entries).Ok? {
      FilterFacts(Accepted(v), entries);
    }
  }

  // ---------------------------------------------------------- exclude filter

  /** Whether one of `patterns` matches `name`: patterns are tried in order,
      the first match settles it and the first matcher error fails it. */
  function Excluded(patterns: seq<string>, name: string, path: string, m: Matcher): Result<bool, FilterError>
  {
    if patterns == [] then Ok(false)
    else
      match m(patterns[0], name)
      case Err(c) => Err(ExcludeFailed(patterns[0], path, c))
      case Ok(true) => Ok(true)
      case Ok(false) => Excluded(patterns[1..], name, path, m)
  }

  /** When the matcher succeeds on every pattern, an entry is excluded exactly
      when some pattern matches it. */
  lemma {:induction false} ExcludedMeaning(patterns: seq<string>, name: string, path: string, m: Matcher)
    requires forall k :: 0 <= k < |patterns| ==> m(patterns[k], name).Ok?
    ensures Excluded(patterns, name, path, m) == Ok(exists k :: 0 <= k < |patterns| && m(patterns[k], name) == Ok(true))
  {
    if patterns != [] {
      ExcludedMeaning(patterns[1..], name, path, m);
      assert forall k :: 1 <= k < |patterns| ==> patterns[k] == patterns[1..][k - 1];
      if m(patterns[0], name) != Ok(true) {
        if exists k :: 0 <= k < |patterns| && m(patterns[k], name) == Ok(true) {
          var k :| 0 <= k < |patterns| && m(patterns[k], name) == Ok(true);
          assert patterns[1..][k - 1] == patterns[k];
        }
      }
    }
  }

  /** The inner loop of `filterByExcludes`: try each pattern in turn, stop at
      the first match or the first matcher error. */
  method AnyExcludeMatches(patterns: seq<string>, name: string, path: string, m: Matcher)
    returns (r: Result<bool, FilterError>)
    ensures r == Excluded(patterns, name, path, m)
  {
    var k := 0;
    while k < |patterns|
      invariant 0 <= k <= |patterns|
      invariant Excluded(patterns, name, path, m) == Excluded(patterns[k..], name, path, m)
    {
      assert patterns[k..][1..] == patterns[k + 1..];
      var isExcluded := m(patterns[k], name);
      if isExcluded.Err? {
        return Err(ExcludeFailed(patterns[k], path, isExcluded.error));
      }
      if isExcluded.value {
        return Ok(true);
      }
      k := k + 1;
    }
    return Ok(false);
  }

  /** The verdict of the exclude list on one entry: kept when not excluded. */
  function ExcludeVerdict(excludes: seq<string>, fullPath: bool, ignoreCase: bool, m: Matcher): TreeEntry -> Result<bool, FilterError>
  {
    (e: TreeEntry) =>
      match Excluded(if ignoreCase then LowerAll(excludes) else excludes, MatchName(e, fullPath, ignoreCase), e.path, m)
      case Err(err) => Err(err)
      case Ok(excluded) => Ok(!excluded)
  }

  /** The per-entry step of `filterByExcludes`: the name the patterns are
      matched against, then the patterns in order. */
  method ExcludeEntry(entry: TreeEntry, patterns: seq<string>, ghost excludes: seq<string>, fullPath: bool, ignoreCase: bool, m: Matcher)
    returns (r: Result<bool, FilterError>)
    requires patterns == if ignoreCase then LowerAll(excludes) else excludes
    ensures r == ExcludeVerdict(excludes, fullPath, ignoreCase, m)(entry)
  {
    var matchPath := entry.path;
    if !fullPath {
      matchPath := Base(matchPath);
    }
    if ignoreCase {
      matchPath := ToLower(matchPath);
    }
    var verdict := AnyExcludeMatches(patterns, matchPath, entry.path, m);
    if verdict.Err? {
      return Err(verdict.error);
    }
    return Ok(!verdict.value);
  }

  /** `filterByExcludes`: no patterns means no filtering; otherwise the entries
      no pattern matches, in order, or the first matcher error met. */
  method FilterByExcludes(entries: seq<TreeEntry>, excludes: seq<string>, fullPath: bool, ignoreCase: bool, m: Matcher)
    returns (r: Result<seq<TreeEntry>, FilterError>)
    ensures r == if |excludes| == 0 then Ok(entries) else TryFilter(ExcludeVerdict(excludes, fullPath, ignoreCase, m), entries)
    ensures r.Ok? ==> IsSubsequence(r.value, entries)
  {
    if |excludes| == 0 {
      SubsequenceReflexive(entries);
      return Ok(entries);
    }
    ghost var v := ExcludeVerdict(excludes, fullPath, ignoreCase, m);
    var patterns := excludes;
    if ignoreCase {
      patterns := LowerAll(excludes);
    }
    var filtered := [];
    var i := 0;
    PrependOkNil(TryFilter(v, entries));
    while i < |entries|
      invariant 0 <= i <= |entries|
      invariant TryFilter(v, entries) == PrependOk(filtered, TryFilter(v, entries[i..]))
    {
      var keep := ExcludeEntry(entries[i], patterns, excludes, fullPath, ignoreCase, m);
      TryFilterAdvance(v, entries, i, filtered, keep);
      if keep.Err? {
        return Err(keep.error);
      }
      if keep.value {
        filtered := filtered + [entries[i]];
      }
      i := i + 1;
    }
    assert TryFilter(v, entries[i..]) == Ok([]);
    assert filtered + [] == filtered;
    r := Ok(filtered);
    TryFilterIsSubsequence(v, entries);
  }

  /** Membership and order facts of the exclude filter. */
  lemma ExcludeFacts(entries: seq<TreeEntry>, excludes: seq<string>, fullPath: bool, ignoreCase: bool, m: Matcher)
    ensures var r := TryFilter(ExcludeVerdict(excludes, fullPath, ignoreCase, m), entries);
      r.Ok? ==> (IsSubsequence(r.value, entries) &&
        forall e :: e in r.value <==>
          e in entries && Excluded(if ignoreCase then LowerAll(excludes) else excludes, MatchName(e, fullPath, ignoreCase), e.path, m) == Ok(false))
  {
    var v := ExcludeVerdict(excludes, fullPath, ignoreCase, m);
    FallibleFilterFacts(v, entries);
  }

  // ---------------------------------------------------------------- pipeline

  /** The pattern as it is matched: lower-cased when case is ignored. */
  function CasedPattern(pattern: string, ignoreCase: bool): string
  {
    if ignoreCase then ToLower(pattern) else pattern
  }

  /** The exclude patterns as they are matched. */
  function CasedPatterns(excludes: seq<string>, ignoreCase: bool): seq<string>
  {
    if ignoreCase then LowerAll(excludes) else excludes
  }

  /** The filter chain of `searchRepo` on a tree: type, extension and size
      cannot fail; the pattern and then the excludes can. */
  function Pipeline(entries: seq<TreeEntry>, opts: Options, m: Matcher): Result<seq<TreeEntry>, FilterError>
  {
    var byType := if |opts.fileTypes| == 0 then entries else Filter(TypeSelected(opts.fileTypes), entries);
    var byExt := if |opts.extensions| == 0 then byType else Filter(ExtSelected(opts.extensions, opts.ignoreCase), byType);
    var bySize := if opts.minSize == 0 && opts.maxSize == 0 then byExt else Filter(SizeSelected(opts.minSize, opts.maxSize), byExt);
    match TryFilter(PatternVerdict(opts.pattern, opts.fullPath, opts.ignoreCase, m), bySize)
    case Err(e) => Err(e)
    case Ok(byPattern) =>
      if |opts.excludes| == 0 then Ok(byPattern)
      else TryFilter(ExcludeVerdict(opts.excludes, opts.fullPath, opts.ignoreCase, m), byPattern)
  }

  /** The five criteria of the pipeline on one entry, each stated on its own:
      an empty type or extension list and zero size bounds accept everything,
      the pattern must match and no exclude pattern may match. */
  function Wanted(opts: Options, m: Matcher): TreeEntry -> bool
  {
    (e: TreeEntry) =>
      (|opts.fileTypes| == 0 || ParseFileType(e.mode) in opts.fileTypes) &&
      (|opts.extensions| == 0 || ExtSelected(opts.extensions, opts.ignoreCase)(e)) &&
      SizeSelected(opts.minSize, opts.maxSize)(e) &&
      PatternMatches(opts, m)(e) &&
      NotExcluded(opts, m)(e)
  }

  predicate NoExcludeMatches(patterns: seq<string>, name: string, m: Matcher)
  {
    forall k :: 0 <= k < |patterns| ==> m(patterns[k], name) != Ok(true)
  }

  /** The three infallible stages are one filter by their conjunction. */
  lemma InfallibleStages(entries: seq<TreeEntry>, opts: Options)
    ensures var byType := if |opts.fileTypes| == 0 then entries else Filter(TypeSelected(opts.fileTypes), entries);
      var byExt := if |opts.extensions| == 0 then byType else Filter(ExtSelected(opts.extensions, opts.ignoreCase), byType);
      var bySize := if opts.minSize == 0 && opts.maxSize == 0 then byExt else Filter(SizeSelected(opts.minSize, opts.maxSize), byExt);
      bySize == Filter(CheapStages(opts), entries)
  {
    var p1 := (e: TreeEntry) => |opts.fileTypes| == 0 || ParseFileType(e.mode) in opts.fileTypes;
    var p2 := (e: TreeEntry) => |opts.extensions| == 0 || ExtSelected(opts.extensions, opts.ignoreCase)(e);
    var p3 := SizeSelected(opts.minSize, opts.maxSize);
    var p12 := (e: TreeEntry) => p1(e) && p2(e);
    var byType := if |opts.fileTypes| == 0 then entries else Filter(TypeSelected(opts.fileTypes), entries);
    if |opts.fileTypes| == 0 {
      FilterAll(p1, entries);
    } else {
      FilterSameTest(TypeSelected(opts.fileTypes), p1, entries);
    }
    var byExt := if |opts.extensions| == 0 then byType else Filter(ExtSelected(opts.extensions, opts.ignoreCase), byType);
    if |opts.extensions| == 0 {
      FilterAll(p2, byType);
    } else {
      FilterSameTest(ExtSelected(opts.extensions, opts.ignoreCase), p2, byType);
    }
    FilterCompose(p1, p2, p12, entries);
    if opts.minSize == 0 && opts.maxSize == 0 {
      FilterAll(p3, byExt);
    }
    FilterCompose(p12, p3, CheapStages(opts), entries);
  }

  function CheapStages(opts: Options): TreeEntry -> bool
  {
    (e: TreeEntry) =>
      (|opts.fileTypes| == 0 || ParseFileType(e.mode) in opts.fileTypes) &&
      (|opts.extensions| == 0 || ExtSelected(opts.extensions, opts.ignoreCase)(e)) &&
      SizeSelected(opts.minSize, opts.maxSize)(e)
  }

  function PatternMatches(opts: Options, m: Matcher): TreeEntry -> bool
  {
    (e: TreeEntry) => m(CasedPattern(opts.pattern, opts.ignoreCase), MatchName(e, opts.fullPath, opts.ignoreCase)) == Ok(true)
  }

  function NotExcluded(opts: Options, m: Matcher): TreeEntry -> bool
  {
    (e: TreeEntry) => NoExcludeMatches(CasedPatterns(opts.excludes, opts.ignoreCase), MatchName(e, opts.fullPath, opts.ignoreCase), m)
  }

  /** With a matcher that never fails, the pattern stage is a plain filter. */
  lemma PatternStage(s: seq<TreeEntry>, opts: Options, m: Matcher)
    requires forall p, n :: m(p, n).Ok?
    ensures TryFilter(PatternVerdict(opts.pattern, opts.fullPath, opts.ignoreCase, m), s) == Ok(Filter(PatternMatches(opts, m), s))
  {
    var pv := PatternVerdict(opts.pattern, opts.fullPath, opts.ignoreCase, m);
    forall i | 0 <= i < |s|
      ensures pv(s[i]).Ok? && Accepted(pv)(s[i]) == PatternMatches(opts, m)(s[i])
    {
      var r := m(CasedPattern(opts.pattern, opts.ignoreCase), MatchName(s[i], opts.fullPath, opts.ignoreCase));
      assert r.Ok?;
      assert pv(s[i]) == Ok(r.value);
    }
    TryFilterOk(pv, s);
    FilterSameTest(Accepted(pv), PatternMatches(opts, m), s);
  }

  /** With a matcher that never fails, the exclude stage is a plain filter. */
  lemma ExcludeStage(s: seq<TreeEntry>, opts: Options, m: Matcher)
    requires forall p, n :: m(p, n).Ok?
    ensures (if |opts.excludes| == 0 then Ok(s) else TryFilter(ExcludeVerdict(opts.excludes, opts.fullPath, opts.ignoreCase, m), s))
      == Ok(Filter(NotExcluded(opts, m), s))
  {
    if |opts.excludes| == 0 {
      FilterAll(NotExcluded(opts, m), s);
    } else {
      var ev := ExcludeVerdict(opts.excludes, opts.fullPath, opts.ignoreCase, m);
      var patterns := CasedPatterns(opts.excludes, opts.ignoreCase);
      forall i | 0 <= i < |s|
        ensures ev(s[i]).Ok? && Accepted(ev)(s[i]) == NotExcluded(opts, m)(s[i])
      {
        var name := MatchName(s[i], opts.fullPath, opts.ignoreCase);
        ExcludedMeaning(patterns, name, s[i].path, m);
        var excluded := Excluded(patterns, name, s[i].path, m);
        assert excluded.Ok?;
        assert ev(s[i]) == Ok(!excluded.value);
        assert !excluded.value == NoExcludeMatches(patterns, name, m);
      }
      TryFilterOk(ev, s);
      FilterSameTest(Accepted(ev), NotExcluded(opts, m), s);
    }
  }

  /** With a matcher that never fails (well-formed patterns), the whole chain
      is a single order-preserving filter by the five criteria at once: the
      order of the stages does not matter. */
  lemma PipelineIsOneFilter(entries: seq<TreeEntry>, opts: Options, m: Matcher)
    requires forall p, n :: m(p, n).Ok?
    ensures Pipeline(entries, opts, m) == Ok(Filter(Wanted(opts, m), entries))
  {
    InfallibleStages(entries, opts);
    var bySize := Filter(CheapStages(opts), entries);
    PatternStage(bySize, opts, m);
    var byPattern := Filter(PatternMatches(opts, m), bySize);
    ExcludeStage(byPattern, opts, m);
    var p34 := (e: TreeEntry) => CheapStages(opts)(e) && PatternMatches(opts, m)(e);
    FilterCompose(CheapStages(opts), PatternMatches(opts, m), p34, entries);
    FilterCompose(p34, NotExcluded(opts, m), Wanted(opts, m), entries);
  }

  /** Whatever the matcher does, a successful chain keeps tree entries
      unmodified and in tree order. */
  lemma PipelineIsSubsequence(entries: seq<TreeEntry>, opts: Options, m: Matcher)
    ensures Pipeline(entries, opts, m).Ok? ==> IsSubsequence(Pipeline(entries, opts, m).value, entries)
  {
    InfallibleStages(entries, opts);
    var bySize := Filter(CheapStages(opts), entries);
    FilterIsSubsequence(CheapStages(opts), entries);
    var pv := PatternVerdict(opts.pattern, opts.fullPath, opts.ignoreCase, m);
    TryFilterOk(pv, bySize);
    if TryFilter(pv, bySize).Ok? {
      var byPattern := TryFilter(pv, bySize).value;
      FilterIsSubsequence(Accepted(pv), bySize);
      SubsequenceTransitive(byPattern, bySize, entries);
      if |opts.excludes| > 0 {
        var ev := ExcludeVerdict(opts.excludes, opts.fullPath, opts.ignoreCase, m);
        TryFilterOk(ev, byPattern);
        if TryFilter(ev, byPattern).Ok? {
          FilterIsSubsequence(Accepted(ev), byPattern);
          SubsequenceTransitive(TryFilter(ev, byPattern).value, byPattern, entries);
        }
      }
    }
  }

  // -------------------------------------------------------------- searchRepo

  /** Why searching one repository failed. */
  datatype SearchError =
    | FetchFailed(fetchError: ClientError)
    | FilterFailed(filterError: FilterError)

  /** A message written to standard error while the search goes on. */
  datatype Warning =
    | Truncated(fullName: string)
    | SpecSkipped(owner: string, repo: string, skipCause: ClientError)
    | NoRepositories
    | SearchFailed(fullName: string, searchError: SearchError)

  /** The warning for a tree the API cut short, given before any filtering. */
  function TruncationWarnings(repo: Repository, t: Transport): seq<Warning>
  {
    match GetTree(repo, t)
    case Ok(tree) => if tree.truncated then [Truncated(repo.fullName)] else []
    case Err(_) => []
  }

  /** What searching one repository yields: the surviving entries of its tree,
      or the first failure. */
  function Search(repo: Repository, opts: Options, m: Matcher, t: Transport): Result<seq<TreeEntry>, SearchError>
  {
    match GetTree(repo, t)
    case Err(e) => Err(FetchFailed(e))
    case Ok(tree) =>
      match Pipeline(tree.tree, opts, m)
      case Err(e) => Err(FilterFailed(e))
      case Ok(entries) => Ok(entries)
  }

  /** `searchRepo`: fetch the tree, warn when it is truncated, run the five
      filters in order and stop at the first failure. */
  method SearchRepo(repo: Repository, opts: Options, m: Matcher, t: Transport)
    returns (warnings: seq<Warning>, r: Result<seq<TreeEntry>, SearchError>)
    ensures warnings == TruncationWarnings(repo, t)
    ensures r == Search(repo, opts, m, t)
    ensures r.Ok? ==> IsSubsequence(r.value, GetTree(repo, t).value.tree)
  {
    var tree := GetTree(repo, t);
    if tree.Err? {
      return [], Err(FetchFailed(tree.error));
    }
    warnings := [];
    if tree.value.truncated {
      warnings := [Truncated(repo.fullName)];
    }
    var found := RunFilters(tree.value.tree, opts, m);
    if found.Err? {
      return warnings, Err(FilterFailed(found.error));
    }
    r := Ok(found.value);
    PipelineIsSubsequence(tree.value.tree, opts, m);
  }

  /** The filter chain of `searchRepo`, stage by stage. */
  method RunFilters(entries: seq<TreeEntry>, opts: Options, m: Matcher) returns (r: Result<seq<TreeEntry>, FilterError>)
    ensures r == Pipeline(entries, opts, m)
  {
    var kept := FilterByType(entries, opts.fileTypes);
    kept := FilterByExtension(kept, opts.extensions, opts.ignoreCase);
    kept := FilterBySize(kept, opts.minSize, opts.maxSize);
    var byPattern := FilterByPattern(kept, opts.pattern, opts.fullPath, opts.ignoreCase, m);
    if byPattern.Err? {
      return Err(byPattern.error);
    }
    r := FilterByExcludes(byPattern.value, opts.excludes, opts.fullPath, opts.ignoreCase, m);
  }

  /** With a tree fetched and a matcher that never fails, a search finds
      exactly the tree entries meeting all five criteria, in tree order. */
  lemma SearchFindsWanted(repo: Repository, opts: Options, m: Matcher, t: Transport)
    requires GetTree(repo, t).Ok?
    requires forall p, n :: m(p, n).Ok?
    ensures Search(repo, opts, m, t) == Ok(Filter(Wanted(opts, m), GetTree(repo, t).value.tree))
    ensures forall e :: e in Search(repo, opts, m, t).value <==> e in GetTree(repo, t).value.tree && Wanted(opts, m)(e)
  {
    PipelineIsOneFilter(GetTree(repo, t).value.tree, opts, m);
    FilterFacts(Wanted(opts, m), GetTree(repo, t).value.tree);
  }

  // ----------------------------------------------------------- parseRepoSpec

  /** An owner, and the repository name or "" for every repository of it. */
  datatype RepoSpec = RepoSpec(owner: string, repo: string)

  /** `parseRepoSpec`: split at '/'; one part is an owner, two parts an owner
      and a repository, anything more is refused. Neither part is checked for
      emptiness. */
  function ParseRepoSpec(spec: string): Result<RepoSpec, string>
  {
    var parts := Split(spec, '/');
    if |parts| == 1 then
      Ok(RepoSpec(parts[0], ""))
    else if |parts| == 2 then
      Ok(RepoSpec(parts[0], parts[1]))
    else
      Err(spec)
  }

  /** What `parseRepoSpec` accepts and what it gives: at most one '/' is
      accepted; the parts hold no '/', and the spec is the owner alone or the
      owner, '/' and the repository. */
  lemma ParseRepoSpecMeaning(spec: string)
    ensures var r := ParseRepoSpec(spec);
      && (r.Ok? <==> Occurrences(spec, '/') <= 1)
      && (r.Ok? ==> '/' !in r.value.owner && '/' !in r.value.repo)
      && (r.Ok? && Occurrences(spec, '/') == 0 ==> r.value == RepoSpec(spec, ""))
      && (r.Ok? && Occurrences(spec, '/') == 1 ==> spec == r.value.owner + "/" + r.value.repo)
      && (r.Err? ==> r.error == spec)
  {
    var parts := Split(spec, '/');
    SplitFacts(spec, '/');
    if |parts| == 2 {
      assert Join(parts, '/') == parts[0] + "/" + Join(parts[1..], '/');
    }
  }

  /** Writing an owner, or an owner and a repository, in spec form and parsing
      it back gives them back. Empty parts pass through: "" names the owner ""
      and "cli/" (repository "") asks for every repository of cli. */
  lemma ParseRepoSpecRoundTrip(owner: string, repo: string)
    requires '/' !in owner && '/' !in repo
    ensures ParseRepoSpec(owner) == Ok(RepoSpec(owner, ""))
    ensures ParseRepoSpec(owner + "/" + repo) == Ok(RepoSpec(owner, repo))
  {
    SplitNoSeparator(owner, '/');
    SplitJoin([owner, repo], '/');
    assert Join([owner, repo], '/') == owner + "/" + repo by {
      assert [owner, repo][1..] == [repo];
    }
  }

  /** A spec with a third part is refused rather than cut short, whatever
      the parts hold. */
  lemma ParseRepoSpecRefusesThreeParts(owner: string, repo: string, rest: string)
    ensures ParseRepoSpec(owner + "/" + repo + "/" + rest).Err?
  {
    var spec := owner + "/" + repo + "/" + rest;
    ParseRepoSpecMeaning(spec);
    assert multiset(spec) == multiset(owner) + multiset("/") + multiset(repo) + multiset("/") + multiset(rest);
  }
}
