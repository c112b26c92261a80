/** The pieces of Go's standard library that the core's parsing and filtering
    logic relies on (`strings`, `strconv`, `path`, `path/filepath`), stated on
    strings of Unicode code points. */
module GoStrings {
  import opened Results

  const MaxInt64: int := 0x7fff_ffff_ffff_ffff
  const MinInt64: int := -0x8000_0000_0000_0000
  const MaxUint64: int := 0xffff_ffff_ffff_ffff

  // ---------------------------------------------------------------- spaces

  /** `unicode.IsSpace`: the Latin-1 spaces plus the other White_Space code points. */
  predicate IsSpace(c: char)
  {
    var n := c as int;
    (9 <= n <= 13) || n == 32 || n == 0x85 || n == 0xA0 || n == 0x1680 ||
    (0x2000 <= n <= 0x200A) || n == 0x2028 || n == 0x2029 || n == 0x202F ||
    n == 0x205F || n == 0x3000
  }

  predicate AllSpace(s: string)
  {
    forall i :: 0 <= i < |s| ==> IsSpace(s[i])
  }

  /** Drops leading white space: the result is the suffix of `s` that starts
      at its first non-space character. */
  function TrimLeft(s: string): (r: string)
    ensures |r| <= |s|
    ensures r == [] || !IsSpace(r[0])
  {
    if s != [] && IsSpace(s[0]) then TrimLeft(s[1..]) else s
  }

  /** What TrimLeft cuts is white space, and what it keeps is a suffix. */
  lemma {:induction false} TrimLeftShape(s: string)
    ensures TrimLeft(s) == s[|s| - |TrimLeft(s)|..]
    ensures AllSpace(s[..|s| - |TrimLeft(s)|])
  {
    if s != [] && IsSpace(s[0]) {
      TrimLeftShape(s[1..]);
      var k := |s| - |TrimLeft(s)|;
      assert s[1..][..k - 1] == s[1..k];
    }
  }

  /** Drops trailing white space: the result is the prefix of `s` that ends
      at its last non-space character. */
  function TrimRight(s: string): (r: string)
    ensures |r| <= |s|
    ensures r == [] || !IsSpace(r[|r| - 1])
  {
    if s != [] && IsSpace(s[|s| - 1]) then TrimRight(s[..|s| - 1]) else s
  }

  /** What TrimRight cuts is white space, and what it keeps is a prefix. */
  lemma {:induction false} TrimRightShape(s: string)
    ensures TrimRight(s) == s[..|TrimRight(s)|]
    ensures AllSpace(s[|TrimRight(s)|..])
  {
    if s != [] && IsSpace(s[|s| - 1]) {
      TrimRightShape(s[..|s| - 1]);
    }
  }

  /** `strings.TrimSpace`: the result has no white space at either end and is
      what remains of `s` once white space is cut from both ends. */
  function TrimSpace(s: string): (r: string)
    ensures r == [] || (!IsSpace(r[0]) && !IsSpace(r[|r| - 1]))
  {
    TrimRightShape(TrimLeft(s));
    TrimRight(TrimLeft(s))
  }

  lemma {:induction false} TrimLeftSpacePrefix(w: string, s: string)
    requires AllSpace(w)
    ensures TrimLeft(w + s) == TrimLeft(s)
    decreases |w|
  {
    if w != [] {
      assert (w + s)[1..] == w[1..] + s;
      TrimLeftSpacePrefix(w[1..], s);
    } else {
      assert w + s == s;
    }
  }

  lemma {:induction false} TrimRightSpaceSuffix(s: string, w: string)
    requires AllSpace(w)
    ensures TrimRight(s + w) == TrimRight(s)
    decreases |w|
  {
    if w != [] {
      assert (s + w)[..|s + w| - 1] == s + w[..|w| - 1];
      TrimRightSpaceSuffix(s, w[..|w| - 1]);
    } else {
      assert s + w == s;
    }
  }

  lemma TrimLeftNoSpace(s: string)
    requires s == [] || !IsSpace(s[0])
    ensures TrimLeft(s) == s
  {
  }

  lemma {:induction false} TrimLeftOfSuffix(s: string, w: string)
    requires AllSpace(w)
    requires s == [] || !IsSpace(s[0])
    ensures TrimLeft(s + w) == s + w || (s == [] && TrimLeft(s + w) == [])
  {
    if s == [] {
      assert s + w == w;
      TrimLeftSpacePrefix(w, []);
      assert w + [] == w;
    }
  }

  /** White space around a string does not change what TrimSpace keeps. */
  lemma TrimSpaceSurrounded(a: string, s: string, b: string)
    requires AllSpace(a) && AllSpace(b)
    ensures TrimSpace(a + s + b) == TrimSpace(s)
  {
    TrimLeftSpacePrefix(a, s + b);
    assert a + s + b == a + (s + b);
    var t := TrimLeft(s);
    TrimLeftShape(s);
    var k := |s| - |t|;
    assert s == s[..k] + t;
    assert AllSpace(s[..k]);
    assert s + b == s[..k] + (t + b);
    TrimLeftSpacePrefix(s[..k], t + b);
    TrimLeftOfSuffix(t, b);
    if t == [] {
      // s is all white space: both sides trim to nothing.
      assert TrimLeft(s + b) == [];
    } else {
      assert TrimLeft(s + b) == t + b;
      TrimRightSpaceSuffix(t, b);
    }
  }

  /** A string with no white space at either end is its own trim. */
  lemma TrimSpaceUnchanged(s: string)
    requires s != [] && !IsSpace(s[0]) && !IsSpace(s[|s| - 1])
    ensures TrimSpace(s) == s
  {
    TrimLeftNoSpace(s);
  }

  // ---------------------------------------------------------------- case

  /** Lower-cases one ASCII letter; every other character is unchanged. */
  function LowerChar(c: char): char
  {
    if 'A' <= c <= 'Z' then (c as int + 32) as char else c
  }

  /** `strings.ToLower`, restricted to ASCII letters: same length, each
      character lower-cased in place. */
  function ToLower(s: string): (r: string)
    ensures |r| == |s|
    ensures forall i :: 0 <= i < |s| ==> r[i] == LowerChar(s[i])
  {
    if s == [] then [] else [LowerChar(s[0])] + ToLower(s[1..])
  }

  /** Lower-casing twice is lower-casing once. */
  lemma ToLowerIdempotent(s: string)
    ensures ToLower(ToLower(s)) == ToLower(s)
  {
  }

  // ---------------------------------------------------------------- split

  function Occurrences(s: string, c: char): nat
  {
    multiset(s)[c]
  }

  /** Glues `parts` back together with `sep` between consecutive parts. */
  function Join(parts: seq<string>, sep: char): string
    requires |parts| >= 1
  {
    if |parts| == 1 then parts[0] else parts[0] + [sep] + Join(parts[1..], sep)
  }

  /** `strings.Split` on a one-character separator. */
  function Split(s: string, sep: char): (parts: seq<string>)
    ensures |parts| >= 1
  {
    if s == [] then
      [""]
    else
      var rest := Split(s[1..], sep);
      if s[0] == sep then [""] + rest else [[s[0]] + rest[0]] + rest[1..]
  }

  /** What `Split` returns: one more part than there are separators, no part
      holds the separator, and joining the parts with the separator gives
      back `s`. */
  lemma SplitFacts(s: string, sep: char)
    ensures |Split(s, sep)| == Occurrences(s, sep) + 1
    ensures forall i :: 0 <= i < |Split(s, sep)| ==> sep !in Split(s, sep)[i]
    ensures Join(Split(s, sep), sep) == s
  {
    SplitCount(s, sep);
    SplitPartsFree(s, sep);
    SplitJoinsBack(s, sep);
  }

  lemma {:induction false} SplitCount(s: string, sep: char)
    ensures |Split(s, sep)| == Occurrences(s, sep) + 1
  {
    if s != [] {
      SplitCount(s[1..], sep);
      assert s == [s[0]] + s[1..];
      assert multiset(s) == multiset([s[0]]) + multiset(s[1..]);
    }
  }

  lemma {:induction false} SplitPartsFree(s: string, sep: char)
    ensures forall i :: 0 <= i < |Split(s, sep)| ==> sep !in Split(s, sep)[i]
  {
    if s != [] {
      SplitPartsFree(s[1..], sep);
      var rest := Split(s[1..], sep);
      var parts := Split(s, sep);
      if s[0] == sep {
        assert forall i :: 1 <= i < |parts| ==> parts[i] == rest[i - 1];
      } else {
        assert forall i :: 1 <= i < |parts| ==> parts[i] == rest[i];
      }
    }
  }

  lemma {:induction false} SplitJoinsBack(s: string, sep: char)
    ensures Join(Split(s, sep), sep) == s
  {
    if s != [] {
      var tail := s[1..];
      SplitJoinsBack(tail, sep);
      var rest := Split(tail, sep);
      if s[0] == sep {
        JoinCons("", rest, sep);
      } else {
        JoinExtendFirst(s[0], rest, sep);
      }
      assert s == [s[0]] + tail;
    }
  }

  lemma JoinCons(x: string, parts: seq<string>, sep: char)
    requires |parts| >= 1
    ensures Join([x] + parts, sep) == x + [sep] + Join(parts, sep)
  {
    assert ([x] + parts)[1..] == parts;
  }

  lemma JoinExtendFirst(c: char, parts: seq<string>, sep: char)
    requires |parts| >= 1
    ensures Join([[c] + parts[0]] + parts[1..], sep) == [c] + Join(parts, sep)
  {
    var first := [c] + parts[0];
    if |parts| > 1 {
      var j := Join(parts[1..], sep);
      assert ([first] + parts[1..])[1..] == parts[1..];
      assert first + [sep] + j == [c] + (parts[0] + [sep] + j);
    }
  }

  /** Splitting a join of separator-free parts gives the parts back. */
  lemma {:induction false} SplitJoin(parts: seq<string>, sep: char)
    requires |parts| >= 1
    requires forall i :: 0 <= i < |parts| ==> sep !in parts[i]
    ensures Split(Join(parts, sep), sep) == parts
  {
    if |parts| == 1 {
      SplitNoSeparator(parts[0], sep);
    } else {
      SplitJoin(parts[1..], sep);
      SplitPrefix(parts[0], sep, Join(parts[1..], sep));
    }
  }

  lemma {:induction false} SplitNoSeparator(s: string, sep: char)
    requires sep !in s
    ensures Split(s, sep) == [s]
  {
    if s != [] {
      SplitNoSeparator(s[1..], sep);
      assert [s[0]] + s[1..] == s;
    }
  }

  lemma {:induction false} SplitPrefix(a: string, sep: char, b: string)
    requires sep !in a
    ensures Split(a + [sep] + b, sep) == [a] + Split(b, sep)
  {
    if a == [] {
      assert a + [sep] + b == [sep] + b;
      assert ([sep] + b)[1..] == b;
    } else {
      assert (a + [sep] + b)[1..] == a[1..] + [sep] + b;
      SplitPrefix(a[1..], sep, b);
      assert [a[0]] + a[1..] == a;
    }
  }

  // ---------------------------------------------------------------- numbers

  predicate IsDigit(c: char)
  {
    '0' <= c <= '9'
  }

  predicate AllDigits(s: string)
  {
    forall i :: 0 <= i < |s| ==> IsDigit(s[i])
  }

  /** No decimal digit is white space. */
  lemma DigitIsNotSpace(c: char)
    requires IsDigit(c)
    ensures !IsSpace(c)
  {
  }

  /** The value of a string of decimal digits, most significant first. */
  function DecimalValue(s: string): (n: nat)
    requires AllDigits(s)
  {
    if s == [] then 0 else DecimalValue(s[..|s| - 1]) * 10 + (s[|s| - 1] as int - '0' as int)
  }

  /** How many decimal digits `s` starts with. */
  function LeadingDigits(s: string): (n: nat)
    ensures n <= |s|
    ensures forall j :: 0 <= j < n ==> IsDigit(s[j])
    ensures n == |s| || !IsDigit(s[n])
  {
    if s != [] && IsDigit(s[0]) then 1 + LeadingDigits(s[1..]) else 0
  }

  /** The digits at the front of `d + rest` are those of `d` when `rest` does
      not start with a digit. */
  lemma {:induction false} LeadingDigitsOf(d: string, rest: string)
    requires AllDigits(d)
    requires rest == [] || !IsDigit(rest[0])
    ensures LeadingDigits(d + rest) == |d|
  {
    if d != [] {
      assert (d + rest)[1..] == d[1..] + rest;
      LeadingDigitsOf(d[1..], rest);
    } else {
      assert d + rest == rest;
    }
  }

  /** A string that starts with the digits `d` has at least that many leading
      digits. */
  lemma {:induction false} LeadingDigitsAtLeast(d: string, rest: string)
    requires AllDigits(d)
    ensures LeadingDigits(d + rest) >= |d|
  {
    if d != [] {
      assert (d + rest)[1..] == d[1..] + rest;
      LeadingDigitsAtLeast(d[1..], rest);
    }
  }

  datatype NumError = InvalidSyntax(input: string) | OutOfRange(input: string)

  /** `strconv.ParseInt(s, 10, 64)` (and `strconv.Atoi` on a 64-bit platform):
      an optional sign, then at least one decimal digit and nothing else; the
      value must lie in the int64 range. The digits are read from left to
      right and the first problem met is the one reported: a run of digits
      whose value passes 2^64 - 1 is out of range even when a non-digit
      follows it, and a non-digit reached before that is a syntax error. */
  function ParseInt(s: string): (r: Result<int, NumError>)
    ensures r.Ok? ==> MinInt64 <= r.value <= MaxInt64
    ensures r.Ok? && AllDigits(s) ==> r.value == DecimalValue(s)
    ensures AllDigits(s) && s != [] && DecimalValue(s) <= MaxInt64 ==> r.Ok?
    ensures r.Ok? ==> s != []
  {
    if s == [] then
      Err(InvalidSyntax(s))
    else
      var negative := s[0] == '-';
      var body := if s[0] == '+' || s[0] == '-' then s[1..] else s;
      var k := LeadingDigits(body);
      assert k == |body| ==> body[..k] == body;
      if body == [] then
        Err(InvalidSyntax(s))
      else if DecimalValue(body[..k]) > MaxUint64 then
        Err(OutOfRange(s))
      else if k < |body| then
        Err(InvalidSyntax(s))
      else
        assert body[..k] == body;
        var magnitude: int := DecimalValue(body);
        var v := if negative then -magnitude else magnitude;
        if v < MinInt64 || v > MaxInt64 then Err(OutOfRange(s)) else Ok(v)
  }

  /** Appending digits never lowers a decimal value. */
  lemma {:induction false} DecimalValueGrows(a: string, b: string)
    requires AllDigits(a + b)
    ensures AllDigits(a) && DecimalValue(a) <= DecimalValue(a + b)
  {
    assert forall i :: 0 <= i < |a| ==> a[i] == (a + b)[i];
    if b != [] {
      var c := a + b[..|b| - 1];
      assert (a + b)[..|a + b| - 1] == c;
      assert forall i :: 0 <= i < |c| ==> c[i] == (a + b)[i];
      DecimalValueGrows(a, b[..|b| - 1]);
    } else {
      assert a + b == a;
    }
  }

  /** A run of digits worth more than 2^64 - 1 is out of range, whatever
      follows it. */
  lemma ParseIntRangeFirst(d: string, rest: string)
    requires d != [] && AllDigits(d) && DecimalValue(d) > MaxUint64
    ensures ParseInt(d + rest) == Err(OutOfRange(d + rest))
  {
    var s := d + rest;
    var k := LeadingDigits(s);
    LeadingDigitsAtLeast(d, rest);
    assert s[..k] == d + s[|d|..k];
    DecimalValueGrows(d, s[|d|..k]);
  }

  /** A non-digit after a run of digits worth at most 2^64 - 1 is a syntax
      error. */
  lemma ParseIntSyntaxAt(d: string, rest: string)
    requires d != [] && AllDigits(d) && DecimalValue(d) <= MaxUint64
    requires rest != [] && !IsDigit(rest[0])
    ensures ParseInt(d + rest) == Err(InvalidSyntax(d + rest))
  {
    var s := d + rest;
    LeadingDigitsOf(d, rest);
    assert s[..|d|] == d;
  }

  /** The overflow guard `num > math.MaxInt64/unit` used before multiplying:
      a non-negative count that passes it yields a product within int64, and
      one that fails it would not have. */
  lemma ProductGuard(num: int, unit: int)
    requires num >= 0 && unit > 0
    ensures num <= MaxInt64 / unit <==> num * unit <= MaxInt64
    ensures num <= MaxInt64 / unit ==> 0 <= num * unit
  {
    var q := MaxInt64 / unit;
    assert q * unit <= MaxInt64 < (q + 1) * unit;
    if num <= q {
      assert num * unit <= q * unit;
    } else {
      assert num * unit >= (q + 1) * unit;
    }
  }

  /** A number made of digits alone is never negative. */
  lemma ParseIntDigitsNonNegative(s: string)
    requires AllDigits(s)
    ensures ParseInt(s).Ok? ==> ParseInt(s).value >= 0
  {
  }

  function DigitChar(d: nat): char
    requires d < 10
  {
    ('0' as int + d) as char
  }

  /** `strconv.Itoa` on a non-negative number: its shortest decimal form. */
  function Itoa(n: nat): (s: string)
    ensures s != [] && AllDigits(s)
    ensures DecimalValue(s) == n
    ensures |s| > 1 ==> s[0] != '0'
  {
    if n < 10 then [DigitChar(n)] else Itoa(n / 10) + [DigitChar(n % 10)]
  }

  /** Distinct numbers print as distinct strings. */
  lemma ItoaInjective(a: nat, b: nat)
    ensures Itoa(a) == Itoa(b) ==> a == b
  {
  }

  // ---------------------------------------------------------------- paths

  function StripTrailingSlashes(p: string): (r: string)
    ensures r == [] || r[|r| - 1] != '/'
    ensures |r| <= |p| && r == p[..|r|]
  {
    if p != [] && p[|p| - 1] == '/' then StripTrailingSlashes(p[..|p| - 1]) else p
  }

  /** What follows the last '/' of `p` (all of `p` when it has none). */
  function AfterLastSlash(p: string): (r: string)
    ensures '/' !in r
    ensures |r| <= |p| && r == p[|p| - |r|..]
    ensures |r| < |p| ==> p[|p| - |r| - 1] == '/'
  {
    if p == [] then []
    else if p[|p| - 1] == '/' then []
    else
      var q := p[..|p| - 1];
      var r := AfterLastSlash(q);
      assert p[|p| - |r| - 1..] == q[|q| - |r|..] + [p[|p| - 1]];
      assert |r| < |q| ==> p[|p| - |r| - 2] == q[|q| - |r| - 1];
      r + [p[|p| - 1]]
  }

  /** `path.Base`: the last element of a slash-separated path, after trailing
      slashes are removed; "." for the empty path and "/" for a path of
      slashes only. */
  function Base(p: string): (r: string)
    ensures r != []
    ensures r == "/" || '/' !in r
  {
    if p == [] then "."
    else
      var stripped := StripTrailingSlashes(p);
      var last := AfterLastSlash(stripped);
      if last == [] then "/" else last
  }

  /** The base of `dir/name`, or of `name` alone, is `name`. */
  lemma BaseOfJoined(dir: string, name: string)
    requires name != [] && '/' !in name
    ensures Base(name) == name
    ensures Base(dir + "/" + name) == name
  {
    AfterLastSlashNoSlash(name);
    AfterLastSlashAppend(dir + "/", name);
  }

  lemma {:induction false} AfterLastSlashNoSlash(s: string)
    requires '/' !in s
    ensures AfterLastSlash(s) == s
  {
    if s != [] {
      AfterLastSlashNoSlash(s[..|s| - 1]);
    }
  }

  lemma {:induction false} AfterLastSlashAppend(d: string, s: string)
    requires d != [] && d[|d| - 1] == '/'
    requires '/' !in s
    ensures AfterLastSlash(d + s) == s
    decreases |s|
  {
    if s == [] {
      assert d + s == d;
    } else {
      assert (d + s)[..|d + s| - 1] == d + s[..|s| - 1];
      AfterLastSlashAppend(d, s[..|s| - 1]);
    }
  }

  /** The final element of a path: what follows its last '/'. */
  function FinalElement(p: string): string
  {
    AfterLastSlash(p)
  }

  /** `filepath.Ext` with '/' as the separator: the suffix of `p` that starts
      at the last '.' of its final element, or "" when that element has no '.'. */
  function Ext(p: string): string
  {
    if p == [] then []
    else
      var c := p[|p| - 1];
      if c == '/' then []
      else if c == '.' then ['.']
      else
        var e := Ext(p[..|p| - 1]);
        if e == [] then [] else e + [c]
  }

  /** What `Ext` returns: a suffix of the path's final element that starts at
      its last '.', and "" exactly when the final element has no '.'. */
  lemma ExtMeaning(p: string)
    ensures Ext(p) != [] ==>
      |Ext(p)| <= |p| && Ext(p) == p[|p| - |Ext(p)|..] && Ext(p)[0] == '.' && '/' !in Ext(p) && '.' !in Ext(p)[1..]
    ensures Ext(p) == [] <==> '.' !in FinalElement(p)
  {
    ExtShape(p);
    ExtAbsent(p);
  }

  lemma {:induction false} ExtShape(p: string)
    ensures Ext(p) != [] ==>
      |Ext(p)| <= |p| && Ext(p) == p[|p| - |Ext(p)|..] && Ext(p)[0] == '.' && '/' !in Ext(p) && '.' !in Ext(p)[1..]
  {
    if p != [] {
      var c := p[|p| - 1];
      var q := p[..|p| - 1];
      if c == '.' {
        assert p[|p| - 1..] == ['.'];
      } else if c != '/' {
        ExtShape(q);
        var e := Ext(q);
        if e != [] {
          assert Ext(p) == e + [c];
          assert p == q + [c];
          assert p[|p| - |e| - 1..] == q[|q| - |e|..] + [c];
          assert (e + [c])[1..] == e[1..] + [c];
        }
      }
    }
  }

  lemma {:induction false} ExtAbsent(p: string)
    ensures Ext(p) == [] <==> '.' !in AfterLastSlash(p)
  {
    if p != [] {
      var c := p[|p| - 1];
      var q := p[..|p| - 1];
      if c != '/' {
        assert AfterLastSlash(p) == AfterLastSlash(q) + [c];
        if c != '.' {
          ExtAbsent(q);
        }
      }
    }
  }
}
