/** The java.lang.String, java.util.regex and java.nio.file.Path behaviour the
    core relies on, written out: splitting on a literal delimiter (String.split
    and Pattern.split with limit 0), Integer.parseInt and Integer.toString,
    String.trim, String.endsWith, String.lastIndexOf, and the names of a Unix
    path. Java's int and long ranges are stated as constants. */
module JavaStrings {
  import opened Wrappers

  const MinInt: int := -0x8000_0000
  const MaxInt: int := 0x7fff_ffff
  const MinLong: int := -0x8000_0000_0000_0000
  const MaxLong: int := 0x7fff_ffff_ffff_ffff

  /** String.endsWith */
  predicate EndsWith(s: string, suffix: string) {
    |suffix| <= |s| && s[|s| - |suffix|..] == suffix
  }

  // ---------------------------------------------------------------------
  // Splitting on a literal delimiter
  // ---------------------------------------------------------------------

  /** The pieces of s between the leftmost non-overlapping occurrences of the
      delimiter d, empty pieces included. */
  function Split(s: string, d: string): (pieces: seq<string>)
    requires d != ""
    ensures |pieces| >= 1
    decreases |s|
  {
    if |s| < |d| then [s]
    else if s[..|d|] == d then [""] + Split(s[|d|..], d)
    else
      var rest := Split(s[1..], d);
      [[s[0]] + rest[0]] + rest[1..]
  }

  /** The pieces glued back together with the delimiter between them. */
  function Join(pieces: seq<string>, d: string): string
    requires |pieces| >= 1
    decreases |pieces|
  {
    if |pieces| == 1 then pieces[0] else pieces[0] + d + Join(pieces[1..], d)
  }

  /** Splitting loses nothing: joining the pieces with the delimiter gives
      back the original string. */
  lemma {:induction false} JoinSplit(s: string, d: string)
    requires d != ""
    ensures Join(Split(s, d), d) == s
    decreases |s|
  {
    if |s| < |d| {
    } else if s[..|d|] == d {
      var rest := Split(s[|d|..], d);
      JoinSplit(s[|d|..], d);
      JoinAfterDelimiter(rest, d);
      assert s == s[..|d|] + s[|d|..];
    } else {
      var rest := Split(s[1..], d);
      JoinSplit(s[1..], d);
      JoinAfterChar(s[0], rest, d);
      assert s == [s[0]] + s[1..];
    }
  }

  lemma JoinAfterDelimiter(rest: seq<string>, d: string)
    requires |rest| >= 1
    ensures Join([""] + rest, d) == d + Join(rest, d)
  {
    assert ([""] + rest)[1..] == rest;
  }

  lemma JoinAfterChar(c: char, rest: seq<string>, d: string)
    requires |rest| >= 1
    ensures Join([[c] + rest[0]] + rest[1..], d) == [c] + Join(rest, d)
  {
    var pieces := [[c] + rest[0]] + rest[1..];
    if |rest| > 1 {
      assert pieces[1..] == rest[1..];
    }
  }

  /** d occurs in s at position i. */
  predicate OccursAt(s: string, d: string, i: int) {
    0 <= i && i + |d| <= |s| && s[i..i + |d|] == d
  }

  /** d occurs somewhere in s. */
  ghost predicate Occurs(s: string, d: string) {
    exists i :: OccursAt(s, d, i)
  }

  /** The pieces are cut at every occurrence: no piece contains the
      delimiter, and the first piece is where s starts. */
  lemma {:induction false} NoPieceHoldsDelimiter(s: string, d: string)
    requires d != ""
    ensures forall i :: 0 <= i < |Split(s, d)| ==> !Occurs(Split(s, d)[i], d)
    ensures Split(s, d)[0] <= s
    decreases |s|
  {
    if |s| < |d| {
      assert Split(s, d) == [s];
    } else if s[..|d|] == d {
      NoPieceHoldsDelimiter(s[|d|..], d);
      var pieces := Split(s, d);
      assert pieces == [""] + Split(s[|d|..], d);
      forall i | 0 <= i < |pieces|
        ensures !Occurs(pieces[i], d)
      {
        if i > 0 {
          assert pieces[i] == Split(s[|d|..], d)[i - 1];
        }
      }
    } else {
      var rest := Split(s[1..], d);
      NoPieceHoldsDelimiter(s[1..], d);
      var first := [s[0]] + rest[0];
      var pieces := Split(s, d);
      assert pieces == [first] + rest[1..];
      assert s == [s[0]] + s[1..];
      assert first <= s;
      FirstPieceFree(s, d, rest[0]);
      forall i | 0 <= i < |pieces|
        ensures !Occurs(pieces[i], d)
      {
        if i > 0 {
          assert pieces[i] == rest[i];
        }
      }
    }
  }

  /** A prefix [s[0]] + r of s, where d is not at the start of s and not
      inside r, holds no d. */
  lemma FirstPieceFree(s: string, d: string, r: string)
    requires d != "" && |d| <= |s| && s[..|d|] != d
    requires [s[0]] + r <= s
    requires !Occurs(r, d)
    ensures !Occurs([s[0]] + r, d)
  {
    var first := [s[0]] + r;
    forall i | 0 <= i && i + |d| <= |first|
      ensures !OccursAt(first, d, i)
    {
      if i == 0 {
        assert first[..|d|] == s[..|d|];
      } else {
        assert first[i..i + |d|] == r[i - 1..i - 1 + |d|];
        assert !OccursAt(r, d, i - 1);
      }
    }
  }

  /** Split gives more than one piece exactly when the delimiter occurs. */
  lemma SplitWhole(s: string, d: string)
    requires d != ""
    ensures |Split(s, d)| == 1 <==> !Occurs(s, d)
  {
    var pieces := Split(s, d);
    JoinSplit(s, d);
    NoPieceHoldsDelimiter(s, d);
    if |pieces| > 1 {
      var p := pieces[0];
      assert s == p + d + Join(pieces[1..], d);
      assert s[|p|..|p| + |d|] == d;
      assert OccursAt(s, d, |p|);
    } else {
      assert s == pieces[0];
    }
  }

  /** The pieces without the empty ones at the end. */
  function StripTrailingEmpty(pieces: seq<string>): (r: seq<string>)
    ensures |r| <= |pieces| && r == pieces[..|r|]
    ensures forall i :: |r| <= i < |pieces| ==> pieces[i] == ""
    ensures r == [] || r[|r| - 1] != ""
    decreases |pieces|
  {
    if pieces == [] || pieces[|pieces| - 1] != "" then pieces
    else StripTrailingEmpty(pieces[..|pieces| - 1])
  }

  /** String.split(regex) and Pattern.split(input) for a pattern that matches
      exactly the literal d: without an occurrence of d the result is [s];
      otherwise the pieces, trailing empty pieces removed. */
  function JavaSplit(s: string, d: string): seq<string>
    requires d != ""
  {
    var pieces := Split(s, d);
    if |pieces| == 1 then pieces else StripTrailingEmpty(pieces)
  }

  /** What the Java split keeps: a prefix of the pieces, dropping only empty
      ones; the whole input when the delimiter does not occur in it, and
      otherwise the pieces without their trailing empty ones. */
  lemma JavaSplitKeepsPrefix(s: string, d: string)
    requires d != ""
    ensures var pieces, r := Split(s, d), JavaSplit(s, d);
      && r == pieces[..|r|]
      && (forall i :: |r| <= i < |pieces| ==> pieces[i] == "")
      && (!Occurs(s, d) ==> r == [s])
      && (Occurs(s, d) ==> r == StripTrailingEmpty(pieces))
  {
    JoinSplit(s, d);
    SplitWhole(s, d);
  }

  // ---------------------------------------------------------------------
  // Integer.parseInt and Integer.toString (radix 10)
  // ---------------------------------------------------------------------

  predicate IsDigit(c: char) {
    '0' <= c <= '9'
  }

  predicate AllDigits(s: string) {
    forall i :: 0 <= i < |s| ==> IsDigit(s[i])
  }

  function DigitValue(c: char): nat
    requires IsDigit(c)
  {
    c as int - '0' as int
  }

  function DigitChar(d: nat): char
    requires d < 10
  {
    ('0' as int + d) as char
  }

  /** The value of a decimal numeral. */
  function DigitsValue(s: string): nat
    requires AllDigits(s)
    decreases |s|
  {
    if s == [] then 0 else DigitsValue(s[..|s| - 1]) * 10 + DigitValue(s[|s| - 1])
  }

  /** Integer.parseInt(s): an optional sign, at least one digit, and a value
      in int's range; anything else is a NumberFormatException (None). */
  function ParseInt(s: string): (r: Option<int>)
    ensures r.Some? ==> MinInt <= r.value <= MaxInt
  {
    var negative := |s| > 0 && s[0] == '-';
    var digits := if |s| > 0 && (s[0] == '-' || s[0] == '+') then s[1..] else s;
    if digits == [] || !AllDigits(digits) then None
    else
      var value := if negative then -(DigitsValue(digits) as int) else DigitsValue(digits);
      if MinInt <= value <= MaxInt then Some(value) else None
  }

  /** The shortest decimal numeral of n. */
  function NatToDigits(n: nat): (ds: string)
    ensures |ds| >= 1 && AllDigits(ds)
    decreases n
  {
    if n < 10 then [DigitChar(n)] else NatToDigits(n / 10) + [DigitChar(n % 10)]
  }

  /** Integer.toString(n) */
  function IntToString(n: int): string {
    if n < 0 then "-" + NatToDigits(-n) else NatToDigits(n)
  }

  lemma {:induction false} DigitsRoundTrip(n: nat)
    ensures DigitsValue(NatToDigits(n)) == n
    decreases n
  {
    var ds := NatToDigits(n);
    if n < 10 {
      assert ds[..0] == [];
    } else {
      DigitsRoundTrip(n / 10);
      assert ds[..|ds| - 1] == NatToDigits(n / 10);
    }
  }

  /** Integer.parseInt reads back what Integer.toString writes, for every
      int. */
  lemma ParseIntToString(n: int)
    requires MinInt <= n <= MaxInt
    ensures ParseInt(IntToString(n)) == Some(n)
  {
    var s := IntToString(n);
    if n < 0 {
      DigitsRoundTrip(-n);
      assert s[1..] == NatToDigits(-n);
    } else {
      DigitsRoundTrip(n);
      assert IsDigit(s[0]);
    }
  }

  // ---------------------------------------------------------------------
  // String.trim
  // ---------------------------------------------------------------------

  /** The characters String.trim removes: code points up to the space. */
  predicate IsTrimmable(c: char) {
    c <= ' '
  }

  function TrimStart(s: string): (r: string)
    ensures |r| <= |s| && r == s[|s| - |r|..]
    ensures forall i :: 0 <= i < |s| - |r| ==> IsTrimmable(s[i])
    ensures r == [] || !IsTrimmable(r[0])
    decreases |s|
  {
    if s != [] && IsTrimmable(s[0]) then TrimStart(s[1..]) else s
  }

  function TrimEnd(s: string): (r: string)
    ensures |r| <= |s| && r == s[..|r|]
    ensures forall i :: |r| <= i < |s| ==> IsTrimmable(s[i])
    ensures r == [] || !IsTrimmable(r[|r| - 1])
    decreases |s|
  {
    if s != [] && IsTrimmable(s[|s| - 1]) then TrimEnd(s[..|s| - 1]) else s
  }

  /** String.trim */
  function Trim(s: string): string {
    TrimEnd(TrimStart(s))
  }

  /** Trim keeps a contiguous middle part of s, removes only trimmable
      characters around it, and leaves nothing trimmable at either end. */
  lemma TrimKeepsMiddle(s: string)
    ensures var r, lead := Trim(s), |s| - |TrimStart(s)|;
      && lead + |r| <= |s|
      && r == s[lead..lead + |r|]
      && (forall i :: 0 <= i < lead ==> IsTrimmable(s[i]))
      && (forall i :: lead + |r| <= i < |s| ==> IsTrimmable(s[i]))
      && (r == [] || (!IsTrimmable(r[0]) && !IsTrimmable(r[|r| - 1])))
  {
    var t := TrimStart(s);
    var r := TrimEnd(t);
    var lead := |s| - |t|;
    assert Trim(s) == r;
    PrefixOfSuffix(s, lead, r);
    if t != [] {
      TrimEndKeepsFirst(t);
    }
  }

  /** A prefix r of s[lead..] whose rest is trimmable sits at lead in s, and
      everything after it in s is trimmable. */
  lemma PrefixOfSuffix(s: string, lead: nat, r: string)
    requires lead <= |s| && |r| <= |s| - lead && r == s[lead..][..|r|]
    requires forall i :: |r| <= i < |s| - lead ==> IsTrimmable(s[lead..][i])
    ensures r == s[lead..lead + |r|]
    ensures forall i :: lead + |r| <= i < |s| ==> IsTrimmable(s[i])
  {
    forall i | lead + |r| <= i < |s|
      ensures IsTrimmable(s[i])
    {
      assert s[i] == s[lead..][i - lead];
    }
  }

  /** A string that starts with a character trim keeps still starts with it
      after TrimEnd. */
  lemma TrimEndKeepsFirst(t: string)
    requires t != [] && !IsTrimmable(t[0])
    ensures TrimEnd(t) != [] && TrimEnd(t)[0] == t[0]
  {
  }

  /** Trimming twice is trimming once. */
  lemma TrimIdempotent(s: string)
    ensures Trim(Trim(s)) == Trim(s)
  {
    TrimKeepsMiddle(s);
    var r := Trim(s);
    assert TrimStart(r) == r;
    assert TrimEnd(r) == r;
  }

  // ---------------------------------------------------------------------
  // String.lastIndexOf and java.nio.file.Path names
  // ---------------------------------------------------------------------

  /** String.lastIndexOf(c): the last position of c, or -1. */
  function LastIndexOf(s: string, c: char): (r: int)
    ensures -1 <= r < |s|
    ensures r >= 0 ==> s[r] == c
    ensures forall i :: r < i < |s| ==> s[i] != c
    decreases |s|
  {
    if s == [] then -1
    else if s[|s| - 1] == c then |s| - 1
    else LastIndexOf(s[..|s| - 1], c)
  }

  /** The names of a '/'-separated path as Paths.get sees them on a Unix file
      system: redundant and trailing slashes give no name. */
  function PathNames(path: string): seq<string>
    decreases |path|
  {
    var k := LastIndexOf(path, '/');
    if k < 0 then (if path == "" then [] else [path])
    else PathNames(path[..k]) + (if k + 1 == |path| then [] else [path[k + 1..]])
  }

  /** Path.getFileName(): the last name, or null for a path without names. */
  function FileName(path: string): Option<string> {
    var names := PathNames(path);
    if names == [] then None else Some(names[|names| - 1])
  }

  /** Path.getName(i), which throws IllegalArgumentException past the last
      name. */
  function GetName(path: string, i: nat): Option<string> {
    var names := PathNames(path);
    if i < |names| then Some(names[i]) else None
  }

  /** A name ending in ".htm" has a file name that ends in ".htm", so the file
      name holds a '.'. */
  lemma HtmFileName(name: string)
    requires EndsWith(name, ".htm")
    ensures FileName(name).Some?
    ensures EndsWith(FileName(name).value, ".htm")
    ensures LastIndexOf(FileName(name).value, '.') >= |FileName(name).value| - 4
  {
    var k := LastIndexOf(name, '/');
    assert name[|name| - 4..] == ".htm";
    assert k < |name| - 4;
    var last := name[k + 1..];
    assert last[|last| - 4..] == ".htm";
    assert last != "";
    assert FileName(name) == Some(last);
    assert last[|last| - 4] == '.';
  }
}
