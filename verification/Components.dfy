/** Names, path separators, and what it means to split a path into its names.

    REDCONF_NAME_MAX and REDCONF_PATH_SEPARATOR are symbolic, with only the
    constraints of include/redconfigchk.h. */
module Components {

  type NameLimit = n: nat | 1 <= n witness 1
  const NAME_MAX: NameLimit

  const NUL: char := '\0'
  type SeparatorChar = c: char | c != '\0' && c != '.' witness '/'
  const SEPARATOR: SeparatorChar

  type Name = seq<char>

  /** A C string read one past its contents yields the terminating NUL. */
  function At(s: seq<char>, i: nat): char {
    if i < |s| then s[i] else NUL
  }

  predicate EndsName(c: char) {
    c == NUL || c == SEPARATOR
  }

  /** A name as a directory may hold it: no terminator inside. */
  ghost predicate Terminatorless(name: Name) {
    forall i | 0 <= i < |name| :: !EndsName(name[i])
  }

  predicate IsDot(name: Name) {
    name == "."
  }

  predicate IsDotDot(name: Name) {
    name == ".."
  }

  predicate IsDots(name: Name) {
    IsDot(name) || IsDotDot(name)
  }

  /** A name that a directory may hold. */
  ghost predicate ProperName(name: Name) {
    1 <= |name| <= NAME_MAX && Terminatorless(name) && !IsDots(name)
  }

  /** The text of a C string: everything before its first NUL. */
  function Text(s: seq<char>): (t: seq<char>)
    ensures t <= s && NUL !in t
    ensures |t| < |s| ==> s[|t|] == NUL
  {
    if s == [] || s[0] == NUL then [] else [s[0]] + Text(s[1..])
  }

  /** The first position at or after `i` that is not a separator. */
  function SkipSeparators(s: seq<char>, i: nat): (j: nat)
    requires i <= |s|
    ensures i <= j <= |s|
    ensures forall k | i <= k < j :: s[k] == SEPARATOR
    ensures j < |s| ==> s[j] != SEPARATOR
    decreases |s| - i
  {
    if i < |s| && s[i] == SEPARATOR then SkipSeparators(s, i + 1) else i
  }

  /** The first position at or after `i` that ends a name. */
  function NameEnd(s: seq<char>, i: nat): (j: nat)
    requires i <= |s|
    ensures i <= j <= |s|
    ensures forall k | i <= k < j :: !EndsName(s[k])
    ensures j < |s| ==> EndsName(s[j])
    decreases |s| - i
  {
    if i < |s| && !EndsName(s[i]) then NameEnd(s, i + 1) else i
  }

  lemma SkipSeparatorsIs(s: seq<char>, i: nat, j: nat)
    requires i <= j <= |s|
    requires forall k | i <= k < j :: s[k] == SEPARATOR
    requires j < |s| ==> s[j] != SEPARATOR
    ensures SkipSeparators(s, i) == j
  {
  }

  lemma SkipThrough(s: seq<char>, i: nat, j: nat)
    requires i <= j <= |s|
    requires forall k | i <= k < j :: s[k] == SEPARATOR
    ensures SkipSeparators(s, i) == SkipSeparators(s, j)
  {
    SkipSeparatorsIs(s, i, SkipSeparators(s, j));
  }

  lemma NameEndIs(s: seq<char>, i: nat, j: nat)
    requires i <= j <= |s|
    requires forall k | i <= k < j :: !EndsName(s[k])
    requires j < |s| ==> EndsName(s[j])
    ensures NameEnd(s, i) == j
  {
  }

  /** The names of a path from position `i` on: its non-empty, separator-split
      pieces.  Only used on strings without NUL. */
  function NamesFrom(s: seq<char>, i: nat): (names: seq<Name>)
    requires i <= |s| && NUL !in s
    decreases |s| - i
  {
    var start := SkipSeparators(s, i);
    if start == |s| then
      []
    else
      var end := NameEnd(s, start);
      [s[start..end]] + NamesFrom(s, end)
  }

  function Names(s: seq<char>): seq<Name>
    requires NUL !in s
  {
    NamesFrom(s, 0)
  }

  /** Every name is non-empty and holds no terminator. */
  lemma {:induction false} NamesAreProper(s: seq<char>, i: nat)
    requires i <= |s| && NUL !in s
    ensures forall name | name in NamesFrom(s, i) :: name != [] && Terminatorless(name)
    decreases |s| - i
  {
    var start := SkipSeparators(s, i);
    if start < |s| {
      NamesAreProper(s, NameEnd(s, start));
    }
  }

  /** The names from a position depend only on what follows it. */
  lemma {:induction false} NamesOfSuffix(s: seq<char>, i: nat, t: seq<char>, j: nat)
    requires i <= |s| && j <= |t| && NUL !in s && NUL !in t
    requires s[i..] == t[j..]
    ensures NamesFrom(s, i) == NamesFrom(t, j)
    decreases |s| - i
  {
    hide SkipSeparators, NameEnd;
    var start := SkipSeparators(s, i);
    var start' := SkipSeparators(t, j);
    ShiftSkip(s, i, t, j);
    if start < |s| {
      ShiftName(s, start, t, start');
      var end, end' := NameEnd(s, start), NameEnd(t, start');
      assert s[start..end] == s[start..][..end - start] == t[start'..][..end - start] == t[start'..end'];
      NamesOfSuffix(s, end, t, end');
    }
  }

  lemma ShiftSkip(s: seq<char>, i: nat, t: seq<char>, j: nat)
    requires i <= |s| && j <= |t| && s[i..] == t[j..]
    ensures SkipSeparators(s, i) - i == SkipSeparators(t, j) - j
    ensures s[SkipSeparators(s, i)..] == t[SkipSeparators(t, j)..]
  {
    var n := SkipSeparators(s, i) - i;
    assert |s[i..]| == |t[j..]|;
    forall k | j <= k < j + n
      ensures t[k] == SEPARATOR
    {
      assert t[k] == t[j..][k - j] == s[i..][k - j] == s[i + k - j];
    }
    if j + n < |t| {
      assert t[j + n] == t[j..][n] == s[i..][n] == s[i + n];
    }
    SkipSeparatorsIs(t, j, j + n);
    assert s[i + n..] == s[i..][n..] == t[j..][n..] == t[j + n..];
  }

  lemma ShiftName(s: seq<char>, i: nat, t: seq<char>, j: nat)
    requires i <= |s| && j <= |t| && s[i..] == t[j..]
    ensures NameEnd(s, i) - i == NameEnd(t, j) - j
    ensures s[NameEnd(s, i)..] == t[NameEnd(t, j)..]
  {
    var n := NameEnd(s, i) - i;
    assert |s[i..]| == |t[j..]|;
    forall k | j <= k < j + n
      ensures !EndsName(t[k])
    {
      assert t[k] == t[j..][k - j] == s[i..][k - j] == s[i + k - j];
    }
    if j + n < |t| {
      assert t[j + n] == t[j..][n] == s[i..][n] == s[i + n];
    }
    NameEndIs(t, j, j + n);
    assert s[i + n..] == s[i..][n..] == t[j..][n..] == t[j + n..];
  }

  /** Splitting is compositional: a separator always cuts, and cuts cleanly.
      With `NamesOfName` this determines `Names` on every string. */
  lemma {:induction false} NamesOfJoin(a: seq<char>, b: seq<char>)
    requires NUL !in a && NUL !in b
    ensures NUL !in a + [SEPARATOR] + b
    ensures Names(a + [SEPARATOR] + b) == Names(a) + Names(b)
  {
    NamesOfJoinFrom(a, b, 0);
  }

  lemma {:induction false} NamesOfJoinFrom(a: seq<char>, b: seq<char>, i: nat)
    requires i <= |a| && NUL !in a && NUL !in b && NUL !in a + [SEPARATOR] + b
    ensures NamesFrom(a + [SEPARATOR] + b, i) == NamesFrom(a, i) + Names(b)
    decreases |a| - i
  {
    var start := SkipSeparators(a, i);
    if start == |a| {
      NamesAfterCut(a, b, i);
    } else {
      var whole := a + [SEPARATOR] + b;
      var end := NameEnd(a, start);
      SkipSeparatorsIs(whole, i, start);
      NameEndIs(whole, start, end);
      assert whole[start..end] == a[start..end];
      NamesOfJoinFrom(a, b, end);
    }
  }

  lemma NamesAfterCut(a: seq<char>, b: seq<char>, i: nat)
    requires i <= |a| && NUL !in b && NUL !in a + [SEPARATOR] + b
    requires SkipSeparators(a, i) == |a|
    ensures NamesFrom(a + [SEPARATOR] + b, i) == Names(b)
  {
    var prefix := a + [SEPARATOR];
    var whole := prefix + b;
    assert whole[..|prefix|] == prefix;
    forall k | i <= k < |prefix|
      ensures whole[k] == SEPARATOR
    {
      assert whole[k] == prefix[k];
    }
    SkipThrough(whole, i, |prefix|);
    assert whole[|prefix|..] == b == b[0..];
    NamesOfSuffix(whole, |prefix|, b, 0);
  }

  lemma NamesOfName(name: Name)
    requires name != [] && Terminatorless(name)
    ensures NUL !in name
    ensures Names(name) == [name]
  {
    assert forall i | 0 <= i < |name| :: name[i] != NUL by {
      assert forall i | 0 <= i < |name| :: !EndsName(name[i]);
    }
    SkipSeparatorsIs(name, 0, 0);
    NameEndIs(name, 0, |name|);
    SkipSeparatorsIs(name, |name|, |name|);
    assert name[0..|name|] == name;
    assert NamesFrom(name, |name|) == [];
  }

  /** How IsDot() and IsDotDot() of posix/path.c compare the name at `at`. */
  predicate DotAt(s: seq<char>, at: nat) {
    At(s, at) == '.' && EndsName(At(s, at + 1))
  }

  predicate DotDotAt(s: seq<char>, at: nat) {
    At(s, at) == '.' && At(s, at + 1) == '.' && EndsName(At(s, at + 2))
  }

  lemma DotNames(s: seq<char>, at: nat)
    requires at <= |s|
    ensures DotAt(s, at) <==> s[at..NameEnd(s, at)] == "."
    ensures DotDotAt(s, at) <==> s[at..NameEnd(s, at)] == ".."
  {
    var end := NameEnd(s, at);
    if DotAt(s, at) {
      NameEndIs(s, at, at + 1);
    }
    if DotDotAt(s, at) {
      NameEndIs(s, at, at + 2);
    }
    if s[at..end] == "." {
      assert s[at] == s[at..end][0];
    }
    if s[at..end] == ".." {
      assert s[at] == s[at..end][0] && s[at + 1] == s[at..end][1];
    }
  }

  /** Whether RedStrNCmp() of the characters from `i` to `n` yields zero. */
  predicate SameUpTo(a: seq<char>, b: seq<char>, i: nat, n: nat)
    requires i <= n
    decreases n - i
  {
    i == n || (At(a, i) == At(b, i) && (At(a, i) == NUL || SameUpTo(a, b, i + 1, n)))
  }

  lemma {:induction false} SameUpToIs(a: seq<char>, b: seq<char>, i: nat, n: nat)
    requires i <= n <= |a| && n <= |b| && NUL !in b[..n]
    ensures SameUpTo(a, b, i, n) <==> a[i..n] == b[i..n]
    decreases n - i
  {
    if i < n {
      SameUpToIs(a, b, i + 1, n);
      assert a[i..n] == [a[i]] + a[i + 1..n] && b[i..n] == [b[i]] + b[i + 1..n];
      assert b[i] == b[..n][i];
    }
  }
}
