/**
 * The signup validators of backend/routes/auth.js: the email-shape regular expression
 * `/\S+@\S+\.\S+/`, the minimum password length, and `Array.prototype.join`, which
 * formats the list of missing fields.
 */
module Validation {
  import opened Options

  // ---------------------------------------------------------------------------
  // The email-shape test

  /** A character of the JavaScript regular-expression class `\s` (WhiteSpace and LineTerminator). */
  predicate IsSpace(c: char) {
    var n := c as int;
    (9 <= n <= 13) || n == 0x20 || n == 0xA0 || n == 0x1680 || (0x2000 <= n <= 0x200A) ||
    n == 0x2028 || n == 0x2029 || n == 0x202F || n == 0x205F || n == 0x3000 || n == 0xFEFF
  }

  /** Every character belongs to `\S`. */
  predicate NoSpace(t: string) {
    forall i :: 0 <= i < |t| ==> !IsSpace(t[i])
  }

  /** `t` is `X@Y.Z` with the `@` at `i` and the `.` at `j`, and `X`, `Y`, `Z` non-empty runs of `\S`. */
  predicate FitsAt(t: string, i: int, j: int) {
    0 < i && i + 1 < j && j + 1 < |t| && t[i] == '@' && t[j] == '.' &&
    NoSpace(t[..i]) && NoSpace(t[i + 1..j]) && NoSpace(t[j + 1..])
  }

  /** The whole of `t` fits the pattern (the runs may contain `@` and `.`). */
  ghost predicate PatternFits(t: string) {
    exists i, j :: FitsAt(t, i, j)
  }

  /** `regex.test(s)` for an unanchored pattern: some substring of `s` fits the pattern. */
  ghost predicate RegexMatches(s: string) {
    exists a, e :: 0 <= a <= e <= |s| && PatternFits(s[a..e])
  }

  /** A shortest match: one `\S` before an `@` at `b`, a `\S` run up to a `.` at `c`, one `\S` after it. */
  predicate ShortMatchAt(s: string, b: int, c: int) {
    0 < b && b + 2 <= c && c + 1 < |s| &&
    !IsSpace(s[b - 1]) && s[b] == '@' && NoSpace(s[b + 1..c]) && s[c] == '.' && !IsSpace(s[c + 1])
  }

  /** The test as a scan for a shortest match. */
  predicate IsEmailShaped(s: string) {
    exists b, c | 0 < b < |s| && 0 < c < |s| :: ShortMatchAt(s, b, c)
  }

  lemma SliceOfSlice(s: string, a: int, e: int, i: int, j: int)
    requires 0 <= a <= e <= |s| && 0 <= i <= j <= e - a
    ensures s[a..e][i..j] == s[a + i..a + j]
  {
    var l, r := s[a..e][i..j], s[a + i..a + j];
    assert |l| == |r|;
    forall k | 0 <= k < |l| ensures l[k] == r[k] {
      assert l[k] == s[a..e][i + k];
    }
  }

  lemma ShortMatchFits(s: string, b: int, c: int)
    requires ShortMatchAt(s, b, c)
    ensures RegexMatches(s)
  {
    var a, e := b - 1, c + 2;
    var t := s[a..e];
    assert t[..1] == [s[b - 1]];
    SliceOfSlice(s, a, e, 2, c - a);
    assert t[c - a + 1..] == [s[c + 1]];
    assert FitsAt(t, 1, c - a);
  }

  lemma FitsShortMatch(s: string, a: int, e: int, i: int, j: int)
    requires 0 <= a <= e <= |s| && FitsAt(s[a..e], i, j)
    ensures ShortMatchAt(s, a + i, a + j)
  {
    var t := s[a..e];
    assert s[a + i - 1] == t[..i][i - 1];
    SliceOfSlice(s, a, e, i + 1, j);
    assert s[a + j + 1] == t[j + 1..][0];
  }

  /** The scan accepts exactly the strings the regular expression matches. */
  lemma EmailShapeIsRegexMatch(s: string)
    ensures IsEmailShaped(s) <==> RegexMatches(s)
  {
    if IsEmailShaped(s) {
      var b, c :| 0 < b < |s| && 0 < c < |s| && ShortMatchAt(s, b, c);
      ShortMatchFits(s, b, c);
    }
    if RegexMatches(s) {
      var a, e :| 0 <= a <= e <= |s| && PatternFits(s[a..e]);
      var i, j :| FitsAt(s[a..e], i, j);
      FitsShortMatch(s, a, e, i, j);
    }
  }

  /** The test is unanchored: text before and after an accepted string does not change the verdict. */
  lemma EmailShapeUnanchored(p: string, s: string, q: string)
    requires IsEmailShaped(s)
    ensures IsEmailShaped(p + s + q)
  {
    var b, c :| 0 < b < |s| && 0 < c < |s| && ShortMatchAt(s, b, c);
    var w := p + s + q;
    assert w[|p| + b - 1] == s[b - 1] && w[|p| + b] == s[b];
    assert w[|p| + c] == s[c] && w[|p| + c + 1] == s[c + 1];
    assert w[|p| + b + 1..|p| + c] == s[b + 1..c];
    assert ShortMatchAt(w, |p| + b, |p| + c);
  }

  // ---------------------------------------------------------------------------
  // The password length

  /** `password.length < 6` compares the length in UTF-16 code units. */
  const MinPasswordLength: nat := 6

  /** Code units of one character: two for a character outside the Basic Multilingual Plane. */
  function CodeUnits(c: char): nat {
    if c as int < 0x1_0000 then 1 else 2
  }

  /** JavaScript's `length` of a string. */
  function Utf16Length(s: string): (n: nat)
    ensures |s| <= n <= 2 * |s|
  {
    if s == [] then 0 else CodeUnits(s[0]) + Utf16Length(s[1..])
  }

  predicate InBmp(s: string) {
    forall i :: 0 <= i < |s| ==> s[i] as int < 0x1_0000
  }

  lemma {:induction false} BmpUtf16Length(s: string)
    requires InBmp(s)
    ensures Utf16Length(s) == |s|
  {
    if s != [] {
      assert InBmp(s[1..]) by {
        forall i | 0 <= i < |s[1..]| ensures s[1..][i] as int < 0x1_0000 {
          assert s[1..][i] == s[i + 1];
        }
      }
      BmpUtf16Length(s[1..]);
    }
  }

  predicate PasswordTooShort(p: string) {
    Utf16Length(p) < MinPasswordLength
  }

  /** For passwords of ordinary characters the limit is inclusive: six pass, five are refused. */
  lemma PasswordLengthBoundary(p: string)
    requires InBmp(p)
    ensures PasswordTooShort(p) <==> |p| < 6
  {
    BmpUtf16Length(p);
  }

  // ---------------------------------------------------------------------------
  // Joining the names of the missing fields

  /** `parts.join(sep)`. */
  function Join(parts: seq<string>, sep: string): string {
    if |parts| == 0 then ""
    else if |parts| == 1 then parts[0]
    else parts[0] + sep + Join(parts[1..], sep)
  }

  /** The first position of `c` in `s`. */
  function IndexOfChar(s: string, c: char): (r: Option<nat>)
    ensures r.None? <==> c !in s
    ensures r.Some? ==> r.value < |s| && s[r.value] == c && c !in s[..r.value]
  {
    if s == [] then None
    else if s[0] == c then Some(0)
    else match IndexOfChar(s[1..], c)
      case None => None
      case Some(i) =>
        assert s[..i + 1] == [s[0]] + s[1..][..i];
        Some(i + 1)
  }

  /** Reads a `", "`-separated list back into its items. */
  function SplitList(s: string): seq<string>
    decreases |s|
  {
    match IndexOfChar(s, ',')
    case None => [s]
    case Some(i) => [s[..i]] + SplitList(s[if i + 2 <= |s| then i + 2 else |s|..])
  }

  /** A non-empty list of comma-free items is recovered from its `", "` join. */
  lemma {:induction false} SplitJoin(parts: seq<string>)
    requires |parts| >= 1
    requires forall k :: 0 <= k < |parts| ==> ',' !in parts[k]
    ensures SplitList(Join(parts, ", ")) == parts
  {
    if |parts| > 1 {
      var p0, rest := parts[0], Join(parts[1..], ", ");
      var s := p0 + ", " + rest;
      assert Join(parts, ", ") == s;
      var r := IndexOfChar(s, ',');
      assert s[|p0|] == ',';
      assert s[..|p0|] == p0;
      assert r.Some? && r.value == |p0|;
      assert s[|p0| + 2..] == rest;
      SplitJoin(parts[1..]);
    }
  }
}
