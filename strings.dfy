/**
 * String helpers with the semantics of the JavaScript string operations the
 * documentation search code is written with: `split` on one character,
 * `join`, `startsWith`, `indexOf`, `trim`, `slice` and the `\s` character
 * class. Strings are sequences of characters; lower-casing is ASCII only.
 */
module Strings {

  datatype Option<+T> = None | Some(value: T)

  /** ECMAScript WhiteSpace and LineTerminator: the `\s` class, and what `trim` removes. */
  predicate IsWhitespace(c: char) {
    || c == '\t' || c == '\n' || c == '\U{000B}' || c == '\U{000C}' || c == '\r'
    || c == ' ' || c == '\U{00A0}' || c == '\U{1680}'
    || ('\U{2000}' <= c <= '\U{200A}')
    || c == '\U{2028}' || c == '\U{2029}' || c == '\U{202F}' || c == '\U{205F}'
    || c == '\U{3000}' || c == '\U{FEFF}'
  }

  /** The characters a regular-expression `.` does not match. */
  predicate IsLineTerminator(c: char) {
    c == '\n' || c == '\r' || c == '\U{2028}' || c == '\U{2029}'
  }

  predicate IsUpper(c: char) { 'A' <= c <= 'Z' }

  function LowerChar(c: char): (d: char)
    ensures !IsUpper(d)
    ensures !IsUpper(c) ==> d == c
    ensures IsWhitespace(d) <==> IsWhitespace(c)
  {
    if IsUpper(c) then (c as int + 32) as char else c
  }

  /** `toLowerCase`, restricted to ASCII letters. */
  function Lower(s: string): (r: string)
    ensures |r| == |s|
    ensures forall i :: 0 <= i < |s| ==> r[i] == LowerChar(s[i])
  {
    seq(|s|, i requires 0 <= i < |s| => LowerChar(s[i]))
  }

  predicate IsBlank(s: string) {
    forall i :: 0 <= i < |s| ==> IsWhitespace(s[i])
  }

  predicate StartsWith(s: string, prefix: string) {
    |prefix| <= |s| && s[..|prefix|] == prefix
  }

  predicate EndsWith(s: string, suffix: string) {
    |suffix| <= |s| && s[|s| - |suffix|..] == suffix
  }

  predicate OccursAt(s: string, w: string, p: int) {
    0 <= p && p + |w| <= |s| && s[p..p + |w|] == w
  }

  /** `s.indexOf(w, from)`: the first position at or after `from` where `w` occurs, or -1. */
  function IndexFrom(s: string, w: string, from: nat): (r: int)
    ensures r == -1 || (from <= r && OccursAt(s, w, r))
    ensures forall q :: from <= q && (r == -1 || q < r) ==> !OccursAt(s, w, q)
    decreases |s| - from
  {
    if from + |w| > |s| then -1
    else if OccursAt(s, w, from) then from
    else IndexFrom(s, w, from + 1)
  }

  function IndexOf(s: string, w: string): int {
    IndexFrom(s, w, 0)
  }

  /** `s.split(c)` for a one-character separator: always at least one part. */
  function Split(s: string, c: char): (parts: seq<string>)
    ensures |parts| >= 1
    ensures forall k :: 0 <= k < |parts| ==> c !in parts[k]
  {
    if s == [] then [""]
    else
      var rest := Split(s[1..], c);
      if s[0] == c then [""] + rest
      else [[s[0]] + rest[0]] + rest[1..]
  }

  /** `parts.join(sep)`. */
  function Join(parts: seq<string>, sep: string): string {
    if |parts| == 0 then ""
    else if |parts| == 1 then parts[0]
    else parts[0] + sep + Join(parts[1..], sep)
  }

  lemma JoinFour(a: string, b: string, c: string, d: string, sep: string)
    ensures Join([a, b, c, d], sep) == a + sep + b + sep + c + sep + d
  {
    assert [a, b, c, d][1..] == [b, c, d];
    assert [b, c, d][1..] == [c, d];
    assert [c, d][1..] == [d];
    assert Join([c, d], sep) == c + sep + d;
    assert Join([b, c, d], sep) == b + sep + (c + sep + d);
    assert Join([a, b, c, d], sep) == a + sep + (b + sep + (c + sep + d));
  }

  /** A join ends with its last part. */
  lemma {:induction false} JoinEndsWithLast(parts: seq<string>, sep: string)
    requires |parts| >= 1
    ensures EndsWith(Join(parts, sep), parts[|parts| - 1])
  {
    if |parts| > 1 {
      JoinEndsWithLast(parts[1..], sep);
      var rest, last := Join(parts[1..], sep), parts[|parts| - 1];
      var whole := (parts[0] + sep) + rest;
      assert Join(parts, sep) == whole;
      assert whole[|whole| - |last|..] == rest[|rest| - |last|..];
    }
  }

  /** Splitting on a character and joining with it gives the string back. */
  lemma {:induction false} JoinSplit(s: string, c: char)
    ensures Join(Split(s, c), [c]) == s
  {
    if s != [] {
      JoinSplit(s[1..], c);
      var rest := Split(s[1..], c);
      if s[0] == c {
        assert Join([""] + rest, [c]) == "" + [c] + Join(rest, [c]);
      } else if |rest| == 1 {
        assert s == [s[0]] + s[1..];
      } else {
        var parts := [[s[0]] + rest[0]] + rest[1..];
        assert parts[1..] == rest[1..];
        assert Join(rest, [c]) == rest[0] + [c] + Join(rest[1..], [c]);
        assert s == [s[0]] + s[1..];
      }
    }
  }

  function Last<T>(s: seq<T>): T
    requires |s| > 0
  {
    s[|s| - 1]
  }

  /** `s.slice(start, end)`: negative positions count from the end, out-of-range ones are clamped. */
  function JsSlice(s: string, start: int, end: int): (r: string)
    ensures |r| <= |s|
    ensures 0 <= start <= end <= |s| ==> r == s[start..end]
    ensures 0 <= start && 0 <= end ==> r == s[Min(start, |s|)..Max(Min(start, |s|), Min(end, |s|))]
  {
    var from := if start < 0 then Max(|s| + start, 0) else Min(start, |s|);
    var to := if end < 0 then Max(|s| + end, 0) else Min(end, |s|);
    if from >= to then "" else s[from..to]
  }

  function Min(a: int, b: int): int { if a <= b then a else b }

  function Max(a: int, b: int): int { if a >= b then a else b }

  /** The first `n` characters, `s.slice(0, n)` for `n >= 0`. */
  function Take(s: string, n: nat): (r: string)
    ensures |r| == Min(n, |s|)
    ensures r == s[..|r|]
  {
    if n <= |s| then s[..n] else s
  }

  /** The first position from `i` on whose character does not satisfy `p`, or the length. */
  function SkipFrom(s: string, p: char -> bool, i: nat): (j: nat)
    requires i <= |s|
    ensures i <= j <= |s|
    ensures forall k :: i <= k < j ==> p(s[k])
    ensures j < |s| ==> !p(s[j])
    decreases |s| - i
  {
    if i < |s| && p(s[i]) then SkipFrom(s, p, i + 1) else i
  }

  /** The last position at or below `j` before which the character does not satisfy `p`, or 0. */
  function KeepTo(s: string, p: char -> bool, j: nat): (k: nat)
    requires j <= |s|
    ensures k <= j
    ensures forall i :: k <= i < j ==> p(s[i])
    ensures k > 0 ==> !p(s[k - 1])
  {
    if j > 0 && p(s[j - 1]) then KeepTo(s, p, j - 1) else j
  }

  /** The suffix of `s` left after dropping its leading characters that satisfy `p`. */
  function DropWhile(s: string, p: char -> bool): (r: string)
    ensures |r| <= |s|
    ensures r == s[|s| - |r|..]
    ensures r == [] || !p(r[0])
    ensures forall i :: 0 <= i < |s| - |r| ==> p(s[i])
    ensures s != [] && p(s[0]) ==> |r| < |s|
  {
    s[SkipFrom(s, p, 0)..]
  }

  /** `DropWhile` is the only suffix whose dropped prefix satisfies `p` throughout and which does not start with such a character. */
  lemma DropWhileUnique(s: string, p: char -> bool, r: string)
    requires |r| <= |s| && r == s[|s| - |r|..] && (r == [] || !p(r[0]))
    requires forall i :: 0 <= i < |s| - |r| ==> p(s[i])
    ensures r == DropWhile(s, p)
  {
  }

  /** The prefix of `s` left after dropping its trailing characters that satisfy `p`. */
  function DropLastWhile(s: string, p: char -> bool): (r: string)
    ensures |r| <= |s|
    ensures r == s[..|r|]
    ensures r == [] || !p(r[|r| - 1])
    ensures forall i :: |r| <= i < |s| ==> p(s[i])
  {
    s[..KeepTo(s, p, |s|)]
  }

  /**
   * Both ends of `s` stripped of characters satisfying `p`: what is left
   * starts where `DropWhile` stops and has no such character at either end;
   * nothing is left exactly when every character satisfies `p`.
   */
  function TrimWith(s: string, p: char -> bool): (r: string)
    ensures var d := |s| - |DropWhile(s, p)|; d + |r| <= |s| && r == s[d..d + |r|]
    ensures r == [] || (!p(r[0]) && !p(r[|r| - 1]))
    ensures r == [] <==> forall i :: 0 <= i < |s| ==> p(s[i])
  {
    var a, b := SkipFrom(s, p, 0), KeepTo(s, p, |s|);
    if b <= a then [] else s[a..b]
  }

  /** Trimming both ends is trimming the start, then the end. */
  lemma TrimWithStart(s: string, p: char -> bool)
    ensures TrimWith(s, p) == DropLastWhile(DropWhile(s, p), p)
  {
    var t := DropWhile(s, p);
    var a := SkipFrom(s, p, 0);
    var r := DropLastWhile(t, p);
    var b := KeepTo(s, p, |s|);
    if b > a {
      assert r == s[a..b];
    }
  }

  function TrimStart(s: string): string {
    DropWhile(s, IsWhitespace)
  }

  /** `s.trim()`, for the whitespace of `IsWhitespace`. */
  function Trim(s: string): string {
    TrimWith(s, IsWhitespace)
  }

  /** A string trims to nothing exactly when it is blank. */
  lemma TrimEmpty(s: string)
    ensures Trim(s) == [] <==> IsBlank(s)
  {
  }

  /** Splitting a string whose first part holds no separator keeps that part whole. */
  lemma {:induction false} SplitConcat(x: string, y: string, c: char)
    requires c !in x
    ensures Split(x + y, c) == [x + Split(y, c)[0]] + Split(y, c)[1..]
  {
    if x != [] {
      assert (x + y)[1..] == x[1..] + y;
      SplitConcat(x[1..], y, c);
      assert [x[0]] + (x[1..] + Split(y, c)[0]) == x + Split(y, c)[0];
    } else {
      assert x + y == y;
      assert x + Split(y, c)[0] == Split(y, c)[0];
    }
  }

  /** Joining parts that hold no separator and splitting again gives the parts back. */
  lemma {:induction false} SplitJoin(parts: seq<string>, c: char)
    requires |parts| >= 1
    requires forall k :: 0 <= k < |parts| ==> c !in parts[k]
    ensures Split(Join(parts, [c]), c) == parts
  {
    if |parts| == 1 {
      SplitConcat(parts[0], "", c);
      assert parts[0] + "" == parts[0];
    } else {
      var rest := Join(parts[1..], [c]);
      SplitJoin(parts[1..], c);
      assert Join(parts, [c]) == parts[0] + ([c] + rest);
      SplitConcat(parts[0], [c] + rest, c);
      assert ([c] + rest)[1..] == rest;
      var sp := Split([c] + rest, c);
      assert sp == [""] + Split(rest, c);
      assert sp[0] == "" && sp[1..] == parts[1..];
      assert parts[0] + sp[0] == parts[0];
      assert parts == [parts[0]] + parts[1..];
    }
  }

  /**
   * Concatenation regroups. Stated for any element type, it spares proofs
   * about sequences of strings or records the cost of their elements' equality.
   */
  lemma ConcatAssoc<T>(x: seq<T>, y: seq<T>, z: seq<T>)
    ensures x + (y + z) == (x + y) + z
  {
  }
}
