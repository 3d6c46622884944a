/**
 * The JavaScript string operations the script relies on, written out:
 * `String.prototype.split` by a separator character (or a character class),
 * `Array.prototype.join`, `String.prototype.trim`, `String.prototype.includes`
 * and the decimal rendering of a non-negative integer in a template literal.
 */
module Text {

  /** The characters `String.prototype.trim` removes: ECMAScript WhiteSpace and LineTerminator. */
  predicate IsWhitespace(c: char) {
    || c == '\t' || c == '\n' || c == '\U{B}' || c == '\U{C}' || c == '\r' || c == ' '
    || c == '\U{A0}' || c == '\U{1680}' || ('\U{2000}' <= c <= '\U{200A}')
    || c == '\U{2028}' || c == '\U{2029}' || c == '\U{202F}' || c == '\U{205F}'
    || c == '\U{3000}' || c == '\U{FEFF}'
  }

  predicate AllWhitespace(s: string) {
    forall k :: 0 <= k < |s| ==> IsWhitespace(s[k])
  }

  /** Neither end of `s` is a whitespace character. */
  predicate IsTrimmed(s: string) {
    s == [] || (!IsWhitespace(s[0]) && !IsWhitespace(s[|s| - 1]))
  }

  /** `s` contains no character of `seps`. */
  predicate Free(s: string, seps: set<char>) {
    forall k :: 0 <= k < |s| ==> s[k] !in seps
  }

  lemma FreeUnion(s: string, a: set<char>, b: set<char>)
    requires Free(s, a) && Free(s, b)
    ensures Free(s, a + b)
  {
  }

  lemma FreeWithout(s: string, seps: set<char>, fewer: set<char>)
    requires Free(s, seps) && fewer <= seps
    ensures Free(s, fewer)
  {
  }

  lemma FreeExcludes(s: string, seps: set<char>, x: char)
    requires Free(s, seps) && x in seps
    ensures x !in s
  {
  }

  lemma FreeConcat(a: string, b: string, seps: set<char>)
    requires Free(a, seps) && Free(b, seps)
    ensures Free(a + b, seps)
  {
    forall k | 0 <= k < |a + b| ensures (a + b)[k] !in seps {
      if k < |a| { assert (a + b)[k] == a[k]; } else { assert (a + b)[k] == b[k - |a|]; }
    }
  }

  // ---------------------------------------------------------------- trim

  function TrimStart(s: string): (r: string)
    ensures |r| <= |s| && r == s[|s| - |r|..]
    ensures r == [] || !IsWhitespace(r[0])
    decreases |s|
  {
    if s != [] && IsWhitespace(s[0]) then TrimStart(s[1..]) else s
  }

  /** What `TrimStart` removes is whitespace. */
  lemma {:induction false} TrimStartRemoves(s: string)
    ensures AllWhitespace(s[..|s| - |TrimStart(s)|])
    decreases |s|
  {
    if s != [] && IsWhitespace(s[0]) {
      TrimStartRemoves(s[1..]);
      var n := |s| - |TrimStart(s)|;
      assert forall k :: 1 <= k < n ==> s[..n][k] == s[1..][..n - 1][k - 1];
    }
  }

  function TrimEnd(s: string): (r: string)
    ensures |r| <= |s| && r == s[..|r|]
    ensures r == [] || !IsWhitespace(r[|r| - 1])
    decreases |s|
  {
    if s != [] && IsWhitespace(s[|s| - 1]) then TrimEnd(s[..|s| - 1]) else s
  }

  /** What `TrimEnd` removes is whitespace. */
  lemma {:induction false} TrimEndRemoves(s: string)
    ensures AllWhitespace(s[|TrimEnd(s)|..])
    decreases |s|
  {
    if s != [] && IsWhitespace(s[|s| - 1]) {
      TrimEndRemoves(s[..|s| - 1]);
      var n := |TrimEnd(s)|;
      assert forall k :: 0 <= k < |s| - 1 - n ==> s[n..][k] == s[..|s| - 1][n..][k];
    }
  }

  /** `s.trim()`: the slice of `s` left once the whitespace at both ends is removed. */
  function Trim(s: string): (r: string)
    ensures IsTrimmed(r)
  {
    TrimEnd(TrimStart(s))
  }

  /** What `trim` removes is whitespace at the two ends, and what it keeps is a slice of `s`. */
  lemma TrimSlice(s: string) returns (i: nat)
    ensures var r := Trim(s);
            i + |r| <= |s| && r == s[i..i + |r|]
            && AllWhitespace(s[..i]) && AllWhitespace(s[i + |r|..])
  {
    var t := TrimStart(s);
    var r := TrimEnd(t);
    TrimStartRemoves(s);
    TrimEndRemoves(t);
    i := |s| - |t|;
    assert r == s[i..][..|r|] == s[i..i + |r|];
    assert s[i + |r|..] == t[|r|..];
  }

  /** `x.trim() === ""` exactly when `x` is all whitespace (the script's blank-line test). */
  lemma TrimEmptyIffBlank(s: string)
    ensures Trim(s) == [] <==> AllWhitespace(s)
  {
    var r := Trim(s);
    var i := TrimSlice(s);
    if r == [] {
      forall k | 0 <= k < |s| ensures IsWhitespace(s[k]) {
        if k < i { assert s[k] == s[..i][k]; } else { assert s[k] == s[i..][k - i]; }
      }
    } else {
      assert s[i] == r[0];
    }
  }

  /** Leading whitespace is removed up to the first other character. */
  lemma {:induction false} TrimStartPadded(pad: string, s: string)
    requires AllWhitespace(pad) && (s == [] || !IsWhitespace(s[0]))
    ensures TrimStart(pad + s) == s
    decreases |pad|
  {
    if pad == [] {
      assert pad + s == s;
    } else {
      assert (pad + s)[1..] == pad[1..] + s;
      TrimStartPadded(pad[1..], s);
    }
  }

  /** Trimming a trimmed string with whitespace put before it gives the string back. */
  lemma TrimPadded(pad: string, s: string)
    requires AllWhitespace(pad) && IsTrimmed(s)
    ensures Trim(pad + s) == s
  {
    TrimStartPadded(pad, s);
  }

  /** Trimming a string that has no whitespace at either end leaves it as it is. */
  lemma TrimTrimmed(s: string)
    requires IsTrimmed(s)
    ensures Trim(s) == s
  {
  }

  // ---------------------------------------------------------------- split and join

  /**
   * `s.split(sep)` for a one-character separator, or `s.split(/[...]/)` for a
   * character class: the maximal runs between separators, always at least one.
   */
  function Split(s: string, seps: set<char>): (fields: seq<string>)
    ensures |fields| >= 1
    decreases |s|
  {
    if s == [] then [""]
    else
      var rest := Split(s[1..], seps);
      if s[0] in seps then [""] + rest
      else [[s[0]] + rest[0]] + rest[1..]
  }

  /** No field of a split contains a separator. */
  lemma {:induction false} SplitFieldsFree(s: string, seps: set<char>)
    ensures forall i :: 0 <= i < |Split(s, seps)| ==> Free(Split(s, seps)[i], seps)
    decreases |s|
  {
    if s != [] {
      SplitFieldsFree(s[1..], seps);
    }
  }

  /** `fields.join(sep)`. */
  function Join(fields: seq<string>, sep: char): string
  {
    if |fields| == 0 then ""
    else if |fields| == 1 then fields[0]
    else fields[0] + [sep] + Join(fields[1..], sep)
  }

  /** The first field of a split is the prefix of `s` up to the first separator. */
  lemma {:induction false} SplitHead(s: string, seps: set<char>)
    ensures var h := Split(s, seps)[0];
            |h| <= |s| && h == s[..|h|] && Free(h, seps) && (|h| < |s| ==> s[|h|] in seps)
    decreases |s|
  {
    if s != [] && s[0] !in seps {
      SplitHead(s[1..], seps);
    }
  }

  /** A string free of separators splits into itself alone. */
  lemma {:induction false} SplitFree(s: string, seps: set<char>)
    requires Free(s, seps)
    ensures Split(s, seps) == [s]
    decreases |s|
  {
    if s != [] {
      SplitFree(s[1..], seps);
      assert [s[0]] + s[1..] == s;
    }
  }

  /** Splitting at the first separator. */
  lemma {:induction false} SplitAtFirst(f: string, c: char, t: string, seps: set<char>)
    requires Free(f, seps) && c in seps
    ensures Split(f + [c] + t, seps) == [f] + Split(t, seps)
    decreases |f|
  {
    if f != [] {
      assert (f + [c] + t)[1..] == f[1..] + [c] + t;
      SplitAtFirst(f[1..], c, t, seps);
      var rest := Split(f[1..] + [c] + t, seps);
      assert rest[0] == f[1..] && rest[1..] == Split(t, seps);
      assert [f[0]] + f[1..] == f;
    } else {
      assert f + [c] + t == [c] + t;
      assert ([c] + t)[1..] == t;
    }
  }

  /** Joining one more field. */
  lemma {:induction false} JoinSnoc(fields: seq<string>, x: string, sep: char)
    requires fields != []
    ensures Join(fields + [x], sep) == Join(fields, sep) + [sep] + x
    decreases |fields|
  {
    if |fields| == 1 {
      assert fields + [x] == [fields[0], x];
    } else {
      assert (fields + [x])[1..] == fields[1..] + [x];
      JoinSnoc(fields[1..], x, sep);
    }
  }

  /** Split undoes join when no field contains a separator. */
  lemma {:induction false} SplitJoin(fields: seq<string>, sep: char, seps: set<char>)
    requires |fields| >= 1 && sep in seps
    requires forall i :: 0 <= i < |fields| ==> Free(fields[i], seps)
    ensures Split(Join(fields, sep), seps) == fields
    decreases |fields|
  {
    if |fields| == 1 {
      SplitFree(fields[0], seps);
    } else {
      SplitJoin(fields[1..], sep, seps);
      SplitAtFirst(fields[0], sep, Join(fields[1..], sep), seps);
    }
  }

  /** Join undoes split by a single separator character. */
  lemma {:induction false} JoinSplit(s: string, sep: char)
    ensures Join(Split(s, {sep}), sep) == s
    decreases |s|
  {
    if s != [] {
      JoinSplit(s[1..], sep);
      var rest := Split(s[1..], {sep});
      if s[0] != sep {
        if |rest| > 1 {
          assert Join(rest, sep) == rest[0] + [sep] + Join(rest[1..], sep);
          assert Join([[s[0]] + rest[0]] + rest[1..], sep)
              == [s[0]] + rest[0] + [sep] + Join(rest[1..], sep);
        }
      }
    }
  }

  /** Splitting a concatenation joined by a separator. */
  lemma {:induction false} SplitAppend(a: string, c: char, b: string, seps: set<char>)
    requires c in seps
    ensures Split(a + [c] + b, seps) == Split(a, seps) + Split(b, seps)
    decreases |a|
  {
    if a == [] {
      assert a + [c] + b == [c] + b;
      assert ([c] + b)[1..] == b;
    } else {
      assert (a + [c] + b)[1..] == a[1..] + [c] + b;
      SplitAppend(a[1..], c, b, seps);
    }
  }

  /** The text before the first separator: `s.split(c)[0]`. */
  function FirstField(s: string, c: char): (r: string)
    ensures |r| <= |s| && r == s[..|r|] && c !in r
    ensures |r| < |s| ==> s[|r|] == c
  {
    SplitHead(s, {c});
    assert Free(Split(s, {c})[0], {c});
    Split(s, {c})[0]
  }

  /** The first field is the prefix that ends at the first separator (or at the end). */
  lemma FirstFieldIs(s: string, c: char, k: nat)
    requires k <= |s| && c !in s[..k] && (k < |s| ==> s[k] == c)
    ensures FirstField(s, c) == s[..k]
  {
    var r := FirstField(s, c);
    assert forall i :: 0 <= i < k ==> s[..k][i] == s[i];
    assert forall i :: 0 <= i < |r| ==> r[i] == s[i];
  }

  /** Without a separator, the first field is the whole string. */
  lemma FirstFieldWhole(s: string, c: char)
    requires c !in s
    ensures FirstField(s, c) == s
  {
    assert s[..|s|] == s;
    FirstFieldIs(s, c, |s|);
  }

  // ---------------------------------------------------------------- includes

  /** `s.includes(sub)`. */
  predicate Contains(s: string, sub: string) {
    exists i :: 0 <= i <= |s| - |sub| && OccursAt(s, sub, i)
  }

  predicate OccursAt(s: string, sub: string, i: int)
    requires 0 <= i <= |s| - |sub|
  {
    s[i..i + |sub|] == sub
  }

  lemma ContainsInfix(a: string, sub: string, b: string)
    ensures Contains(a + sub + b, sub)
  {
    assert OccursAt(a + sub + b, sub, |a|);
  }

  // ---------------------------------------------------------------- numbers

  predicate IsDigit(c: char) { '0' <= c <= '9' }

  function DigitChar(d: nat): (c: char)
    requires d < 10
    ensures IsDigit(c) && (c as int) - ('0' as int) == d
  {
    ('0' as int + d) as char
  }

  /** The decimal text of `n` as a template literal renders it. */
  function NatToString(n: nat): (s: string)
    ensures |s| >= 1
    ensures forall k :: 0 <= k < |s| ==> IsDigit(s[k])
    ensures |s| > 1 ==> s[0] != '0'
  {
    if n < 10 then [DigitChar(n)] else NatToString(n / 10) + [DigitChar(n % 10)]
  }

  /** The value of a string of decimal digits. */
  function DecimalValue(s: string): nat
    requires forall k :: 0 <= k < |s| ==> IsDigit(s[k])
  {
    if s == [] then 0
    else 10 * DecimalValue(s[..|s| - 1]) + DigitValue(s[|s| - 1])
  }

  function DigitValue(c: char): nat
    requires IsDigit(c)
  {
    (c as int) - ('0' as int)
  }

  /** Reading the decimal text back gives the number: the rendering is one-to-one. */
  lemma {:induction false} NatToStringValue(n: nat)
    ensures DecimalValue(NatToString(n)) == n
  {
    if n >= 10 {
      NatToStringValue(n / 10);
      var s := NatToString(n);
      assert s[..|s| - 1] == NatToString(n / 10);
    }
  }

  lemma NatToStringInjective(m: nat, n: nat)
    ensures NatToString(m) == NatToString(n) ==> m == n
  {
    NatToStringValue(m);
    NatToStringValue(n);
  }
}
