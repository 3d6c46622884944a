/**
 * The `ACCOUNTS` configuration string: `user:password` pairs separated by `,`
 * or `;`. Each segment is split on `:`, every field is trimmed, and the first
 * two fields are the user and the password; a pair lacking either is dropped.
 * An absent or empty string, or one that yields no pair, ends the process
 * with exit code 1 before anything else runs.
 */
module Accounts {
  import opened Wrappers
  import opened Text

  datatype Credential = Credential(user: string, pass: string)

  /** The two fatal configuration errors, each printed before `process.exit(1)`. */
  datatype ConfigError =
    | NotConfigured  // `ACCOUNTS` is unset or empty
    | BadFormat      // no segment yields a usable pair

  const SegmentSeparators: set<char> := {',', ';'}
  const FieldSeparator: char := ':'

  /** The exit code the script ends with on a configuration error. */
  const ConfigErrorExitCode: int := 1

  /** What every parsed credential satisfies. */
  predicate WellFormed(c: Credential) {
    && c.user != [] && c.pass != []
    && IsTrimmed(c.user) && IsTrimmed(c.pass)
    && Free(c.user, SegmentSeparators + {FieldSeparator})
    && Free(c.pass, SegmentSeparators + {FieldSeparator})
  }

  /**
   * One segment: `account.split(":").map(s => s.trim())` destructured into
   * `[user, pass]`, kept when both are non-empty. A segment without a colon
   * leaves `pass` undefined; fields after the second are ignored.
   */
  function SegmentCredential(segment: string): (c: Option<Credential>)
    ensures c.Some? ==> c.value.user != [] && c.value.pass != []
    ensures c.Some? ==> IsTrimmed(c.value.user) && IsTrimmed(c.value.pass)
  {
    var fields := Split(segment, {FieldSeparator});
    if |fields| < 2 then None
    else
      var user, pass := Trim(fields[0]), Trim(fields[1]);
      if user != [] && pass != [] then Some(Credential(user, pass)) else None
  }

  /**
   * `segments.map(parse).filter(acc => acc.user && acc.pass)`: the
   * credentials the segments yield, in order; `parse` gives `None` where the
   * filter drops the pair.
   */
  function Collect(segments: seq<string>, parse: string -> Option<Credential>): (cs: seq<Credential>)
    ensures |cs| <= |segments|
  {
    if segments == [] then []
    else
      (match parse(segments[0]) case Some(c) => [c] case None => [])
      + Collect(segments[1..], parse)
  }

  /** The credentials the script parses from its segments. */
  function ParseSegments(segments: seq<string>): (cs: seq<Credential>)
    ensures |cs| <= |segments|
  {
    Collect(segments, SegmentCredential)
  }

  /** What one segment contributes to the list: its credential, or nothing. */
  function Yield(segment: string): (cs: seq<Credential>)
    ensures |cs| <= 1
  {
    match SegmentCredential(segment)
    case Some(c) => [c]
    case None => []
  }

  /** The configuration check and parse the script performs at start-up (lines 13-26). */
  function ParseAccounts(accounts: Option<string>): (r: Result<seq<Credential>, ConfigError>)
    ensures accounts.None? || accounts.value == [] ==> r == Err(NotConfigured)
    ensures r.Ok? ==> 1 <= |r.value| <= |Split(accounts.value, SegmentSeparators)|
  {
    if accounts.None? || accounts.value == [] then Err(NotConfigured)
    else
      var cs := ParseSegments(Split(accounts.value, SegmentSeparators));
      if cs == [] then Err(BadFormat) else Ok(cs)
  }

  // ---------------------------------------------------------------- lemmas

  lemma {:induction false} SplitKeepsFree(s: string, seps: set<char>, other: set<char>)
    requires Free(s, other)
    ensures forall i :: 0 <= i < |Split(s, seps)| ==> Free(Split(s, seps)[i], other)
    decreases |s|
  {
    if s != [] {
      SplitKeepsFree(s[1..], seps, other);
    }
  }

  lemma TrimKeepsFree(s: string, seps: set<char>)
    requires Free(s, seps)
    ensures Free(Trim(s), seps)
  {
    var r := Trim(s);
    var i := TrimSlice(s);
    assert forall k :: 0 <= k < |r| ==> r[k] == s[i + k];
  }

  lemma SegmentKeepsFree(segment: string)
    requires Free(segment, SegmentSeparators)
    ensures var c := SegmentCredential(segment);
            c.Some? ==> WellFormed(c.value)
  {
    var fields := Split(segment, {FieldSeparator});
    SplitKeepsFree(segment, {FieldSeparator}, SegmentSeparators);
    SplitFieldsFree(segment, {FieldSeparator});
    if |fields| >= 2 {
      FreeUnion(fields[0], SegmentSeparators, {FieldSeparator});
      FreeUnion(fields[1], SegmentSeparators, {FieldSeparator});
      TrimKeepsFree(fields[0], SegmentSeparators + {FieldSeparator});
      TrimKeepsFree(fields[1], SegmentSeparators + {FieldSeparator});
    }
  }

  /** Every credential the parser returns is non-empty, trimmed and free of separators. */
  lemma {:induction false} ParsedAreWellFormed(segments: seq<string>)
    requires forall i :: 0 <= i < |segments| ==> Free(segments[i], SegmentSeparators)
    ensures forall i :: 0 <= i < |ParseSegments(segments)| ==> WellFormed(ParseSegments(segments)[i])
  {
    if segments != [] {
      ParseSegmentsCons(segments);
      SegmentKeepsFree(segments[0]);
      ParsedAreWellFormed(segments[1..]);
      var head, tail := Yield(segments[0]), ParseSegments(segments[1..]);
      forall i | 0 <= i < |head + tail| ensures WellFormed((head + tail)[i]) {
        if i >= |head| { assert (head + tail)[i] == tail[i - |head|]; }
      }
    }
  }

  /** The first segment contributes what it yields, ahead of the rest. */
  lemma ParseSegmentsCons(segments: seq<string>)
    requires segments != []
    ensures ParseSegments(segments) == Yield(segments[0]) + ParseSegments(segments[1..])
  {
  }

  /** Every credential `ParseAccounts` returns is non-empty, trimmed and free of `,`, `;` and `:`. */
  lemma AccountsWellFormed(accounts: string)
    ensures var r := ParseAccounts(Some(accounts));
            r.Ok? ==> forall i :: 0 <= i < |r.value| ==> WellFormed(r.value[i])
  {
    var segments := Split(accounts, SegmentSeparators);
    SplitFieldsFree(accounts, SegmentSeparators);
    ParsedAreWellFormed(segments);
  }

  /** Collecting treats segments independently and keeps their order. */
  lemma {:induction false} CollectAppend(a: seq<string>, b: seq<string>, parse: string -> Option<Credential>)
    ensures Collect(a + b, parse) == Collect(a, parse) + Collect(b, parse)
  {
    if a != [] {
      assert (a + b)[1..] == a[1..] + b;
      CollectAppend(a[1..], b, parse);
    } else {
      assert a + b == b;
    }
  }

  /** A credential is collected exactly when some segment yields it. */
  lemma {:induction false} CollectMember(segments: seq<string>, parse: string -> Option<Credential>, c: Credential)
    ensures c in Collect(segments, parse)
            <==> exists i :: 0 <= i < |segments| && parse(segments[i]) == Some(c)
  {
    if segments != [] {
      CollectMember(segments[1..], parse, c);
      if c in Collect(segments[1..], parse) {
        var i :| 0 <= i < |segments[1..]| && parse(segments[1..][i]) == Some(c);
        assert parse(segments[i + 1]) == Some(c);
      }
      if exists i :: 0 <= i < |segments| && parse(segments[i]) == Some(c) {
        var i :| 0 <= i < |segments| && parse(segments[i]) == Some(c);
        if i > 0 {
          assert parse(segments[1..][i - 1]) == Some(c);
        }
      }
    }
  }

  /** The parser handles segments independently and keeps their order. */
  lemma ParseSegmentsAppend(a: seq<string>, b: seq<string>)
    ensures ParseSegments(a + b) == ParseSegments(a) + ParseSegments(b)
  {
    CollectAppend(a, b, SegmentCredential);
  }

  /** A credential is parsed exactly when some segment yields it. */
  lemma ParseSegmentsMember(segments: seq<string>, c: Credential)
    ensures c in ParseSegments(segments)
            <==> exists i :: 0 <= i < |segments| && SegmentCredential(segments[i]) == Some(c)
  {
    CollectMember(segments, SegmentCredential, c);
  }

  /** A segment without a colon (including an empty one) yields no credential. */
  lemma SegmentWithoutColon(segment: string)
    requires FieldSeparator !in segment
    ensures SegmentCredential(segment) == None
  {
    SplitFree(segment, {FieldSeparator});
  }

  /** A `user:pass` segment yields the trimmed pair when neither part trims to nothing. */
  lemma SegmentOfPair(user: string, pass: string)
    requires FieldSeparator !in user && FieldSeparator !in pass
    ensures SegmentCredential(user + [FieldSeparator] + pass)
         == if Trim(user) != [] && Trim(pass) != [] then Some(Credential(Trim(user), Trim(pass))) else None
  {
    SplitPair(user, pass);
  }

  lemma SplitPair(user: string, pass: string)
    requires FieldSeparator !in user && FieldSeparator !in pass
    ensures Split(user + [FieldSeparator] + pass, {FieldSeparator}) == [user, pass]
  {
    SplitFree(pass, {FieldSeparator});
    SplitAtFirst(user, FieldSeparator, pass, {FieldSeparator});
  }

  /** Only the first two colon-separated fields count: `a:b:c` is the pair `a`, `b`. */
  lemma SegmentIgnoresExtraFields(user: string, pass: string, rest: string)
    requires FieldSeparator !in user && FieldSeparator !in pass
    ensures SegmentCredential(user + [FieldSeparator] + pass + [FieldSeparator] + rest)
         == SegmentCredential(user + [FieldSeparator] + pass)
  {
    SplitPair(user, pass);
    SplitTriple(user, pass, rest);
  }

  lemma SplitTriple(user: string, pass: string, rest: string)
    requires FieldSeparator !in user && FieldSeparator !in pass
    ensures var fields := Split(user + [FieldSeparator] + pass + [FieldSeparator] + rest, {FieldSeparator});
            |fields| >= 2 && fields[0] == user && fields[1] == pass
  {
    var seps := {FieldSeparator};
    SplitAtFirst(user, FieldSeparator, pass + [FieldSeparator] + rest, seps);
    SplitAtFirst(pass, FieldSeparator, rest, seps);
    assert user + [FieldSeparator] + pass + [FieldSeparator] + rest
        == user + [FieldSeparator] + (pass + [FieldSeparator] + rest);
  }

  lemma {:induction false} SplitAllWhitespace(s: string, seps: set<char>)
    requires AllWhitespace(s)
    ensures forall i :: 0 <= i < |Split(s, seps)| ==> AllWhitespace(Split(s, seps)[i])
    decreases |s|
  {
    if s != [] {
      SplitAllWhitespace(s[1..], seps);
    }
  }

  lemma {:induction false} BlankSegmentsYieldNothing(segments: seq<string>)
    requires forall i :: 0 <= i < |segments| ==> AllWhitespace(segments[i])
    ensures ParseSegments(segments) == []
  {
    if segments != [] {
      var fields := Split(segments[0], {FieldSeparator});
      SplitAllWhitespace(segments[0], {FieldSeparator});
      TrimEmptyIffBlank(fields[0]);
      BlankSegmentsYieldNothing(segments[1..]);
      ParseSegmentsCons(segments);
    }
  }

  /** A whitespace-only `ACCOUNTS` is a format error (exit 1, no login attempted). */
  lemma WhitespaceOnlyIsBadFormat(accounts: string)
    requires accounts != [] && AllWhitespace(accounts)
    ensures ParseAccounts(Some(accounts)) == Err(BadFormat)
  {
    SplitAllWhitespace(accounts, SegmentSeparators);
    BlankSegmentsYieldNothing(Split(accounts, SegmentSeparators));
  }

  // ---------------------------------------------------------------- round trip

  /** The `user:pass` segment of a credential. */
  function Segment(c: Credential): string
  {
    c.user + [FieldSeparator] + c.pass
  }

  /** The segments of a list of credentials. */
  function Segments(cs: seq<Credential>): (segments: seq<string>)
    ensures |segments| == |cs|
  {
    if cs == [] then [] else [Segment(cs[0])] + Segments(cs[1..])
  }

  /** Writing credentials back as an `ACCOUNTS` string, `,`-separated. */
  function FormatAccounts(cs: seq<Credential>): string
  {
    Join(Segments(cs), ',')
  }

  /** The `user:pass` segment of a well-formed credential contains no segment separator. */
  lemma SegmentFree(c: Credential)
    requires WellFormed(c)
    ensures Free(Segment(c), SegmentSeparators)
  {
    FreeWithout(c.user, SegmentSeparators + {FieldSeparator}, SegmentSeparators);
    FreeWithout(c.pass, SegmentSeparators + {FieldSeparator}, SegmentSeparators);
    FreeConcat(c.user, [FieldSeparator], SegmentSeparators);
    FreeConcat(c.user + [FieldSeparator], c.pass, SegmentSeparators);
  }

  /** The `user:pass` segment of a well-formed credential parses back to it. */
  lemma CredentialSegment(c: Credential)
    requires WellFormed(c)
    ensures Yield(Segment(c)) == [c]
  {
    FreeExcludes(c.user, SegmentSeparators + {FieldSeparator}, FieldSeparator);
    FreeExcludes(c.pass, SegmentSeparators + {FieldSeparator}, FieldSeparator);
    SegmentOfPair(c.user, c.pass);
    TrimTrimmed(c.user);
    TrimTrimmed(c.pass);
  }

  lemma {:induction false} SegmentsFree(cs: seq<Credential>)
    requires forall i :: 0 <= i < |cs| ==> WellFormed(cs[i])
    ensures forall i :: 0 <= i < |cs| ==> Free(Segments(cs)[i], SegmentSeparators)
  {
    if cs != [] {
      SegmentsFree(cs[1..]);
      SegmentFree(cs[0]);
      assert Segments(cs)[1..] == Segments(cs[1..]);
      forall i | 0 <= i < |cs| ensures Free(Segments(cs)[i], SegmentSeparators) {
        if i > 0 { assert Segments(cs)[i] == Segments(cs[1..])[i - 1]; }
      }
    }
  }

  lemma {:induction false} SegmentsParse(cs: seq<Credential>)
    requires forall i :: 0 <= i < |cs| ==> WellFormed(cs[i])
    ensures ParseSegments(Segments(cs)) == cs
  {
    if cs != [] {
      SegmentsParse(cs[1..]);
      CredentialSegment(cs[0]);
      assert Segments(cs)[1..] == Segments(cs[1..]);
      ParseSegmentsCons(Segments(cs));
    }
  }

  /** Parsing the formatted list gives back exactly the well-formed credentials, in order. */
  lemma FormatThenParse(cs: seq<Credential>)
    requires cs != []
    requires forall i :: 0 <= i < |cs| ==> WellFormed(cs[i])
    ensures ParseAccounts(Some(FormatAccounts(cs))) == Ok(cs)
  {
    SegmentsFree(cs);
    SegmentsParse(cs);
    SplitJoin(Segments(cs), ',', SegmentSeparators);
    assert FormatAccounts(cs) != [] by {
      assert FormatAccounts(cs)[0] == FormatAccounts(cs)[0];
    }
  }

  // ---------------------------------------------------------------- examples

  /** Whitespace contains none of the separators. */
  lemma BlankHasNoSeparators(pad: string)
    requires AllWhitespace(pad)
    ensures Free(pad, SegmentSeparators + {FieldSeparator})
  {
    forall k | 0 <= k < |pad| ensures pad[k] !in SegmentSeparators + {FieldSeparator} {
      assert IsWhitespace(pad[k]);
    }
  }

  /** Whitespace before the user name is trimmed away. */
  lemma PaddedSegment(pad: string, c: Credential)
    requires WellFormed(c) && AllWhitespace(pad)
    ensures Free(pad + Segment(c), SegmentSeparators)
    ensures Yield(pad + Segment(c)) == [c]
  {
    BlankHasNoSeparators(pad);
    assert Free(pad + Segment(c), SegmentSeparators) by {
      FreeWithout(pad, SegmentSeparators + {FieldSeparator}, SegmentSeparators);
      SegmentFree(c);
      FreeConcat(pad, Segment(c), SegmentSeparators);
    }
    assert Yield(pad + Segment(c)) == [c] by {
      FreeExcludes(pad, SegmentSeparators + {FieldSeparator}, FieldSeparator);
      FreeExcludes(c.user, SegmentSeparators + {FieldSeparator}, FieldSeparator);
      FreeExcludes(c.pass, SegmentSeparators + {FieldSeparator}, FieldSeparator);
      assert pad + Segment(c) == (pad + c.user) + [FieldSeparator] + c.pass;
      SegmentOfPair(pad + c.user, c.pass);
      TrimPadded(pad, c.user);
      TrimTrimmed(c.pass);
    }
  }

  /** A `,` and a `;` both end a segment. */
  lemma SplitThree(s1: string, s2: string, s3: string)
    requires Free(s1, SegmentSeparators) && Free(s2, SegmentSeparators) && Free(s3, SegmentSeparators)
    ensures Split(s1 + [','] + (s2 + [';'] + s3), SegmentSeparators) == [s1, s2, s3]
  {
    SplitAppend(s1, ',', s2 + [';'] + s3, SegmentSeparators);
    SplitAppend(s2, ';', s3, SegmentSeparators);
    SplitFree(s1, SegmentSeparators);
    SplitFree(s2, SegmentSeparators);
    SplitFree(s3, SegmentSeparators);
  }

  lemma ParseAccountsOfSplit(accounts: string, segments: seq<string>)
    requires accounts != [] && Split(accounts, SegmentSeparators) == segments
    requires ParseSegments(segments) != []
    ensures ParseAccounts(Some(accounts)) == Ok(ParseSegments(segments))
  {
  }

  lemma ParseThreeSegments(s1: string, s2: string, s3: string)
    ensures ParseSegments([s1, s2, s3]) == Yield(s1) + Yield(s2) + Yield(s3)
  {
    assert [s1, s2, s3] == [s1] + ([s2] + [s3]);
    ParseSegmentsAppend([s1], [s2] + [s3]);
    ParseSegmentsAppend([s2], [s3]);
    assert ParseSegments([s1]) == Yield(s1);
    assert ParseSegments([s2]) == Yield(s2);
    assert ParseSegments([s3]) == Yield(s3);
  }

  /**
   * Both separators work in one string, and whitespace before a pair is
   * trimmed: `a:1,b:2; c:3` gives three pairs, `c` without its leading space.
   */
  lemma ThreePairs(c1: Credential, c2: Credential, c3: Credential, pad: string)
    requires WellFormed(c1) && WellFormed(c2) && WellFormed(c3) && AllWhitespace(pad)
    ensures ParseAccounts(Some(Segment(c1) + "," + Segment(c2) + ";" + pad + Segment(c3)))
         == Ok([c1, c2, c3])
  {
    var s1, s2, s3 := Segment(c1), Segment(c2), pad + Segment(c3);
    var accounts := Segment(c1) + "," + Segment(c2) + ";" + pad + Segment(c3);
    assert accounts == s1 + [','] + (s2 + [';'] + s3);
    SegmentFree(c1);
    SegmentFree(c2);
    CredentialSegment(c1);
    CredentialSegment(c2);
    PaddedSegment(pad, c3);
    SplitThree(s1, s2, s3);
    ParseThreeSegments(s1, s2, s3);
    assert [c1] + [c2] + [c3] == [c1, c2, c3];
    ParseAccountsOfSplit(accounts, [s1, s2, s3]);
  }

  /** A single segment with no colon at all (`onlyuser`) is a format error. */
  lemma UserWithoutPassword(accounts: string)
    requires accounts != [] && Free(accounts, SegmentSeparators + {FieldSeparator})
    ensures ParseAccounts(Some(accounts)) == Err(BadFormat)
  {
    SplitFree(accounts, SegmentSeparators);
    SegmentWithoutColon(accounts);
    assert Yield(accounts) == [];
    assert ParseSegments([accounts]) == [];
  }
}
