/**
 * The script as a whole: the start-up configuration check, then `main`,
 * which rotates the log, tries every account in turn, and reports the
 * tally in one summary that goes to the log and, when a bot is configured,
 * to Telegram.
 */
module Run {
  import opened Wrappers
  import opened Text
  import opened Accounts
  import opened Log
  import opened Login

  /** The environment the script reads: `BOT_TOKEN`, `CHAT_ID`, `ACCOUNTS`. */
  datatype Config = Config(botToken: Option<string>, chatId: Option<string>, accounts: Option<string>)

  /**
   * The index of the first account, from `i` on, whose browser fails to
   * launch, or the number of accounts when none does.
   */
  function TriedFrom(accounts: seq<Credential>, browse: (nat, Credential) -> Session, i: nat): (n: nat)
    requires i <= |accounts|
    ensures i <= n <= |accounts|
    ensures forall k :: i <= k < n ==> browse(k, accounts[k]).Launched?
    ensures n < |accounts| ==> browse(n, accounts[n]).LaunchFailed?
    decreases |accounts| - i
  {
    if i == |accounts| || browse(i, accounts[i]).LaunchFailed? then i
    else TriedFrom(accounts, browse, i + 1)
  }

  /**
   * How many accounts `main` gets through. A launch failure rejects
   * `loginWithAccount`, and the `await` rethrows it out of `main`, so the
   * accounts after it are never tried.
   */
  function Tried(accounts: seq<Credential>, browse: (nat, Credential) -> Session): (n: nat)
    ensures n <= |accounts|
  {
    TriedFrom(accounts, browse, 0)
  }

  /** `main` rejects (and nothing is reported) exactly when some account's browser fails to launch. */
  predicate Aborted(accounts: seq<Credential>, browse: (nat, Credential) -> Session)
  {
    Tried(accounts, browse) < |accounts|
  }

  /** The run is cut short exactly when some browser fails to launch, at the first such account. */
  lemma AbortedIff(accounts: seq<Credential>, browse: (nat, Credential) -> Session)
    ensures Aborted(accounts, browse)
            <==> exists i :: 0 <= i < |accounts| && browse(i, accounts[i]).LaunchFailed?
    ensures forall i :: 0 <= i < Tried(accounts, browse) ==> browse(i, accounts[i]).Launched?
  {
    var n := TriedFrom(accounts, browse, 0);
    if exists i :: 0 <= i < |accounts| && browse(i, accounts[i]).LaunchFailed? {
      var i :| 0 <= i < |accounts| && browse(i, accounts[i]).LaunchFailed?;
      assert !(0 <= i < n);
    }
  }

  /** The results of the accounts tried, one per account, in order. */
  function Results(accounts: seq<Credential>, browse: (nat, Credential) -> Session): (rs: seq<LoginResult>)
    ensures |rs| == Tried(accounts, browse)
    ensures forall i :: 0 <= i < |rs| ==> rs[i].user == Label(i)
  {
    var n := Tried(accounts, browse);
    var rs := seq(n, i requires 0 <= i < n =>
      AttemptResult(accounts[i].user, i, browse(i, accounts[i]).attempt));
    assert forall i :: 0 <= i < |rs| ==> rs[i] == AttemptResult(accounts[i].user, i, browse(i, accounts[i]).attempt);
    rs
  }

  /** Each account's result is a success exactly when its page passed the test for its own user name. */
  lemma ResultsClassified(accounts: seq<Credential>, browse: (nat, Credential) -> Session, i: nat)
    requires i < Tried(accounts, browse)
    ensures var r := Results(accounts, browse)[i];
            var attempt := browse(i, accounts[i]).attempt;
            r.success <==> attempt.Loaded? && LoggedIn(attempt.content, accounts[i].user)
  {
  }

  /** The log entries the attempts write, one per account tried, in order. */
  function AttemptEntries(accounts: seq<Credential>, browse: (nat, Credential) -> Session, today: string)
    : (entries: seq<string>)
    ensures |entries| == Tried(accounts, browse)
  {
    var n := Tried(accounts, browse);
    seq(n, i requires 0 <= i < n =>
      LogLine(today, AttemptLogMessage(accounts[i].user, i, browse(i, accounts[i]).attempt)))
  }

  /** The log file after appending `entries` to it one by one. */
  function WithEntries(file: Option<string>, entries: seq<string>): (r: Option<string>)
    ensures r.None? <==> file.None? && entries == []
  {
    if entries == [] then file
    else Some(WithEntries(file, entries[..|entries| - 1]).GetOr([]) + entries[|entries| - 1])
  }

  /** Appending never changes what the file already held. */
  lemma {:induction false} WithEntriesExtends(file: Option<string>, entries: seq<string>)
    ensures file.GetOr([]) <= WithEntries(file, entries).GetOr([])
  {
    if entries != [] {
      WithEntriesExtends(file, entries[..|entries| - 1]);
    }
  }

  /** `results.filter(r => r.success).length`. */
  function SuccessCount(results: seq<LoginResult>): (n: nat)
    ensures n <= |results|
  {
    if results == [] then 0
    else (if results[0].success then 1 else 0) + SuccessCount(results[1..])
  }

  lemma {:induction false} SuccessCountAppend(a: seq<LoginResult>, b: seq<LoginResult>)
    ensures SuccessCount(a + b) == SuccessCount(a) + SuccessCount(b)
  {
    if a == [] {
      assert a + b == b;
    } else {
      assert (a + b)[1..] == a[1..] + b;
      SuccessCountAppend(a[1..], b);
    }
  }

  /** The tally is the total exactly when every account succeeded. */
  lemma {:induction false} AllSucceeded(results: seq<LoginResult>)
    ensures SuccessCount(results) == |results| <==> forall i :: 0 <= i < |results| ==> results[i].success
  {
    if results != [] {
      AllSucceeded(results[1..]);
      assert forall i :: 1 <= i < |results| ==> results[i] == results[1..][i - 1];
    }
  }

  /** The tally is zero exactly when no account succeeded. */
  lemma {:induction false} NoneSucceeded(results: seq<LoginResult>)
    ensures SuccessCount(results) == 0 <==> forall i :: 0 <= i < |results| ==> !results[i].success
  {
    if results != [] {
      NoneSucceeded(results[1..]);
      assert forall i :: 1 <= i < |results| ==> results[i] == results[1..][i - 1];
    }
  }

  /** `📊 登录汇总: ${successCount}/${totalCount} 个账号成功\n\n`. */
  function SummaryHeader(successes: nat, total: nat): string
  {
    "📊 登录汇总: " + NatToString(successes) + "/" + NatToString(total) + " 个账号成功\n\n"
  }

  /** What the `forEach` appends: every message followed by `\n`. */
  function SummaryBody(results: seq<LoginResult>): string
  {
    if results == [] then ""
    else SummaryBody(results[..|results| - 1]) + results[|results| - 1].message + "\n"
  }

  /** The summary message sent and logged at the end of a run. */
  function Summary(results: seq<LoginResult>): string
  {
    SummaryHeader(SuccessCount(results), |results|) + SummaryBody(results)
  }

  /** The messages of the results, in order. */
  function Messages(results: seq<LoginResult>): (ms: seq<string>)
    ensures |ms| == |results|
  {
    seq(|results|, i requires 0 <= i < |results| => results[i].message)
  }

  /** Lines 155-160: count the successes and build the summary text. */
  method BuildSummary(results: seq<LoginResult>) returns (summary: string)
    ensures summary == Summary(results)
  {
    var successCount := |Filter(results)|;
    var totalCount := |results|;
    summary := "📊 登录汇总: " + NatToString(successCount) + "/" + NatToString(totalCount) + " 个账号成功\n\n";
    var i := 0;
    while i < |results|
      invariant 0 <= i <= |results|
      invariant summary == SummaryHeader(SuccessCount(results), |results|) + SummaryBody(results[..i])
    {
      assert results[..i + 1][..i] == results[..i];
      summary := summary + results[i].message + "\n";
      i := i + 1;
    }
    assert results[..i] == results;
  }

  /** `results.filter(r => r.success)`. */
  function Filter(results: seq<LoginResult>): (kept: seq<LoginResult>)
    ensures |kept| == SuccessCount(results)
    ensures forall r :: r in kept <==> r in results && r.success
  {
    if results == [] then []
    else (if results[0].success then [results[0]] else []) + Filter(results[1..])
  }

  /** The summary body of a concatenation is the concatenation of the bodies. */
  lemma {:induction false} SummaryBodyAppend(a: seq<LoginResult>, b: seq<LoginResult>)
    ensures SummaryBody(a + b) == SummaryBody(a) + SummaryBody(b)
    decreases |b|
  {
    if b == [] {
      assert a + b == a;
    } else {
      assert (a + b)[..|a + b| - 1] == a + b[..|b| - 1];
      SummaryBodyAppend(a, b[..|b| - 1]);
    }
  }

  /** The summary body is the messages rendered one per line, like a rotated log. */
  lemma {:induction false} SummaryBodyRender(results: seq<LoginResult>)
    ensures SummaryBody(results) == Render(Messages(results))
    decreases |results|
  {
    if results != [] {
      var init := results[..|results| - 1];
      SummaryBodyRender(init);
      assert Messages(results) == Messages(init) + [results[|results| - 1].message];
      RenderSnoc(Messages(init), results[|results| - 1].message);
    }
  }

  /** When no message spans several lines, the summary body lists exactly the messages, one per line. */
  lemma SummaryListsMessages(results: seq<LoginResult>)
    requires forall i :: 0 <= i < |results| ==> Newline !in results[i].message
    ensures Lines(SummaryBody(results)) == Messages(results) + [""]
  {
    SummaryBodyRender(results);
    LinesAfterRender(Messages(results), []);
    assert Render(Messages(results)) + [] == Render(Messages(results));
  }

  /** `汇总: ${successCount}/${totalCount} 成功`: the last log entry of a run. */
  function SummaryLogMessage(results: seq<LoginResult>): (m: string)
    ensures Newline !in m
  {
    "汇总: " + NatToString(SuccessCount(results)) + "/" + NatToString(|results|) + " 成功"
  }

  /** Whether an optional setting is present and non-empty (JavaScript truthiness). */
  predicate Configured(setting: Option<string>)
  {
    setting.Some? && setting.value != []
  }

  /**
   * `sendTelegram(message)`: the text posted to the bot, or `None` when the
   * token or the chat id is missing and nothing is sent.
   */
  function Notification(token: Option<string>, chatId: Option<string>, time: string, message: string)
    : (text: Option<string>)
    ensures text.Some? <==> Configured(token) && Configured(chatId)
    ensures text.Some? ==> |message| <= |text.value| && text.value[|text.value| - |message|..] == message
  {
    if !Configured(token) || !Configured(chatId) then None
    else Some("🎉 Netlib 登录通知\n\n登录时间：" + time + " HKT\n\n" + message)
  }

  /**
   * `main()`: rotate the log, try each account in order, then report. The
   * result list and the log are built up one account at a time. When an
   * account's browser fails to launch, `main` rejects there: no later
   * account is tried, nothing is sent and no summary is logged.
   */
  method RunAll(log: LogFile, accounts: seq<Credential>, browse: (nat, Credential) -> Session,
                token: Option<string>, chatId: Option<string>, today: string, sendTime: string,
                parse: string -> Option<int>, threshold: int)
    returns (results: seq<LoginResult>, notification: Option<string>)
    modifies log
    ensures results == Results(accounts, browse)
    ensures Aborted(accounts, browse) ==>
              && notification.None?
              && log.content
                 == WithEntries(RotatedFile(old(log.content), parse, threshold),
                                AttemptEntries(accounts, browse, today))
    ensures !Aborted(accounts, browse) ==>
              && |results| == |accounts|
              && notification == Notification(token, chatId, sendTime, Summary(results))
              && log.content
                 == Some(WithEntries(RotatedFile(old(log.content), parse, threshold),
                                     AttemptEntries(accounts, browse, today)).GetOr([])
                         + LogLine(today, SummaryLogMessage(results)))
  {
    log.Rotate(parse, threshold);
    ghost var rotated := log.content;
    ghost var entries := AttemptEntries(accounts, browse, today);
    ghost var tried := Tried(accounts, browse);
    results := [];
    var i := 0;
    while i < |accounts|
      invariant 0 <= i <= tried
      invariant results == Results(accounts, browse)[..i]
      invariant log.content == WithEntries(rotated, entries[..i])
    {
      var user := accounts[i].user;
      var outcome := LoginWithAccount(log, user, i, browse(i, accounts[i]), today);
      if outcome.Err? {
        assert i == tried;
        assert Results(accounts, browse)[..i] == Results(accounts, browse);
        assert entries[..i] == entries;
        return results, None;
      }
      ResultsStep(accounts, browse, i);
      EntriesStep(rotated, accounts, browse, today, i);
      results := results + [outcome.value];
      i := i + 1;
    }
    assert results == Results(accounts, browse);
    assert entries[..i] == entries;
    var summary := BuildSummary(results);
    notification := Notification(token, chatId, sendTime, summary);
    log.Write(today, "汇总: " + NatToString(SuccessCount(results)) + "/" + NatToString(|results|) + " 成功");
  }

  /** The results so far grow by one account's result at a time. */
  lemma ResultsStep(accounts: seq<Credential>, browse: (nat, Credential) -> Session, i: nat)
    requires i < Tried(accounts, browse)
    ensures browse(i, accounts[i]).Launched?
    ensures Results(accounts, browse)[..i + 1]
         == Results(accounts, browse)[..i] + [AttemptResult(accounts[i].user, i, browse(i, accounts[i]).attempt)]
  {
    var rs := Results(accounts, browse);
    assert rs[..i + 1] == rs[..i] + [rs[i]];
  }

  /** The log grows by one account's entry at a time. */
  lemma EntriesStep(file: Option<string>, accounts: seq<Credential>, browse: (nat, Credential) -> Session,
                    today: string, i: nat)
    requires i < Tried(accounts, browse)
    ensures var entries := AttemptEntries(accounts, browse, today);
            WithEntries(file, entries[..i + 1])
            == Some(WithEntries(file, entries[..i]).GetOr([])
                    + LogLine(today, AttemptLogMessage(accounts[i].user, i, browse(i, accounts[i]).attempt)))
  {
    var entries := AttemptEntries(accounts, browse, today);
    assert entries[..i + 1][..i] == entries[..i];
  }

  /**
   * The whole script: the configuration check at load time (exit code 1 and
   * nothing else when it fails), then `main()`. A rejection of `main` is
   * caught and printed, so the exit code is 0 either way.
   */
  method Script(config: Config, log: LogFile, browse: (nat, Credential) -> Session,
                today: string, sendTime: string, parse: string -> Option<int>, threshold: int)
    returns (exitCode: int, results: seq<LoginResult>, notification: Option<string>)
    modifies log
    ensures exitCode == (if ParseAccounts(config.accounts).Err? then ConfigErrorExitCode else 0)
    ensures ParseAccounts(config.accounts).Err? ==>
              results == [] && notification.None? && log.content == old(log.content)
    ensures ParseAccounts(config.accounts).Ok? ==>
              var accounts := ParseAccounts(config.accounts).value;
              var entries := WithEntries(RotatedFile(old(log.content), parse, threshold),
                                         AttemptEntries(accounts, browse, today));
              && results == Results(accounts, browse)
              && (Aborted(accounts, browse) ==> notification.None? && log.content == entries)
              && (!Aborted(accounts, browse) ==>
                    && 1 <= |results|
                    && notification == Notification(config.botToken, config.chatId, sendTime, Summary(results))
                    && log.content == Some(entries.GetOr([]) + LogLine(today, SummaryLogMessage(results))))
  {
    var parsed := ParseAccounts(config.accounts);
    if parsed.Err? {
      return ConfigErrorExitCode, [], None;
    }
    results, notification := RunAll(log, parsed.value, browse, config.botToken, config.chatId,
                                     today, sendTime, parse, threshold);
    exitCode := 0;
  }

  /**
   * Two accounts, the first reaching a page with the marker and the second
   * throwing inside the `try`: the run still completes, and the summary reads
   * `1/2` followed by one success line and one error line.
   */
  lemma OneSuccessOneError(c1: Credential, c2: Credential, browse: (nat, Credential) -> Session,
                           before: string, after: string, error: string)
    requires browse(0, c1) == Launched(Loaded(before + SuccessMarker + after))
    requires browse(1, c2) == Launched(Threw(error))
    ensures !Aborted([c1, c2], browse)
    ensures var results := Results([c1, c2], browse);
            && SuccessCount(results) == 1
            && Summary(results)
               == "📊 登录汇总: 1/2 个账号成功\n\n" + "✅ user1 登录成功\n" + "❌ user2 登录异常: " + error + "\n"
  {
    var r0 := LoginResult("user1", true, "✅ user1 登录成功");
    var r1 := LoginResult("user2", false, "❌ user2 登录异常: " + error);
    TwoResults(c1, c2, browse, before, after, error);
    SummaryOfTwo(r0, r1);
  }

  lemma TwoResults(c1: Credential, c2: Credential, browse: (nat, Credential) -> Session,
                   before: string, after: string, error: string)
    requires browse(0, c1) == Launched(Loaded(before + SuccessMarker + after))
    requires browse(1, c2) == Launched(Threw(error))
    ensures !Aborted([c1, c2], browse)
    ensures Results([c1, c2], browse)
         == [LoginResult("user1", true, "✅ user1 登录成功"), LoginResult("user2", false, "❌ user2 登录异常: " + error)]
  {
    BothTried(c1, c2, browse);
    var rs := Results([c1, c2], browse);
    assert |rs| == 2;
    assert rs[0] == AttemptResult(c1.user, 0, Loaded(before + SuccessMarker + after));
    assert rs[1] == AttemptResult(c2.user, 1, Threw(error));
    FirstResultSucceeds(c1.user, before, after);
    SecondResultThrew(c2.user, error);
  }

  lemma FirstResultSucceeds(user: string, before: string, after: string)
    ensures AttemptResult(user, 0, Loaded(before + SuccessMarker + after))
         == LoginResult("user1", true, "✅ user1 登录成功")
  {
    FirstTwoLabels();
    MarkerMeansSuccess(user, 0, before, after);
  }

  lemma SecondResultThrew(user: string, error: string)
    ensures AttemptResult(user, 1, Threw(error)) == LoginResult("user2", false, "❌ user2 登录异常: " + error)
  {
    FirstTwoLabels();
  }

  lemma SummaryOfTwo(r0: LoginResult, r1: LoginResult)
    requires r0.success && !r1.success
    ensures SuccessCount([r0, r1]) == 1
    ensures Summary([r0, r1]) == "📊 登录汇总: 1/2 个账号成功\n\n" + r0.message + "\n" + r1.message + "\n"
  {
    assert [r0, r1] == [r0] + [r1];
    SuccessCountAppend([r0], [r1]);
    SummaryBodyAppend([r0], [r1]);
    SingleSummaryBody(r0);
    SingleSummaryBody(r1);
    OneOfTwoHeader();
  }

  /**
   * When the second account's browser fails to launch, the first account's
   * result is all there is: `main` rejects before any summary.
   */
  lemma SecondLaunchFails(c1: Credential, c2: Credential, c3: Credential,
                          browse: (nat, Credential) -> Session, attempt: Attempt, error: string)
    requires browse(0, c1) == Launched(attempt)
    requires browse(1, c2) == LaunchFailed(error)
    ensures Aborted([c1, c2, c3], browse)
    ensures Results([c1, c2, c3], browse) == [AttemptResult(c1.user, 0, attempt)]
  {
    var accounts := [c1, c2, c3];
    assert TriedFrom(accounts, browse, 1) == 1;
    assert TriedFrom(accounts, browse, 0) == 1;
    var rs := Results(accounts, browse);
    assert rs[0] == AttemptResult(c1.user, 0, attempt);
  }

  /** Two accounts whose browsers both start are both tried. */
  lemma BothTried(c1: Credential, c2: Credential, browse: (nat, Credential) -> Session)
    requires browse(0, c1).Launched? && browse(1, c2).Launched?
    ensures Tried([c1, c2], browse) == 2
  {
    var accounts := [c1, c2];
    assert TriedFrom(accounts, browse, 2) == 2;
    assert TriedFrom(accounts, browse, 1) == 2;
  }

  lemma FirstTwoLabels()
    ensures Label(0) == "user1" && Label(1) == "user2"
  {
  }

  lemma OneOfTwoHeader()
    ensures SummaryHeader(1, 2) == "📊 登录汇总: 1/2 个账号成功\n\n"
  {
  }

  lemma SingleSummaryBody(r: LoginResult)
    ensures SummaryBody([r]) == r.message + "\n"
  {
    assert SummaryBody([r]) == SummaryBody([]) + r.message + "\n";
  }
}
