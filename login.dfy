/**
 * One login attempt (`loginWithAccount`). The browser session is not
 * modelled: what it ends with is given as a `Session`. Either launching the
 * browser failed, which happens before the `try` and makes the call itself
 * reject, or the browser started and the steps inside the `try` ended with an
 * `Attempt`: the content of the page reached after submitting the form, or
 * the message of the error some step threw. A started attempt is
 * classified, its result record is filled in, and one log entry is written
 * whatever the outcome.
 */
module Login {
  import opened Wrappers
  import opened Text
  import opened Log

  /** How the scripted browser session ended. */
  datatype Attempt =
    | Loaded(content: string)  // `await page.content()` after the form was submitted
    | Threw(error: string)     // `e.message` of the error a step threw

  /** How the call went as a whole: a launch failure escapes the `try`/`catch`. */
  datatype Session =
    | LaunchFailed(error: string)  // `chromium.launch` rejected
    | Launched(attempt: Attempt)   // the browser started; the `try` block ended this way

  /** The record `loginWithAccount` returns: `{ user, success, message }`. */
  datatype LoginResult = LoginResult(user: string, success: bool, message: string)

  /** The text whose presence on the page counts as a successful login. */
  const SuccessMarker: string := "exclusive owner"

  /** `user${index + 1}`: the label an account is reported under. */
  function Label(index: nat): string
  {
    "user" + NatToString(index + 1)
  }

  /** Two accounts get the same label only if they have the same index. */
  lemma LabelsDistinct(i: nat, j: nat)
    ensures Label(i) == Label(j) <==> i == j
  {
    if Label(i) == Label(j) {
      assert Label(i)[4..] == NatToString(i + 1);
      assert Label(j)[4..] == NatToString(j + 1);
      NatToStringInjective(i + 1, j + 1);
    }
  }

  /** The success test: the page mentions the marker or the account's user name. */
  predicate LoggedIn(content: string, user: string)
  {
    Contains(content, SuccessMarker) || Contains(content, user)
  }

  /** The message a result carries starts with this mark and the account's label. */
  function Mark(success: bool): string
  {
    if success then "✅ " else "❌ "
  }

  /** The result an attempt ends with. */
  function AttemptResult(user: string, index: nat, attempt: Attempt): (r: LoginResult)
    ensures r.user == Label(index)
    ensures r.success <==> attempt.Loaded? && LoggedIn(attempt.content, user)
    ensures Mark(r.success) + Label(index) + " " <= r.message
    ensures attempt.Threw? ==> |attempt.error| < |r.message|
                               && r.message[|r.message| - |attempt.error|..] == attempt.error
  {
    var id := Label(index);
    match attempt
    case Loaded(content) =>
      if LoggedIn(content, user) then LoginResult(id, true, "✅ " + id + " 登录成功")
      else LoginResult(id, false, "❌ " + id + " 登录失败")
    case Threw(error) =>
      LoginResult(id, false, "❌ " + id + " 登录异常: " + error)
  }

  /** The message logged for an attempt; an error contributes only its first line. */
  function AttemptLogMessage(user: string, index: nat, attempt: Attempt): (m: string)
    ensures Label(index) + " " <= m
    ensures Newline !in m
  {
    var id := Label(index);
    match attempt
    case Loaded(content) => if LoggedIn(content, user) then id + " 登录成功" else id + " 登录失败"
    case Threw(error) => id + " 登录异常: " + FirstField(error, Newline)
  }

  /**
   * `loginWithAccount(user, pass, index)`. The password is only typed into
   * the page, which `session` stands for, so it does not appear here. A
   * launch failure rejects the call with the error and writes nothing.
   */
  method LoginWithAccount(log: LogFile, user: string, index: nat, session: Session, today: string)
    returns (outcome: Result<LoginResult, string>)
    modifies log
    ensures session.LaunchFailed? ==> outcome == Err(session.error) && log.content == old(log.content)
    ensures session.Launched? ==>
              && outcome == Ok(AttemptResult(user, index, session.attempt))
              && log.content
                 == Some(old(log.content).GetOr([])
                         + LogLine(today, AttemptLogMessage(user, index, session.attempt)))
  {
    var accountId := Label(index);
    if session.LaunchFailed? {
      return Err(session.error);
    }
    var result := LoginResult(accountId, false, "");
    match session.attempt {
      case Loaded(pageContent) =>
        if Contains(pageContent, SuccessMarker) || Contains(pageContent, user) {
          result := result.(success := true);
          result := result.(message := "✅ " + accountId + " 登录成功");
          log.Write(today, accountId + " 登录成功");
        } else {
          result := result.(message := "❌ " + accountId + " 登录失败");
          log.Write(today, accountId + " 登录失败");
        }
      case Threw(error) =>
        result := result.(message := "❌ " + accountId + " 登录异常: " + error);
        log.Write(today, accountId + " 登录异常: " + FirstField(error, Newline));
    }
    outcome := Ok(result);
  }

  /**
   * The logged message is the result's message without its mark, unless an
   * error message spans several lines (then only its first line is logged).
   */
  lemma LogMessageMatchesResult(user: string, index: nat, attempt: Attempt)
    requires attempt.Threw? ==> Newline !in attempt.error
    ensures var r := AttemptResult(user, index, attempt);
            r.message == Mark(r.success) + AttemptLogMessage(user, index, attempt)
  {
    if attempt.Threw? {
      FirstFieldWhole(attempt.error, Newline);
    }
  }

  /** A page that shows the marker is a success whatever the user name. */
  lemma MarkerMeansSuccess(user: string, index: nat, before: string, after: string)
    ensures AttemptResult(user, index, Loaded(before + SuccessMarker + after)).success
  {
    ContainsInfix(before, SuccessMarker, after);
  }

  /** A thrown error is a failure whatever it says, and the result keeps the whole message. */
  lemma ErrorMeansFailure(user: string, index: nat, error: string)
    ensures var r := AttemptResult(user, index, Threw(error));
            !r.success && r.message == "❌ " + Label(index) + " 登录异常: " + error
  {
  }
}
