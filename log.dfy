/**
 * The login history file `login_history.log`: one line per event, written as
 * `<date>: <message>`, and pruned at start-up to the lines whose date is
 * within the retention window.
 *
 * The clock and JavaScript's `Date` are parameters here: the date text a
 * line is written with, the parse of a line's date token (`None` where
 * `new Date(...)` gives an invalid date, whose comparisons are all false),
 * and the threshold the parsed value is compared with (the moment 90 days
 * before now).
 */
module Log {
  import opened Wrappers
  import opened Text

  const Newline: char := '\n'

  /** `${dateStr}: ${message}\n`: one entry as `writeLog` appends it. */
  function LogLine(date: string, message: string): (line: string)
    ensures date + ": " <= line
    ensures line[|line| - 1] == Newline
  {
    date + ": " + message + [Newline]
  }

  /** The date token of a line: `line.split(':')[0]`. */
  function DateToken(line: string): (token: string)
    ensures token <= line && ':' !in token
  {
    FirstField(line, ':')
  }

  /**
   * The rotation filter: a line is kept when it is not blank and its date
   * token parses to a time at or after the threshold. An unparsable date
   * drops the line.
   */
  predicate Retained(line: string, parse: string -> Option<int>, threshold: int)
  {
    && Trim(line) != []
    && match parse(DateToken(line))
       case Some(t) => t >= threshold
       case None => false
  }

  /** `lines.filter(keep)`: the lines `keep` accepts, in their original order. */
  function Select(lines: seq<string>, keep: string -> bool): (kept: seq<string>)
    ensures |kept| <= |lines|
  {
    if lines == [] then []
    else (if keep(lines[0]) then [lines[0]] else []) + Select(lines[1..], keep)
  }

  /** The lines rotation keeps: `lines.filter(...)` with the rotation filter. */
  function RetainedLines(lines: seq<string>, parse: string -> Option<int>, threshold: int): (kept: seq<string>)
    ensures |kept| <= |lines|
  {
    Select(lines, line => Retained(line, parse, threshold))
  }

  /** The lines of a file's text: `content.split('\n')`. */
  function Lines(content: string): (lines: seq<string>)
    ensures |lines| >= 1
  {
    Split(content, {Newline})
  }

  /** No line contains `\n`. */
  lemma LinesFree(content: string)
    ensures forall i :: 0 <= i < |Lines(content)| ==> Newline !in Lines(content)[i]
  {
    SplitFieldsFree(content, {Newline});
    forall i | 0 <= i < |Lines(content)| ensures Newline !in Lines(content)[i] {
      assert Free(Lines(content)[i], {Newline});
    }
  }

  /** The lines rotation keeps from a file's text. */
  function KeptLines(content: string, parse: string -> Option<int>, threshold: int): seq<string>
  {
    RetainedLines(Lines(content), parse, threshold)
  }

  /**
   * The text the file is rewritten with: the kept lines joined by `\n`, and
   * a final `\n` only when at least one line was kept.
   */
  function Render(kept: seq<string>): (text: string)
    ensures text == [] <==> kept == []
    ensures text != [] ==> text[|text| - 1] == Newline
  {
    Join(kept, Newline) + (if |kept| > 0 then [Newline] else [])
  }

  /** The rewritten text of a log whose text was `content`. */
  function RotatedText(content: string, parse: string -> Option<int>, threshold: int): string
  {
    Render(KeptLines(content, parse, threshold))
  }

  /** The file after `rotateLog`: untouched (not created) when it does not exist. */
  function RotatedFile(file: Option<string>, parse: string -> Option<int>, threshold: int): (r: Option<string>)
    ensures r.None? <==> file.None?
  {
    match file
    case None => None
    case Some(content) => Some(RotatedText(content, parse, threshold))
  }

  /** The log file: its text, or `None` while the file does not exist. */
  class LogFile {
    var content: Option<string>

    constructor (initial: Option<string>)
      ensures content == initial
    {
      content := initial;
    }

    /** `rotateLog()`: rewrite the file with only the retained lines. */
    method Rotate(parse: string -> Option<int>, threshold: int)
      modifies this
      ensures content == RotatedFile(old(content), parse, threshold)
    {
      if content.Some? {
        var lines := Lines(content.value);
        var recent := RetainedLines(lines, parse, threshold);
        content := Some(Join(recent, Newline) + (if |recent| > 0 then [Newline] else []));
      }
    }

    /** `writeLog(message)`: append one entry, creating the file if need be. */
    method Write(date: string, message: string)
      modifies this
      ensures content == Some(old(content).GetOr([]) + LogLine(date, message))
    {
      content := Some(content.GetOr([]) + LogLine(date, message));
    }
  }

  // ---------------------------------------------------------------- lemmas

  /** A line is selected exactly when it is one of the lines and `keep` accepts it. */
  lemma {:induction false} SelectMember(lines: seq<string>, keep: string -> bool, x: string)
    ensures x in Select(lines, keep) <==> x in lines && keep(x)
  {
    if lines != [] {
      SelectMember(lines[1..], keep, x);
      assert lines == [lines[0]] + lines[1..];
    }
  }

  /** Every selected line is accepted by `keep`. */
  lemma {:induction false} SelectAccepted(lines: seq<string>, keep: string -> bool)
    ensures forall i :: 0 <= i < |Select(lines, keep)| ==> keep(Select(lines, keep)[i])
  {
    if lines != [] {
      SelectAccepted(lines[1..], keep);
    }
  }

  /** Selection treats lines independently and keeps their order. */
  lemma {:induction false} SelectAppend(a: seq<string>, b: seq<string>, keep: string -> bool)
    ensures Select(a + b, keep) == Select(a, keep) + Select(b, keep)
  {
    if a == [] {
      assert a + b == b;
    } else {
      var head := if keep(a[0]) then [a[0]] else [];
      assert (a + b)[1..] == a[1..] + b;
      SelectAppend(a[1..], b, keep);
      calc {
        Select(a + b, keep);
        head + Select(a[1..] + b, keep);
        head + (Select(a[1..], keep) + Select(b, keep));
        (head + Select(a[1..], keep)) + Select(b, keep);
      }
    }
  }

  /** Lines that `keep` all accepts are selected as they are. */
  lemma {:induction false} SelectAll(lines: seq<string>, keep: string -> bool)
    requires forall i :: 0 <= i < |lines| ==> keep(lines[i])
    ensures Select(lines, keep) == lines
  {
    if lines != [] {
      SelectAll(lines[1..], keep);
    }
  }

  /** Selecting with a looser test and then a stricter one is selecting with the stricter one. */
  lemma {:induction false} SelectStricter(lines: seq<string>, loose: string -> bool, strict: string -> bool)
    requires forall x :: strict(x) ==> loose(x)
    ensures Select(Select(lines, loose), strict) == Select(lines, strict)
  {
    if lines != [] {
      SelectStricter(lines[1..], loose, strict);
      var head := if loose(lines[0]) then [lines[0]] else [];
      SelectAppend(head, Select(lines[1..], loose), strict);
    }
  }

  /** Selected lines contain `\n` no more than the lines they come from. */
  lemma {:induction false} SelectFree(lines: seq<string>, keep: string -> bool)
    requires forall i :: 0 <= i < |lines| ==> Newline !in lines[i]
    ensures forall i :: 0 <= i < |Select(lines, keep)| ==> Newline !in Select(lines, keep)[i]
  {
    if lines != [] {
      SelectFree(lines[1..], keep);
    }
  }

  /** A line is kept exactly when it is one of the lines and passes the rotation filter. */
  lemma RetainedMember(lines: seq<string>, parse: string -> Option<int>, threshold: int, x: string)
    ensures x in RetainedLines(lines, parse, threshold) <==> x in lines && Retained(x, parse, threshold)
  {
    SelectMember(lines, line => Retained(line, parse, threshold), x);
  }

  /** Every kept line passes the rotation filter. */
  lemma RetainedPass(lines: seq<string>, parse: string -> Option<int>, threshold: int)
    ensures forall i :: 0 <= i < |RetainedLines(lines, parse, threshold)| ==>
              Retained(RetainedLines(lines, parse, threshold)[i], parse, threshold)
  {
    SelectAccepted(lines, line => Retained(line, parse, threshold));
  }

  /** The rotation filter treats lines independently and keeps their order. */
  lemma RetainedAppend(a: seq<string>, b: seq<string>, parse: string -> Option<int>, threshold: int)
    ensures RetainedLines(a + b, parse, threshold)
         == RetainedLines(a, parse, threshold) + RetainedLines(b, parse, threshold)
  {
    SelectAppend(a, b, line => Retained(line, parse, threshold));
  }

  /** Lines that all pass the rotation filter are kept as they are. */
  lemma RetainedAll(lines: seq<string>, parse: string -> Option<int>, threshold: int)
    requires forall i :: 0 <= i < |lines| ==> Retained(lines[i], parse, threshold)
    ensures RetainedLines(lines, parse, threshold) == lines
  {
    SelectAll(lines, line => Retained(line, parse, threshold));
  }

  /** Filtering with an earlier threshold and then a later one is filtering with the later one. */
  lemma RetainedLater(lines: seq<string>, parse: string -> Option<int>, earlier: int, later: int)
    requires earlier <= later
    ensures RetainedLines(RetainedLines(lines, parse, earlier), parse, later)
         == RetainedLines(lines, parse, later)
  {
    SelectStricter(lines, line => Retained(line, parse, earlier), line => Retained(line, parse, later));
  }

  lemma RetainedFree(lines: seq<string>, parse: string -> Option<int>, threshold: int)
    requires forall i :: 0 <= i < |lines| ==> Newline !in lines[i]
    ensures forall i :: 0 <= i < |RetainedLines(lines, parse, threshold)| ==>
              Newline !in RetainedLines(lines, parse, threshold)[i]
  {
    SelectFree(lines, line => Retained(line, parse, threshold));
  }

  /** The empty line after a final `\n` never passes the filter. */
  lemma EmptyNotRetained(parse: string -> Option<int>, threshold: int)
    ensures !Retained("", parse, threshold)
  {
    TrimEmptyIffBlank("");
  }

  /** Whatever text follows rendered lines, its lines come after them. */
  lemma LinesAfterRender(kept: seq<string>, rest: string)
    requires forall i :: 0 <= i < |kept| ==> Newline !in kept[i]
    ensures Lines(Render(kept) + rest) == kept + Lines(rest)
  {
    if kept == [] {
      assert Render(kept) + rest == rest;
    } else {
      SplitJoin(kept, Newline, {Newline});
      assert Render(kept) + rest == Join(kept, Newline) + [Newline] + rest;
      SplitAppend(Join(kept, Newline), Newline, rest, {Newline});
    }
  }

  /** Rotating rendered lines keeps those of them that pass the filter. */
  lemma KeptOfRender(kept: seq<string>, parse: string -> Option<int>, threshold: int)
    requires forall i :: 0 <= i < |kept| ==> Newline !in kept[i]
    ensures KeptLines(Render(kept), parse, threshold) == RetainedLines(kept, parse, threshold)
  {
    LinesAfterRender(kept, []);
    assert Render(kept) + [] == Render(kept);
    assert Lines([]) == [""];
    RetainedAppend(kept, [""], parse, threshold);
    EmptyNotRetained(parse, threshold);
  }

  /** Reading the rewritten file back gives the kept lines and, after the final `\n`, an empty one. */
  lemma RotatedLines(content: string, parse: string -> Option<int>, threshold: int)
    ensures var kept := KeptLines(content, parse, threshold);
            Lines(RotatedText(content, parse, threshold)) == kept + [""]
  {
    var kept := KeptLines(content, parse, threshold);
    LinesFree(content);
    RetainedFree(Lines(content), parse, threshold);
    LinesAfterRender(kept, []);
    assert Render(kept) + [] == Render(kept);
  }

  /** Rotating twice with the same threshold is rotating once. */
  lemma RotateIdempotent(content: string, parse: string -> Option<int>, threshold: int)
    ensures var once := RotatedText(content, parse, threshold);
            RotatedText(once, parse, threshold) == once
  {
    var kept := KeptLines(content, parse, threshold);
    LinesFree(content);
    RetainedFree(Lines(content), parse, threshold);
    KeptOfRender(kept, parse, threshold);
    RetainedPass(Lines(content), parse, threshold);
    RetainedAll(kept, parse, threshold);
  }

  /** Rotating with an earlier threshold and then a later one is rotating with the later one. */
  lemma RotateLater(content: string, parse: string -> Option<int>, earlier: int, later: int)
    requires earlier <= later
    ensures RotatedText(RotatedText(content, parse, earlier), parse, later)
         == RotatedText(content, parse, later)
  {
    var kept := KeptLines(content, parse, earlier);
    LinesFree(content);
    RetainedFree(Lines(content), parse, earlier);
    KeptOfRender(kept, parse, later);
    RetainedLater(Lines(content), parse, earlier, later);
  }

  /** The date token of a written entry is the date it was written with. */
  lemma EntryDate(date: string, message: string)
    requires ':' !in date
    ensures DateToken(date + ": " + message) == date
    ensures DateToken(LogLine(date, message)) == date
  {
    var entry := date + ": " + message;
    assert entry[..|date|] == date && entry[|date|] == ':';
    FirstFieldIs(entry, ':', |date|);
    var line := LogLine(date, message);
    assert line[..|date|] == date && line[|date|] == ':';
    FirstFieldIs(line, ':', |date|);
  }

  /** A written entry is one line (and the empty text after its `\n`). */
  lemma LogLineLines(date: string, message: string)
    requires Newline !in date && Newline !in message
    ensures Lines(LogLine(date, message)) == [date + ": " + message, ""]
  {
    var body := date + ": " + message;
    assert Free(body, {Newline});
    SplitAppend(body, Newline, [], {Newline});
    SplitFree(body, {Newline});
    assert LogLine(date, message) == body + [Newline] + [];
  }

  /** A written entry passes the filter exactly when its date parses to a time at or after the threshold. */
  lemma EntryRetained(date: string, message: string, parse: string -> Option<int>, threshold: int)
    requires ':' !in date
    ensures var entry := date + ": " + message;
            Retained(entry, parse, threshold)
            <==> parse(date).Some? && parse(date).value >= threshold
  {
    var entry := date + ": " + message;
    EntryDate(date, message);
    assert entry[|date|] == ':';
    NotBlank(entry, |date|);
  }

  /** Text with a character that is not whitespace does not trim to nothing. */
  lemma NotBlank(s: string, k: nat)
    requires k < |s| && !IsWhitespace(s[k])
    ensures Trim(s) != []
  {
    TrimEmptyIffBlank(s);
  }

  /** Rendering one more line appends it with its `\n`. */
  lemma RenderSnoc(kept: seq<string>, line: string)
    ensures Render(kept + [line]) == Render(kept) + line + [Newline]
  {
    if kept != [] {
      JoinSnoc(kept, line, Newline);
    } else {
      assert kept + [line] == [line];
    }
  }

  /** The lines of rendered lines followed by a new entry. */
  lemma EntryLines(kept: seq<string>, date: string, message: string)
    requires forall i :: 0 <= i < |kept| ==> Newline !in kept[i]
    requires Newline !in date && Newline !in message
    ensures Lines(Render(kept) + LogLine(date, message)) == (kept + [date + ": " + message]) + [""]
  {
    LinesAfterRender(kept, LogLine(date, message));
    LogLineLines(date, message);
  }

  /** Lines that all pass the filter, then the empty text after the final `\n`, keep those lines. */
  lemma RetainedWithTrailer(lines: seq<string>, parse: string -> Option<int>, threshold: int)
    requires forall i :: 0 <= i < |lines| ==> Retained(lines[i], parse, threshold)
    ensures RetainedLines(lines + [""], parse, threshold) == lines
  {
    EmptyNotRetained(parse, threshold);
    RetainedAppend(lines, [""], parse, threshold);
    RetainedAll(lines, parse, threshold);
    assert RetainedLines([""], parse, threshold) == [];
  }

  lemma RetainedSnoc(lines: seq<string>, line: string, parse: string -> Option<int>, threshold: int)
    requires forall i :: 0 <= i < |lines| ==> Retained(lines[i], parse, threshold)
    requires Retained(line, parse, threshold)
    ensures forall i :: 0 <= i < |lines + [line]| ==> Retained((lines + [line])[i], parse, threshold)
  {
    forall i | 0 <= i < |lines + [line]| ensures Retained((lines + [line])[i], parse, threshold) {
      if i < |lines| { assert (lines + [line])[i] == lines[i]; }
    }
  }

  /** The lines rotation keeps from the rotated file followed by a new entry. */
  lemma KeptAfterEntry(kept: seq<string>, date: string, message: string,
                       parse: string -> Option<int>, threshold: int)
    requires forall i :: 0 <= i < |kept| ==> Newline !in kept[i] && Retained(kept[i], parse, threshold)
    requires ':' !in date && Newline !in date && Newline !in message
    requires parse(date).Some? && parse(date).value >= threshold
    ensures KeptLines(Render(kept) + LogLine(date, message), parse, threshold)
         == kept + [date + ": " + message]
  {
    var lines := kept + [date + ": " + message];
    EntryLines(kept, date, message);
    EntryRetained(date, message, parse, threshold);
    RetainedSnoc(kept, date + ": " + message, parse, threshold);
    RetainedWithTrailer(lines, parse, threshold);
  }

  /**
   * An entry written with a date inside the window survives the next
   * rotation: rotating the rotated file plus the new entry changes nothing.
   */
  lemma EntrySurvivesRotation(content: string, date: string, message: string,
                              parse: string -> Option<int>, threshold: int)
    requires ':' !in date && Newline !in date && Newline !in message
    requires parse(date).Some? && parse(date).value >= threshold
    ensures var file := RotatedText(content, parse, threshold) + LogLine(date, message);
            RotatedText(file, parse, threshold) == file
  {
    var kept := KeptLines(content, parse, threshold);
    LinesFree(content);
    RetainedFree(Lines(content), parse, threshold);
    RetainedPass(Lines(content), parse, threshold);
    KeptAfterEntry(kept, date, message, parse, threshold);
    RenderSnoc(kept, date + ": " + message);
    assert LogLine(date, message) == (date + ": " + message) + [Newline];
  }
}
