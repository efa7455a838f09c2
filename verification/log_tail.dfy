/**
 The fingerprint the log tail engine computes from one log buffer
 (`getLastLogTimeStamp` in internal/api.go). The buffer is split on newlines,
 the last line is selected (skipping one trailing empty piece), and the
 fingerprint is the first thirty bytes of that line, or empty when the line
 is shorter. With `docker logs --timestamps` those thirty bytes are the
 RFC 3339 timestamp that starts every line, hence the source's name.
 */
module LogTail {
  import opened GoStrings

  const Newline: char := '\n'

  /** Bytes of the selected line kept in a fingerprint. */
  const FingerprintWidth: nat := 30

  /** A fingerprint is either empty or exactly `FingerprintWidth` bytes. */
  predicate WellFormedFingerprint(fp: string)
  {
    |fp| == 0 || |fp| == FingerprintWidth
  }

  /** The text with one trailing newline removed, if it ends in one. */
  function DropTrailingNewline(s: string): string
  {
    if |s| > 0 && s[|s| - 1] == Newline then s[..|s| - 1] else s
  }

  /**
   Reference definition of the line the engine looks at: what follows the
   last newline, once a single trailing newline has been dropped.
   */
  function TailLine(logs: string): string
  {
    AfterLast(DropTrailingNewline(logs), Newline)
  }

  /**
   The line selection of `getLastLogTimeStamp`: split on newlines and take
   the last piece, or the one before it when the last piece is empty and
   there is more than one. `Split` never returns an empty list, so the
   source's `len(lines) > 0` guard always holds and is not repeated here.
   The selected line never holds a newline; `LastLineIsTailLine` and
   `TrailingNewlineSkipped` state which line it is.
   */
  function LastLine(logs: string): (line: string)
    ensures Newline !in line
  {
    var lines := Split(logs, Newline);
    assert NoSep(lines, Newline) by { SplitPiecesNoSep(logs, Newline); }
    if lines[|lines| - 1] == "" && |lines| > 1 then lines[|lines| - 2]
    else lines[|lines| - 1]
  }

  /** The selected line is the reference tail line. */
  lemma LastLineIsTailLine(logs: string)
    ensures LastLine(logs) == TailLine(logs)
  {
    if |logs| > 0 && logs[|logs| - 1] == Newline {
      var u := logs[..|logs| - 1];
      assert logs == u + [Newline];
      TailLineWithTrailingNewline(u);
    } else {
      TailLineWithoutTrailingNewline(logs);
    }
  }

  lemma TailLineWithTrailingNewline(u: string)
    ensures LastLine(u + [Newline]) == TailLine(u + [Newline])
  {
    var logs := u + [Newline];
    assert logs[..|logs| - 1] == u;
    assert DropTrailingNewline(logs) == u;
    var ps := Split(u, Newline);
    SplitTrailingSep(u, Newline);
    var lines := Split(logs, Newline);
    assert lines == ps + [""];
    assert lines[|lines| - 2] == ps[|ps| - 1];
    LastOfSplit(u, Newline);
  }

  lemma TailLineWithoutTrailingNewline(logs: string)
    requires |logs| == 0 || logs[|logs| - 1] != Newline
    ensures LastLine(logs) == TailLine(logs)
  {
    assert DropTrailingNewline(logs) == logs;
    if |logs| > 0 {
      LastOfSplit(logs, Newline);
      assert AfterLast(logs, Newline) != "";
      var lines := Split(logs, Newline);
      assert lines[|lines| - 1] != "";
      assert LastLine(logs) == lines[|lines| - 1];
    } else {
      assert Split(logs, Newline) == [""];
    }
  }

  /**
   `getLastLogTimeStamp`: the first `FingerprintWidth` bytes of the selected
   line, or the empty string when that line is shorter.
   */
  function Fingerprint(logs: string): (fp: string)
    ensures WellFormedFingerprint(fp)
  {
    var line := LastLine(logs);
    if line != "" && |line| >= FingerprintWidth then line[..FingerprintWidth] else ""
  }

  /**
   The fingerprint is non-empty exactly when the tail line has at least
   `FingerprintWidth` bytes, and then it is that line's prefix; it never
   holds a newline.
   */
  lemma FingerprintSpec(logs: string)
    ensures Fingerprint(logs) != "" <==> |TailLine(logs)| >= FingerprintWidth
    ensures Fingerprint(logs) != "" ==> Fingerprint(logs) == TailLine(logs)[..FingerprintWidth]
    ensures Newline !in Fingerprint(logs)
  {
    LastLineIsTailLine(logs);
  }

  /**
   The thirty-byte rule read directly on the selected line: a non-empty
   fingerprint is its prefix. `FingerprintSpec` states the same against the
   independent `TailLine`.
   */
  lemma FingerprintIsLinePrefix(logs: string)
    ensures Fingerprint(logs) != "" ==>
              |LastLine(logs)| >= FingerprintWidth && Fingerprint(logs) == LastLine(logs)[..FingerprintWidth]
    ensures |LastLine(logs)| < FingerprintWidth ==> Fingerprint(logs) == ""
  {
  }

  /** `sub` occurs somewhere in `s`. */
  ghost predicate Occurs(sub: string, s: string)
  {
    exists k :: 0 <= k <= |s| && sub <= s[k..]
  }

  /** Every slice of `s` occurs in `s`. */
  lemma OccursOfSlice(s: string, k: nat, n: nat)
    requires k + n <= |s|
    ensures Occurs(s[k..k + n], s)
  {
    assert s[k..k + n] <= s[k..];
  }

  /** A non-empty fingerprint occurs in the log text itself. */
  lemma FingerprintOccursInLogs(logs: string)
    ensures Fingerprint(logs) != "" ==> Occurs(Fingerprint(logs), logs)
  {
    var fp := Fingerprint(logs);
    FingerprintSpec(logs);
    if fp != "" {
      var d := DropTrailingNewline(logs);
      var line := AfterLast(d, Newline);
      var k := |d| - |line|;
      assert line == d[k..];
      assert d == logs[..|d|];
      assert fp == logs[k..k + FingerprintWidth];
      OccursOfSlice(logs, k, FingerprintWidth);
    }
  }

  /** With one trailing newline the line before it is selected. */
  lemma TrailingNewlineSkipped(t: string)
    ensures LastLine(t + [Newline]) == AfterLast(t, Newline)
    ensures Newline !in t ==> LastLine(t + [Newline]) == t
  {
    LastLineIsTailLine(t + [Newline]);
    assert (t + [Newline])[..|t|] == t;
  }

  /** The worked example of the trailing-newline rule: `"a\nb\n"` selects `"b"`. */
  lemma TrailingNewlineExample()
    ensures LastLine("a\nb\n") == "b"
  {
    TrailingNewlineSkipped("a\nb");
    assert "a\nb"[..2] == "a\n";
    assert AfterLast("a\n", Newline) == "";
  }

  /** Only one trailing empty piece is skipped: two newlines select an empty line. */
  lemma DoubleNewlineGivesEmpty(t: string)
    ensures LastLine(t + [Newline, Newline]) == ""
    ensures Fingerprint(t + [Newline, Newline]) == ""
  {
    var s := t + [Newline, Newline];
    LastLineIsTailLine(s);
    assert DropTrailingNewline(s) == t + [Newline];
  }

  /** The empty buffer has an empty selected line and an empty fingerprint. */
  lemma EmptyLogsGiveEmpty()
    ensures LastLine("") == "" && Fingerprint("") == ""
  {
  }
}
