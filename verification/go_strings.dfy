/**
 This module models the part of Go's `strings` package that the log tail
 engine relies on: `strings.Split` with a one-character separator, and its
 inverse `strings.Join`. Go strings are byte strings; here a `char` stands
 for one byte, so `|s|` is Go's `len(s)`.
 */
module GoStrings {

  /** Number of occurrences of `c` in `s`. */
  function Count(s: string, c: char): (n: nat)
    ensures n <= |s|
    ensures n == 0 <==> c !in s
  {
    if |s| == 0 then 0
    else
      assert s == [s[0]] + s[1..];
      (if s[0] == c then 1 else 0) + Count(s[1..], c)
  }

  /** True when no part contains the separator. */
  predicate NoSep(parts: seq<string>, sep: char)
  {
    forall i :: 0 <= i < |parts| ==> sep !in parts[i]
  }

  /** Concatenates `parts`, putting one `sep` between neighbours. */
  function Join(parts: seq<string>, sep: char): string
  {
    if |parts| == 0 then ""
    else if |parts| == 1 then parts[0]
    else parts[0] + [sep] + Join(parts[1..], sep)
  }

  /**
   Go's `strings.Split(s, string(sep))`: the maximal separator-free pieces of
   `s`, in order. The result is never empty; in particular
   `Split("", sep) == [""]`. `SplitCount`, `SplitPiecesNoSep` and `JoinSplit`
   state the rest of its meaning.
   */
  function Split(s: string, sep: char): (parts: seq<string>)
    ensures |parts| >= 1
    decreases |s|
  {
    if |s| == 0 then [""]
    else
      var rest := Split(s[1..], sep);
      if s[0] == sep then [""] + rest
      else [[s[0]] + rest[0]] + rest[1..]
  }

  /** Split yields one more piece than there are separators. */
  lemma {:induction false} SplitCount(s: string, sep: char)
    ensures |Split(s, sep)| == Count(s, sep) + 1
    decreases |s|
  {
    if |s| > 0 {
      SplitCount(s[1..], sep);
    }
  }

  /** Prefixing a separator-free piece keeps a list separator-free. */
  lemma NoSepCons(p: string, rest: seq<string>, sep: char)
    requires sep !in p
    requires NoSep(rest, sep)
    ensures NoSep([p] + rest, sep)
  {
    var parts := [p] + rest;
    forall i | 0 < i < |parts|
      ensures sep !in parts[i]
    {
      assert parts[i] == rest[i - 1];
    }
  }

  /** No piece of a split contains the separator. */
  lemma {:induction false} SplitPiecesNoSep(s: string, sep: char)
    ensures NoSep(Split(s, sep), sep)
    decreases |s|
  {
    if |s| > 0 {
      var rest := Split(s[1..], sep);
      SplitPiecesNoSep(s[1..], sep);
      if s[0] == sep {
        NoSepCons("", rest, sep);
      } else {
        assert sep !in rest[0];
        assert NoSep(rest[1..], sep) by {
          forall i | 0 <= i < |rest[1..]|
            ensures sep !in rest[1..][i]
          {
            assert rest[1..][i] == rest[i + 1];
          }
        }
        NoSepCons([s[0]] + rest[0], rest[1..], sep);
      }
    }
  }

  /** Extending the first piece by one character extends the joined text by it. */
  lemma JoinExtendFirst(c: char, rest: seq<string>, sep: char)
    requires |rest| >= 1
    ensures Join([[c] + rest[0]] + rest[1..], sep) == [c] + Join(rest, sep)
  {
    var parts := [[c] + rest[0]] + rest[1..];
    assert parts[0] == [c] + rest[0];
    assert parts[1..] == rest[1..];
    if |rest| > 1 {
      assert ([c] + rest[0]) + [sep] + Join(rest[1..], sep) == [c] + (rest[0] + [sep] + Join(rest[1..], sep));
    }
  }

  /** An empty first piece puts a separator in front of the joined text. */
  lemma JoinEmptyFirst(rest: seq<string>, sep: char)
    requires |rest| >= 1
    ensures Join([""] + rest, sep) == [sep] + Join(rest, sep)
  {
    assert ([""] + rest)[1..] == rest;
  }

  /** Joining the pieces of a split gives back the original text. */
  lemma {:induction false} JoinSplit(s: string, sep: char)
    ensures Join(Split(s, sep), sep) == s
    decreases |s|
  {
    if |s| > 0 {
      var rest := Split(s[1..], sep);
      JoinSplit(s[1..], sep);
      assert s == [s[0]] + s[1..];
      if s[0] != sep {
        JoinExtendFirst(s[0], rest, sep);
      } else {
        JoinEmptyFirst(rest, sep);
      }
    }
  }

  /** The part of `s` after its last `sep`, or all of `s` when it has none. */
  function AfterLast(s: string, sep: char): (r: string)
    ensures |r| <= |s| && r == s[|s| - |r|..]
    ensures sep !in r
    ensures |r| < |s| ==> s[|s| - |r| - 1] == sep
    decreases |s|
  {
    if |s| == 0 then ""
    else if s[|s| - 1] == sep then ""
    else
      var init := s[..|s| - 1];
      var r := AfterLast(init, sep) + [s[|s| - 1]];
      assert s == init + [s[|s| - 1]];
      r
  }

  /** A separator-free string splits into itself alone. */
  lemma SplitNoSep(p: string, sep: char)
    requires sep !in p
    ensures Split(p, sep) == [p]
  {
    SplitCount(p, sep);
    JoinSplit(p, sep);
  }

  /** A leading separator-free piece followed by a separator splits off first. */
  lemma {:induction false} SplitAfterSep(p: string, t: string, sep: char)
    requires sep !in p
    ensures Split(p + [sep] + t, sep) == [p] + Split(t, sep)
    decreases |p|
  {
    var s := p + [sep] + t;
    if |p| == 0 {
      assert s == [sep] + t;
      assert s[1..] == t;
    } else {
      assert s[1..] == p[1..] + [sep] + t;
      SplitAfterSep(p[1..], t, sep);
      assert [p[0]] + p[1..] == p;
    }
  }

  /** Split undoes Join on every non-empty list of separator-free pieces. */
  lemma {:induction false} SplitJoin(parts: seq<string>, sep: char)
    requires |parts| >= 1
    requires NoSep(parts, sep)
    ensures Split(Join(parts, sep), sep) == parts
    decreases |parts|
  {
    if |parts| == 1 {
      SplitNoSep(parts[0], sep);
    } else {
      assert sep !in parts[0];
      SplitJoin(parts[1..], sep);
      SplitAfterSep(parts[0], Join(parts[1..], sep), sep);
      assert [parts[0]] + parts[1..] == parts;
    }
  }

  /** Appending a piece to a non-empty list appends a separator and the piece. */
  lemma {:induction false} JoinSnoc(parts: seq<string>, q: string, sep: char)
    requires |parts| >= 1
    ensures Join(parts + [q], sep) == Join(parts, sep) + [sep] + q
    decreases |parts|
  {
    if |parts| == 1 {
      assert (parts + [q])[1..] == [q];
    } else {
      assert (parts + [q])[1..] == parts[1..] + [q];
      JoinSnoc(parts[1..], q, sep);
    }
  }

  /** A trailing separator adds exactly one empty piece at the end. */
  lemma SplitTrailingSep(t: string, sep: char)
    ensures Split(t + [sep], sep) == Split(t, sep) + [""]
  {
    var ps := Split(t, sep);
    SplitPiecesNoSep(t, sep);
    JoinSplit(t, sep);
    JoinSnoc(ps, "", sep);
    assert t + [sep] == Join(ps + [""], sep);
    assert NoSep(ps + [""], sep) by {
      forall i | 0 <= i < |ps + [""]|
        ensures sep !in (ps + [""])[i]
      {
        if i < |ps| {
          assert (ps + [""])[i] == ps[i];
        }
      }
    }
    SplitJoin(ps + [""], sep);
  }

  /** A trailing non-separator character extends the last piece. */
  lemma SplitSnocChar(t: string, c: char, sep: char)
    requires c != sep
    ensures var ps := Split(t, sep);
            Split(t + [c], sep) == ps[..|ps| - 1] + [ps[|ps| - 1] + [c]]
  {
    var ps := Split(t, sep);
    var n := |ps|;
    var init := ps[..n - 1];
    var last := ps[n - 1];
    var ps' := init + [last + [c]];
    assert NoSep(ps', sep) by {
      SplitPiecesNoSep(t, sep);
      forall i | 0 <= i < |ps'|
        ensures sep !in ps'[i]
      {
        if i < n - 1 {
          assert ps'[i] == ps[i];
        } else {
          assert ps'[i] == last + [c];
        }
      }
    }
    assert Join(ps', sep) == t + [c] by {
      JoinSplit(t, sep);
      if n == 1 {
        assert ps == [last];
        assert ps' == [last + [c]];
      } else {
        assert init + [last] == ps;
        JoinSnoc(init, last, sep);
        JoinSnoc(init, last + [c], sep);
      }
    }
    SplitJoin(ps', sep);
  }

  /** The last piece of a split is the text after the last separator. */
  lemma {:induction false} LastOfSplit(t: string, sep: char)
    ensures var ps := Split(t, sep); ps[|ps| - 1] == AfterLast(t, sep)
    decreases |t|
  {
    if |t| > 0 {
      var u := t[..|t| - 1];
      var c := t[|t| - 1];
      assert t == u + [c];
      if c == sep {
        SplitTrailingSep(u, sep);
      } else {
        LastOfSplit(u, sep);
        SplitSnocChar(u, c, sep);
      }
    }
  }
}
