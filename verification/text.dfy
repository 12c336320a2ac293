/** Python's string splitting as the export parser uses it: `str.split` with a
    one-character separator, and `str.splitlines` with '\n' as the only line
    break. Both are given together with their inverses (joining) and the
    round-trip lemmas that connect the two directions. */
module Text {

  /** Number of occurrences of `c` in `s`. */
  function Count(s: string, c: char): nat {
    multiset(s)[c]
  }

  /** `s.split(sep)`: the maximal separator-free pieces of `s`, in order.
      There is always at least one piece, and one more piece than there are
      separators. */
  function Split(s: string, sep: char): (pieces: seq<string>)
    ensures |pieces| >= 1
    ensures forall i :: 0 <= i < |pieces| ==> sep !in pieces[i]
    decreases |s|
  {
    if |s| == 0 then [""]
    else
      var rest := Split(s[1..], sep);
      if s[0] == sep then [""] + rest
      else [[s[0]] + rest[0]] + rest[1..]
  }

  /** There is one more piece than there are separators. */
  lemma {:induction false} SplitCount(s: string, sep: char)
    ensures |Split(s, sep)| == Count(s, sep) + 1
    decreases |s|
  {
    if |s| > 0 {
      SplitCount(s[1..], sep);
      assert s == [s[0]] + s[1..];
    }
  }

  /** `sep.join(pieces)`: the inverse of `Split`. */
  function Join(pieces: seq<string>, sep: char): string
    requires |pieces| >= 1
    decreases |pieces|
  {
    if |pieces| == 1 then pieces[0]
    else pieces[0] + [sep] + Join(pieces[1..], sep)
  }

  /** A string without a separator is a single piece. */
  lemma {:induction false} SplitNoSeparator(s: string, sep: char)
    requires sep !in s
    ensures Split(s, sep) == [s]
    decreases |s|
  {
    if |s| > 0 {
      SplitNoSeparator(s[1..], sep);
      assert [s[0]] + s[1..] == s;
    }
  }

  /** A separator-free prefix followed by a separator is split off as the
      first piece. */
  lemma {:induction false} SplitCons(a: string, sep: char, b: string)
    requires sep !in a
    ensures Split(a + [sep] + b, sep) == [a] + Split(b, sep)
    decreases |a|
  {
    var s := a + [sep] + b;
    if |a| == 0 {
      assert s[1..] == b;
    } else {
      SplitCons(a[1..], sep, b);
      assert s[1..] == a[1..] + [sep] + b;
      assert [a[0]] + a[1..] == a;
    }
  }

  /** A leading separator opens an empty first piece. */
  lemma SplitLeadingSeparator(b: string, sep: char)
    ensures Split([sep] + b, sep) == [""] + Split(b, sep)
  {
    assert ([sep] + b)[1..] == b;
  }

  /** Gluing a prefix onto the first piece glues it onto the join. */
  lemma JoinGlue(x: string, pieces: seq<string>, sep: char)
    requires |pieces| >= 1
    ensures Join([x + pieces[0]] + pieces[1..], sep) == x + Join(pieces, sep)
  {
    var glued := [x + pieces[0]] + pieces[1..];
    assert glued[1..] == pieces[1..];
  }

  /** An empty first piece contributes only its separator. */
  lemma JoinEmptyFirst(pieces: seq<string>, sep: char)
    requires |pieces| >= 1
    ensures Join([""] + pieces, sep) == [sep] + Join(pieces, sep)
  {
    assert ([""] + pieces)[1..] == pieces;
  }

  /** Joining the pieces of `s` gives `s` back. */
  lemma {:induction false} JoinSplit(s: string, sep: char)
    ensures Join(Split(s, sep), sep) == s
    decreases |s|
  {
    if |s| > 0 {
      JoinSplit(s[1..], sep);
      var rest := Split(s[1..], sep);
      assert [s[0]] + s[1..] == s;
      if s[0] == sep {
        JoinEmptyFirst(rest, sep);
      } else {
        JoinGlue([s[0]], rest, sep);
      }
    }
  }

  /** Splitting a join of separator-free pieces gives the pieces back. */
  lemma {:induction false} SplitJoin(pieces: seq<string>, sep: char)
    requires |pieces| >= 1
    requires forall i :: 0 <= i < |pieces| ==> sep !in pieces[i]
    ensures Split(Join(pieces, sep), sep) == pieces
    decreases |pieces|
  {
    if |pieces| == 1 {
      SplitNoSeparator(pieces[0], sep);
    } else {
      SplitJoin(pieces[1..], sep);
      SplitCons(pieces[0], sep, Join(pieces[1..], sep));
      assert [pieces[0]] + pieces[1..] == pieces;
    }
  }

  /** `text.splitlines()` when '\n' is the only line break: the lines of
      `text` without their terminators; an empty text has no lines and a
      final '\n' does not open an empty last line. */
  function Lines(text: string): (lines: seq<string>)
    ensures |lines| == 0 <==> |text| == 0
    ensures forall i :: 0 <= i < |lines| ==> '\n' !in lines[i]
    decreases |text|
  {
    if |text| == 0 then []
    else
      var rest := Lines(text[1..]);
      if text[0] == '\n' then [""] + rest
      else if |rest| == 0 then [[text[0]]]
      else [[text[0]] + rest[0]] + rest[1..]
  }

  /** A non-empty text without a break is one line. */
  lemma {:induction false} LinesNoBreak(text: string)
    requires |text| > 0 && '\n' !in text
    ensures Lines(text) == [text]
    decreases |text|
  {
    assert text[0] in text;
    if |text| > 1 {
      LinesNoBreak(text[1..]);
      assert [text[0]] + text[1..] == text;
    } else {
      assert text == [text[0]];
    }
  }

  /** Every line followed by its '\n' terminator, concatenated: the inverse
      of `Lines`. */
  function Terminated(lines: seq<string>): string
    decreases |lines|
  {
    if |lines| == 0 then "" else lines[0] + "\n" + Terminated(lines[1..])
  }

  /** A line without a break, then a '\n', is the first line. */
  lemma {:induction false} LinesCons(line: string, text: string)
    requires '\n' !in line
    ensures Lines(line + "\n" + text) == [line] + Lines(text)
    decreases |line|
  {
    var s := line + "\n" + text;
    if |line| == 0 {
      assert s[1..] == text;
    } else {
      LinesCons(line[1..], text);
      assert s[1..] == line[1..] + "\n" + text;
      assert [line[0]] + line[1..] == line;
    }
  }

  /** Reading back terminated lines gives the lines. */
  lemma {:induction false} LinesTerminated(lines: seq<string>)
    requires forall i :: 0 <= i < |lines| ==> '\n' !in lines[i]
    ensures Lines(Terminated(lines)) == lines
    decreases |lines|
  {
    if |lines| > 0 {
      LinesTerminated(lines[1..]);
      LinesCons(lines[0], Terminated(lines[1..]));
      assert [lines[0]] + lines[1..] == lines;
    }
  }

  /** Regrouping a concatenation of four strings, kept as a lemma of its own
      so that the solver meets it once rather than inside a larger proof. */
  lemma Reassociate(a: string, b: string, c: string, d: string)
    ensures ((a + b) + c) + d == a + ((b + c) + d)
  {
  }

  /** Gluing a prefix onto the first line glues it onto the terminated
      text. */
  lemma TerminatedGlue(x: string, lines: seq<string>)
    requires |lines| > 0
    ensures Terminated([x + lines[0]] + lines[1..]) == x + Terminated(lines)
  {
    var glued := [x + lines[0]] + lines[1..];
    var t := Terminated(lines[1..]);
    calc {
      Terminated(glued);
      { assert glued[1..] == lines[1..]; }
      (x + lines[0]) + "\n" + t;
      { Reassociate(x, lines[0], "\n", t); }
      x + (lines[0] + "\n" + t);
      x + Terminated(lines);
    }
  }

  /** Unless `text` is one character that is not a break, its first
      character leads the re-terminated lines. */
  lemma TerminatedLinesStep(text: string)
    requires |text| > 1 || (|text| == 1 && text[0] == '\n')
    ensures Terminated(Lines(text)) == [text[0]] + Terminated(Lines(text[1..]))
  {
    var rest := Lines(text[1..]);
    if text[0] == '\n' {
      assert ([""] + rest)[1..] == rest;
    } else {
      TerminatedGlue([text[0]], rest);
    }
  }

  /** Re-terminating the lines of `text` restores `text`, up to the '\n'
      that `splitlines` lets the last line omit. */
  lemma {:induction false} TerminatedLines(text: string)
    ensures Terminated(Lines(text)) ==
            (if |text| == 0 || text[|text| - 1] == '\n' then text else text + "\n")
    decreases |text|
  {
    if |text| == 1 && text[0] != '\n' {
      assert text == [text[0]];
    } else if |text| > 0 {
      var tail := text[1..];
      TerminatedLines(tail);
      TerminatedLinesStep(text);
      assert [text[0]] + tail == text;
      if |tail| > 0 {
        assert text[|text| - 1] == tail[|tail| - 1];
      }
    }
  }
}
