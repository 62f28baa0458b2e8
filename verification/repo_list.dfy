/**
  Reading the repository list: the importer iterates over the lines of the
  list file, strips each one, and keeps the non-blank results in order
  (`[line.strip() for line in file if line.strip()]`).

  The file's text is an input, taken after the text layer has turned
  every line ending into "\n"; opening and decoding the file are outside
  the model.
 */
module RepoList {
  import opened StringOps

  // ---------------------------------------------------------------------------
  // Lines of a text file, as iterating over a Python file object yields them
  // ---------------------------------------------------------------------------

  /** The position just past the first "\n" of `text`, or its length if it has none. */
  function LineEnd(text: string): (k: nat)
    requires text != []
    ensures 0 < k <= |text|
    ensures '\n' !in text[..k - 1]
    ensures k < |text| ==> text[k - 1] == '\n'
    decreases |text|
  {
    if text[0] == '\n' || |text| == 1 then 1
    else
      var k := 1 + LineEnd(text[1..]);
      assert text[..k - 1] == [text[0]] + text[1..][..k - 2];
      k
  }

  /** A line as the file iterator yields it: non-empty, with "\n" at most as its last character. */
  predicate IsLine(l: string)
  {
    l != [] && '\n' !in l[..|l| - 1]
  }

  /** Concatenation of a sequence of strings. */
  function Concat(ls: seq<string>): string
    decreases |ls|
  {
    if ls == [] then [] else ls[0] + Concat(ls[1..])
  }

  /**
    The lines of `text` in order, each with its "\n" terminator except
    possibly the last: joined back together they give the text again, and
    every line but the last ends with "\n".
   */
  function Lines(text: string): (ls: seq<string>)
    ensures Concat(ls) == text
    ensures forall i :: 0 <= i < |ls| ==> IsLine(ls[i]) && (i < |ls| - 1 ==> ls[i][|ls[i]| - 1] == '\n')
    decreases |text|
  {
    if text == [] then []
    else
      var k := LineEnd(text);
      var line, rest := text[..k], Lines(text[k..]);
      var ls := [line] + rest;
      assert ls[0] == line && ls[1..] == rest;
      assert text == line + text[k..];
      assert line[..k - 1] == text[..k - 1];
      assert IsLine(line);
      assert rest != [] ==> line[k - 1] == '\n';
      ls
  }

  // ---------------------------------------------------------------------------
  // Repository names
  // ---------------------------------------------------------------------------

  /** Non-empty, and neither starts nor ends with whitespace. */
  predicate IsTrimmed(n: string)
  {
    n != [] && !IsSpace(n[0]) && !IsSpace(n[|n| - 1])
  }

  /** What one line contributes: its stripped text, unless that is empty. */
  function Kept(line: string): (r: seq<string>)
    ensures |r| <= 1
  {
    var name := Strip(line);
    if name == [] then [] else [name]
  }

  /**
    A line contributes nothing exactly when it is whitespace only, and
    otherwise its stripped text, which is non-empty and has no whitespace
    at either end.
   */
  lemma KeptExact(line: string)
    ensures Kept(line) == [] <==> AllSpace(line)
    ensures Kept(line) != [] ==> Kept(line) == [Strip(line)] && IsTrimmed(Strip(line))
  {
    StripExact(line);
  }

  /** `[l.strip() for l in lines if l.strip()]` */
  function Names(lines: seq<string>): (names: seq<string>)
    ensures |names| <= |lines|
    decreases |lines|
  {
    if lines == [] then [] else Kept(lines[0]) + Names(lines[1..])
  }

  /** Every name is non-empty and carries no whitespace at either end. */
  lemma NamesAreTrimmed(lines: seq<string>, n: string)
    requires n in Names(lines)
    ensures IsTrimmed(n)
  {
    var i := NameSource(lines, n);
    StripExact(lines[i]);
  }

  /** The repository names listed in the file's text. */
  function RepoNames(text: string): seq<string>
  {
    Names(Lines(text))
  }

  /** Names keep the order of the lines: the names of two blocks of lines are the names of each, in turn. */
  lemma {:induction false} NamesAppend(a: seq<string>, b: seq<string>)
    ensures Names(a + b) == Names(a) + Names(b)
    decreases |a|
  {
    if a == [] {
      assert a + b == b;
    } else {
      var h := Kept(a[0]);
      assert (a + b)[0] == a[0];
      assert (a + b)[1..] == a[1..] + b;
      calc {
        Names(a + b);
        h + Names(a[1..] + b);
        { NamesAppend(a[1..], b); }
        h + (Names(a[1..]) + Names(b));
        (h + Names(a[1..])) + Names(b);
        Names(a) + Names(b);
      }
    }
  }

  /** A whitespace-only line contributes nothing, wherever it is. */
  lemma {:induction false} BlankLineDropped(a: seq<string>, l: string, b: seq<string>)
    requires AllSpace(l)
    ensures Names(a + [l] + b) == Names(a + b)
  {
    assert Strip(l) == [] by { StripExact(l); }
    assert Names([l]) == [] by {
      assert [l][0] == l;
      assert [l][1..] == [];
    }
    calc {
      Names(a + [l] + b);
      { NamesAppend(a + [l], b); }
      Names(a + [l]) + Names(b);
      { NamesAppend(a, [l]); }
      Names(a) + Names([l]) + Names(b);
      { assert Names(a) + Names([l]) == Names(a); }
      Names(a) + Names(b);
      { NamesAppend(a, b); }
      Names(a + b);
    }
  }

  /** Every name comes from a line that strips to it. */
  lemma {:induction false} NameSource(lines: seq<string>, n: string) returns (i: nat)
    requires n in Names(lines)
    ensures i < |lines| && Strip(lines[i]) == n && n != []
    decreases |lines|
  {
    var h := Kept(lines[0]);
    assert Names(lines) == h + Names(lines[1..]);
    if n in h {
      i := 0;
    } else {
      var j := NameSource(lines[1..], n);
      assert lines[1..][j] == lines[j + 1];
      i := j + 1;
    }
  }

  /** Every line that does not strip to nothing gives a name. */
  lemma {:induction false} NameOfLine(lines: seq<string>, i: nat)
    requires i < |lines| && Strip(lines[i]) != []
    ensures Strip(lines[i]) in Names(lines)
    decreases i
  {
    var h := Kept(lines[0]);
    assert Names(lines) == h + Names(lines[1..]);
    if i > 0 {
      assert lines[1..][i - 1] == lines[i];
      NameOfLine(lines[1..], i - 1);
    }
  }

  /** A name is in the result exactly when some line strips to it and it is not empty. */
  lemma NamesMembership(lines: seq<string>, n: string)
    ensures n in Names(lines) <==> exists i :: 0 <= i < |lines| && Strip(lines[i]) == n && n != []
  {
    if n in Names(lines) {
      var i := NameSource(lines, n);
    }
    if i :| 0 <= i < |lines| && Strip(lines[i]) == n && n != [] {
      NameOfLine(lines, i);
    }
  }

  /** A slice of a line that stops before its last character holds no line break. */
  lemma BodyHasNoBreak(l: string, i: nat, j: nat)
    requires IsLine(l) && i <= j <= |l| - 1
    ensures '\n' !in l[i..j]
  {
    assert l[i..j] == l[..|l| - 1][i..j];
  }

  /** Stripping a line removes its terminator, so what is left has no line break. */
  lemma StrippedLineHasNoBreak(l: string)
    requires IsLine(l)
    ensures '\n' !in Strip(l)
  {
    var n := Strip(l);
    var s := StripOffset(l);
    assert s + |n| <= |l| && n == l[s..s + |n|] && (n != [] ==> !IsSpace(n[|n| - 1])) by {
      StripExact(l);
    }
    if n != [] {
      if s + |n| < |l| {
        BodyHasNoBreak(l, s, s + |n|);
      } else {
        var last := n[|n| - 1];
        assert last != '\n' by { assert !IsSpace(last); }
        BodyHasNoBreak(l, s, s + |n| - 1);
        assert n == l[s..s + |n| - 1] + [last];
      }
    }
  }

  /** No repository name contains a line break. */
  lemma NoNewlineInNames(text: string, n: string)
    requires n in RepoNames(text)
    ensures '\n' !in n
  {
    var lines := Lines(text);
    var i := NameSource(lines, n);
    StrippedLineHasNoBreak(lines[i]);
  }

  // ---------------------------------------------------------------------------
  // Writing a list back
  // ---------------------------------------------------------------------------

  /** The text of a list file holding `names`, one per line. */
  function ListText(names: seq<string>): string
    decreases |names|
  {
    if names == [] then [] else names[0] + "\n" + ListText(names[1..])
  }

  lemma {:induction false} LineEndAfter(n: string, rest: string)
    requires '\n' !in n
    ensures LineEnd(n + "\n" + rest) == |n| + 1
    decreases |n|
  {
    var t := n + "\n" + rest;
    if n != [] {
      assert t[1..] == n[1..] + "\n" + rest;
      LineEndAfter(n[1..], rest);
    }
  }

  /** A name followed by "\n" is read as one line, the rest of the text following it. */
  lemma LinesCons(n: string, rest: string)
    requires '\n' !in n
    ensures Lines(n + "\n" + rest) == [n + "\n"] + Lines(rest)
  {
    var t := n + "\n" + rest;
    LineEndAfter(n, rest);
    assert t[..|n| + 1] == n + "\n";
    assert t[|n| + 1..] == rest;
  }

  /** A trimmed name written as a line is read back as that name. */
  lemma KeptOfWrittenName(n: string)
    requires IsTrimmed(n)
    ensures Kept(n + "\n") == [n]
  {
    assert AllSpace("\n");
    assert AllSpace("");
    assert "" + n + "\n" == n + "\n";
    StripOfTrimmed(n, "", "\n");
  }

  /** A list text that starts with a trimmed name on its own line names it first. */
  lemma RepoNamesCons(n: string, rest: string)
    requires IsTrimmed(n) && '\n' !in n
    ensures RepoNames(n + "\n" + rest) == [n] + RepoNames(rest)
  {
    var ls := [n + "\n"] + Lines(rest);
    LinesCons(n, rest);
    KeptOfWrittenName(n);
    assert ls[0] == n + "\n" && ls[1..] == Lines(rest);
    assert Names(ls) == Kept(n + "\n") + Names(Lines(rest));
  }

  /**
    Reading back a list written one name per line gives the same names,
    provided each is non-empty, has no line break and no surrounding
    whitespace: the form every name read from a list file has.
   */
  lemma {:induction false} ListTextRoundTrip(names: seq<string>)
    requires forall i :: 0 <= i < |names| ==> IsTrimmed(names[i]) && '\n' !in names[i]
    ensures RepoNames(ListText(names)) == names
    decreases |names|
  {
    if names != [] {
      var tail := names[1..];
      forall i | 0 <= i < |tail| ensures IsTrimmed(tail[i]) && '\n' !in tail[i] {
        assert tail[i] == names[i + 1];
      }
      ListTextRoundTrip(tail);
      RepoNamesCons(names[0], ListText(tail));
      assert names == [names[0]] + tail;
    }
  }
}
