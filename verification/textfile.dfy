/**
 Reading a text file line by line (`for line in open(path, 'r')`): universal
 newline translation turns `\r\n` and a lone `\r` into `\n`, and each line
 keeps its terminating `\n`; the last line has none if the file does not end
 with one.
 */
module TextFile {
  import opened Text

  /** Universal newline translation. */
  function Translate(s: string): (r: string)
    ensures Excludes(r, '\r')
    ensures |r| <= |s|
    decreases |s|
  {
    if |s| == 0 then []
    else if s[0] == '\r' then
      "\n" + Translate(if |s| > 1 && s[1] == '\n' then s[2..] else s[1..])
    else [s[0]] + Translate(s[1..])
  }

  /** A file with no carriage return reads back unchanged. */
  lemma {:induction false} TranslatePlain(s: string)
    requires Excludes(s, '\r')
    ensures Translate(s) == s
    decreases |s|
  {
    if |s| > 0 {
      TranslatePlain(s[1..]);
      assert s == [s[0]] + s[1..];
    }
  }

  /** The lines of translated text, each with its newline. */
  function Lines(s: string): (lines: seq<string>)
    ensures forall k :: 0 <= k < |lines| ==> |lines[k]| > 0
    ensures forall k :: 0 <= k < |lines| ==> Excludes(lines[k][..|lines[k]| - 1], '\n')
    ensures forall k :: 0 <= k < |lines| - 1 ==> lines[k][|lines[k]| - 1] == '\n'
    decreases |s|
  {
    if |s| == 0 then []
    else
      var i := IndexFrom(s, 0, '\n');
      if i == |s| then
        assert s[..|s| - 1] == s[0..i][..|s| - 1];
        [s]
      else
        assert s[..i + 1][..i] == s[0..i];
        [s[..i + 1]] + Lines(s[i + 1..])
  }

  function Concat(lines: seq<string>): string {
    if |lines| == 0 then [] else lines[0] + Concat(lines[1..])
  }

  /** Nothing is lost or added by splitting into lines. */
  lemma {:induction false} LinesConcat(s: string)
    ensures Concat(Lines(s)) == s
    decreases |s|
  {
    if |s| > 0 {
      var i := IndexFrom(s, 0, '\n');
      if i < |s| {
        LinesConcat(s[i + 1..]);
        assert s == s[..i + 1] + s[i + 1..];
      }
    }
  }

  /** Newline-terminated lines written one after another are read back as the same lines. */
  lemma {:induction false} ConcatLines(ls: seq<string>)
    requires forall k :: 0 <= k < |ls| ==> |ls[k]| > 0 && ls[k][|ls[k]| - 1] == '\n'
    requires forall k :: 0 <= k < |ls| ==> Excludes(ls[k][..|ls[k]| - 1], '\n')
    ensures Lines(Concat(ls)) == ls
  {
    if |ls| > 0 {
      var s := Concat(ls);
      var n := |ls[0]| - 1;
      assert s == ls[0] + Concat(ls[1..]);
      assert s[..n] == ls[0][..n];
      assert s[n] == '\n';
      assert IndexFrom(s, 0, '\n') == n;
      assert s[..n + 1] == ls[0];
      assert s[n + 1..] == Concat(ls[1..]);
      ConcatLines(ls[1..]);
    }
  }

  /** The lines a file with this content yields. */
  function FileLines(content: string): seq<string> {
    Lines(Translate(content))
  }

  /** Text ending at a line boundary: empty, or ending with `\n`. */
  predicate AtBoundary(s: string) {
    |s| == 0 || s[|s| - 1] == '\n'
  }

  /** Translation cannot pair a `\r` with a `\n` across a split after anything but `\r`. */
  lemma {:induction false} TranslateAppend(a: string, b: string)
    requires |a| == 0 || a[|a| - 1] != '\r'
    ensures Translate(a + b) == Translate(a) + Translate(b)
    decreases |a|
  {
    if |a| == 0 {
      assert a + b == b;
    } else {
      var k := if a[0] == '\r' && a[1] == '\n' then 2 else 1;
      var head := if a[0] == '\r' then "\n" else [a[0]];
      assert (a + b)[k..] == a[k..] + b;
      assert |a[k..]| == 0 || a[k..][|a[k..]| - 1] == a[|a| - 1];
      calc {
        Translate(a + b);
        head + Translate(a[k..] + b);
        { TranslateAppend(a[k..], b); }
        head + (Translate(a[k..]) + Translate(b));
        (head + Translate(a[k..])) + Translate(b);
        Translate(a) + Translate(b);
      }
    }
  }

  /** Translated text ending with a newline still ends with one. */
  lemma {:induction false} TranslateBoundary(s: string)
    requires AtBoundary(s)
    ensures AtBoundary(Translate(s))
    decreases |s|
  {
    if |s| > 1 {
      if s[0] == '\r' && s[1] == '\n' {
        if |s| > 2 {
          TranslateBoundary(s[2..]);
        }
      } else {
        TranslateBoundary(s[1..]);
      }
    }
  }

  /** Splitting at a line boundary splits the lines there. */
  lemma {:induction false} LinesAppend(a: string, b: string)
    requires AtBoundary(a)
    ensures Lines(a + b) == Lines(a) + Lines(b)
    decreases |a|
  {
    if |a| > 0 {
      var ab := a + b;
      var i := IndexFrom(a, 0, '\n');
      IndexFromPrefix(a, b, i);
      assert i < |a|;
      var rest := a[i + 1..];
      assert ab[..i + 1] == a[..i + 1];
      assert ab[i + 1..] == rest + b;
      assert AtBoundary(rest);
      calc {
        Lines(ab);
        [ab[..i + 1]] + Lines(ab[i + 1..]);
        [a[..i + 1]] + Lines(rest + b);
        { LinesAppend(rest, b); }
        [a[..i + 1]] + (Lines(rest) + Lines(b));
        ([a[..i + 1]] + Lines(rest)) + Lines(b);
        Lines(a) + Lines(b);
      }
    } else {
      assert a + b == b;
    }
  }

  /** The first newline of `a + b` is that of `a` when `a` has one. */
  lemma IndexFromPrefix(a: string, b: string, i: nat)
    requires AtBoundary(a) && |a| > 0 && i == IndexFrom(a, 0, '\n')
    ensures i < |a| && IndexFrom(a + b, 0, '\n') == i
  {
    var head := (a + b)[0..i];
    forall k | 0 <= k < |head| ensures head[k] != '\n' {
      assert head[k] == a[0..i][k];
    }
    IndexFromIs(a + b, 0, '\n', i);
  }

  /** A `c` with none before it from `i` on is what `IndexFrom` finds. */
  lemma {:induction false} IndexFromIs(s: string, i: nat, c: char, r: nat)
    requires i <= r < |s| && s[r] == c && Excludes(s[i..r], c)
    ensures IndexFrom(s, i, c) == r
    decreases r - i
  {
    if i < r {
      assert s[i] == s[i..r][0];
      var rest := s[i + 1..r];
      forall k | 0 <= k < |rest| ensures rest[k] != c {
        assert rest[k] == s[i..r][k + 1];
      }
      IndexFromIs(s, i + 1, c, r);
    }
  }

  /**
   Appending a newline-terminated line with no carriage return to a file that
   ends at a line boundary appends exactly that line to what is read back.
   */
  lemma FileLinesAppend(prev: string, line: string)
    requires AtBoundary(prev)
    requires |line| > 0 && line[|line| - 1] == '\n' && Excludes(line[..|line| - 1], '\n')
    requires Excludes(line, '\r')
    ensures FileLines(prev + line) == FileLines(prev) + [line]
    ensures AtBoundary(prev + line)
  {
    assert Lines(line) == [line] by {
      assert Concat([line]) == line + Concat([]) == line;
      ConcatLines([line]);
    }
    calc {
      FileLines(prev + line);
      { TranslateAppend(prev, line); TranslatePlain(line); }
      Lines(Translate(prev) + line);
      { TranslateBoundary(prev); LinesAppend(Translate(prev), line); }
      Lines(Translate(prev)) + Lines(line);
      FileLines(prev) + [line];
    }
  }

  /**
   Lines without carriage returns, written one after another, are what
   reading the file gives back.
   */
  lemma {:induction false} FileLinesOfConcat(ls: seq<string>)
    requires forall k :: 0 <= k < |ls| ==> |ls[k]| > 0 && ls[k][|ls[k]| - 1] == '\n'
    requires forall k :: 0 <= k < |ls| ==> Excludes(ls[k][..|ls[k]| - 1], '\n')
    requires forall k :: 0 <= k < |ls| ==> Excludes(ls[k], '\r')
    ensures FileLines(Concat(ls)) == ls
  {
    ConcatPlain(ls);
    TranslatePlain(Concat(ls));
    ConcatLines(ls);
  }

  lemma {:induction false} ConcatPlain(ls: seq<string>)
    requires forall k :: 0 <= k < |ls| ==> Excludes(ls[k], '\r')
    ensures Excludes(Concat(ls), '\r')
  {
    if |ls| > 0 {
      ConcatPlain(ls[1..]);
      var c := Concat(ls);
      assert c == ls[0] + Concat(ls[1..]);
      forall i | 0 <= i < |c| ensures c[i] != '\r' {
        if i >= |ls[0]| {
          assert c[i] == Concat(ls[1..])[i - |ls[0]|];
        }
      }
    }
  }

  /** A lone carriage return, one not followed by `\n`, reads as a line break. */
  lemma LoneReturn(head: string, rest: string)
    requires Excludes(head, '\r') && Excludes(rest, '\r')
    requires |rest| > 0 && rest[0] != '\n'
    ensures Translate(head + "\r" + rest) == head + "\n" + rest
  {
    var r := "\r" + rest;
    assert r[0] == '\r' && r[1] == rest[0] && r[1..] == rest;
    calc {
      Translate(head + "\r" + rest);
      { assert head + "\r" + rest == head + r; }
      Translate(head + r);
      { TranslateAppend(head, r); }
      Translate(head) + Translate(r);
      { TranslatePlain(head); }
      head + Translate(r);
      head + ("\n" + Translate(rest));
      { TranslatePlain(rest); }
      head + "\n" + rest;
    }
  }

  /**
   A lone carriage return inside a newline-terminated line ends a line of its
   own: the file yields two lines where one was written.
   */
  lemma CarriageReturnSplits(head: string, tail: string)
    requires Excludes(head, '\n') && Excludes(head, '\r')
    requires |tail| > 0 && Excludes(tail, '\n') && Excludes(tail, '\r')
    ensures FileLines(head + "\r" + tail + "\n") == [head + "\n", tail + "\n"]
  {
    var rest := tail + "\n";
    var ls := [head + "\n", tail + "\n"];
    assert head + "\r" + tail + "\n" == head + "\r" + rest;
    LoneReturn(head, rest);
    assert Concat(ls) == head + "\n" + rest by {
      assert Concat(ls[1..]) == tail + "\n" + Concat([]);
    }
    assert (head + "\n")[..|head|] == head;
    assert (tail + "\n")[..|tail|] == tail;
    ConcatLines(ls);
  }
}
