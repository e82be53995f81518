/** The string operations the decoder applies to its Morse buffer: Kotlin's
    `split` on a one-character separator, its inverse `joinToString`, and
    the last group of a split. */
module Text {

  /** `s.split(sep)`: the pieces of `s` between occurrences of `sep`, in
      order, keeping empty pieces (a leading, trailing or doubled separator
      gives an empty piece). The empty string splits into one empty piece. */
  function Split(s: string, sep: char): (parts: seq<string>)
    ensures |parts| >= 1
    ensures forall k :: 0 <= k < |parts| ==> sep !in parts[k]
    decreases |s|
  {
    if |s| == 0 then [""]
    else
      var init := Split(s[..|s| - 1], sep);
      var c := s[|s| - 1];
      if c == sep then init + [""]
      else init[..|init| - 1] + [init[|init| - 1] + [c]]
  }

  /** `parts.joinToString(sep)`: the pieces with one separator between
      neighbours. */
  function Join(parts: seq<string>, sep: char): string
    requires |parts| >= 1
    decreases |parts|
  {
    if |parts| == 1 then parts[0]
    else Join(parts[..|parts| - 1], sep) + [sep] + parts[|parts| - 1]
  }

  /** Appending the separator opens a new, empty piece. */
  lemma SplitSnocSep(s: string, sep: char)
    ensures Split(s + [sep], sep) == Split(s, sep) + [""]
  {
    assert (s + [sep])[..|s|] == s;
  }

  /** Appending any other character extends the last piece. */
  lemma SplitSnocOther(s: string, c: char, sep: char)
    requires c != sep
    ensures var parts := Split(s, sep);
      Split(s + [c], sep) == parts[..|parts| - 1] + [parts[|parts| - 1] + [c]]
  {
    assert (s + [c])[..|s|] == s;
  }

  /** Joining one more piece adds a separator and the piece. */
  lemma JoinSnoc(parts: seq<string>, w: string, sep: char)
    requires |parts| >= 1
    ensures Join(parts + [w], sep) == Join(parts, sep) + [sep] + w
  {
    assert (parts + [w])[..|parts|] == parts;
  }

  /** Extending the last piece extends the joined string. */
  lemma JoinExtendLast(parts: seq<string>, c: char, sep: char)
    requires |parts| >= 1
    ensures Join(parts[..|parts| - 1] + [parts[|parts| - 1] + [c]], sep) == Join(parts, sep) + [c]
  {
    var n := |parts|;
    if n > 1 {
      var init, last := parts[..n - 1], parts[n - 1];
      assert parts == init + [last];
      JoinSnoc(init, last + [c], sep);
      JoinSnoc(init, last, sep);
    }
  }

  /** Joining the pieces of a split gives back the string. */
  lemma {:induction false} JoinSplit(s: string, sep: char)
    ensures Join(Split(s, sep), sep) == s
    decreases |s|
  {
    if |s| > 0 {
      var s', c := s[..|s| - 1], s[|s| - 1];
      assert s == s' + [c];
      JoinSplit(s', sep);
      var init := Split(s', sep);
      if c == sep {
        SplitSnocSep(s', sep);
        JoinSnoc(init, "", sep);
      } else {
        SplitSnocOther(s', c, sep);
        JoinExtendLast(init, c, sep);
      }
    }
  }

  /** Appending text free of the separator extends the last piece only. */
  lemma {:induction false} SplitExtend(x: string, w: string, sep: char)
    requires sep !in w
    ensures |Split(x + w, sep)| == |Split(x, sep)|
    ensures Split(x + w, sep)[..|Split(x, sep)| - 1] == Split(x, sep)[..|Split(x, sep)| - 1]
    ensures Split(x + w, sep)[|Split(x, sep)| - 1] == Split(x, sep)[|Split(x, sep)| - 1] + w
    decreases |w|
  {
    if |w| > 0 {
      var w', c := w[..|w| - 1], w[|w| - 1];
      assert sep !in w' by {
        forall k | 0 <= k < |w'| ensures w'[k] != sep {
          assert w'[k] == w[k];
        }
      }
      SplitExtend(x, w', sep);
      assert (x + w)[..|x + w| - 1] == x + w';
      assert c in w;
    } else {
      assert x + w == x;
    }
  }

  /** Splitting pieces joined by a separator they do not contain gives back
      the pieces. */
  lemma {:induction false} SplitJoin(parts: seq<string>, sep: char)
    requires |parts| >= 1
    requires forall k :: 0 <= k < |parts| ==> sep !in parts[k]
    ensures Split(Join(parts, sep), sep) == parts
    decreases |parts|
  {
    if |parts| == 1 {
      SplitExtend("", parts[0], sep);
      assert "" + parts[0] == parts[0];
      assert Split("", sep) == [""];
    } else {
      var init, w := parts[..|parts| - 1], parts[|parts| - 1];
      assert parts == init + [w];
      var x := Join(init, sep) + [sep];
      assert Join(parts, sep) == x + w by {
        JoinSnoc(init, w, sep);
      }
      assert Split(x, sep) == init + [""] by {
        SplitJoin(init, sep);
        SplitSnocSep(Join(init, sep), sep);
      }
      var r := Split(x + w, sep);
      assert |r| == |init| + 1 && r[..|init|] == init && r[|init|] == "" + w by {
        SplitExtend(x, w, sep);
      }
      assert "" + w == w;
      assert r == r[..|init|] + [r[|init|]] == init + [w];
    }
  }

  /** `s.split(" ").lastOrNull()`: a split is never empty, so this is always
      the text after the last space (all of `s` when it has none). */
  function LastGroup(s: string): (g: string)
    ensures ' ' !in g
  {
    var parts := Split(s, ' ');
    parts[|parts| - 1]
  }

  /** The last group of text that is empty or ends in a space, followed by
      space-free text, is that text. */
  lemma LastGroupAfterSpace(p: string, g: string)
    requires p == [] || p[|p| - 1] == ' '
    requires ' ' !in g
    ensures LastGroup(p + g) == g
  {
    SplitExtend(p, g, ' ');
    if p != [] {
      assert p[..|p| - 1] + [' '] == p;
    }
  }

  /** Concatenation regroups freely. */
  lemma Associative(a: string, b: string, c: string)
    ensures (a + b) + c == a + (b + c)
  {
  }

  /** Appending the first character and then the rest appends the whole
      string. */
  lemma AppendFirst(a: string, b: string)
    requires |b| >= 1
    ensures a + [b[0]] + b[1..] == a + b
    ensures |b| == 1 ==> a + [b[0]] == a + b
  {
    assert b == [b[0]] + b[1..];
  }
}
