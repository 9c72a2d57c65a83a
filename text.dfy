/** The JavaScript string primitives the citation generator relies on:
    the `\s` character class, `String.prototype.trim`, `replace(/\s+/g, c)`,
    ASCII lower-casing and `Array.prototype.join`. */
module Text {

  /** ECMAScript WhiteSpace and LineTerminator code points. The regular
      expression class `\s` and `String.prototype.trim` use the same set. */
  predicate IsSpace(c: char)
  {
    || c == '\t' || c == '\n' || c == '\U{B}' || c == '\U{C}' || c == '\r' || c == ' '
    || c == '\U{A0}' || c == '\U{1680}' || ('\U{2000}' <= c <= '\U{200A}')
    || c == '\U{2028}' || c == '\U{2029}' || c == '\U{202F}' || c == '\U{205F}'
    || c == '\U{3000}' || c == '\U{FEFF}'
  }

  predicate AllSpace(s: string)
  {
    forall i :: 0 <= i < |s| ==> IsSpace(s[i])
  }

  predicate NoSpace(s: string)
  {
    forall i :: 0 <= i < |s| ==> !IsSpace(s[i])
  }

  /** Every whitespace character is `c`, and no two whitespace characters
      stand next to each other. */
  predicate SingleSpaced(s: string, c: char)
  {
    && (forall i :: 0 <= i < |s| && IsSpace(s[i]) ==> s[i] == c)
    && (forall i :: 0 <= i < |s| - 1 ==> !IsSpace(s[i]) || !IsSpace(s[i + 1]))
  }

  /** Drops the leading whitespace. */
  function TrimStart(s: string): (r: string)
    ensures |r| <= |s|
    ensures s != [] && IsSpace(s[0]) ==> |r| < |s|
  {
    if s != [] && IsSpace(s[0]) then TrimStart(s[1..]) else s
  }

  /** Drops the trailing whitespace. */
  function TrimEnd(s: string): (r: string)
    ensures |r| <= |s|
  {
    if s != [] && IsSpace(s[|s| - 1]) then TrimEnd(s[..|s| - 1]) else s
  }

  /** `String.prototype.trim`. */
  function Trim(s: string): (r: string)
    ensures |r| <= |s|
  {
    TrimEnd(TrimStart(s))
  }

  /** `s.replace(/\s+/g, c)`: each maximal run of whitespace becomes one `c`. */
  function Collapse(s: string, c: char): (r: string)
    ensures |r| <= |s|
    ensures (r == []) == (s == [])
    ensures s != [] ==> r[0] == if IsSpace(s[0]) then c else s[0]
    decreases |s|
  {
    if s == [] then []
    else if IsSpace(s[0]) then [c] + Collapse(TrimStart(s), c)
    else [s[0]] + Collapse(s[1..], c)
  }

  /** ASCII `toLowerCase` of one character. */
  function LowerChar(c: char): char
  {
    if 'A' <= c <= 'Z' then (c as int + 32) as char else c
  }

  function ToLowerAscii(s: string): (r: string)
    ensures |r| == |s|
    ensures forall i :: 0 <= i < |r| ==> !('A' <= r[i] <= 'Z')
    ensures forall i :: 0 <= i < |s| && 'A' <= s[i] <= 'Z' ==> r[i] as int == s[i] as int + 32
    ensures forall i :: 0 <= i < |s| && !('A' <= s[i] <= 'Z') ==> r[i] == s[i]
  {
    seq(|s|, i requires 0 <= i < |s| => LowerChar(s[i]))
  }

  /** `Array.prototype.join(sep)`. */
  function Join(parts: seq<string>, sep: string): string
  {
    if |parts| == 0 then []
    else if |parts| == 1 then parts[0]
    else parts[0] + sep + Join(parts[1..], sep)
  }

  /** Each line followed by a line feed: the line-oriented view of a text. */
  function Unlines(lines: seq<string>): string
  {
    if lines == [] then [] else lines[0] + "\n" + Unlines(lines[1..])
  }

  /** Appends `suffix` to every line but the last. */
  function SuffixAllButLast(lines: seq<string>, suffix: string): (r: seq<string>)
    ensures |r| == |lines|
  {
    seq(|lines|, i requires 0 <= i < |lines| => if i < |lines| - 1 then lines[i] + suffix else lines[i])
  }

  // Counting functions that describe how much `Collapse` shortens a string.

  function SpaceCount(s: string): nat
  {
    if s == [] then 0 else (if IsSpace(s[0]) then 1 else 0) + SpaceCount(s[1..])
  }

  /** The number of positions where a whitespace run ends. */
  function RunEnds(s: string): nat
  {
    if s == [] then 0
    else (if IsSpace(s[0]) && (|s| == 1 || !IsSpace(s[1])) then 1 else 0) + RunEnds(s[1..])
  }

  /** The characters that are not whitespace, in order. */
  function NonSpaces(s: string): string
  {
    if s == [] then [] else (if IsSpace(s[0]) then [] else [s[0]]) + NonSpaces(s[1..])
  }

  /** The leading run of non-whitespace characters. */
  function Word(s: string): (w: string)
    ensures |w| <= |s|
    ensures s != [] && !IsSpace(s[0]) ==> |w| >= 1
  {
    if s == [] || IsSpace(s[0]) then [] else [s[0]] + Word(s[1..])
  }

  /** The words of a text: its maximal runs of non-whitespace characters,
      in order. */
  function Words(s: string): seq<string>
    decreases |s|
  {
    if s == [] then []
    else if IsSpace(s[0]) then Words(s[1..])
    else var w := Word(s); [w] + Words(s[|w|..])
  }

  // ---------------------------------------------------------------------
  // Lemmas

  /** What TrimStart leaves is the suffix of `s` after its leading whitespace. */
  lemma {:induction false} TrimStartSpec(s: string)
    ensures var r := TrimStart(s);
      && r == s[|s| - |r|..]
      && AllSpace(s[..|s| - |r|])
      && (r == [] || !IsSpace(r[0]))
  {
    if s != [] && IsSpace(s[0]) {
      TrimStartSpec(s[1..]);
      var r := TrimStart(s);
      assert s[..|s| - |r|] == [s[0]] + s[1..][..|s| - 1 - |r|];
    }
  }

  /** What TrimEnd leaves is the prefix of `s` before its trailing whitespace. */
  lemma {:induction false} TrimEndSpec(s: string)
    ensures var r := TrimEnd(s);
      && r == s[..|r|]
      && AllSpace(s[|r|..])
      && (r == [] || !IsSpace(r[|r| - 1]))
  {
    if s != [] && IsSpace(s[|s| - 1]) {
      var p := s[..|s| - 1];
      TrimEndSpec(p);
      var r := TrimEnd(s);
      assert s[|r|..] == p[|r|..] + [s[|s| - 1]];
    }
  }

  /** The result of Trim is the slice of its input between the leading and
      the trailing whitespace, and neither starts nor ends with whitespace. */
  lemma TrimIsSlice(s: string) returns (i: nat)
    ensures i + |Trim(s)| <= |s| && Trim(s) == s[i..i + |Trim(s)|]
    ensures AllSpace(s[..i]) && AllSpace(s[i + |Trim(s)|..])
    ensures Trim(s) == [] || (!IsSpace(Trim(s)[0]) && !IsSpace(Trim(s)[|Trim(s)| - 1]))
  {
    var t := TrimStart(s);
    TrimStartSpec(s);
    TrimEndSpec(t);
    i := |s| - |t|;
    var r := TrimEnd(t);
    assert t == s[i..];
    assert r == s[i..][..|r|] == s[i..i + |r|];
    assert s[i + |r|..] == t[|r|..];
  }

  lemma TrimEmptyIff(s: string)
    ensures Trim(s) == [] <==> AllSpace(s)
  {
    var i := TrimIsSlice(s);
    if Trim(s) == [] {
      assert s == s[..i] + s[i..];
    } else {
      assert s[i] == Trim(s)[0];
    }
  }

  /** Trim leaves alone a string with no whitespace at either end. */
  lemma TrimUnchanged(s: string)
    requires s == [] || (!IsSpace(s[0]) && !IsSpace(s[|s| - 1]))
    ensures Trim(s) == s
  {
  }

  lemma SingleSpacedSlice(s: string, c: char, i: nat, j: nat)
    requires i <= j <= |s| && SingleSpaced(s, c)
    ensures SingleSpaced(s[i..j], c)
  {
    var t := s[i..j];
    forall k | 0 <= k < |t| - 1 ensures !IsSpace(t[k]) || !IsSpace(t[k + 1]) {
      assert t[k] == s[i + k] && t[k + 1] == s[i + k + 1];
    }
  }

  /** Replacing runs of whitespace by `c` leaves a string whose only
      whitespace, if any, is single occurrences of `c`. */
  lemma {:induction false} CollapseSingleSpaced(s: string, c: char)
    ensures SingleSpaced(Collapse(s, c), c)
    decreases |s|
  {
    if s != [] {
      var t := if IsSpace(s[0]) then TrimStart(s) else s[1..];
      TrimStartSpec(s);
      CollapseSingleSpaced(t, c);
      var r, rt := Collapse(s, c), Collapse(t, c);
      assert r == [r[0]] + rt;
      assert rt == [] || !IsSpace(rt[0]) || !IsSpace(r[0]);
      forall i | 0 <= i < |r| - 1 ensures !IsSpace(r[i]) || !IsSpace(r[i + 1]) {
        if i > 0 {
          assert r[i] == rt[i - 1] && r[i + 1] == rt[i];
        }
      }
      forall i | 0 <= i < |r| && IsSpace(r[i]) ensures r[i] == c {
        if i > 0 {
          assert r[i] == rt[i - 1];
        }
      }
    }
  }

  /** A string already in collapsed form is a fixed point of Collapse. */
  lemma {:induction false} CollapseUnchanged(s: string, c: char)
    requires SingleSpaced(s, c)
    ensures Collapse(s, c) == s
    decreases |s|
  {
    if s == [] {
    } else if IsSpace(s[0]) {
      var t := TrimStart(s);
      TrimStartSpec(s);
      assert |s| == 1 || !IsSpace(s[1]);
      assert t == s[1..];
      SingleSpacedSlice(s, c, 1, |s|);
      CollapseUnchanged(s[1..], c);
    } else {
      SingleSpacedSlice(s, c, 1, |s|);
      CollapseUnchanged(s[1..], c);
    }
  }

  lemma {:induction false} SpaceCountAppend(a: string, b: string)
    ensures SpaceCount(a + b) == SpaceCount(a) + SpaceCount(b)
  {
    if a == [] {
      assert a + b == b;
    } else {
      assert (a + b)[1..] == a[1..] + b;
      SpaceCountAppend(a[1..], b);
    }
  }

  lemma {:induction false} NonSpacesAppend(a: string, b: string)
    ensures NonSpaces(a + b) == NonSpaces(a) + NonSpaces(b)
  {
    if a == [] {
      assert a + b == b;
    } else {
      assert (a + b)[1..] == a[1..] + b;
      NonSpacesAppend(a[1..], b);
    }
  }

  lemma {:induction false} NonSpacesOfAllSpace(s: string)
    requires AllSpace(s)
    ensures NonSpaces(s) == [] && SpaceCount(s) == |s|
  {
    if s != [] {
      NonSpacesOfAllSpace(s[1..]);
    }
  }

  /** A non-empty whitespace run followed by a non-whitespace character (or
      by nothing) ends exactly one run. */
  lemma {:induction false} RunEndsAfterRun(p: string, t: string)
    requires p != [] && AllSpace(p)
    requires t == [] || !IsSpace(t[0])
    ensures RunEnds(p + t) == 1 + RunEnds(t)
  {
    assert (p + t)[1..] == p[1..] + t;
    if |p| == 1 {
      assert (p + t)[1..] == t;
    } else {
      assert (p + t)[1] == p[1];
      RunEndsAfterRun(p[1..], t);
    }
  }

  /** Collapse keeps every non-whitespace character and removes, per
      whitespace run, all characters but one. */
  lemma {:induction false} CollapseLength(s: string, c: char)
    ensures |Collapse(s, c)| == |s| - SpaceCount(s) + RunEnds(s)
    decreases |s|
  {
    if s == [] {
    } else if IsSpace(s[0]) {
      var t := TrimStart(s);
      TrimStartSpec(s);
      var p := s[..|s| - |t|];
      assert s == p + t;
      assert p != [] by { assert p[0] == s[0]; }
      NonSpacesOfAllSpace(p);
      SpaceCountAppend(p, t);
      RunEndsAfterRun(p, t);
      CollapseLength(t, c);
    } else {
      assert |s| == 1 || IsSpace(s[1]) || !IsSpace(s[1]);
      CollapseLength(s[1..], c);
    }
  }

  /** Collapsing with a whitespace character keeps the non-whitespace
      characters, in order. */
  lemma {:induction false} CollapseKeepsNonSpaces(s: string, c: char)
    requires IsSpace(c)
    ensures NonSpaces(Collapse(s, c)) == NonSpaces(s)
    decreases |s|
  {
    if s == [] {
    } else if IsSpace(s[0]) {
      var t := TrimStart(s);
      TrimStartSpec(s);
      var p := s[..|s| - |t|];
      assert s == p + t;
      NonSpacesOfAllSpace(p);
      NonSpacesAppend(p, t);
      NonSpacesAppend([c], Collapse(t, c));
      CollapseKeepsNonSpaces(t, c);
    } else {
      NonSpacesAppend([s[0]], Collapse(s[1..], c));
      CollapseKeepsNonSpaces(s[1..], c);
    }
  }

  /** A string has no non-whitespace character exactly when it is all whitespace. */
  lemma {:induction false} NonSpacesEmptyIff(s: string)
    ensures NonSpaces(s) == [] <==> AllSpace(s)
  {
    if s != [] {
      NonSpacesEmptyIff(s[1..]);
      assert AllSpace(s) <==> IsSpace(s[0]) && AllSpace(s[1..]);
    }
  }

  lemma TrimKeepsNonSpaces(s: string)
    ensures NonSpaces(Trim(s)) == NonSpaces(s)
  {
    var i := TrimIsSlice(s);
    var j := i + |Trim(s)|;
    assert s == s[..i] + Trim(s) + s[j..];
    NonSpacesOfAllSpace(s[..i]);
    NonSpacesOfAllSpace(s[j..]);
    NonSpacesAppend(s[..i] + Trim(s), s[j..]);
    NonSpacesAppend(s[..i], Trim(s));
  }

  lemma {:induction false} UnlinesAppend(a: seq<string>, b: seq<string>)
    ensures Unlines(a + b) == Unlines(a) + Unlines(b)
  {
    if a == [] {
      assert a + b == b;
    } else {
      assert (a + b)[1..] == a[1..] + b;
      UnlinesAppend(a[1..], b);
    }
  }

  /** Joining with `sep + "\n"` and ending with a line feed is the same as
      writing each part on its own line, every line but the last ending in `sep`. */
  lemma {:induction false} JoinIsLines(parts: seq<string>, sep: string)
    requires parts != []
    ensures Join(parts, sep + "\n") + "\n" == Unlines(SuffixAllButLast(parts, sep))
  {
    var lines := SuffixAllButLast(parts, sep);
    if |parts| == 1 {
      assert lines == [parts[0]];
    } else {
      JoinIsLines(parts[1..], sep);
      assert lines[1..] == SuffixAllButLast(parts[1..], sep);
      assert lines[0] == parts[0] + sep;
    }
  }

  /** The layout of a BibTeX entry written with `join(",\n")` is the same as
      one line per item: the head line ending in a comma, the parts each with
      a comma but the last (a single empty line when there are none), and a
      closing brace. */
  lemma LayoutIsLines(head: string, parts: seq<string>)
    ensures head + ",\n" + Join(parts, ",\n") + "\n}\n"
      == Unlines([head + ","] + (if parts == [] then [""] else SuffixAllButLast(parts, ",")) + ["}"])
  {
    var first := head + ",";
    var mid := if parts == [] then [""] else SuffixAllButLast(parts, ",");
    var body := Join(parts, ",\n");
    MiddleLines(parts);
    UnlinesAppend([first] + mid, ["}"]);
    UnlinesAppend([first], mid);
    assert Unlines([first]) == first + "\n" by { assert [first][1..] == []; }
    assert Unlines(["}"]) == "}\n" by { assert ["}"][1..] == []; }
    Regroup(head, body);
  }

  lemma MiddleLines(parts: seq<string>)
    ensures Unlines(if parts == [] then [""] else SuffixAllButLast(parts, ",")) == Join(parts, ",\n") + "\n"
  {
    if parts == [] {
      assert [""][1..] == [];
    } else {
      JoinIsLines(parts, ",");
      assert "," + "\n" == ",\n";
    }
  }

  lemma Regroup(head: string, body: string)
    ensures head + ",\n" + body + "\n}\n" == (head + "," + "\n") + (body + "\n") + "}\n"
  {
    assert ",\n" == "," + "\n";
    assert "\n}\n" == "\n" + "}\n";
  }

  // ---------------------------------------------------------------------
  // Words: what `replace(/\s+/g, c)` followed or preceded by `trim` means

  /** A word is a non-empty prefix free of whitespace that stops at the end
      of the text or at a whitespace character. */
  lemma {:induction false} WordSpec(s: string)
    ensures var w := Word(s);
      && w == s[..|w|]
      && NoSpace(w)
      && (|w| == |s| || IsSpace(s[|w|]))
  {
    if s != [] && !IsSpace(s[0]) {
      WordSpec(s[1..]);
      var w, v := Word(s), Word(s[1..]);
      assert w == [s[0]] + v;
      assert s[..|w|] == [s[0]] + s[1..][..|v|];
    }
  }

  /** Every word is non-empty and free of whitespace. */
  lemma {:induction false} WordsShape(s: string)
    ensures forall i :: 0 <= i < |Words(s)| ==> Words(s)[i] != [] && NoSpace(Words(s)[i])
    decreases |s|
  {
    if s != [] {
      if IsSpace(s[0]) {
        WordsShape(s[1..]);
      } else {
        var w := Word(s);
        WordSpec(s);
        WordsShape(s[|w|..]);
        assert Words(s) == [w] + Words(s[|w|..]);
      }
    }
  }

  lemma {:induction false} WordAppendSpaces(t: string, q: string)
    requires AllSpace(q)
    ensures Word(t + q) == Word(t)
  {
    if t == [] {
      assert t + q == q;
    } else if !IsSpace(t[0]) {
      assert (t + q)[0] == t[0];
      assert (t + q)[1..] == t[1..] + q;
      WordAppendSpaces(t[1..], q);
    }
  }

  /** Leading whitespace does not change the words. */
  lemma {:induction false} WordsSkipSpaces(p: string, t: string)
    requires AllSpace(p)
    ensures Words(p + t) == Words(t)
  {
    if p != [] {
      assert (p + t)[0] == p[0];
      assert (p + t)[1..] == p[1..] + t;
      WordsSkipSpaces(p[1..], t);
    } else {
      assert p + t == t;
    }
  }

  /** Trailing whitespace does not change the words. */
  lemma {:induction false} WordsDropTrailing(t: string, q: string)
    requires AllSpace(q)
    ensures Words(t + q) == Words(t)
    decreases |t|
  {
    if t == [] {
      assert t + q == q + [];
      WordsSkipSpaces(q, []);
    } else if IsSpace(t[0]) {
      assert (t + q)[0] == t[0];
      assert (t + q)[1..] == t[1..] + q;
      WordsDropTrailing(t[1..], q);
    } else {
      var w := Word(t);
      WordAppendSpaces(t, q);
      assert (t + q)[0] == t[0];
      assert (t + q)[|w|..] == t[|w|..] + q;
      WordsDropTrailing(t[|w|..], q);
    }
  }

  /** Trimming does not change the words. */
  lemma WordsTrim(s: string)
    ensures Words(Trim(s)) == Words(s)
  {
    var i := TrimIsSlice(s);
    var t := Trim(s);
    var j := i + |t|;
    assert s == s[..i] + (t + s[j..]);
    WordsSkipSpaces(s[..i], t + s[j..]);
    WordsDropTrailing(t, s[j..]);
  }

  /** A non-whitespace character in front of a text that is empty or starts
      with whitespace is a word of its own. */
  lemma WordsConsAlone(a: char, x: string)
    requires !IsSpace(a) && (x == [] || IsSpace(x[0]))
    ensures Words([a] + x) == [[a]] + Words(x)
  {
    var s := [a] + x;
    assert s[0] == a && s[1..] == x;
    assert Word(x) == [];
    assert Word(s) == [a];
  }

  /** A non-whitespace character in front of a text that starts with a word
      joins that word. */
  lemma WordsConsJoin(a: char, x: string)
    requires !IsSpace(a) && x != [] && !IsSpace(x[0])
    ensures Words(x) != [] && Words([a] + x) == [[a] + Words(x)[0]] + Words(x)[1..]
  {
    var s := [a] + x;
    var v := Word(x);
    var ws := Words(x[|v|..]);
    assert Words(x) == [v] + ws;
    assert Word(s) == [a] + v by {
      assert s[0] == a && s[1..] == x;
    }
    assert Words(s) == [[a] + v] + ws by {
      assert s[0] == a;
      assert s[|[a] + v|..] == x[|v|..];
    }
    assert ([v] + ws)[0] == v && ([v] + ws)[1..] == ws;
  }


  /** Replacing whitespace runs by a whitespace character does not change
      the words. */
  lemma {:induction false} WordsCollapse(s: string, c: char)
    requires IsSpace(c)
    ensures Words(Collapse(s, c)) == Words(s)
    decreases |s|
  {
    if s == [] {
    } else if IsSpace(s[0]) {
      var t := TrimStart(s);
      var x := Collapse(t, c);
      assert Collapse(s, c) == [c] + x;
      assert Words([c] + x) == Words(x) by {
        assert ([c] + x)[0] == c && ([c] + x)[1..] == x;
      }
      WordsCollapse(t, c);
      assert Words(t) == Words(s) by {
        TrimStartSpec(s);
        assert s == s[..|s| - |t|] + t;
        WordsSkipSpaces(s[..|s| - |t|], t);
      }
    } else {
      var x := Collapse(s[1..], c);
      assert s == [s[0]] + s[1..];
      assert Collapse(s, c) == [s[0]] + x;
      WordsCollapse(s[1..], c);
      if s[1..] == [] || IsSpace(s[1]) {
        WordsConsAlone(s[0], x);
        WordsConsAlone(s[0], s[1..]);
      } else {
        WordsConsJoin(s[0], x);
        WordsConsJoin(s[0], s[1..]);
      }
    }
  }

  /** A text without whitespace at either end whose only whitespace is single
      occurrences of `c` is its words joined by `c`. */
  lemma {:induction false} SpacedIsJoinOfWords(r: string, c: char)
    requires SingleSpaced(r, c)
    requires r == [] || (!IsSpace(r[0]) && !IsSpace(r[|r| - 1]))
    ensures r == Join(Words(r), [c])
    decreases |r|
  {
    if r != [] {
      var w := Word(r);
      WordSpec(r);
      if |w| == |r| {
        assert w == r;
        assert Words(r) == [w] + Words([]);
      } else {
        var t := SpacedRest(r, c);
        SpacedIsJoinOfWords(t, c);
        var ws := Words(t);
        assert ([w] + ws)[1..] == ws;
      }
    }
  }

  /** In a text as above, the first word is followed by nothing, or by one
      `c` and a text of the same kind. */
  lemma SpacedRest(r: string, c: char) returns (t: string)
    requires SingleSpaced(r, c)
    requires r != [] && !IsSpace(r[0]) && !IsSpace(r[|r| - 1])
    requires |Word(r)| < |r|
    ensures |t| < |r| && r == Word(r) + [c] + t
    ensures SingleSpaced(t, c) && t != [] && !IsSpace(t[0]) && !IsSpace(t[|t| - 1])
    ensures Words(t) != [] && Words(r) == [Word(r)] + Words(t)
  {
    var w := Word(r);
    WordSpec(r);
    var n := |w|;
    assert IsSpace(r[n]) && r[n] == c;
    assert n + 1 < |r|;
    assert !IsSpace(r[n + 1]);
    t := r[n + 1..];
    SingleSpacedSlice(r, c, n + 1, |r|);
    assert r[n + 1..|r|] == t;
    assert t[0] == r[n + 1] && t[|t| - 1] == r[|r| - 1];
    assert r == w + [c] + t;
    var rest := r[n..];
    assert rest[0] == c && rest[1..] == t;
    assert Words(rest) == Words(t);
  }

  /** Replacing whitespace runs keeps the leading word in front. */
  lemma {:induction false} CollapseWordPrefix(s: string, c: char)
    ensures Collapse(s, c) == Word(s) + Collapse(s[|Word(s)|..], c)
  {
    if s != [] && !IsSpace(s[0]) {
      var t := s[1..];
      var v := Word(t);
      var rest := Collapse(t[|v|..], c);
      CollapseWordPrefix(t, c);
      assert s[|v| + 1..] == t[|v|..];
      assert Collapse(s, c) == [s[0]] + Collapse(t, c);
      ConcatAssoc([s[0]], v, rest);
    } else {
      assert s[0..] == s;
    }
  }


  /** On a text without whitespace at either end, replacing whitespace runs
      by `c` joins the words with `c`. */
  lemma {:induction false} CollapseTrimmedIsJoin(s: string, c: char)
    requires s == [] || (!IsSpace(s[0]) && !IsSpace(s[|s| - 1]))
    ensures Collapse(s, c) == Join(Words(s), [c])
    decreases |s|
  {
    if s != [] {
      var w := Word(s);
      if |w| == |s| {
        WordSpec(s);
        CollapseWordPrefix(s, c);
        assert w == s && s[|w|..] == [];
        assert Words(s) == [w] + Words([]);
      } else {
        var t := CollapseRest(s, c);
        CollapseTrimmedIsJoin(t, c);
        var ws := Words(t);
        assert ([w] + ws)[1..] == ws;
      }
    }
  }

  /** On such a text, when the first word is not all of it, what follows the
      word collapses to one `c` and the collapse of a shorter text of the
      same kind, whose words are the remaining ones. */
  lemma CollapseRest(s: string, c: char) returns (t: string)
    requires s != [] && !IsSpace(s[0]) && !IsSpace(s[|s| - 1])
    requires |Word(s)| < |s|
    ensures |t| < |s| && t != [] && !IsSpace(t[0]) && !IsSpace(t[|t| - 1])
    ensures Collapse(s, c) == Word(s) + [c] + Collapse(t, c)
    ensures Words(t) != [] && Words(s) == [Word(s)] + Words(t)
  {
    var w := Word(s);
    var rest := s[|w|..];
    t := RestAfterWord(s, w);
    CollapseWordPrefix(s, c);
    WordsSkipSpaces(rest[..|rest| - |t|], t);
    var ct := Collapse(t, c);
    assert Collapse(rest, c) == [c] + ct;
    ConcatAssoc(w, [c], ct);
    assert Words(s) == [w] + Words(rest);
  }

  lemma ConcatAssoc<T>(a: seq<T>, b: seq<T>, c: seq<T>)
    ensures a + (b + c) == a + b + c
  {
  }


  /** After the first word of a text without whitespace at either end, when
      something follows, it is a whitespace run and then a text that again
      has no whitespace at either end. */
  lemma RestAfterWord(s: string, w: string) returns (t: string)
    requires s != [] && !IsSpace(s[0]) && !IsSpace(s[|s| - 1])
    requires w == Word(s) && |w| < |s|
    ensures t == TrimStart(s[|w|..]) && |t| < |s| - |w|
    ensures s[|w|..] == s[|w|..][..|s| - |w| - |t|] + t
    ensures AllSpace(s[|w|..][..|s| - |w| - |t|])
    ensures Words(t) != [] && !IsSpace(t[0]) && !IsSpace(t[|t| - 1])
    ensures IsSpace(s[|w|..][0])
  {
    WordSpec(s);
    var rest := s[|w|..];
    t := TrimStart(rest);
    TrimStartSpec(rest);
    var p := rest[..|rest| - |t|];
    assert rest == p + t;
    assert rest[0] == s[|w|];
    assert t[|t| - 1] == rest[|rest| - 1] == s[|s| - 1];
  }
}
