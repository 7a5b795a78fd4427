/** The sentence pipeline of text-search.js: the document is split on '\n', every
    line is trimmed as String.prototype.trim does, and lines left empty are dropped. */
module Sentences {

  /** WhiteSpace code points of ECMA-262, section 12.2: TAB, VT, FF, ZWNBSP and every
      code point of Unicode general category Zs (Space_Separator). */
  predicate IsWhiteSpace(c: char) {
    || c == '\t' || c == '\U{000B}' || c == '\U{000C}' || c == '\U{FEFF}'
    || c == ' ' || c == '\U{00A0}' || c == '\U{1680}'
    || ('\U{2000}' <= c <= '\U{200A}')
    || c == '\U{202F}' || c == '\U{205F}' || c == '\U{3000}'
  }

  /** LineTerminator code points of ECMA-262, section 12.3: LF, CR, LS and PS. */
  predicate IsLineTerminator(c: char) {
    c == '\n' || c == '\r' || c == '\U{2028}' || c == '\U{2029}'
  }

  /** The code points String.prototype.trim removes from both ends. */
  predicate IsTrimmable(c: char) {
    IsWhiteSpace(c) || IsLineTerminator(c)
  }

  /** A string made only of trimmable code points (the empty string included). */
  predicate Blank(s: string) {
    forall i :: 0 <= i < |s| ==> IsTrimmable(s[i])
  }

  lemma BlankConcat(a: string, b: string)
    ensures Blank(a + b) <==> Blank(a) && Blank(b)
  {
    if Blank(a) && Blank(b) {
      forall i | 0 <= i < |a + b| ensures IsTrimmable((a + b)[i]) {
        if i >= |a| { assert (a + b)[i] == b[i - |a|]; }
      }
    }
    if Blank(a + b) {
      forall i | 0 <= i < |a| ensures IsTrimmable(a[i]) {
        assert (a + b)[i] == a[i];
      }
      forall i | 0 <= i < |b| ensures IsTrimmable(b[i]) {
        assert (a + b)[|a| + i] == b[i];
      }
    }
  }

  /** Removes the leading trimmable code points. */
  function TrimStart(s: string): (r: string) {
    if |s| > 0 && IsTrimmable(s[0]) then TrimStart(s[1..]) else s
  }

  /** TrimStart returns a suffix of `s`, what it cuts off is blank, and what it
      returns does not start with a trimmable code point. */
  lemma {:induction false} TrimStartSpec(s: string)
    ensures |TrimStart(s)| <= |s| && TrimStart(s) == s[|s| - |TrimStart(s)|..]
    ensures Blank(s[..|s| - |TrimStart(s)|])
    ensures TrimStart(s) == [] || !IsTrimmable(TrimStart(s)[0])
  {
    if |s| > 0 && IsTrimmable(s[0]) {
      TrimStartSpec(s[1..]);
      var r := TrimStart(s[1..]);
      assert s[..|s| - |r|] == [s[0]] + s[1..][..|s| - 1 - |r|];
      BlankConcat([s[0]], s[1..][..|s| - 1 - |r|]);
    }
  }

  /** Removes the trailing trimmable code points. */
  function TrimEnd(s: string): (r: string) {
    if |s| > 0 && IsTrimmable(s[|s| - 1]) then TrimEnd(s[..|s| - 1]) else s
  }

  /** TrimEnd returns a prefix of `s`, what it cuts off is blank, and what it
      returns does not end with a trimmable code point. */
  lemma {:induction false} TrimEndSpec(s: string)
    ensures |TrimEnd(s)| <= |s| && TrimEnd(s) == s[..|TrimEnd(s)|]
    ensures Blank(s[|TrimEnd(s)|..])
    ensures TrimEnd(s) == [] || !IsTrimmable(TrimEnd(s)[|TrimEnd(s)| - 1])
  {
    if |s| > 0 && IsTrimmable(s[|s| - 1]) {
      TrimEndSpec(s[..|s| - 1]);
      var r := TrimEnd(s[..|s| - 1]);
      assert s[|r|..] == s[..|s| - 1][|r|..] + [s[|s| - 1]];
      BlankConcat(s[..|s| - 1][|r|..], [s[|s| - 1]]);
    }
  }

  /** String.prototype.trim: removes the trimmable code points at both ends. */
  function Trim(s: string): (r: string) {
    TrimEnd(TrimStart(s))
  }

  /** What String.prototype.trim returns is the slice of `s` left once a blank
      prefix and a blank suffix are removed. */
  lemma TrimIsSlice(s: string)
    ensures exists i ::
              && 0 <= i <= |s| - |Trim(s)| && Trim(s) == s[i..i + |Trim(s)|]
              && Blank(s[..i]) && Blank(s[i + |Trim(s)|..])
  {
    var t := TrimStart(s);
    var r := TrimEnd(t);
    var i := |s| - |t|;
    TrimStartSpec(s);
    TrimEndSpec(t);
    assert s[i + |r|..] == t[|r|..];
    assert r == s[i..i + |r|];
  }

  /** Trimming leaves nothing exactly when the string is blank. */
  lemma TrimEmptyIffBlank(s: string)
    ensures Trim(s) == [] <==> Blank(s)
  {
    var t := TrimStart(s);
    var r := TrimEnd(t);
    var i := |s| - |t|;
    TrimStartSpec(s);
    TrimEndSpec(t);
    if r == [] {
      assert s == s[..i] + t;
      BlankConcat(s[..i], t);
    } else {
      assert s[i] == r[0];
    }
  }

  /** A non-empty trimmed string starts and ends with a code point that is not trimmable. */
  lemma TrimEnds(s: string)
    ensures Trim(s) != [] ==> !IsTrimmable(Trim(s)[0]) && !IsTrimmable(Trim(s)[|Trim(s)| - 1])
  {
    var t := TrimStart(s);
    var r := TrimEnd(t);
    TrimStartSpec(s);
    TrimEndSpec(t);
    if r != [] {
      assert r[0] == t[0];
    }
  }

  /** Trimming twice is trimming once: the second trim in the filter at
      text-search.js:82 sees the line already trimmed and changes nothing. */
  lemma TrimIdempotent(s: string)
    ensures Trim(Trim(s)) == Trim(s)
  {
    var r := Trim(s);
    TrimEnds(s);
    assert TrimStart(r) == r;
    assert TrimEnd(r) == r;
  }

  /** Joins non-empty list of pieces with `sep` between consecutive pieces. */
  function Join(parts: seq<string>, sep: char): string
    requires |parts| >= 1
  {
    if |parts| == 1 then parts[0] else parts[0] + [sep] + Join(parts[1..], sep)
  }

  /** String.prototype.split with a one-character separator: the maximal runs of `s`
      between separators, in order. There is always at least one piece: the empty
      string gives one empty piece. */
  function Split(s: string, sep: char): (r: seq<string>)
    ensures |r| >= 1
  {
    if s == [] then
      [[]]
    else
      var rest := Split(s[1..], sep);
      if s[0] == sep then [[]] + rest else [[s[0]] + rest[0]] + rest[1..]
  }

  /** No piece of a split holds the separator. */
  lemma {:induction false} SplitNoSeparator(s: string, sep: char)
    ensures forall k :: 0 <= k < |Split(s, sep)| ==> sep !in Split(s, sep)[k]
  {
    if s != [] {
      SplitNoSeparator(s[1..], sep);
      var rest := Split(s[1..], sep);
      if s[0] != sep {
        assert sep !in [s[0]] + rest[0];
        assert forall k :: 1 <= k < |rest| ==> Split(s, sep)[k] == rest[k];
      }
    }
  }

  /** Joining the pieces of a split with the separator gives the original string back. */
  lemma {:induction false} JoinSplit(s: string, sep: char)
    ensures Join(Split(s, sep), sep) == s
  {
    if s != [] {
      var rest := Split(s[1..], sep);
      JoinSplit(s[1..], sep);
      if s[0] == sep {
        assert Split(s, sep)[1..] == rest;
      } else {
        var r := Split(s, sep);
        assert r[1..] == rest[1..];
      }
    }
  }

  lemma {:induction false} SplitPiece(w: string, t: string, sep: char)
    requires sep !in w
    ensures Split(w + t, sep) == [w + Split(t, sep)[0]] + Split(t, sep)[1..]
  {
    var st := Split(t, sep);
    if w == [] {
      assert w + t == t;
      assert w + st[0] == st[0];
      assert [st[0]] + st[1..] == st;
    } else {
      assert w[0] in w;
      SplitPiece(w[1..], t, sep);
      var rest := Split(w[1..] + t, sep);
      assert rest[0] == w[1..] + st[0] && rest[1..] == st[1..];
      assert (w + t)[0] == w[0];
      assert (w + t)[1..] == w[1..] + t;
      assert Split(w + t, sep) == [[w[0]] + rest[0]] + rest[1..];
      assert [w[0]] + (w[1..] + st[0]) == w + st[0];
    }
  }

  /** Splitting pieces that hold no separator, once joined, gives the same pieces back. */
  lemma {:induction false} SplitJoin(parts: seq<string>, sep: char)
    requires |parts| >= 1
    requires forall k :: 0 <= k < |parts| ==> sep !in parts[k]
    ensures Split(Join(parts, sep), sep) == parts
  {
    if |parts| == 1 {
      SplitPiece(parts[0], [], sep);
      assert parts[0] + [] == parts[0];
    } else {
      var tail := Join(parts[1..], sep);
      SplitJoin(parts[1..], sep);
      assert Join(parts, sep) == parts[0] + ([sep] + tail);
      assert ([sep] + tail)[1..] == tail;
      assert Split([sep] + tail, sep) == [[]] + Split(tail, sep);
      SplitPiece(parts[0], [sep] + tail, sep);
      assert parts[0] + [] == parts[0];
    }
  }

  /** `lines.map(line => line.trim())` */
  function TrimAll(lines: seq<string>): (r: seq<string>)
    ensures |r| == |lines|
  {
    if lines == [] then [] else TrimAll(lines[..|lines| - 1]) + [Trim(lines[|lines| - 1])]
  }

  /** Line k of the mapped sequence is line k of the input, trimmed. */
  lemma {:induction false} TrimAllElements(lines: seq<string>)
    ensures forall k :: 0 <= k < |lines| ==> TrimAll(lines)[k] == Trim(lines[k])
  {
    if lines != [] {
      var init := lines[..|lines| - 1];
      TrimAllElements(init);
      forall k | 0 <= k < |lines| - 1 ensures lines[k] == init[k] { }
    }
  }

  /** `lines.filter(line => line.trim().length > 0)`, in the order of `lines`. */
  function KeepNonEmpty(lines: seq<string>): (r: seq<string>)
    ensures |r| <= |lines|
  {
    if lines == [] then
      []
    else
      var last := lines[|lines| - 1];
      KeepNonEmpty(lines[..|lines| - 1]) + if |Trim(last)| > 0 then [last] else []
  }

  /** Every line the filter keeps passes its test. */
  lemma {:induction false} KeepNonEmptyPasses(lines: seq<string>)
    ensures forall k :: 0 <= k < |KeepNonEmpty(lines)| ==> |Trim(KeepNonEmpty(lines)[k])| > 0
  {
    if lines != [] {
      KeepNonEmptyPasses(lines[..|lines| - 1]);
    }
  }

  /** The sentences of a document, text-search.js:80-82. */
  function Sentences(document: string): (r: seq<string>)
    ensures |r| <= |Split(document, '\n')|
  {
    KeepNonEmpty(TrimAll(Split(document, '\n')))
  }

  /** The positions, in ascending order, of the lines that are not blank. */
  function NonBlankPositions(lines: seq<string>): (r: seq<nat>) {
    if lines == [] then
      []
    else
      NonBlankPositions(lines[..|lines| - 1]) + if Blank(lines[|lines| - 1]) then [] else [|lines| - 1]
  }

  /** The positions are positions of `lines`, in strictly ascending order. */
  lemma {:induction false} NonBlankPositionsAscending(lines: seq<string>)
    ensures forall k :: 0 <= k < |NonBlankPositions(lines)| ==> NonBlankPositions(lines)[k] < |lines|
    ensures forall k, l :: 0 <= k < l < |NonBlankPositions(lines)| ==>
              NonBlankPositions(lines)[k] < NonBlankPositions(lines)[l]
  {
    if lines != [] {
      var n := |lines|;
      NonBlankPositionsAscending(lines[..n - 1]);
      var pos0 := NonBlankPositions(lines[..n - 1]);
      var pos := NonBlankPositions(lines);
      if Blank(lines[n - 1]) {
        assert pos == pos0;
      } else {
        assert pos == pos0 + [n - 1];
        assert forall k :: 0 <= k < |pos0| ==> pos[k] == pos0[k] < n - 1;
      }
    }
  }

  /** Every listed position holds a line that is not blank. */
  lemma {:induction false} NonBlankPositionsNotBlank(lines: seq<string>)
    ensures forall k :: 0 <= k < |NonBlankPositions(lines)| ==>
              NonBlankPositions(lines)[k] < |lines| && !Blank(lines[NonBlankPositions(lines)[k]])
  {
    if lines != [] {
      var n := |lines|;
      var init := lines[..n - 1];
      NonBlankPositionsNotBlank(init);
      var pos0 := NonBlankPositions(init);
      forall k | 0 <= k < |pos0| ensures lines[pos0[k]] == init[pos0[k]] { }
    }
  }

  /** A position is listed exactly when the line there is not blank. */
  lemma {:induction false} NonBlankPositionsExact(lines: seq<string>)
    ensures forall i :: 0 <= i < |lines| ==> (i in NonBlankPositions(lines) <==> !Blank(lines[i]))
  {
    if lines != [] {
      var n := |lines|;
      var init := lines[..n - 1];
      NonBlankPositionsExact(init);
      NonBlankPositionsAscending(init);
      var pos0 := NonBlankPositions(init);
      assert n - 1 !in pos0;
      forall i | 0 <= i < n - 1 ensures lines[i] == init[i] { }
    }
  }

  /** Trimming and filtering a sequence of lines adds, for its last line, that line
      trimmed exactly when it is not blank. */
  lemma KeepNonEmptyLast(lines: seq<string>)
    requires lines != []
    ensures KeepNonEmpty(TrimAll(lines))
         == KeepNonEmpty(TrimAll(lines[..|lines| - 1]))
            + if Blank(lines[|lines| - 1]) then [] else [Trim(lines[|lines| - 1])]
  {
    var n := |lines|;
    var last := lines[n - 1];
    assert TrimAll(lines)[..n - 1] == TrimAll(lines[..n - 1]);
    TrimIdempotent(last);
    TrimEmptyIffBlank(last);
  }

  /** The kept lines are, in order, the trimmed lines at the non-blank positions. */
  lemma {:induction false} KeepNonEmptyPositions(lines: seq<string>)
    ensures |KeepNonEmpty(TrimAll(lines))| == |NonBlankPositions(lines)|
    ensures forall k :: 0 <= k < |NonBlankPositions(lines)| ==>
              && NonBlankPositions(lines)[k] < |lines|
              && KeepNonEmpty(TrimAll(lines))[k] == Trim(lines[NonBlankPositions(lines)[k]])
  {
    if lines != [] {
      var n := |lines|;
      var init := lines[..n - 1];
      var last := lines[n - 1];
      KeepNonEmptyPositions(init);
      NonBlankPositionsAscending(init);
      KeepNonEmptyLast(lines);
      var kept0, pos0 := KeepNonEmpty(TrimAll(init)), NonBlankPositions(init);
      var kept, pos := KeepNonEmpty(TrimAll(lines)), NonBlankPositions(lines);
      if Blank(last) {
        assert kept == kept0 && pos == pos0;
        forall k | 0 <= k < |pos| ensures pos[k] < |lines| && kept[k] == Trim(lines[pos[k]]) {
          assert lines[pos0[k]] == init[pos0[k]];
        }
      } else {
        assert kept == kept0 + [Trim(last)] && pos == pos0 + [n - 1];
        forall k | 0 <= k < |pos| ensures pos[k] < |lines| && kept[k] == Trim(lines[pos[k]]) {
          if k < |pos0| {
            assert lines[pos0[k]] == init[pos0[k]];
          }
        }
      }
    }
  }

  /** A well-formed sentence: non-empty, with no whitespace or line terminator at
      either end, and no '\n' anywhere. */
  predicate WellFormedSentence(s: string) {
    && s != []
    && !IsTrimmable(s[0]) && !IsTrimmable(s[|s| - 1])
    && '\n' !in s
  }

  /** A trimmed line that is not blank is a well-formed sentence. */
  lemma TrimmedLineWellFormed(line: string)
    requires '\n' !in line && !Blank(line)
    ensures WellFormedSentence(Trim(line))
  {
    TrimEmptyIffBlank(line);
    TrimEnds(line);
    TrimIsSlice(line);
    var s := Trim(line);
    var i :| 0 <= i <= |line| - |s| && s == line[i..i + |s|] && Blank(line[..i]) && Blank(line[i + |s|..]);
    forall j | 0 <= j < |s| ensures s[j] != '\n' {
      assert s[j] == line[i + j];
    }
  }

  /** Every sentence is non-empty, has no leading or trailing whitespace or line
      terminator, and holds no '\n'. */
  lemma SentencesWellFormed(document: string)
    ensures forall k :: 0 <= k < |Sentences(document)| ==> WellFormedSentence(Sentences(document)[k])
  {
    var lines := Split(document, '\n');
    SplitNoSeparator(document, '\n');
    KeepNonEmptyPositions(lines);
    NonBlankPositionsNotBlank(lines);
    var pos := NonBlankPositions(lines);
    var sentences := Sentences(document);
    assert sentences == KeepNonEmpty(TrimAll(lines));
    forall k | 0 <= k < |sentences| ensures WellFormedSentence(sentences[k]) {
      var line := lines[pos[k]];
      assert sentences[k] == Trim(line);
      assert '\n' !in line && !Blank(line);
      TrimmedLineWellFormed(line);
    }
  }

  /** The sentences keep the order of the document's lines, and a line is dropped
      exactly when it is blank: sentence k is the trimmed line at the k-th entry of
      NonBlankPositions, which lists, in ascending order, exactly the positions of
      the lines that are not blank. */
  lemma SentencesOrder(document: string)
    ensures |Sentences(document)| == |NonBlankPositions(Split(document, '\n'))|
    ensures forall k :: 0 <= k < |Sentences(document)| ==>
              && NonBlankPositions(Split(document, '\n'))[k] < |Split(document, '\n')|
              && Sentences(document)[k] == Trim(Split(document, '\n')[NonBlankPositions(Split(document, '\n'))[k]])
    ensures forall k, l :: 0 <= k < l < |Sentences(document)| ==>
              NonBlankPositions(Split(document, '\n'))[k] < NonBlankPositions(Split(document, '\n'))[l]
    ensures forall i :: 0 <= i < |Split(document, '\n')| ==>
              (i in NonBlankPositions(Split(document, '\n')) <==> !Blank(Split(document, '\n')[i]))
  {
    KeepNonEmptyPositions(Split(document, '\n'));
    NonBlankPositionsAscending(Split(document, '\n'));
    NonBlankPositionsExact(Split(document, '\n'));
  }
}
