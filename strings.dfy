/** The few java.lang.String and java.io.BufferedReader behaviours the catalog
    relies on: case-insensitive comparison, lower-casing, substring search,
    split on a single character, and reading a text into lines.
    Case folding is ASCII-only. */
module JavaStrings {

  /** Lower-case one character: 'A'..'Z' become 'a'..'z', everything else stays. */
  function FoldChar(c: char): char
  {
    if 'A' <= c <= 'Z' then (c as int - 'A' as int + 'a' as int) as char else c
  }

  /** String.toLowerCase, restricted to ASCII letters: same length, each
      capital replaced by its lower-case letter, every other character
      unchanged. */
  function Lower(s: string): (r: string)
    ensures |r| == |s|
    ensures forall i :: 0 <= i < |r| ==> !('A' <= r[i] <= 'Z')
    ensures forall i :: 0 <= i < |s| && 'A' <= s[i] <= 'Z' ==>
      r[i] as int == s[i] as int + ('a' as int - 'A' as int)
    ensures forall i :: 0 <= i < |s| && !('A' <= s[i] <= 'Z') ==> r[i] == s[i]
  {
    seq(|s|, i requires 0 <= i < |s| => FoldChar(s[i]))
  }

  /** String.equalsIgnoreCase: same length and the same characters up to case;
      equivalently, the lower-cased strings are equal. */
  predicate EqualsIgnoreCase(a: string, b: string)
    ensures EqualsIgnoreCase(a, b) <==> Lower(a) == Lower(b)
  {
    assert Lower(a) == Lower(b) ==> forall i :: 0 <= i < |a| ==> Lower(a)[i] == Lower(b)[i];
    |a| == |b| && forall i :: 0 <= i < |a| ==> FoldChar(a[i]) == FoldChar(b[i])
  }

  /** equalsIgnoreCase is an equivalence, so "any casing of" is well defined. */
  lemma EqualsIgnoreCaseEquivalence(a: string, b: string, c: string)
    ensures EqualsIgnoreCase(a, a)
    ensures EqualsIgnoreCase(a, b) ==> EqualsIgnoreCase(b, a)
    ensures EqualsIgnoreCase(a, b) && EqualsIgnoreCase(b, c) ==> EqualsIgnoreCase(a, c)
  {
  }

  /** `sub` occurs in `s` starting at position `i`. */
  ghost predicate OccursAt(s: string, sub: string, i: int)
  {
    0 <= i && i + |sub| <= |s| && s[i..i + |sub|] == sub
  }

  /** String.contains: does `sub` occur somewhere in `s`? Agrees with the
      definition by positions, in both directions. */
  function Contains(s: string, sub: string): (r: bool)
    ensures r <==> exists i :: OccursAt(s, sub, i)
    decreases |s|
  {
    if sub <= s then
      assert OccursAt(s, sub, 0);
      true
    else if s == [] then
      false
    else
      OccursShift(s, sub);
      Contains(s[1..], sub)
  }

  /** Past the first position, an occurrence in `s` is an occurrence in its tail. */
  lemma OccursShift(s: string, sub: string)
    requires s != [] && !(sub <= s)
    ensures (exists i :: OccursAt(s, sub, i)) <==> exists i :: OccursAt(s[1..], sub, i)
  {
    if exists i :: OccursAt(s[1..], sub, i) {
      var i :| OccursAt(s[1..], sub, i);
      assert s[i + 1..i + 1 + |sub|] == s[1..][i..i + |sub|];
      assert OccursAt(s, sub, i + 1);
    }
    if exists i :: OccursAt(s, sub, i) {
      var i :| OccursAt(s, sub, i);
      if i > 0 {
        assert s[1..][i - 1..i - 1 + |sub|] == s[i..i + |sub|];
        assert OccursAt(s[1..], sub, i - 1);
      }
    }
  }

  /** String.indexOf(c), returning |s| instead of -1 when `c` does not occur. */
  function IndexOf(s: string, c: char): (i: nat)
    ensures i <= |s|
    ensures c !in s[..i]
    ensures i < |s| ==> s[i] == c
  {
    if s == [] || s[0] == c then 0 else 1 + IndexOf(s[1..], c)
  }

  /** Every piece between separators, empty ones included; always at least one. */
  function SplitAll(s: string, sep: char): (parts: seq<string>)
    ensures |parts| >= 1
    ensures forall p :: p in parts ==> sep !in p
    decreases |s|
  {
    var i := IndexOf(s, sep);
    if i == |s| then [s] else [s[..i]] + SplitAll(s[i + 1..], sep)
  }

  /** Puts pieces back together with the separator between them. */
  function Join(parts: seq<string>, sep: char): string
  {
    if parts == [] then ""
    else if |parts| == 1 then parts[0]
    else parts[0] + [sep] + Join(parts[1..], sep)
  }

  /** Joining a first piece onto at least one more puts a separator between. */
  lemma JoinCons(head: string, rest: seq<string>, sep: char)
    requires rest != []
    ensures Join([head] + rest, sep) == head + [sep] + Join(rest, sep)
  {
    assert ([head] + rest)[0] == head;
    assert ([head] + rest)[1..] == rest;
  }

  /** Joining the pieces gives the original string back. */
  lemma {:induction false} JoinSplitAll(s: string, sep: char)
    ensures Join(SplitAll(s, sep), sep) == s
    decreases |s|
  {
    var i := IndexOf(s, sep);
    if i < |s| {
      var head, tail := s[..i], s[i + 1..];
      var rest := SplitAll(tail, sep);
      assert SplitAll(s, sep) == [head] + rest;
      JoinSplitAll(tail, sep);
      JoinCons(head, rest, sep);
      assert s == head + [sep] + tail;
    }
  }

  /** A string without the separator is one piece. */
  lemma SplitAllWithoutSeparator(s: string, sep: char)
    requires sep !in s
    ensures SplitAll(s, sep) == [s]
  {
    assert s[..IndexOf(s, sep)] == s[..|s|];
  }

  /** The first separator ends the first piece. */
  lemma SplitAllAtFirstSeparator(t: string, sep: char, rest: string)
    requires sep !in t
    ensures SplitAll(t + [sep] + rest, sep) == [t] + SplitAll(rest, sep)
  {
    var s := t + [sep] + rest;
    var i := IndexOf(s, sep);
    assert s[|t|] == sep;
    assert i == |t|;
    assert s[..i] == t;
    assert s[i + 1..] == rest;
  }

  /** The list of pieces without its trailing empty pieces. */
  function DropTrailingEmpty(parts: seq<string>): (r: seq<string>)
    ensures r <= parts
    ensures r == [] || r[|r| - 1] != ""
    ensures forall j :: |r| <= j < |parts| ==> parts[j] == ""
  {
    if parts == [] || parts[|parts| - 1] != "" then parts
    else DropTrailingEmpty(parts[..|parts| - 1])
  }

  /** String.split on a one-character, non-regex separator with limit 0:
      without a separator the string itself is the only piece; otherwise all
      pieces, with trailing empty pieces removed. */
  function Split(s: string, sep: char): (parts: seq<string>)
    ensures sep !in s ==> parts == [s]
    ensures parts <= SplitAll(s, sep)
    ensures forall j :: |parts| <= j < |SplitAll(s, sep)| ==> SplitAll(s, sep)[j] == ""
    ensures forall p :: p in parts ==> sep !in p
    ensures sep in s ==> parts == [] || parts[|parts| - 1] != ""
  {
    if sep !in s then SplitAllWithoutSeparator(s, sep); [s]
    else DropTrailingEmpty(SplitAll(s, sep))
  }

  /** What splitting "t<sep>a" gives when neither part holds the separator:
      the empty pieces at the end disappear. */
  lemma SplitTwoFields(t: string, sep: char, a: string)
    requires sep !in t && sep !in a
    ensures Split(t + [sep] + a, sep) ==
      if a != "" then [t, a] else if t != "" then [t] else []
  {
    var s := t + [sep] + a;
    assert s[|t|] == sep;
    SplitAllAtFirstSeparator(t, sep, a);
    SplitAllWithoutSeparator(a, sep);
    assert SplitAll(s, sep) == [t, a];
    if a == "" {
      assert [t, a][..1] == [t];
      assert DropTrailingEmpty([t, a]) == DropTrailingEmpty([t]);
      if t == "" {
        assert [t][..0] == [];
        assert DropTrailingEmpty([t]) == DropTrailingEmpty([]);
      }
    }
  }

  predicate IsLineBreak(c: char)
  {
    c == '\n' || c == '\r'
  }

  predicate NoLineBreak(s: string)
  {
    '\n' !in s && '\r' !in s
  }

  /** Position of the first '\n' or '\r', or |s| when there is none. */
  function BreakIndex(s: string): (i: nat)
    ensures i <= |s|
    ensures NoLineBreak(s[..i])
    ensures i < |s| ==> IsLineBreak(s[i])
  {
    if s == [] || IsLineBreak(s[0]) then 0
    else
      var j := BreakIndex(s[1..]);
      assert s[..1 + j] == [s[0]] + s[1..][..j];
      1 + j
  }

  /** BufferedReader.readLine, repeated until the end of the text: a line ends
      at '\n', at '\r', or at "\r\n"; a last line without a terminator is kept;
      an empty text has no lines. */
  function ReadLines(s: string): (lines: seq<string>)
    ensures forall l :: l in lines ==> NoLineBreak(l)
    decreases |s|
  {
    if s == [] then []
    else
      var i := BreakIndex(s);
      var next :=
        if i == |s| then i
        else if s[i] == '\r' && i + 1 < |s| && s[i + 1] == '\n' then i + 2
        else i + 1;
      [s[..i]] + ReadLines(s[next..])
  }

  /** A PrintWriter that calls println once per line, with '\n' as separator:
      nothing is written for no lines, and otherwise the text ends in '\n'. */
  function WriteLines(lines: seq<string>): (text: string)
    ensures |text| >= |lines|
    ensures text == "" <==> lines == []
    ensures text != "" ==> text[|text| - 1] == '\n'
  {
    if lines == [] then "" else lines[0] + "\n" + WriteLines(lines[1..])
  }

  /** Writing one more line appends it, with its terminator, at the end. */
  lemma {:induction false} WriteLinesSnoc(lines: seq<string>, l: string)
    ensures WriteLines(lines + [l]) == WriteLines(lines) + l + "\n"
  {
    if lines != [] {
      assert (lines + [l])[1..] == lines[1..] + [l];
      WriteLinesSnoc(lines[1..], l);
    }
  }

  /** A line without breaks, then '\n', is read as that line. */
  lemma ReadLinesFirstLine(l: string, rest: string)
    requires NoLineBreak(l)
    ensures ReadLines(l + "\n" + rest) == [l] + ReadLines(rest)
  {
    var s := l + "\n" + rest;
    assert s[|l|] == '\n';
    assert s[..|l|] == l;
    assert BreakIndex(s) == |l|;
    assert s[|l| + 1..] == rest;
  }

  /** "\r\n" also ends a line, and reading continues after both characters. */
  lemma ReadLinesCrLf(l: string, rest: string)
    requires NoLineBreak(l)
    ensures ReadLines(l + "\r\n" + rest) == [l] + ReadLines(rest)
  {
    var s := l + "\r\n" + rest;
    assert s[|l|] == '\r' && s[|l| + 1] == '\n';
    assert s[..|l|] == l;
    assert BreakIndex(s) == |l|;
    assert s[|l| + 2..] == rest;
  }

  /** A lone '\r', not followed by '\n', ends a line too. */
  lemma ReadLinesCr(l: string, rest: string)
    requires NoLineBreak(l)
    requires rest == [] || rest[0] != '\n'
    ensures ReadLines(l + "\r" + rest) == [l] + ReadLines(rest)
  {
    var s := l + "\r" + rest;
    assert s[|l|] == '\r';
    assert s[..|l|] == l;
    assert BreakIndex(s) == |l|;
    assert s[|l| + 1..] == rest;
  }

  /** A last line without any terminator is kept. */
  lemma ReadLinesUnterminated(l: string)
    requires NoLineBreak(l) && l != []
    ensures ReadLines(l) == [l]
  {
    assert l[..|l|] == l;
  }

  /** Lines without line breaks survive being written and read back. */
  lemma {:induction false} ReadLinesWriteLines(lines: seq<string>)
    requires forall l :: l in lines ==> NoLineBreak(l)
    ensures ReadLines(WriteLines(lines)) == lines
  {
    if lines != [] {
      var rest := lines[1..];
      assert WriteLines(lines) == lines[0] + "\n" + WriteLines(rest);
      assert lines[0] in lines;
      ReadLinesFirstLine(lines[0], WriteLines(rest));
      assert forall x :: x in rest ==> x in lines;
      ReadLinesWriteLines(rest);
      assert lines == [lines[0]] + rest;
    }
  }
}
